/**
 * The reader service of internal/service/readers: identifiers come from the
 * shared counter, and updates merge the request into the stored reader.
 */
module ReadersService {
  import opened Wrappers
  import opened Store
  import opened GenId
  import opened Readers
  import opened ReadersRepo
  import opened Commands

  class ReaderService {
    const readerRepo: ReaderRepo
    const idCounter: IdCounter

    /** NewReaderService */
    constructor (repo: ReaderRepo, counter: IdCounter)
      ensures readerRepo == repo && idCounter == counter
    {
      readerRepo := repo;
      idCounter := counter;
    }

    /**
     * Rejects an empty name before taking an identifier; otherwise takes one,
     * even if NewReader then rejects the password or the email.
     */
    method CreateReader(req: CreateReaderRequest) returns (r: Result<Reader>)
      modifies idCounter, readerRepo.db`readers
      ensures req.name == "" ==> r == Err(Invalid("name is required")) && idCounter.id == old(idCounter.id)
      ensures req.name != "" ==> idCounter.id == Next(old(idCounter.id))
      ensures req.name != "" && req.password == "" ==> r == Err(Invalid("password cannot be empty"))
      ensures req.name != "" && req.password != "" && req.email == "" ==> r == Err(Invalid("email cannot be empty"))
      ensures r.Err? ==> readerRepo.db.readers == old(readerRepo.db.readers)
      ensures r.Ok? ==> r.value == Reader(idCounter.id as int, req.name, req.phone, req.email, req.password, req.admin)
      ensures r.Ok? ==> r.value.Valid()
      ensures r.Ok? ==> readerRepo.db.readers == old(readerRepo.db.readers) + [Row(r.value.id, ReadersRepo.ColsOf(r.value))]
    {
      if req.name == "" {
        return Err(Invalid("name is required"));
      }
      var newID := idCounter.GenerateID();
      var newReader := NewReader(newID, req.name, req.phone, req.email, req.password, req.admin);
      if newReader.Err? {
        return Err(newReader.error);
      }
      var stored := readerRepo.Create(newReader.value);
      if stored.Fail? {
        return Err(stored.error);
      }
      return Ok(newReader.value);
    }

    /** Pass-through to the repository. */
    method GetReader(id: int) returns (r: Result<Reader>)
      ensures Find(readerRepo.db.readers, id).None? ==> r.Err?
      ensures r == Err(NoRows) ==> Find(readerRepo.db.readers, id).None?
      ensures r.Err? ==> r.error in {NoRows, StoreFailure}
      ensures r.Ok? ==> Find(readerRepo.db.readers, id).Some? && r.value == ReaderOf(Find(readerRepo.db.readers, id).value)
      ensures r.Ok? ==> r.value.id == id && r.value.password == "" && !r.value.admin
    {
      r := readerRepo.GetById(id);
    }

    /**
     * Loads the stored reader, keeps its name when the request's is empty,
     * overwrites phone, email, password and admin unconditionally, and writes
     * it back.
     */
    method UpdateReader(id: int, req: UpdateReaderRequest) returns (r: Result<Reader>)
      modifies readerRepo.db`readers
      ensures Find(old(readerRepo.db.readers), id).None? ==> r.Err?
      ensures r.Err? ==> readerRepo.db.readers == old(readerRepo.db.readers)
      ensures r.Ok? ==> Find(old(readerRepo.db.readers), id).Some?
      ensures r.Ok? ==> var stored := Find(old(readerRepo.db.readers), id).value;
                        r.value.id == id &&
                        r.value.name == (if req.name == "" then stored.cols.name else req.name) &&
                        r.value.phone == req.phone && r.value.email == req.email &&
                        r.value.password == req.password && r.value.admin == req.admin
      ensures r.Ok? ==> readerRepo.db.readers == Updated(old(readerRepo.db.readers), id, ReadersRepo.ColsOf(r.value))
    {
      var existing := readerRepo.GetById(id);
      if existing.Err? {
        return Err(existing.error);
      }
      var reader := existing.value;
      if req.name != "" {
        reader := reader.(name := req.name);
      }
      reader := reader.(phone := req.phone);
      reader := reader.(email := req.email);
      reader := reader.(password := req.password);
      reader := reader.(admin := req.admin);
      var stored := readerRepo.Update(reader);
      if stored.Fail? {
        return Err(stored.error);
      }
      return Ok(reader);
    }

    /** Pass-through to the repository. */
    method DeleteReader(id: int) returns (r: Outcome)
      modifies readerRepo.db`readers
      ensures r.Pass? ==> readerRepo.db.readers == Without(old(readerRepo.db.readers), id)
      ensures r.Fail? ==> r.error == StoreFailure && readerRepo.db.readers == old(readerRepo.db.readers)
    {
      r := readerRepo.Delete(id);
    }

    /** Pass-through to the repository. */
    method ListReaders() returns (r: Result<seq<Reader>>)
      ensures r.Err? ==> r.error == StoreFailure
      ensures r.Ok? ==> |r.value| == |readerRepo.db.readers|
      ensures r.Ok? ==> forall k :: 0 <= k < |r.value| ==> r.value[k] == ReaderOf(readerRepo.db.readers[k])
    {
      r := readerRepo.List();
    }
  }
}
