/**
 * The author service of internal/service/authors: identifiers come from the
 * shared counter, and updates merge the request into the stored author.
 */
module AuthorsService {
  import opened Wrappers
  import opened Store
  import opened GenId
  import opened Authors
  import opened AuthorsRepo
  import opened Commands

  class AuthorService {
    const authorRepo: AuthorRepo
    const idCounter: IdCounter

    /** NewAuthorService */
    constructor (repo: AuthorRepo, counter: IdCounter)
      ensures authorRepo == repo && idCounter == counter
    {
      authorRepo := repo;
      idCounter := counter;
    }

    /** Takes an identifier first, so one is used up even when NewAuthor rejects the name. */
    method CreateAuthor(req: CreateAuthorRequest) returns (r: Result<Author>)
      modifies idCounter, authorRepo.db`authors
      ensures idCounter.id == Next(old(idCounter.id))
      ensures req.name == "" ==> r == Err(Invalid("name cannot be empty"))
      ensures r.Err? ==> authorRepo.db.authors == old(authorRepo.db.authors)
      ensures r.Ok? ==> r.value == Author(idCounter.id as int, req.name, req.country) && r.value.Valid()
      ensures r.Ok? ==> authorRepo.db.authors == old(authorRepo.db.authors) + [Row(r.value.id, AuthorsRepo.ColsOf(r.value))]
    {
      var newID := idCounter.GenerateID();
      var newAuthor := NewAuthor(newID, req.name, req.country);
      if newAuthor.Err? {
        return Err(newAuthor.error);
      }
      var stored := authorRepo.Create(newAuthor.value);
      if stored.Fail? {
        return Err(stored.error);
      }
      return Ok(newAuthor.value);
    }

    /** Pass-through to the repository. */
    method GetAuthor(id: int) returns (r: Result<Author>)
      ensures Find(authorRepo.db.authors, id).None? ==> r.Err?
      ensures r == Err(NoRows) ==> Find(authorRepo.db.authors, id).None?
      ensures r.Err? ==> r.error in {NoRows, StoreFailure}
      ensures r.Ok? ==> Find(authorRepo.db.authors, id).Some? && r.value == AuthorOf(Find(authorRepo.db.authors, id).value)
      ensures r.Ok? ==> r.value.id == id
    {
      r := authorRepo.GetById(id);
    }

    /** Loads the stored author, keeps its name when the request's is empty, always overwrites the country. */
    method UpdateAuthor(id: int, req: UpdateAuthorRequest) returns (r: Result<Author>)
      modifies authorRepo.db`authors
      ensures Find(old(authorRepo.db.authors), id).None? ==> r.Err?
      ensures r.Err? ==> authorRepo.db.authors == old(authorRepo.db.authors)
      ensures r.Ok? ==> Find(old(authorRepo.db.authors), id).Some?
      ensures r.Ok? ==> var stored := Find(old(authorRepo.db.authors), id).value;
                        r.value == Author(id, if req.name == "" then stored.cols.name else req.name, req.country)
      ensures r.Ok? ==> authorRepo.db.authors == Updated(old(authorRepo.db.authors), id, AuthorsRepo.ColsOf(r.value))
    {
      var existing := authorRepo.GetById(id);
      if existing.Err? {
        return Err(existing.error);
      }
      var author := existing.value;
      if req.name != "" {
        author := author.(name := req.name);
      }
      author := author.(country := req.country);
      var stored := authorRepo.Update(author);
      if stored.Fail? {
        return Err(stored.error);
      }
      return Ok(author);
    }

    /** Pass-through to the repository. */
    method DeleteAuthor(id: int) returns (r: Outcome)
      modifies authorRepo.db`authors
      ensures r.Pass? ==> authorRepo.db.authors == Without(old(authorRepo.db.authors), id)
      ensures r.Fail? ==> r.error == StoreFailure && authorRepo.db.authors == old(authorRepo.db.authors)
    {
      r := authorRepo.Delete(id);
    }

    /** Pass-through to the repository. */
    method ListAuthors() returns (r: Result<seq<Author>>)
      ensures r.Err? ==> r.error == StoreFailure
      ensures r.Ok? ==> |r.value| == |authorRepo.db.authors|
      ensures r.Ok? ==> forall k :: 0 <= k < |r.value| ==> r.value[k] == AuthorOf(authorRepo.db.authors[k])
    {
      r := authorRepo.List();
    }
  }
}
