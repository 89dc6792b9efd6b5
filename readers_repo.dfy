/**
 * The reader repository of internal/infrastructure/readers over the readers
 * table. Only id, name, phone and email are written or read: the password
 * and the admin flag never reach the table.
 */
module ReadersRepo {
  import opened Wrappers
  import opened Store
  import opened Readers

  /** The columns Create and Update write. */
  function ColsOf(reader: Reader): ReaderCols {
    ReaderCols(reader.name, reader.phone, reader.email)
  }

  /** A reader scanned from a row: Password and Admin keep their zero values. */
  function ReaderOf(row: Row<ReaderCols>): Reader {
    Reader(row.id, row.cols.name, row.cols.phone, row.cols.email, "", false)
  }

  /**
   * Writing a reader and reading it back keeps id, name, phone and email and
   * loses the rest: the password comes back empty and the admin flag false.
   */
  lemma ReaderRoundTrip(rows: seq<Row<ReaderCols>>, reader: Reader)
    requires Find(rows, reader.id).None?
    ensures Find(rows + [Row(reader.id, ColsOf(reader))], reader.id).Some?
    ensures ReaderOf(Find(rows + [Row(reader.id, ColsOf(reader))], reader.id).value) ==
            reader.(password := "", admin := false)
  {
    FindAfterInsert(rows, Row(reader.id, ColsOf(reader)), reader.id);
  }

  /**
   * Consequently a reader read back from the table accepts only the empty
   * password, even one created through NewReader with a non-empty password.
   */
  lemma LoadedReaderAcceptsOnlyEmptyPassword(row: Row<ReaderCols>, candidate: string)
    ensures ReaderOf(row).CheckPassword(candidate) <==> candidate == ""
    ensures !ReaderOf(row).Valid()
  {
  }

  class ReaderRepo {
    const db: Database

    /** NewReaderRepo */
    constructor (db: Database)
      ensures this.db == db
    {
      this.db := db;
    }

    /** INSERT INTO readers (id, name, phone, email) */
    method Create(reader: Reader) returns (r: Outcome)
      modifies db`readers
      ensures r.Pass? ==> db.readers == old(db.readers) + [Row(reader.id, ColsOf(reader))]
      ensures r.Fail? ==> r.error == StoreFailure && db.readers == old(db.readers)
    {
      var ok := Attempt();
      if !ok {
        return Fail(StoreFailure);
      }
      db.readers := db.readers + [Row(reader.id, ColsOf(reader))];
      return Pass;
    }

    /** SELECT id, name, phone, email FROM readers WHERE id = $1 */
    method GetById(id: int) returns (r: Result<Reader>)
      ensures Find(db.readers, id).None? ==> r.Err?
      ensures r == Err(NoRows) ==> Find(db.readers, id).None?
      ensures r.Err? ==> r.error in {NoRows, StoreFailure}
      ensures r.Ok? ==> Find(db.readers, id).Some? && r.value == ReaderOf(Find(db.readers, id).value)
      ensures r.Ok? ==> r.value.id == id && r.value.password == "" && !r.value.admin
    {
      var ok := Attempt();
      if !ok {
        return Err(StoreFailure);
      }
      var found := Find(db.readers, id);
      if found.None? {
        return Err(NoRows);
      }
      return Ok(ReaderOf(found.value));
    }

    /** DELETE FROM readers WHERE id = $1 */
    method Delete(id: int) returns (r: Outcome)
      modifies db`readers
      ensures r.Pass? ==> db.readers == Without(old(db.readers), id)
      ensures r.Fail? ==> r.error == StoreFailure && db.readers == old(db.readers)
    {
      var ok := Attempt();
      if !ok {
        return Fail(StoreFailure);
      }
      db.readers := Without(db.readers, id);
      return Pass;
    }

    /** UPDATE readers SET name, phone, email WHERE id = reader.ID */
    method Update(reader: Reader) returns (r: Outcome)
      modifies db`readers
      ensures r.Pass? ==> db.readers == Updated(old(db.readers), reader.id, ColsOf(reader))
      ensures r.Fail? ==> r.error == StoreFailure && db.readers == old(db.readers)
    {
      var ok := Attempt();
      if !ok {
        return Fail(StoreFailure);
      }
      db.readers := Updated(db.readers, reader.id, ColsOf(reader));
      return Pass;
    }

    /** Every stored row, scanned in table order. */
    method List() returns (r: Result<seq<Reader>>)
      ensures r.Err? ==> r.error == StoreFailure
      ensures r.Ok? ==> |r.value| == |db.readers|
      ensures r.Ok? ==> forall k :: 0 <= k < |db.readers| ==> r.value[k] == ReaderOf(db.readers[k])
    {
      var ok := Attempt();
      if !ok {
        return Err(StoreFailure);
      }
      var rows := db.readers;
      var readersList: seq<Reader> := [];
      var i := 0;
      while i < |rows|
        invariant 0 <= i <= |rows|
        invariant |readersList| == i
        invariant forall k :: 0 <= k < i ==> readersList[k] == ReaderOf(rows[k])
      {
        var scanned := Attempt();
        if !scanned {
          return Err(StoreFailure);
        }
        readersList := readersList + [ReaderOf(rows[i])];
        i := i + 1;
      }
      var cursorOk := Attempt();
      if !cursorOk {
        return Err(StoreFailure);
      }
      return Ok(readersList);
    }
  }
}
