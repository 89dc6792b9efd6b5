/** The author repository of internal/infrastructure/authors over the authors table. */
module AuthorsRepo {
  import opened Wrappers
  import opened Store
  import opened Authors

  /** The columns Create and Update write. */
  function ColsOf(author: Author): AuthorCols {
    AuthorCols(author.name, author.country)
  }

  /** An author scanned from a row. */
  function AuthorOf(row: Row<AuthorCols>): Author {
    Author(row.id, row.cols.name, row.cols.country)
  }

  /** Every field of an author survives a write followed by a read of its id. */
  lemma AuthorRoundTrip(rows: seq<Row<AuthorCols>>, author: Author)
    requires Find(rows, author.id).None?
    ensures Find(rows + [Row(author.id, ColsOf(author))], author.id).Some?
    ensures AuthorOf(Find(rows + [Row(author.id, ColsOf(author))], author.id).value) == author
  {
    FindAfterInsert(rows, Row(author.id, ColsOf(author)), author.id);
  }

  /** An update of a stored author reads back as the new value. */
  lemma AuthorUpdateRoundTrip(rows: seq<Row<AuthorCols>>, author: Author)
    requires Find(rows, author.id).Some?
    ensures Find(Updated(rows, author.id, ColsOf(author)), author.id).Some?
    ensures AuthorOf(Find(Updated(rows, author.id, ColsOf(author)), author.id).value) == author
  {
    FindAfterUpdate(rows, author.id, ColsOf(author), author.id);
  }

  class AuthorRepo {
    const db: Database

    /** NewAuthorRepo */
    constructor (db: Database)
      ensures this.db == db
    {
      this.db := db;
    }

    /** INSERT INTO authors (id, name, country) */
    method Create(author: Author) returns (r: Outcome)
      modifies db`authors
      ensures r.Pass? ==> db.authors == old(db.authors) + [Row(author.id, ColsOf(author))]
      ensures r.Fail? ==> r.error == StoreFailure && db.authors == old(db.authors)
    {
      var ok := Attempt();
      if !ok {
        return Fail(StoreFailure);
      }
      db.authors := db.authors + [Row(author.id, ColsOf(author))];
      return Pass;
    }

    /** SELECT id, name, country FROM authors WHERE id = $1 */
    method GetById(id: int) returns (r: Result<Author>)
      ensures Find(db.authors, id).None? ==> r.Err?
      ensures r == Err(NoRows) ==> Find(db.authors, id).None?
      ensures r.Err? ==> r.error in {NoRows, StoreFailure}
      ensures r.Ok? ==> Find(db.authors, id).Some? && r.value == AuthorOf(Find(db.authors, id).value)
      ensures r.Ok? ==> r.value.id == id
    {
      var ok := Attempt();
      if !ok {
        return Err(StoreFailure);
      }
      var found := Find(db.authors, id);
      if found.None? {
        return Err(NoRows);
      }
      return Ok(AuthorOf(found.value));
    }

    /** DELETE FROM authors WHERE id = $1 */
    method Delete(id: int) returns (r: Outcome)
      modifies db`authors
      ensures r.Pass? ==> db.authors == Without(old(db.authors), id)
      ensures r.Fail? ==> r.error == StoreFailure && db.authors == old(db.authors)
    {
      var ok := Attempt();
      if !ok {
        return Fail(StoreFailure);
      }
      db.authors := Without(db.authors, id);
      return Pass;
    }

    /** UPDATE authors SET name, country WHERE id = author.ID */
    method Update(author: Author) returns (r: Outcome)
      modifies db`authors
      ensures r.Pass? ==> db.authors == Updated(old(db.authors), author.id, ColsOf(author))
      ensures r.Fail? ==> r.error == StoreFailure && db.authors == old(db.authors)
    {
      var ok := Attempt();
      if !ok {
        return Fail(StoreFailure);
      }
      db.authors := Updated(db.authors, author.id, ColsOf(author));
      return Pass;
    }

    /** Every stored row, scanned in table order. */
    method List() returns (r: Result<seq<Author>>)
      ensures r.Err? ==> r.error == StoreFailure
      ensures r.Ok? ==> |r.value| == |db.authors|
      ensures r.Ok? ==> forall k :: 0 <= k < |db.authors| ==> r.value[k] == AuthorOf(db.authors[k])
    {
      var ok := Attempt();
      if !ok {
        return Err(StoreFailure);
      }
      var rows := db.authors;
      var authorsList: seq<Author> := [];
      var i := 0;
      while i < |rows|
        invariant 0 <= i <= |rows|
        invariant |authorsList| == i
        invariant forall k :: 0 <= k < i ==> authorsList[k] == AuthorOf(rows[k])
      {
        var scanned := Attempt();
        if !scanned {
          return Err(StoreFailure);
        }
        authorsList := authorsList + [AuthorOf(rows[i])];
        i := i + 1;
      }
      var cursorOk := Attempt();
      if !cursorOk {
        return Err(StoreFailure);
      }
      return Ok(authorsList);
    }
  }
}
