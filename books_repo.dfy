/**
 * The book repository of internal/infrastructure/booksRepo: the books table
 * and the book_authors association table it keeps in step with each book's
 * author list. No statement sequence runs in a transaction: a failure part
 * way leaves the earlier statements' effects in place.
 */
module BooksRepo {
  import opened Wrappers
  import opened Store
  import opened Books

  /** The scalar columns of a book row. */
  function ColsOf(b: Book): BookCols {
    BookCols(b.title, b.year, b.isbn, b.genre)
  }

  /** A book scanned from a row, with `authorIDs` attached through SetAuthorIDs. */
  function BookOf(row: Row<BookCols>, authorIDs: seq<int>): Book {
    Book(row.id, row.cols.title, row.cols.year, row.cols.isbn, row.cols.genre, authorIDs)
  }

  /** The rows insertBookAuthors adds for `bookId`: one per author id, in list order. */
  function LinksFor(bookId: int, authorIDs: seq<int>): seq<BookAuthorRow> {
    seq(|authorIDs|, k requires 0 <= k < |authorIDs| => BookAuthorRow(bookId, authorIDs[k]))
  }

  /** SELECT author_id FROM book_authors WHERE book_id = $1, as whole rows in storage order. */
  function LinksOf(links: seq<BookAuthorRow>, bookId: int): (r: seq<BookAuthorRow>)
    ensures forall k :: 0 <= k < |r| ==> r[k] in links && r[k].bookId == bookId
    ensures forall k :: 0 <= k < |links| && links[k].bookId == bookId ==> links[k] in r
  {
    if links == [] then []
    else if links[0].bookId == bookId then [links[0]] + LinksOf(links[1..], bookId)
    else LinksOf(links[1..], bookId)
  }

  /** The author ids stored for `bookId`: the column loadBookAuthors scans. */
  function AuthorIdsOf(links: seq<BookAuthorRow>, bookId: int): (r: seq<int>)
    ensures |r| == |LinksOf(links, bookId)|
    ensures forall k :: 0 <= k < |r| ==> BookAuthorRow(bookId, r[k]) in links
    ensures forall k :: 0 <= k < |links| && links[k].bookId == bookId ==> links[k].authorId in r
  {
    var rows := LinksOf(links, bookId);
    var ids := seq(|rows|, k requires 0 <= k < |rows| => rows[k].authorId);
    assert forall k :: 0 <= k < |links| && links[k].bookId == bookId ==> links[k].authorId in ids by {
      forall k | 0 <= k < |links| && links[k].bookId == bookId
        ensures links[k].authorId in ids
      {
        var j :| 0 <= j < |rows| && rows[j] == links[k];
        assert ids[j] == links[k].authorId;
      }
    }
    ids
  }

  /** DELETE FROM book_authors WHERE book_id = $1 */
  function WithoutLinksOf(links: seq<BookAuthorRow>, bookId: int): (r: seq<BookAuthorRow>)
    ensures forall k :: 0 <= k < |r| ==> r[k] in links && r[k].bookId != bookId
    ensures forall k :: 0 <= k < |links| && links[k].bookId != bookId ==> links[k] in r
  {
    if links == [] then []
    else if links[0].bookId == bookId then WithoutLinksOf(links[1..], bookId)
    else [links[0]] + WithoutLinksOf(links[1..], bookId)
  }

  /**
   * SELECT b.* FROM books b JOIN book_authors ba ON b.id = ba.book_id
   * WHERE ba.author_id = $1: each book row once per matching association row.
   */
  function JoinByAuthor(books: seq<Row<BookCols>>, links: seq<BookAuthorRow>, authorId: int): (r: seq<Row<BookCols>>)
    ensures forall k :: 0 <= k < |r| ==> r[k] in books && BookAuthorRow(r[k].id, authorId) in links
  {
    if books == [] then []
    else
      var n := multiset(links)[BookAuthorRow(books[0].id, authorId)];
      seq(n, _ => books[0]) + JoinByAuthor(books[1..], links, authorId)
  }

  /**
   * After a failed insertBookAuthors: the rows for a strict prefix of the list
   * were added, the one that failed and those after it were not.
   */
  ghost predicate InsertedPrefix(before: seq<BookAuthorRow>, after: seq<BookAuthorRow>, bookId: int, authorIDs: seq<int>) {
    exists k :: 0 <= k < |authorIDs| && after == before + LinksFor(bookId, authorIDs[..k])
  }

  /** The selection keeps each row of the book exactly as many times as the table holds it. */
  lemma {:induction false} LinksOfCount(links: seq<BookAuthorRow>, bookId: int)
    ensures forall x :: multiset(LinksOf(links, bookId))[x] == if x.bookId == bookId then multiset(links)[x] else 0
  {
    if links != [] {
      LinksOfCount(links[1..], bookId);
      assert links == [links[0]] + links[1..];
    }
  }

  /** The delete keeps each row of another book exactly as many times as the table holds it. */
  lemma {:induction false} WithoutLinksOfCount(links: seq<BookAuthorRow>, bookId: int)
    ensures forall x :: multiset(WithoutLinksOf(links, bookId))[x] == if x.bookId != bookId then multiset(links)[x] else 0
  {
    if links != [] {
      WithoutLinksOfCount(links[1..], bookId);
      assert links == [links[0]] + links[1..];
    }
  }

  /** `n` copies of one row hold that row `n` times and nothing else. */
  lemma {:induction false} CopiesCount(n: nat, row: Row<BookCols>, x: Row<BookCols>)
    ensures multiset(seq(n, _ => row))[x] == if x == row then n else 0
  {
    if n > 0 {
      CopiesCount(n - 1, row, x);
      assert seq(n, _ => row) == seq(n - 1, _ => row) + [row];
    }
  }

  lemma MulDistributes(a: int, b: int, c: int)
    ensures (a + b) * c == a * c + b * c
  {
  }

  /**
   * The join yields each stored book row once per stored row and matching
   * association row: the product of the two multiplicities.
   */
  lemma {:induction false} JoinByAuthorCount(books: seq<Row<BookCols>>, links: seq<BookAuthorRow>, authorId: int, x: Row<BookCols>)
    ensures multiset(JoinByAuthor(books, links, authorId))[x] == multiset(books)[x] * multiset(links)[BookAuthorRow(x.id, authorId)]
  {
    if books != [] {
      var n := multiset(links)[BookAuthorRow(books[0].id, authorId)];
      var m := multiset(links)[BookAuthorRow(x.id, authorId)];
      var rest := multiset(books[1..])[x];
      JoinByAuthorCount(books[1..], links, authorId, x);
      CopiesCount(n, books[0], x);
      assert JoinByAuthor(books, links, authorId) == seq(n, _ => books[0]) + JoinByAuthor(books[1..], links, authorId);
      assert books == [books[0]] + books[1..];
      var here := if x == books[0] then 1 else 0;
      assert multiset(books)[x] == here + rest;
      assert multiset(seq(n, _ => books[0]))[x] == here * m;
      MulDistributes(here, rest, m);
    }
  }

  /** The association rows of a book in a concatenation are its rows in each part, in order. */
  lemma {:induction false} LinksOfConcat(a: seq<BookAuthorRow>, b: seq<BookAuthorRow>, bookId: int)
    ensures LinksOf(a + b, bookId) == LinksOf(a, bookId) + LinksOf(b, bookId)
  {
    if a == [] {
      assert a + b == b;
    } else {
      assert (a + b)[1..] == a[1..] + b;
      LinksOfConcat(a[1..], b, bookId);
    }
  }

  /** The rows insertBookAuthors adds belong to `bookId` and to no other book. */
  lemma {:induction false} LinksOfLinksFor(bookId: int, authorIDs: seq<int>, id: int)
    ensures LinksOf(LinksFor(bookId, authorIDs), id) == if id == bookId then LinksFor(bookId, authorIDs) else []
  {
    if authorIDs != [] {
      assert LinksFor(bookId, authorIDs)[1..] == LinksFor(bookId, authorIDs[1..]);
      LinksOfLinksFor(bookId, authorIDs[1..], id);
    }
  }

  /** After DELETE ... WHERE book_id = deleted, that book has no rows left and every other book keeps its rows. */
  lemma {:induction false} LinksOfWithout(links: seq<BookAuthorRow>, deleted: int, id: int)
    ensures LinksOf(WithoutLinksOf(links, deleted), id) == if id == deleted then [] else LinksOf(links, id)
  {
    if links != [] {
      LinksOfWithout(links[1..], deleted, id);
    }
  }

  /** Reading back the ids of the rows insertBookAuthors adds gives the list that was inserted. */
  lemma AuthorIdsOfLinksFor(links: seq<BookAuthorRow>, bookId: int, authorIDs: seq<int>)
    ensures AuthorIdsOf(links + LinksFor(bookId, authorIDs), bookId) == AuthorIdsOf(links, bookId) + authorIDs
  {
    LinksOfConcat(links, LinksFor(bookId, authorIDs), bookId);
    LinksOfLinksFor(bookId, authorIDs, bookId);
  }

  /**
   * Create's association rows: the new book reads back its list after whatever it
   * already had, and every other book reads back what it had.
   */
  lemma CreatedLinksReadBack(links: seq<BookAuthorRow>, bookId: int, authorIDs: seq<int>, id: int)
    ensures AuthorIdsOf(links + LinksFor(bookId, authorIDs), id) ==
            if id == bookId then AuthorIdsOf(links, id) + authorIDs else AuthorIdsOf(links, id)
  {
    LinksOfConcat(links, LinksFor(bookId, authorIDs), id);
    LinksOfLinksFor(bookId, authorIDs, id);
    if id == bookId {
      AuthorIdsOfLinksFor(links, bookId, authorIDs);
    } else {
      assert LinksOf(links + LinksFor(bookId, authorIDs), id) == LinksOf(links, id) + [];
    }
  }

  /**
   * Update's wholesale replacement: the book reads back exactly the new list,
   * with nothing left of the old one, and every other book keeps its rows.
   */
  lemma ReplacedLinksReadBack(links: seq<BookAuthorRow>, bookId: int, authorIDs: seq<int>, id: int)
    ensures AuthorIdsOf(WithoutLinksOf(links, bookId) + LinksFor(bookId, authorIDs), id) ==
            if id == bookId then authorIDs else AuthorIdsOf(links, id)
    ensures id != bookId ==> LinksOf(WithoutLinksOf(links, bookId) + LinksFor(bookId, authorIDs), id) == LinksOf(links, id)
  {
    var kept := WithoutLinksOf(links, bookId);
    LinksOfConcat(kept, LinksFor(bookId, authorIDs), id);
    LinksOfLinksFor(bookId, authorIDs, id);
    LinksOfWithout(links, bookId, id);
    if id == bookId {
      AuthorIdsOfLinksFor(kept, bookId, authorIDs);
    } else {
      assert LinksOf(kept + LinksFor(bookId, authorIDs), id) == LinksOf(links, id) + [];
    }
  }

  /** What a successful Create leaves behind reads back, through GetByID's query, as the book that was created. */
  lemma CreatedBookReadsBack(books: seq<Row<BookCols>>, links: seq<BookAuthorRow>, b: Book)
    requires Find(books, b.id).None? && AuthorIdsOf(links, b.id) == []
    ensures Find(books + [Row(b.id, ColsOf(b))], b.id) == Some(Row(b.id, ColsOf(b)))
    ensures BookOf(Row(b.id, ColsOf(b)), AuthorIdsOf(links + LinksFor(b.id, b.authorIDs), b.id)) == b
  {
    FindAfterInsert(books, Row(b.id, ColsOf(b)), b.id);
    AuthorIdsOfLinksFor(links, b.id, b.authorIDs);
  }

  /** What a successful Update of a stored book leaves behind reads back as the updated book. */
  lemma UpdatedBookReadsBack(books: seq<Row<BookCols>>, links: seq<BookAuthorRow>, b: Book)
    requires Find(books, b.id).Some?
    ensures Find(Updated(books, b.id, ColsOf(b)), b.id) == Some(Row(b.id, ColsOf(b)))
    ensures BookOf(Row(b.id, ColsOf(b)), AuthorIdsOf(WithoutLinksOf(links, b.id) + LinksFor(b.id, b.authorIDs), b.id)) == b
  {
    FindAfterUpdate(books, b.id, ColsOf(b), b.id);
    ReplacedLinksReadBack(links, b.id, b.authorIDs, b.id);
  }

  /** After a successful Delete neither table holds anything for the id; other books read as before. */
  lemma DeletedBookGone(books: seq<Row<BookCols>>, links: seq<BookAuthorRow>, deleted: int, id: int)
    ensures Find(Without(books, deleted), id) == if id == deleted then None else Find(books, id)
    ensures LinksOf(WithoutLinksOf(links, deleted), id) == if id == deleted then [] else LinksOf(links, id)
  {
    FindAfterDelete(books, deleted, id);
    LinksOfWithout(links, deleted, id);
  }

  /**
   * Update of an id no book row holds: the books table is untouched, yet the
   * association statements still run, so the id is left with orphan
   * association rows holding exactly the given list.
   */
  lemma UpdateOfMissingBookLeavesOrphanLinks(books: seq<Row<BookCols>>, links: seq<BookAuthorRow>, b: Book)
    requires Find(books, b.id).None?
    ensures Updated(books, b.id, ColsOf(b)) == books
    ensures AuthorIdsOf(WithoutLinksOf(links, b.id) + LinksFor(b.id, b.authorIDs), b.id) == b.authorIDs
  {
    AbsentKeyUntouched(books, b.id, ColsOf(b));
    ReplacedLinksReadBack(links, b.id, b.authorIDs, b.id);
  }

  /** Delete of an id no book row holds: the books table is untouched and any orphan association rows of the id are removed. */
  lemma DeleteOfMissingBookDropsOrphanLinks(books: seq<Row<BookCols>>, links: seq<BookAuthorRow>, id: int)
    requires Find(books, id).None?
    ensures Without(books, id) == books
    ensures LinksOf(WithoutLinksOf(links, id), id) == []
  {
    AbsentKeyUntouched(books, id, BookCols("", 0, "", ""));
    LinksOfWithout(links, id, id);
  }

  /** ListBooksByAuthor returns a stored book row exactly when some association row links it to the author. */
  lemma {:induction false} JoinByAuthorMembership(books: seq<Row<BookCols>>, links: seq<BookAuthorRow>, authorId: int, row: Row<BookCols>)
    ensures row in JoinByAuthor(books, links, authorId) <==> row in books && BookAuthorRow(row.id, authorId) in links
  {
    if books != [] {
      JoinByAuthorMembership(books[1..], links, authorId, row);
      var n := multiset(links)[BookAuthorRow(books[0].id, authorId)];
      var copies := seq(n, _ => books[0]);
      assert JoinByAuthor(books, links, authorId) == copies + JoinByAuthor(books[1..], links, authorId);
      assert row in copies <==> n > 0 && row == books[0] by {
        if n > 0 && row == books[0] {
          assert copies[0] == row;
        }
      }
      assert row in books <==> row == books[0] || row in books[1..];
    }
  }

  class BookRepo {
    const db: Database

    /** NewBookRepo */
    constructor (db: Database)
      ensures this.db == db
    {
      this.db := db;
    }

    /** Inserts the book row, then its association rows. */
    method Create(book: Book) returns (r: Outcome)
      modifies db`books, db`bookAuthors
      ensures r.Pass? ==> db.books == old(db.books) + [Row(book.id, ColsOf(book))]
      ensures r.Pass? ==> db.bookAuthors == old(db.bookAuthors) + LinksFor(book.id, book.authorIDs)
      ensures r.Fail? ==> r.error == StoreFailure
      ensures r.Fail? ==>
                (db.books == old(db.books) && db.bookAuthors == old(db.bookAuthors)) ||
                (db.books == old(db.books) + [Row(book.id, ColsOf(book))] &&
                 InsertedPrefix(old(db.bookAuthors), db.bookAuthors, book.id, book.authorIDs))
    {
      var ok := Attempt();
      if !ok {
        return Fail(StoreFailure);
      }
      db.books := db.books + [Row(book.id, ColsOf(book))];
      var ids := book.AuthorIDs();
      assert ids[..] == book.authorIDs;
      r := InsertBookAuthors(book.id, ids);
    }

    /** One INSERT per author id, stopping at the first that fails; nothing is rolled back. */
    method InsertBookAuthors(bookId: int, authorIDs: array<int>) returns (r: Outcome)
      modifies db`bookAuthors
      ensures r.Pass? ==> db.bookAuthors == old(db.bookAuthors) + LinksFor(bookId, authorIDs[..])
      ensures r.Fail? ==> r.error == StoreFailure && InsertedPrefix(old(db.bookAuthors), db.bookAuthors, bookId, authorIDs[..])
    {
      for i := 0 to authorIDs.Length
        invariant db.bookAuthors == old(db.bookAuthors) + LinksFor(bookId, authorIDs[..i])
      {
        var ok := Attempt();
        if !ok {
          assert authorIDs[..][..i] == authorIDs[..i];
          return Fail(StoreFailure);
        }
        db.bookAuthors := db.bookAuthors + [BookAuthorRow(bookId, authorIDs[i])];
        assert LinksFor(bookId, authorIDs[..i + 1]) == LinksFor(bookId, authorIDs[..i]) + [BookAuthorRow(bookId, authorIDs[i])];
      }
      assert authorIDs[..authorIDs.Length] == authorIDs[..];
      return Pass;
    }

    /** Scans the author ids associated with `bookId`. */
    method LoadBookAuthors(bookId: int) returns (r: Result<seq<int>>)
      ensures r.Err? ==> r.error == StoreFailure
      ensures r.Ok? ==> r.value == AuthorIdsOf(db.bookAuthors, bookId)
    {
      var ok := Attempt();
      if !ok {
        return Err(StoreFailure);
      }
      var rows := LinksOf(db.bookAuthors, bookId);
      var authorIDs: seq<int> := [];
      var i := 0;
      while i < |rows|
        invariant 0 <= i <= |rows|
        invariant |authorIDs| == i
        invariant forall k :: 0 <= k < i ==> authorIDs[k] == rows[k].authorId
      {
        var scanned := Attempt();
        if !scanned {
          return Err(StoreFailure);
        }
        authorIDs := authorIDs + [rows[i].authorId];
        i := i + 1;
      }
      var cursorOk := Attempt();
      if !cursorOk {
        return Err(StoreFailure);
      }
      return Ok(authorIDs);
    }

    /** Deletes the association rows, then inserts the new list. */
    method UpdateBookAuthors(bookId: int, authorIDs: array<int>) returns (r: Outcome)
      modifies db`bookAuthors
      ensures r.Pass? ==> db.bookAuthors == WithoutLinksOf(old(db.bookAuthors), bookId) + LinksFor(bookId, authorIDs[..])
      ensures r.Fail? ==> r.error == StoreFailure
      ensures r.Fail? ==>
                db.bookAuthors == old(db.bookAuthors) ||
                InsertedPrefix(WithoutLinksOf(old(db.bookAuthors), bookId), db.bookAuthors, bookId, authorIDs[..])
    {
      var ok := Attempt();
      if !ok {
        return Fail(StoreFailure);
      }
      db.bookAuthors := WithoutLinksOf(db.bookAuthors, bookId);
      r := InsertBookAuthors(bookId, authorIDs);
    }

    /** DELETE FROM book_authors WHERE book_id = $1 */
    method DeleteBookAuthors(bookId: int) returns (r: Outcome)
      modifies db`bookAuthors
      ensures r.Pass? ==> db.bookAuthors == WithoutLinksOf(old(db.bookAuthors), bookId)
      ensures r.Fail? ==> r.error == StoreFailure && db.bookAuthors == old(db.bookAuthors)
    {
      var ok := Attempt();
      if !ok {
        return Fail(StoreFailure);
      }
      db.bookAuthors := WithoutLinksOf(db.bookAuthors, bookId);
      return Pass;
    }

    /** Reads the book row, then attaches its association ids. */
    method GetByID(id: int) returns (r: Result<Book>)
      ensures Find(db.books, id).None? ==> r.Err?
      ensures r == Err(NoRows) ==> Find(db.books, id).None?
      ensures r.Err? ==> r.error in {NoRows, StoreFailure}
      ensures r.Ok? ==> Find(db.books, id).Some?
      ensures r.Ok? ==> r.value.id == id && r.value == BookOf(Find(db.books, id).value, AuthorIdsOf(db.bookAuthors, id))
    {
      var ok := Attempt();
      if !ok {
        return Err(StoreFailure);
      }
      var found := Find(db.books, id);
      if found.None? {
        return Err(NoRows);
      }
      var book := BookOf(found.value, []);
      var authorIDs := LoadBookAuthors(book.id);
      if authorIDs.Err? {
        return Err(authorIDs.error);
      }
      book := book.SetAuthorIDs(authorIDs.value);
      return Ok(book);
    }

    /** Updates the scalar columns, then replaces the association set wholesale. */
    method Update(book: Book) returns (r: Outcome)
      modifies db`books, db`bookAuthors
      ensures r.Pass? ==> db.books == Updated(old(db.books), book.id, ColsOf(book))
      ensures r.Pass? ==> db.bookAuthors == WithoutLinksOf(old(db.bookAuthors), book.id) + LinksFor(book.id, book.authorIDs)
      ensures r.Fail? ==> r.error == StoreFailure
      ensures r.Fail? ==>
                (db.books == old(db.books) && db.bookAuthors == old(db.bookAuthors)) ||
                (db.books == Updated(old(db.books), book.id, ColsOf(book)) &&
                 (db.bookAuthors == old(db.bookAuthors) ||
                  InsertedPrefix(WithoutLinksOf(old(db.bookAuthors), book.id), db.bookAuthors, book.id, book.authorIDs)))
    {
      var ok := Attempt();
      if !ok {
        return Fail(StoreFailure);
      }
      db.books := Updated(db.books, book.id, ColsOf(book));
      var ids := book.AuthorIDs();
      assert ids[..] == book.authorIDs;
      r := UpdateBookAuthors(book.id, ids);
    }

    /** Removes the association rows first, then the book row. */
    method Delete(id: int) returns (r: Outcome)
      modifies db`books, db`bookAuthors
      ensures r.Pass? ==> db.books == Without(old(db.books), id)
      ensures r.Pass? ==> db.bookAuthors == WithoutLinksOf(old(db.bookAuthors), id)
      ensures r.Fail? ==> r.error == StoreFailure && db.books == old(db.books)
      ensures r.Fail? ==> db.bookAuthors == old(db.bookAuthors) || db.bookAuthors == WithoutLinksOf(old(db.bookAuthors), id)
    {
      var linksGone := DeleteBookAuthors(id);
      if linksGone.Fail? {
        return Fail(StoreFailure);
      }
      var ok := Attempt();
      if !ok {
        return Fail(StoreFailure);
      }
      db.books := Without(db.books, id);
      return Pass;
    }

    /** Every book row, each with its own association ids. */
    method List() returns (r: Result<seq<Book>>)
      ensures r.Err? ==> r.error == StoreFailure
      ensures r.Ok? ==> |r.value| == |db.books|
      ensures r.Ok? ==> forall k :: 0 <= k < |db.books| ==>
                          r.value[k] == BookOf(db.books[k], AuthorIdsOf(db.bookAuthors, db.books[k].id))
    {
      var ok := Attempt();
      if !ok {
        return Err(StoreFailure);
      }
      var rows := db.books;
      var booksList: seq<Book> := [];
      var i := 0;
      while i < |rows|
        invariant 0 <= i <= |rows|
        invariant |booksList| == i
        invariant forall k :: 0 <= k < i ==> booksList[k] == BookOf(rows[k], AuthorIdsOf(db.bookAuthors, rows[k].id))
      {
        var scanned := Attempt();
        if !scanned {
          return Err(StoreFailure);
        }
        var book := BookOf(rows[i], []);
        var authorIDs := LoadBookAuthors(book.id);
        if authorIDs.Err? {
          return Err(authorIDs.error);
        }
        book := book.SetAuthorIDs(authorIDs.value);
        booksList := booksList + [book];
        i := i + 1;
      }
      var cursorOk := Attempt();
      if !cursorOk {
        return Err(StoreFailure);
      }
      return Ok(booksList);
    }

    /** The books joined with `authorId`, scanned without their author ids. */
    method ListBooksByAuthor(authorId: int) returns (r: Result<seq<Book>>)
      ensures r.Err? ==> r.error == StoreFailure
      ensures r.Ok? ==> |r.value| == |JoinByAuthor(db.books, db.bookAuthors, authorId)|
      ensures r.Ok? ==> forall k :: 0 <= k < |r.value| ==>
                          r.value[k] == BookOf(JoinByAuthor(db.books, db.bookAuthors, authorId)[k], [])
    {
      var ok := Attempt();
      if !ok {
        return Err(StoreFailure);
      }
      var rows := JoinByAuthor(db.books, db.bookAuthors, authorId);
      var booksList: seq<Book> := [];
      var i := 0;
      while i < |rows|
        invariant 0 <= i <= |rows|
        invariant |booksList| == i
        invariant forall k :: 0 <= k < i ==> booksList[k] == BookOf(rows[k], [])
      {
        var scanned := Attempt();
        if !scanned {
          return Err(StoreFailure);
        }
        booksList := booksList + [BookOf(rows[i], [])];
        i := i + 1;
      }
      var cursorOk := Attempt();
      if !cursorOk {
        return Err(StoreFailure);
      }
      return Ok(booksList);
    }
  }
}
