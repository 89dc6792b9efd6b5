/**
 * The book service of internal/service/books. The source draws the new
 * book's identifier from a UUID generator; here it is an arbitrary integer
 * that no row of books or book_authors uses yet.
 */
module BooksService {
  import opened Wrappers
  import opened Store
  import opened Books
  import opened BooksRepo
  import opened Commands

  /** An upper bound of the ids in the books table. */
  function MaxBookId(books: seq<Row<BookCols>>): (m: int)
    ensures forall k :: 0 <= k < |books| ==> books[k].id <= m
  {
    if books == [] then 0
    else var rest := MaxBookId(books[1..]); if books[0].id > rest then books[0].id else rest
  }

  /** An upper bound of the book ids in the book_authors table. */
  function MaxLinkedBookId(links: seq<BookAuthorRow>): (m: int)
    ensures forall k :: 0 <= k < |links| ==> links[k].bookId <= m
  {
    if links == [] then 0
    else var rest := MaxLinkedBookId(links[1..]); if links[0].bookId > rest then links[0].bookId else rest
  }

  /** A book id that no association row mentions has no association rows. */
  lemma {:induction false} LinksOfUnlinked(links: seq<BookAuthorRow>, id: int)
    requires forall k :: 0 <= k < |links| ==> links[k].bookId != id
    ensures LinksOf(links, id) == []
  {
    if links != [] {
      LinksOfUnlinked(links[1..], id);
    }
  }

  /** Whatever the tables hold, some identifier is still unused, so a fresh one can always be drawn. */
  lemma UnusedBookIdExists(books: seq<Row<BookCols>>, links: seq<BookAuthorRow>)
    ensures exists id :: Find(books, id).None? && LinksOf(links, id) == []
  {
    var a, b := MaxBookId(books), MaxLinkedBookId(links);
    var id := (if a > b then a else b) + 1;
    LinksOfUnlinked(links, id);
    assert Find(books, id).None? && LinksOf(links, id) == [];
  }

  class BookService {
    const bookRepo: BookRepo

    /** NewBookService */
    constructor (repo: BookRepo)
      ensures bookRepo == repo
    {
      bookRepo := repo;
    }

    /** Rejects an empty title before anything else, then builds the book and stores it. */
    method CreateBook(req: CreateBookRequest) returns (r: Result<Book>)
      modifies bookRepo.db`books, bookRepo.db`bookAuthors
      ensures req.title == "" ==> r == Err(Invalid("title is required"))
      ensures req.title == "" ==> bookRepo.db.books == old(bookRepo.db.books) && bookRepo.db.bookAuthors == old(bookRepo.db.bookAuthors)
      ensures r.Ok? ==> r.value == Book(r.value.id, req.title, req.year, req.isbn, req.genre, req.authorIDs) && r.value.Valid()
      ensures r.Ok? ==> Find(old(bookRepo.db.books), r.value.id).None? && LinksOf(old(bookRepo.db.bookAuthors), r.value.id) == []
      ensures r.Ok? ==> bookRepo.db.books == old(bookRepo.db.books) + [Row(r.value.id, BooksRepo.ColsOf(r.value))]
      ensures r.Ok? ==> bookRepo.db.bookAuthors == old(bookRepo.db.bookAuthors) + LinksFor(r.value.id, req.authorIDs)
      ensures r.Err? && req.title != "" ==> r.error == StoreFailure
      ensures r.Err? && req.title != "" ==>
                (bookRepo.db.books == old(bookRepo.db.books) && bookRepo.db.bookAuthors == old(bookRepo.db.bookAuthors)) ||
                (exists id :: Find(old(bookRepo.db.books), id).None? && LinksOf(old(bookRepo.db.bookAuthors), id) == [] &&
                              bookRepo.db.books == old(bookRepo.db.books) + [Row(id, BookCols(req.title, req.year, req.isbn, req.genre))] &&
                              InsertedPrefix(old(bookRepo.db.bookAuthors), bookRepo.db.bookAuthors, id, req.authorIDs))
    {
      if req.title == "" {
        return Err(Invalid("title is required"));
      }
      UnusedBookIdExists(bookRepo.db.books, bookRepo.db.bookAuthors);
      var bookId :| Find(bookRepo.db.books, bookId).None? && LinksOf(bookRepo.db.bookAuthors, bookId) == [];
      var newBook := NewBook(bookId, req.title, req.year, req.isbn, req.genre, req.authorIDs);
      // The title was checked above, so NewBook succeeds.
      var stored := bookRepo.Create(newBook.value);
      if stored.Fail? {
        return Err(stored.error);
      }
      return Ok(newBook.value);
    }
  }
}
