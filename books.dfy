/** The Book aggregate of internal/domain/aggregate/books. */
module Books {
  import opened Wrappers

  /** A book; `authorIDs` is the unexported list of associated author identifiers. */
  datatype Book = Book(id: int, title: string, year: int, isbn: string, genre: string, authorIDs: seq<int>)
  {
    /** The invariant NewBook establishes. */
    predicate Valid() {
      title != ""
    }

    /** A new array holding a copy of the author identifiers (make + copy). */
    method AuthorIDs() returns (ids: array<int>)
      ensures fresh(ids)
      ensures ids.Length == |authorIDs|
      ensures forall k :: 0 <= k < ids.Length ==> ids[k] == authorIDs[k]
    {
      ids := new int[|authorIDs|](k requires 0 <= k < |authorIDs| => authorIDs[k]);
    }

    /** The same book with its author list replaced by `ids`. */
    function SetAuthorIDs(ids: seq<int>): (b: Book)
      ensures b.authorIDs == ids
      ensures b.(authorIDs := authorIDs) == this
      ensures Valid() <==> b.Valid()
    {
      this.(authorIDs := ids)
    }
  }

  /** NewBook: rejects an empty title, otherwise stores every argument. */
  function NewBook(id: int, title: string, year: int, isbn: string, genre: string, authorIDs: seq<int>): (r: Result<Book>)
    ensures r.Err? <==> title == ""
    ensures r.Err? ==> r.error == Invalid("title cannot be empty")
    ensures r.Ok? ==> r.value.Valid()
    ensures r.Ok? ==> (r.value.id == id && r.value.title == title && r.value.year == year &&
                       r.value.isbn == isbn && r.value.genre == genre && r.value.authorIDs == authorIDs)
  {
    if title == "" then Err(Invalid("title cannot be empty"))
    else Ok(Book(id, title, year, isbn, genre, authorIDs))
  }
}
