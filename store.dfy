/**
 * The PostgreSQL database the repositories talk to, as in-memory tables.
 *
 * Every table is a sequence of rows in storage order; no key, uniqueness or
 * foreign-key constraint is assumed, so a table keyed by `id` may in
 * principle hold two rows with the same id. The statements the repositories
 * issue are given their SQL meaning by the functions below:
 *   INSERT                      appends a row,
 *   SELECT ... WHERE id = $1    through QueryRow reads the first matching row (Find),
 *   DELETE ... WHERE id = $1    drops every matching row (Without),
 *   UPDATE ... WHERE id = $k    rewrites the columns of every matching row (Updated).
 * Whether a round trip, a row scan or the final cursor check succeeds is
 * outside the model (connection loss, timeouts, constraint violations,
 * cancellation) and is chosen by Attempt.
 */
module Store {
  import opened Wrappers

  /** A row of a table whose first column is the integer `id`. */
  datatype Row<C> = Row(id: int, cols: C)

  /** books (id, title, year, isbn, genre) */
  datatype BookCols = BookCols(title: string, year: int, isbn: string, genre: string)

  /** book_authors (book_id, author_id): membership rows, no key. */
  datatype BookAuthorRow = BookAuthorRow(bookId: int, authorId: int)

  /** reservations (id, book_id, reader_id, start_date, end_date) */
  datatype ReservationCols = ReservationCols(bookId: int, readerId: int, startDate: int, endDate: int)

  /** readers (id, name, phone, email): there is no password or admin column. */
  datatype ReaderCols = ReaderCols(name: string, phone: string, email: string)

  /** authors (id, name, country) */
  datatype AuthorCols = AuthorCols(name: string, country: string)

  /** The pool's view of the schema: one field per table. */
  class Database {
    var books: seq<Row<BookCols>>
    var bookAuthors: seq<BookAuthorRow>
    var reservations: seq<Row<ReservationCols>>
    var readers: seq<Row<ReaderCols>>
    var authors: seq<Row<AuthorCols>>

    /** A freshly migrated, empty schema. */
    constructor ()
      ensures books == [] && bookAuthors == [] && reservations == []
      ensures readers == [] && authors == []
    {
      books, bookAuthors, reservations := [], [], [];
      readers, authors := [], [];
    }
  }

  /**
   * The driver's verdict on one step that talks to the server: Exec, Query,
   * QueryRow, a row Scan or the final rows.Err(). Either answer is possible.
   */
  method Attempt() returns (ok: bool)
  {
    ok := *;
  }

  /** SELECT ... WHERE id = $1 read with QueryRow: the first row with that id, if any. */
  function Find<C>(rows: seq<Row<C>>, id: int): (r: Option<Row<C>>)
    ensures r.None? <==> forall k :: 0 <= k < |rows| ==> rows[k].id != id
    ensures r.Some? ==> r.value.id == id
    ensures r.Some? ==> exists k :: 0 <= k < |rows| && rows[k] == r.value && forall j :: 0 <= j < k ==> rows[j].id != id
  {
    if rows == [] then None
    else if rows[0].id == id then Some(rows[0])
    else
      var r := Find(rows[1..], id);
      assert r.Some? ==> forall k :: 0 <= k < |rows| - 1 ==> rows[1..][k] == rows[k + 1];
      r
  }

  /** DELETE FROM t WHERE id = $1 */
  function Without<C>(rows: seq<Row<C>>, id: int): (r: seq<Row<C>>)
    ensures forall k :: 0 <= k < |r| ==> r[k] in rows && r[k].id != id
    ensures forall k :: 0 <= k < |rows| && rows[k].id != id ==> rows[k] in r
    ensures |r| <= |rows|
  {
    if rows == [] then []
    else if rows[0].id == id then Without(rows[1..], id)
    else [rows[0]] + Without(rows[1..], id)
  }

  /** UPDATE t SET <cols> WHERE id = $k */
  function Updated<C>(rows: seq<Row<C>>, id: int, cols: C): (r: seq<Row<C>>)
    ensures |r| == |rows|
    ensures forall k :: 0 <= k < |rows| && rows[k].id == id ==> r[k] == Row(id, cols)
    ensures forall k :: 0 <= k < |rows| && rows[k].id != id ==> r[k] == rows[k]
  {
    if rows == [] then []
    else [if rows[0].id == id then Row(id, cols) else rows[0]] + Updated(rows[1..], id, cols)
  }

  /** DELETE keeps every row with another id exactly as many times as the table held it, and no row with the id. */
  lemma {:induction false} WithoutCount<C>(rows: seq<Row<C>>, id: int)
    ensures forall x :: multiset(Without(rows, id))[x] == if x.id != id then multiset(rows)[x] else 0
  {
    if rows != [] {
      WithoutCount(rows[1..], id);
      assert rows == [rows[0]] + rows[1..];
    }
  }

  /** UPDATE or DELETE of a key no row holds succeeds and changes nothing: pgx reports no error for zero affected rows. */
  lemma {:induction false} AbsentKeyUntouched<C>(rows: seq<Row<C>>, id: int, cols: C)
    requires Find(rows, id).None?
    ensures Without(rows, id) == rows
    ensures Updated(rows, id, cols) == rows
  {
    if rows != [] {
      AbsentKeyUntouched(rows[1..], id, cols);
    }
  }

  /** Reading a key after INSERT: an older row with that key still wins, otherwise the new row is found. */
  lemma {:induction false} FindAfterInsert<C>(rows: seq<Row<C>>, row: Row<C>, id: int)
    ensures Find(rows + [row], id) ==
            if Find(rows, id).Some? then Find(rows, id)
            else if row.id == id then Some(row)
            else None
  {
    if rows != [] {
      assert (rows + [row])[1..] == rows[1..] + [row];
      FindAfterInsert(rows[1..], row, id);
    }
  }

  /** Reading a key after DELETE: the deleted key is gone and every other key reads as before. */
  lemma {:induction false} FindAfterDelete<C>(rows: seq<Row<C>>, deleted: int, id: int)
    ensures Find(Without(rows, deleted), id) == if id == deleted then None else Find(rows, id)
  {
    if rows != [] {
      FindAfterDelete(rows[1..], deleted, id);
    }
  }

  /**
   * Reading a key after UPDATE: the updated key, if it was present, now reads
   * the new columns; a missing key stays missing; every other key reads as before.
   */
  lemma {:induction false} FindAfterUpdate<C>(rows: seq<Row<C>>, updated: int, cols: C, id: int)
    ensures Find(Updated(rows, updated, cols), id) ==
            if id == updated && Find(rows, id).Some? then Some(Row(id, cols)) else Find(rows, id)
  {
    if rows != [] {
      FindAfterUpdate(rows[1..], updated, cols, id);
    }
  }
}
