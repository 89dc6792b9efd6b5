/**
 * The reservation repository of internal/infrastructure/reservations over the
 * reservations table. Rows reference the book and the reader by id only;
 * every row read back is rebuilt through NewReservation, so the date check
 * runs again on the way out.
 */
module ReservationsRepo {
  import opened Wrappers
  import opened Store
  import opened Books
  import opened Readers
  import opened Reservations

  /** `books.Book{ID: id}`: a book carrying only its id, every other field zero. */
  function BookRef(id: int): Book {
    Book(id, "", 0, "", "", [])
  }

  /** `readers.Reader{ID: id}`: a reader carrying only its id, every other field zero. */
  function ReaderRef(id: int): Reader {
    Reader(id, "", "", "", "", false)
  }

  /** The row Create writes for a reservation. */
  function RowOf(id: int, book: Book, reader: Reader, startDate: int, endDate: int): Row<ReservationCols> {
    Row(id, ReservationCols(book.id, reader.id, startDate, endDate))
  }

  /** A scanned row handed to NewReservation, as GetById and List do. */
  function ReservationOf(row: Row<ReservationCols>): (r: Result<Reservation>)
    ensures r.Ok? <==> row.cols.startDate <= row.cols.endDate
    ensures r.Ok? ==> (r.value.id == row.id && r.value.book.id == row.cols.bookId && r.value.reader.id == row.cols.readerId &&
                       r.value.startDate == row.cols.startDate && r.value.endDate == row.cols.endDate)
  {
    NewReservation(row.id, BookRef(row.cols.bookId), ReaderRef(row.cols.readerId), row.cols.startDate, row.cols.endDate)
  }

  /**
   * SELECT ... FROM reservations WHERE start_date >= $1 AND end_date <= $2:
   * the rows whose whole range lies inside the window (containment, not overlap).
   */
  function Contained(rows: seq<Row<ReservationCols>>, startDate: int, endDate: int): (r: seq<Row<ReservationCols>>)
    ensures forall k :: 0 <= k < |r| ==> r[k] in rows && startDate <= r[k].cols.startDate && r[k].cols.endDate <= endDate
    ensures forall k :: 0 <= k < |rows| && startDate <= rows[k].cols.startDate && rows[k].cols.endDate <= endDate ==> rows[k] in r
  {
    if rows == [] then []
    else if startDate <= rows[0].cols.startDate && rows[0].cols.endDate <= endDate then [rows[0]] + Contained(rows[1..], startDate, endDate)
    else Contained(rows[1..], startDate, endDate)
  }

  /** The window selects each contained row exactly as many times as the table holds it, and nothing else. */
  lemma {:induction false} ContainedCount(rows: seq<Row<ReservationCols>>, startDate: int, endDate: int)
    ensures forall x :: multiset(Contained(rows, startDate, endDate))[x] ==
                        if startDate <= x.cols.startDate && x.cols.endDate <= endDate then multiset(rows)[x] else 0
  {
    if rows != [] {
      ContainedCount(rows[1..], startDate, endDate);
      assert rows == [rows[0]] + rows[1..];
    }
  }

  /** The table invariant every write path of the repository keeps: no stored range ends before it starts. */
  ghost predicate DatesOrdered(rows: seq<Row<ReservationCols>>) {
    forall k :: 0 <= k < |rows| ==> rows[k].cols.startDate <= rows[k].cols.endDate
  }

  /** Create appends only an ordered range, so it keeps the invariant. */
  lemma InsertKeepsDatesOrdered(rows: seq<Row<ReservationCols>>, row: Row<ReservationCols>)
    requires DatesOrdered(rows) && row.cols.startDate <= row.cols.endDate
    ensures DatesOrdered(rows + [row])
  {
  }

  /** Update writes only an ordered range, so it keeps the invariant. */
  lemma UpdateKeepsDatesOrdered(rows: seq<Row<ReservationCols>>, id: int, cols: ReservationCols)
    requires DatesOrdered(rows) && cols.startDate <= cols.endDate
    ensures DatesOrdered(Updated(rows, id, cols))
  {
  }

  /** Delete only removes rows, so it keeps the invariant. */
  lemma DeleteKeepsDatesOrdered(rows: seq<Row<ReservationCols>>, id: int)
    requires DatesOrdered(rows)
    ensures DatesOrdered(Without(rows, id))
  {
  }

  /** On a table that satisfies the invariant, rebuilding any selected row through NewReservation succeeds. */
  lemma {:induction false} ContainedRowsRebuild(rows: seq<Row<ReservationCols>>, startDate: int, endDate: int)
    requires DatesOrdered(rows)
    ensures forall k :: 0 <= k < |Contained(rows, startDate, endDate)| ==> ReservationOf(Contained(rows, startDate, endDate)[k]).Ok?
  {
    var c := Contained(rows, startDate, endDate);
    forall k | 0 <= k < |c|
      ensures ReservationOf(c[k]).Ok?
    {
      var j :| 0 <= j < |rows| && rows[j] == c[k];
      assert rows[j].cols.startDate <= rows[j].cols.endDate;
    }
  }

  /** A reservation written by Create reads back, through GetById's query, with its ids and dates. */
  lemma CreatedReservationReadsBack(rows: seq<Row<ReservationCols>>, id: int, book: Book, reader: Reader, startDate: int, endDate: int)
    requires Find(rows, id).None? && startDate <= endDate
    ensures Find(rows + [RowOf(id, book, reader, startDate, endDate)], id).Some?
    ensures ReservationOf(Find(rows + [RowOf(id, book, reader, startDate, endDate)], id).value) ==
            Ok(Reservation(id, BookRef(book.id), ReaderRef(reader.id), startDate, endDate))
  {
    FindAfterInsert(rows, RowOf(id, book, reader, startDate, endDate), id);
  }

  class ReservationRepo {
    const db: Database

    /** NewReservationRepo */
    constructor (db: Database)
      ensures this.db == db
    {
      this.db := db;
    }

    /** Builds the reservation through NewReservation, then inserts its row. */
    method Create(id: int, book: Book, reader: Reader, startDate: int, endDate: int) returns (r: Result<Reservation>)
      modifies db`reservations
      ensures endDate < startDate ==> r == Err(Invalid("end date cannot be before start date"))
      ensures r.Err? ==> db.reservations == old(db.reservations)
      ensures r.Err? && startDate <= endDate ==> r.error == StoreFailure
      ensures r.Ok? ==> r.value == Reservation(id, book, reader, startDate, endDate)
      ensures r.Ok? ==> db.reservations == old(db.reservations) + [RowOf(id, book, reader, startDate, endDate)]
      ensures DatesOrdered(old(db.reservations)) ==> DatesOrdered(db.reservations)
    {
      var res := NewReservation(id, book, reader, startDate, endDate);
      if res.Err? {
        return Err(res.error);
      }
      var ok := Attempt();
      if !ok {
        return Err(StoreFailure);
      }
      if DatesOrdered(db.reservations) {
        InsertKeepsDatesOrdered(db.reservations, RowOf(id, book, reader, startDate, endDate));
      }
      db.reservations := db.reservations + [RowOf(res.value.id, res.value.book, res.value.reader, res.value.startDate, res.value.endDate)];
      return Ok(res.value);
    }

    /** Reads one row and rebuilds it; the book and the reader carry only their ids. */
    method GetById(id: int) returns (r: Result<Reservation>)
      ensures Find(db.reservations, id).None? ==> r.Err?
      ensures r == Err(NoRows) ==> Find(db.reservations, id).None?
      ensures Find(db.reservations, id).Some? && ReservationOf(Find(db.reservations, id).value).Err? ==> r.Err?
      ensures r.Ok? ==> Find(db.reservations, id).Some?
      ensures r.Ok? ==> var row := Find(db.reservations, id).value;
                        r.value == Reservation(id, BookRef(row.cols.bookId), ReaderRef(row.cols.readerId),
                                               row.cols.startDate, row.cols.endDate)
    {
      var ok := Attempt();
      if !ok {
        return Err(StoreFailure);
      }
      var found := Find(db.reservations, id);
      if found.None? {
        return Err(NoRows);
      }
      var row := found.value;
      var res := NewReservation(row.id, BookRef(row.cols.bookId), ReaderRef(row.cols.readerId), row.cols.startDate, row.cols.endDate);
      if res.Err? {
        return Err(res.error);
      }
      return Ok(res.value);
    }

    /** Checks the dates before any write, then rewrites the matching rows. */
    method Update(id: int, book: Book, reader: Reader, startDate: int, endDate: int) returns (r: Outcome)
      modifies db`reservations
      ensures endDate < startDate ==> r == Fail(Invalid("end date cannot be before start date"))
      ensures r.Fail? ==> db.reservations == old(db.reservations)
      ensures r.Fail? && startDate <= endDate ==> r.error == StoreFailure
      ensures r.Pass? ==> db.reservations == Updated(old(db.reservations), id, ReservationCols(book.id, reader.id, startDate, endDate))
      ensures DatesOrdered(old(db.reservations)) ==> DatesOrdered(db.reservations)
    {
      if endDate < startDate {
        return Fail(Invalid("end date cannot be before start date"));
      }
      var ok := Attempt();
      if !ok {
        return Fail(StoreFailure);
      }
      if DatesOrdered(db.reservations) {
        UpdateKeepsDatesOrdered(db.reservations, id, ReservationCols(book.id, reader.id, startDate, endDate));
      }
      db.reservations := Updated(db.reservations, id, ReservationCols(book.id, reader.id, startDate, endDate));
      return Pass;
    }

    /** DELETE FROM reservations WHERE id = $1 */
    method Delete(id: int) returns (r: Outcome)
      modifies db`reservations
      ensures r.Pass? ==> db.reservations == Without(old(db.reservations), id)
      ensures r.Fail? ==> r.error == StoreFailure && db.reservations == old(db.reservations)
      ensures DatesOrdered(old(db.reservations)) ==> DatesOrdered(db.reservations)
    {
      var ok := Attempt();
      if !ok {
        return Fail(StoreFailure);
      }
      if DatesOrdered(db.reservations) {
        DeleteKeepsDatesOrdered(db.reservations, id);
      }
      db.reservations := Without(db.reservations, id);
      return Pass;
    }

    /** The reservations whose range lies inside [startDate, endDate], each rebuilt through NewReservation. */
    method List(startDate: int, endDate: int) returns (r: Result<seq<Reservation>>)
      ensures r.Ok? ==> |r.value| == |Contained(db.reservations, startDate, endDate)|
      ensures r.Ok? ==> forall k :: 0 <= k < |r.value| ==>
                          ReservationOf(Contained(db.reservations, startDate, endDate)[k]) == Ok(r.value[k])
      ensures (exists k :: 0 <= k < |Contained(db.reservations, startDate, endDate)| &&
                           ReservationOf(Contained(db.reservations, startDate, endDate)[k]).Err?) ==> r.Err?
    {
      var ok := Attempt();
      if !ok {
        return Err(StoreFailure);
      }
      var rows := Contained(db.reservations, startDate, endDate);
      var resList: seq<Reservation> := [];
      var i := 0;
      while i < |rows|
        invariant 0 <= i <= |rows|
        invariant |resList| == i
        invariant forall k :: 0 <= k < i ==> ReservationOf(rows[k]) == Ok(resList[k])
      {
        var scanned := Attempt();
        if !scanned {
          return Err(StoreFailure);
        }
        var row := rows[i];
        var res := NewReservation(row.id, BookRef(row.cols.bookId), ReaderRef(row.cols.readerId), row.cols.startDate, row.cols.endDate);
        if res.Err? {
          return Err(res.error);
        }
        resList := resList + [res.value];
        i := i + 1;
      }
      var cursorOk := Attempt();
      if !cursorOk {
        return Err(StoreFailure);
      }
      return Ok(resList);
    }
  }
}
