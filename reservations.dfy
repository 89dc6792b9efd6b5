/**
 * The Reservation aggregate of internal/domain/aggregate/reservations.
 * Dates are day numbers: `a.Before(b)` on time.Time becomes `a < b`.
 */
module Reservations {
  import opened Wrappers
  import opened Books
  import opened Readers

  datatype Reservation = Reservation(id: int, book: Book, reader: Reader, startDate: int, endDate: int)
  {
    /** The date-range invariant: the end does not precede the start. */
    predicate Valid() {
      startDate <= endDate
    }
  }

  /** NewReservation: rejects an end date strictly before the start date, otherwise stores every argument. */
  function NewReservation(id: int, book: Book, reader: Reader, startDate: int, endDate: int): (r: Result<Reservation>)
    ensures r.Err? <==> endDate < startDate
    ensures r.Err? ==> r.error == Invalid("end date cannot be before start date")
    ensures r.Ok? ==> r.value.Valid()
    ensures r.Ok? ==> (r.value.id == id && r.value.book == book && r.value.reader == reader &&
                       r.value.startDate == startDate && r.value.endDate == endDate)
  {
    if endDate < startDate then Err(Invalid("end date cannot be before start date"))
    else Ok(Reservation(id, book, reader, startDate, endDate))
  }
}
