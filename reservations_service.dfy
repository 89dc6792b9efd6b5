/**
 * The reservation service of internal/service/reservations: it checks the
 * date range itself before delegating to the repository.
 */
module ReservationsService {
  import opened Wrappers
  import opened Store
  import opened Books
  import opened Readers
  import opened Reservations
  import opened ReservationsRepo

  datatype CreateReservationRequest = CreateReservationRequest(id: int, book: Book, reader: Reader, startDate: int, endDate: int)

  datatype UpdateReservationRequest = UpdateReservationRequest(id: int, book: Book, reader: Reader, startDate: int, endDate: int)

  class ReservationService {
    const repo: ReservationRepo

    /** NewReservationService */
    constructor (repo: ReservationRepo)
      ensures this.repo == repo
    {
      this.repo := repo;
    }

    /** Rejects an inverted range without touching the table; otherwise creates through the repository. */
    method CreateReservation(req: CreateReservationRequest) returns (r: Result<Reservation>)
      modifies repo.db`reservations
      ensures req.endDate < req.startDate ==> r == Err(Invalid("end date cannot be before start date"))
      ensures r.Err? ==> repo.db.reservations == old(repo.db.reservations)
      ensures r.Err? && req.startDate <= req.endDate ==> r.error == StoreFailure
      ensures r.Ok? ==> r.value == Reservation(req.id, req.book, req.reader, req.startDate, req.endDate) && r.value.Valid()
      ensures r.Ok? ==> repo.db.reservations == old(repo.db.reservations) + [RowOf(req.id, req.book, req.reader, req.startDate, req.endDate)]
      ensures DatesOrdered(old(repo.db.reservations)) ==> DatesOrdered(repo.db.reservations)
    {
      if req.endDate < req.startDate {
        return Err(Invalid("end date cannot be before start date"));
      }
      var res := NewReservation(req.id, req.book, req.reader, req.startDate, req.endDate);
      // The range was checked above, so NewReservation succeeds.
      r := repo.Create(res.value.id, req.book, req.reader, req.startDate, req.endDate);
    }

    /** Pass-through to the repository. */
    method GetReservationByID(id: int) returns (r: Result<Reservation>)
      ensures Find(repo.db.reservations, id).None? ==> r.Err?
      ensures r == Err(NoRows) ==> Find(repo.db.reservations, id).None?
      ensures Find(repo.db.reservations, id).Some? && ReservationOf(Find(repo.db.reservations, id).value).Err? ==> r.Err?
      ensures r.Ok? ==> Find(repo.db.reservations, id).Some? && ReservationOf(Find(repo.db.reservations, id).value) == r
    {
      r := repo.GetById(id);
    }

    /** Rejects an inverted range without touching the table; otherwise updates through the repository. */
    method UpdateReservation(req: UpdateReservationRequest) returns (r: Outcome)
      modifies repo.db`reservations
      ensures req.endDate < req.startDate ==> r == Fail(Invalid("end date cannot be before start date"))
      ensures r.Fail? ==> repo.db.reservations == old(repo.db.reservations)
      ensures r.Fail? && req.startDate <= req.endDate ==> r.error == StoreFailure
      ensures r.Pass? ==> repo.db.reservations ==
                          Updated(old(repo.db.reservations), req.id, ReservationCols(req.book.id, req.reader.id, req.startDate, req.endDate))
      ensures DatesOrdered(old(repo.db.reservations)) ==> DatesOrdered(repo.db.reservations)
    {
      if req.endDate < req.startDate {
        return Fail(Invalid("end date cannot be before start date"));
      }
      r := repo.Update(req.id, req.book, req.reader, req.startDate, req.endDate);
    }

    /** Pass-through to the repository. */
    method DeleteReservation(id: int) returns (r: Outcome)
      modifies repo.db`reservations
      ensures r.Pass? ==> repo.db.reservations == Without(old(repo.db.reservations), id)
      ensures r.Fail? ==> r.error == StoreFailure && repo.db.reservations == old(repo.db.reservations)
      ensures DatesOrdered(old(repo.db.reservations)) ==> DatesOrdered(repo.db.reservations)
    {
      r := repo.Delete(id);
    }

    /** Pass-through to the repository. */
    method ListReservations(startDate: int, endDate: int) returns (r: Result<seq<Reservation>>)
      ensures r.Ok? ==> |r.value| == |Contained(repo.db.reservations, startDate, endDate)|
      ensures r.Ok? ==> forall k :: 0 <= k < |r.value| ==>
                          ReservationOf(Contained(repo.db.reservations, startDate, endDate)[k]) == Ok(r.value[k])
      ensures (exists k :: 0 <= k < |Contained(repo.db.reservations, startDate, endDate)| &&
                           ReservationOf(Contained(repo.db.reservations, startDate, endDate)[k]).Err?) ==> r.Err?
    {
      r := repo.List(startDate, endDate);
    }
  }
}
