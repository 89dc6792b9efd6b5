# BookAPI library core, modelled in Dafny

BookAPI is a small library-management back end. Its core is a set of domain
constructors (books, readers, authors, reservations), a process-wide integer
identifier counter, four repositories that map those entities onto PostgreSQL
tables (`books`, `book_authors`, `reservations`, `readers`, `authors`), and
four services that validate requests, assign identifiers and delegate to the
repositories.

The model keeps that shape:

- `Books`, `Readers`, `Authors` and `Reservations` hold the domain types as
  datatypes, with their constructors as functions that return a `Result`.
  `Book.AuthorIDs` copies the hidden author list into a fresh array, as the
  Go method does with `make` and `copy`.
- `GenId.IdCounter` is the counter. It is a class with one `int64` field,
  including the two's-complement wrap-around at the int64 maximum.
- `Store.Database` is the database: one sequence field per table. `Find`,
  `Without` and `Updated` give `QueryRow ... WHERE id`, `DELETE` and `UPDATE`
  their SQL meaning.
- Whether a statement, a row scan or the final cursor check succeeds is
  decided by `Store.Attempt`, which may answer either way. Every contract
  therefore describes both the success path and the partial effects a
  failure leaves behind. No repository uses a transaction.
- The repositories and services are classes. Their methods change only the
  tables they write (`modifies db`books, db`bookAuthors`, ...), and their
  loops carry the invariants that tie the result to a specification
  function.

In these places the model follows the Go code:

- `NewCounter` starts at zero with no configurable offset. The first
  identifier issued is 1.
- Book creation is not atomic. A failure while inserting association rows
  leaves the book row and a prefix of the association rows in place.
- `NewReader` checks name, then password, then email, in that order.
- The readers repository never stores password or admin. A reader read back
  has an empty password and is not an admin.
- In the readers, authors and reservations repositories, Update and Delete
  of an identifier no row holds report success and change nothing; only
  GetById reports "not found". The reader and author services' Update
  methods look the identifier up first, so they do report "not found".
- In the books repository, Update of an identifier with no book row leaves
  the books table alone but still replaces that identifier's association
  rows, so it reports success and leaves orphan `book_authors` rows. Delete
  of such an identifier removes any orphan association rows it has.
- `ListBooksByAuthor` returns its books without their author lists.
- Reservation listing selects reservations whose whole range lies inside the
  window (containment), not those that overlap it.

Three places where the Go code does not type-check are resolved with integer
identifiers:

- the domain's `Reservation.ID` is a string while the repository passes an
  int;
- the author repository's `GetById`/`Delete` take a string while the service
  passes an int;
- the book service passes a UUID string as `NewBook`'s int identifier.

## Model

| member | source | states |
|---|---|---|
| GenId.Wrap | pkg/GenID/genID.go:14 | the int64 result equals the argument when it fits and is congruent to it modulo 2^64 |
| GenId.Next | pkg/GenID/genID.go:13-15 | the counter's next value is the old one plus one, except that after MaxInt64 it wraps to MinInt64 |
| GenId.IdCounter.constructor | pkg/GenID/genID.go:9-11 | a new counter holds zero |
| GenId.IdCounter.GenerateID | pkg/GenID/genID.go:13-15 | the counter advances by one step (with wrap-around) and the call returns the new value |
| GenId.Issued | pkg/GenID/genID.go:13-15 | n successive calls return n values |
| GenId.IssuedIsRange | pkg/GenID/genID.go:13-15 | away from the limit, the k-th call from a counter at s returns s + k + 1 |
| GenId.FreshCounterIssuesOneToN | pkg/GenID/genID.go:9-15 | a fresh counter hands out exactly 1, 2, ..., n in order |
| GenId.IssuedStrictlyIncreasing | pkg/GenID/genID.go:13-15 | until the limit, identifiers strictly increase, so none repeats |
| GenId.IssuedWrapsAtLimit | pkg/GenID/genID.go:14 | the call after MaxInt64 returns MinInt64, the one point where identifiers stop increasing |
| Books.NewBook | internal/domain/aggregate/books/book.go:26-38 | fails exactly when the title is empty, with "title cannot be empty"; otherwise returns a valid book holding every argument |
| Books.Book.AuthorIDs | internal/domain/aggregate/books/book.go:41-45 | returns a freshly allocated array with the same length and elements as the author list |
| Books.Book.SetAuthorIDs | internal/domain/aggregate/books/book.go:48-50 | the result has the given author list, every other field of the book, and the same validity |
| Readers.NewReader | internal/domain/entity/readers/reader.go:27-46 | name, password, email are checked in that order with their messages; succeeds exactly when all three are non-empty and keeps every argument |
| Readers.Reader.CheckPassword | internal/domain/entity/readers/reader.go:48-50 | a candidate is accepted exactly when it equals the stored password |
| Readers.NewReaderAcceptsOnlyItsPassword | internal/domain/entity/readers/reader.go:48-50 | a reader built by NewReader accepts its own password and no other string |
| Authors.NewAuthor | internal/domain/entity/authors/author.go:22-31 | fails exactly when the name is empty, with "name cannot be empty"; otherwise keeps every argument |
| Reservations.NewReservation | internal/domain/aggregate/reservations/reservation.go:27-38 | fails exactly when the end date is before the start date, with "end date cannot be before start date"; otherwise keeps every argument and the range is ordered |
| Store.Find | internal/infrastructure/readers/reader.go:35-49 | QueryRow by id: nothing exactly when no row has the id; otherwise the first row with that id |
| Store.Without | internal/infrastructure/readers/reader.go:51-62 | DELETE by id keeps exactly the rows with other ids |
| Store.Updated | internal/infrastructure/readers/reader.go:64-76 | UPDATE by id rewrites every row with the id and leaves the others as they were |
| Store.AbsentKeyUntouched | internal/infrastructure/authors/author.go:50-75 | UPDATE or DELETE of an id no row holds leaves the table unchanged |
| Store.WithoutCount | internal/infrastructure/readers/reader.go:51-62 | DELETE by id keeps each row with another id exactly as many times as the table held it and no row with the id |
| Store.FindAfterInsert | internal/infrastructure/authors/author.go:21-48 | after INSERT an id reads as before if it was present, otherwise as the new row if the id matches |
| Store.FindAfterDelete | internal/infrastructure/authors/author.go:34-61 | after DELETE the deleted id reads as missing and every other id as before |
| Store.FindAfterUpdate | internal/infrastructure/authors/author.go:34-75 | after UPDATE a present id reads the new columns; a missing id stays missing; other ids are unchanged |
| BooksRepo.LinksOf | internal/infrastructure/booksRepo/book.go:49-51 | the association rows selected for a book are exactly the rows with that book id |
| BooksRepo.AuthorIdsOf | internal/infrastructure/booksRepo/book.go:49-69 | the loaded author ids are as many as the book's association rows, each comes from a row of that book, and every such row's author id is among them |
| BooksRepo.JoinByAuthor | internal/infrastructure/booksRepo/book.go:178-184 | every joined row is a stored book row linked to the author by an association row |
| BooksRepo.WithoutLinksOf | internal/infrastructure/booksRepo/book.go:79-83 | deleting a book's associations keeps exactly the rows of other books |
| BooksRepo.LinksOfCount | internal/infrastructure/booksRepo/book.go:49-51 | the selection keeps each row of the book exactly as many times as the table holds it, and no other row |
| BooksRepo.WithoutLinksOfCount | internal/infrastructure/booksRepo/book.go:79-83 | the delete keeps each row of another book exactly as many times as the table holds it, and no row of the book |
| BooksRepo.JoinByAuthorCount | internal/infrastructure/booksRepo/book.go:178-184 | the join holds each book row as many times as the books table holds it times the number of association rows linking it to the author |
| BooksRepo.LinksOfConcat | internal/infrastructure/booksRepo/book.go:39-69 | a book's association rows in appended tables are its rows in each part, in order |
| BooksRepo.LinksOfLinksFor | internal/infrastructure/booksRepo/book.go:39-47 | the rows insertBookAuthors adds belong to that book and to no other |
| BooksRepo.LinksOfWithout | internal/infrastructure/booksRepo/book.go:79-83 | after the delete the book has no association rows and every other book keeps its own |
| BooksRepo.AuthorIdsOfLinksFor | internal/infrastructure/booksRepo/book.go:39-69 | loading after inserting a list yields the previous ids followed by exactly that list |
| BooksRepo.CreatedLinksReadBack | internal/infrastructure/booksRepo/book.go:21-69 | after Create the new book reads back its author list, and other books read back what they had |
| BooksRepo.ReplacedLinksReadBack | internal/infrastructure/booksRepo/book.go:71-77 | after updateBookAuthors the book reads back exactly the new list and other books are unaffected |
| BooksRepo.CreatedBookReadsBack | internal/infrastructure/booksRepo/book.go:21-105 | a book created under an unused id is read back by GetByID as the same book |
| BooksRepo.UpdatedBookReadsBack | internal/infrastructure/booksRepo/book.go:85-123 | a stored book that was updated is read back by GetByID as the updated book |
| BooksRepo.DeletedBookGone | internal/infrastructure/booksRepo/book.go:125-141 | after Delete neither table holds anything for the id, and other books read as before |
| BooksRepo.UpdateOfMissingBookLeavesOrphanLinks | internal/infrastructure/booksRepo/book.go:107-123 | Update of an id with no book row leaves the books table unchanged and leaves the id with association rows holding exactly the new list |
| BooksRepo.DeleteOfMissingBookDropsOrphanLinks | internal/infrastructure/booksRepo/book.go:125-141 | Delete of an id with no book row leaves the books table unchanged and removes every association row of the id |
| BooksRepo.JoinByAuthorMembership | internal/infrastructure/booksRepo/book.go:178-184 | a book row is in the join exactly when it is stored and an association row links it to the author |
| BooksRepo.BookRepo.constructor | internal/infrastructure/booksRepo/book.go:17-19 | the repository works on the given database |
| BooksRepo.BookRepo.Create | internal/infrastructure/booksRepo/book.go:21-37 | success appends the book row and one association row per author, in order; failure leaves nothing, or the book row plus a strict prefix of the associations |
| BooksRepo.BookRepo.InsertBookAuthors | internal/infrastructure/booksRepo/book.go:39-47 | success appends one row per author id in order; failure leaves a strict prefix appended |
| BooksRepo.BookRepo.LoadBookAuthors | internal/infrastructure/booksRepo/book.go:49-69 | on success returns the author ids of the book's association rows in storage order |
| BooksRepo.BookRepo.UpdateBookAuthors | internal/infrastructure/booksRepo/book.go:71-77 | success removes the book's rows and appends the new list; failure leaves the table untouched or cleared plus a prefix |
| BooksRepo.BookRepo.DeleteBookAuthors | internal/infrastructure/booksRepo/book.go:79-83 | success removes exactly the book's association rows; failure changes nothing |
| BooksRepo.BookRepo.GetByID | internal/infrastructure/booksRepo/book.go:85-105 | a missing id is an error (NoRows only when missing); success returns the stored row with its loaded author ids |
| BooksRepo.BookRepo.Update | internal/infrastructure/booksRepo/book.go:107-123 | success rewrites the book's columns and replaces its associations wholesale; every failure state is one of the partial states listed |
| BooksRepo.BookRepo.Delete | internal/infrastructure/booksRepo/book.go:125-141 | associations are removed before the book row; a failure never removes the book row |
| BooksRepo.BookRepo.List | internal/infrastructure/booksRepo/book.go:143-176 | on success returns one book per stored row, in order, each with its own author ids |
| BooksRepo.BookRepo.ListBooksByAuthor | internal/infrastructure/booksRepo/book.go:178-203 | on success returns the joined book rows, in order, without author ids |
| ReservationsRepo.Contained | internal/infrastructure/reservations/reservation.go:84-89 | the selected rows are exactly the stored rows whose range lies inside the window |
| ReservationsRepo.ContainedCount | internal/infrastructure/reservations/reservation.go:84-89 | the window selects each contained row exactly as many times as the table holds it, and no other row |
| ReservationsRepo.ReservationOf | internal/infrastructure/reservations/reservation.go:40-58 | a stored row rebuilds exactly when its range is ordered, and then carries the row's id, book id, reader id and dates |
| ReservationsRepo.InsertKeepsDatesOrdered | internal/infrastructure/reservations/reservation.go:24-38 | Create keeps every stored range ordered |
| ReservationsRepo.UpdateKeepsDatesOrdered | internal/infrastructure/reservations/reservation.go:60-73 | Update keeps every stored range ordered |
| ReservationsRepo.DeleteKeepsDatesOrdered | internal/infrastructure/reservations/reservation.go:75-82 | Delete keeps every stored range ordered |
| ReservationsRepo.ContainedRowsRebuild | internal/infrastructure/reservations/reservation.go:84-115 | on a table whose ranges are ordered, every selected row rebuilds through NewReservation |
| ReservationsRepo.CreatedReservationReadsBack | internal/infrastructure/reservations/reservation.go:24-58 | a reservation created under an unused id reads back with its id, book id, reader id and dates |
| ReservationsRepo.ReservationRepo.constructor | internal/infrastructure/reservations/reservation.go:19-21 | the repository works on the given database |
| ReservationsRepo.ReservationRepo.Create | internal/infrastructure/reservations/reservation.go:24-38 | a reversed range is rejected before any write; success appends the row and returns the reservation; failure changes nothing; a table with ordered ranges stays ordered |
| ReservationsRepo.ReservationRepo.GetById | internal/infrastructure/reservations/reservation.go:40-58 | a missing id or a stored reversed range is an error; success returns the row rebuilt with id-only book and reader |
| ReservationsRepo.ReservationRepo.Update | internal/infrastructure/reservations/reservation.go:60-73 | a reversed range is rejected before any write; success rewrites the rows with that id; a table with ordered ranges stays ordered |
| ReservationsRepo.ReservationRepo.Delete | internal/infrastructure/reservations/reservation.go:75-82 | success removes the rows with that id; failure changes nothing; a table with ordered ranges stays ordered |
| ReservationsRepo.ReservationRepo.List | internal/infrastructure/reservations/reservation.go:84-115 | on success returns the contained rows, in order, each rebuilt; any contained row that does not rebuild makes the call fail |
| ReadersRepo.ReaderRoundTrip | internal/infrastructure/readers/reader.go:22-49 | a reader created under an unused id reads back with its id, name, phone and email, but an empty password and no admin flag |
| ReadersRepo.LoadedReaderAcceptsOnlyEmptyPassword | internal/infrastructure/readers/reader.go:35-49 | a reader loaded from the table accepts the empty password and no other |
| ReadersRepo.ReaderRepo.constructor | internal/infrastructure/readers/reader.go:18-20 | the repository works on the given database |
| ReadersRepo.ReaderRepo.Create | internal/infrastructure/readers/reader.go:22-33 | success appends the id, name, phone and email; failure changes nothing |
| ReadersRepo.ReaderRepo.GetById | internal/infrastructure/readers/reader.go:35-49 | a missing id is an error (NoRows only when missing); success returns the stored reader |
| ReadersRepo.ReaderRepo.Delete | internal/infrastructure/readers/reader.go:51-62 | success removes the rows with that id; failure changes nothing |
| ReadersRepo.ReaderRepo.Update | internal/infrastructure/readers/reader.go:64-76 | success rewrites name, phone and email of the rows with that id; failure changes nothing |
| ReadersRepo.ReaderRepo.List | internal/infrastructure/readers/reader.go:78-105 | on success returns one reader per stored row, in order |
| AuthorsRepo.AuthorRoundTrip | internal/infrastructure/authors/author.go:21-48 | an author created under an unused id reads back unchanged |
| AuthorsRepo.AuthorUpdateRoundTrip | internal/infrastructure/authors/author.go:34-75 | an author updated in place reads back as the updated author |
| AuthorsRepo.AuthorRepo.constructor | internal/infrastructure/authors/author.go:17-19 | the repository works on the given database |
| AuthorsRepo.AuthorRepo.Create | internal/infrastructure/authors/author.go:21-32 | success appends the author's row; failure changes nothing |
| AuthorsRepo.AuthorRepo.GetById | internal/infrastructure/authors/author.go:34-48 | a missing id is an error (NoRows only when missing); success returns the stored author |
| AuthorsRepo.AuthorRepo.Delete | internal/infrastructure/authors/author.go:50-61 | success removes the rows with that id; failure changes nothing |
| AuthorsRepo.AuthorRepo.Update | internal/infrastructure/authors/author.go:63-75 | success rewrites the rows with that id; failure changes nothing |
| AuthorsRepo.AuthorRepo.List | internal/infrastructure/authors/author.go:77-104 | on success returns one author per stored row, in order |
| ReadersService.ReaderService.constructor | internal/service/readers/reader.go:25-30 | the service uses the given repository and counter |
| ReadersService.ReaderService.CreateReader | internal/service/readers/reader.go:32-45 | an empty name fails with "name is required" before an id is taken; otherwise exactly one id is taken and the reader is validated and stored under it |
| ReadersService.ReaderService.GetReader | internal/service/readers/reader.go:47-49 | the repository's lookup: missing ids fail, success returns the stored reader |
| ReadersService.ReaderService.UpdateReader | internal/service/readers/reader.go:51-67 | a failed lookup changes nothing; otherwise the name is kept when the request's is empty, every other field is overwritten, the id is kept, and the merged reader is written |
| ReadersService.ReaderService.DeleteReader | internal/service/readers/reader.go:69-71 | the repository's delete |
| ReadersService.ReaderService.ListReaders | internal/service/readers/reader.go:73-75 | the repository's listing |
| AuthorsService.AuthorService.constructor | internal/service/authors/author.go:26-31 | the service uses the given repository and counter |
| AuthorsService.AuthorService.CreateAuthor | internal/service/authors/author.go:33-43 | exactly one id is taken, even when the name is empty; the author is validated and stored under it |
| AuthorsService.AuthorService.GetAuthor | internal/service/authors/author.go:45-47 | the repository's lookup |
| AuthorsService.AuthorService.UpdateAuthor | internal/service/authors/author.go:49-63 | a failed lookup changes nothing; otherwise the name is kept when the request's is empty, the country is overwritten, and the merged author is written |
| AuthorsService.AuthorService.DeleteAuthor | internal/service/authors/author.go:65-67 | the repository's delete |
| AuthorsService.AuthorService.ListAuthors | internal/service/authors/author.go:69-71 | the repository's listing |
| BooksService.UnusedBookIdExists | internal/service/books/book.go:24 | whatever the tables hold, an identifier used by no book row and no association row exists |
| BooksService.BookService.constructor | internal/service/books/book.go:16-18 | the service uses the given repository |
| BooksService.BookService.CreateBook | internal/service/books/book.go:20-34 | an empty title fails with "title is required" and writes nothing; success stores a valid book under a previously unused id with the request's fields and author list; a store failure leaves the tables unchanged, or holding the new book row plus a strict prefix of its association rows |
| ReservationsService.ReservationService.constructor | internal/service/reservations/reservations.go:28-30 | the service uses the given repository |
| ReservationsService.ReservationService.CreateReservation | internal/service/reservations/reservations.go:50-64 | a reversed range fails before any write; otherwise the repository's create with the request's fields; a table with ordered ranges stays ordered |
| ReservationsService.ReservationService.GetReservationByID | internal/service/reservations/reservations.go:66-68 | the repository's lookup |
| ReservationsService.ReservationService.UpdateReservation | internal/service/reservations/reservations.go:70-75 | a reversed range fails before any write; otherwise the repository's update; a table with ordered ranges stays ordered |
| ReservationsService.ReservationService.DeleteReservation | internal/service/reservations/reservations.go:77-79 | the repository's delete; a table with ordered ranges stays ordered |
| ReservationsService.ReservationService.ListReservations | internal/service/reservations/reservations.go:81-83 | the repository's listing |

## Left out

- pkg/db/postgres/conn.go (pool creation, `sync.Once`, migrations, dirty-migration recovery) is not part of this model: it is connection and schema management, not data logic.
- The HTTP handlers, router, server, `main`, configuration and logger are not part of this model. The repositories' log calls have no effect on data and are dropped.
- `context.Context` cancellation and deadlines are folded into `Store.Attempt`, the failure that may happen at any step.
- Concurrency: `atomic.AddInt64` and the connection pool are used concurrently in the program. The model runs every call to completion, one at a time.
- Store row order: PostgreSQL guarantees no order without `ORDER BY`. The model returns rows in storage order, and the join runs book by book.
- Table constraints (primary keys, foreign keys, NOT NULL) are not modelled. A constraint violation is one of the failures `Store.Attempt` may report.
- Error values: `fmt.Errorf` wrapping and pgx's error types are reduced to `NoRows` and `StoreFailure`. Validation errors keep their message text.
- Dates are whole numbers compared with `<`. Time zones and sub-day precision of `time.Time` are not modelled.
- Books.Book.SetAuthorIDs: the model treats the book as a value. The Go method keeps the caller's slice, so later writes through that slice would show in the book. That aliasing is not captured.
- Books.NewBook: the Go constructor stores the caller's slice as the author list, so later writes through that slice would show in the book. That aliasing is not captured.
- Go distinguishes a nil slice from an empty one. `loadBookAuthors` and the three `List` methods return nil when there are no rows. The model returns the empty sequence.
- GenId.IdCounter.GenerateID: `int(...)` of the int64 result would truncate on a 32-bit platform. The model assumes a 64-bit `int`.
- BooksService.BookService.CreateBook: the UUID generator is modelled as the choice of an integer used by no book row and no association row. The model does not state that identifiers drawn by different calls differ from one another.
- `GetReaderByEmail` and `Authenticate` are declared in the readers interface but have no implementation, so there is nothing to model.
- `UpdateBookRequest`, the response helpers and the book-service interface file are data shapes that the core never uses.
