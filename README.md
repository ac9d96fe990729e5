# Library lending service: a verified model of borrow, return, the overdue sweep and the book catalogue

The service keeps two MongoDB collections: `books` and `borrowed_books`. Users
borrow and return books. A background sweep flags loans that are overdue. A
plain catalogue API creates, reads, updates and deletes books. This project
models those collections as two in-memory tables (`map`s from object id to
document) and models each service call on them.

- `models.dfy` (module `Models`): object ids, the `Book` and `BorrowedBook`
  documents, gRPC status codes, and the request and reply messages.
  `ParseObjectId` stands in for the driver's `ObjectIDFromHex`: it accepts
  exactly 24 hex digits in either case, and two spellings that differ only in
  case denote the same id. A loan record also carries a `status` field,
  because the sweep writes one, although the Go struct has no such field.
- `store.dfy` (module `Store`): the `Database` class with its two map fields.
  It offers the single-document primitives the services call (FindOne,
  InsertOne, UpdateOne, FindOneAndUpdate, DeleteOne) and a `Restore` that
  aborts a transaction. The module also defines `Tables`, a value snapshot of
  both collections; `WithTransaction` (commit on success, discard on failure,
  nothing written when the driver cannot start or commit the transaction);
  and `Consistent`, the lending invariant. The invariant says four things.
  There is at most one open loan per book. Every open loan's book exists and is
  marked borrowed by that loan's user. Every book that is not available has an
  open loan. An available book has no borrower.
- `borrowed_books_service.dfy` (module `BorrowService`): `BorrowBook` and
  `ReturnBook`. Each operation is specified by a function on `Tables`: `Borrow`
  and `Return`, which wrap the units of work `BorrowWork` and `ReturnWork`. An
  imperative method performs the same storage calls in order on a `Database`
  and restores its snapshot when a step fails. The module's lemmas prove that
  both calls preserve `Consistent`, plus mutual exclusion and the
  double-return refusal.
- `books_service.dfy` (module `BookService`): `CreateBook`, `GetBook`,
  `UpdateBook` and `DeleteBook`, each as a function plus a method. Creation
  preserves the invariant. For update and delete, lemmas state exactly when
  the invariant survives.
- `book_scheduler.dfy` (module `Scheduler`): one tick of `checkOverdueBooks`.
  The bulk `UpdateMany` is written as a loop over the loan table, proved
  against the `Sweep` function and the `ModifiedCount` the tick logs.
- `lifecycle.dfy` (module `Lifecycle`): properties of call sequences. These are
  the borrow-then-return round trip and the return of a loan the sweep marked
  overdue.

The clock is a parameter: `now` or `returnTime`, an integer count of seconds.
The id that MongoDB assigns on insert is also a parameter, `newId`. A storage
failure is a parameter too. For a transaction it is `fault: Option<Step>`,
which names the storage call that fails. Two of the steps are the driver's
own `StartTransaction` and `CommitTransaction` inside `WithTransaction`: they
carry the driver's error text, which the service returns unwrapped, so gRPC
reports code `Unknown`. For a single-document call it is
`fails: bool`. This lets every error path be stated: an error from a
transaction leaves both tables exactly as they were.

Where the documented design of the service and its code disagree, the model follows the code:
- An unavailable book gives `NotFound` with message "book not available". There
  is no separate `NotAvailable` code.
- The sweep writes `status = "overdue"` on the loan records in
  `borrowed_books`, not on the book.
- `UpdateBook` and `DeleteBook` are not restricted. Lemmas show which of their
  calls break the lending invariant.

## Model

| member | source | states |
|---|---|---|
| `Models.ParseObjectId` | services/borrowed_books_service.go:26-34 | accepts a text exactly when it is 24 hex digits; the resulting id is canonical (lower case) |
| `Models.ParsePrintedId` | services/borrowed_books_service.go:94-103 | the id text a reply prints parses back to the same id, so a returned loan id can be handed to `ReturnBook` |
| `Models.ParseIgnoresCase` | services/borrowed_books_service.go:26-29 | two spellings of one id that differ only in letter case parse to the same id |
| `Store.WithTransaction` | services/borrowed_books_service.go:44-89 | if the transaction cannot start, the work does not run: `Unknown` with the driver's text and no change; a failed unit of work is discarded and its error returned; a successful one is committed, tables and reply exactly as the work left them, unless the commit fails, which gives `Unknown` with the driver's text and no change |
| `Store.UnavailableIffOpenLoan` | services/borrowed_books_service.go:47-79 | in a consistent state, a book is not "available" exactly when an open loan of it exists |
| `Store.Database.constructor` | server/main.go:92-94 | a fresh database has empty `books` and `borrowed_books` collections |
| `Store.Database.FindBook` | services/borrowed_books_service.go:47-50 | FindOne by `_id` with an optional `status` filter: finds the book exactly when it exists and matches the filter |
| `Store.Database.InsertBook` | services/books_service.go:33-36 | InsertOne on books: adds the document under a new `_id`, refuses a duplicate, leaves loans alone |
| `Store.Database.InsertBorrowedBook` | services/borrowed_books_service.go:66-69 | InsertOne on borrowed_books: adds the record under a new `_id`, refuses a duplicate, leaves books alone |
| `Store.Database.SetBookLoan` | services/borrowed_books_service.go:72-79 | UpdateOne by `_id` setting `status` and `user_id`: changes only that book; matching nothing is not an error |
| `Store.Database.SetBookFields` | services/books_service.go:80-89 | UpdateOne by `_id` setting title, author, published date and status; the borrower is untouched |
| `Store.Database.DeleteBookDocument` | services/books_service.go:103 | DeleteOne by `_id`: removes that book if present; loans untouched |
| `Store.Database.CloseOpenLoan` | services/borrowed_books_service.go:119-126 | FindOneAndUpdate with `return_date = null`: sets the return date of that open record only and yields the record as it was before |
| `Store.Database.Restore` | services/borrowed_books_service.go:87-89 | aborting puts both collections back to the snapshot |
| `BorrowService.BorrowWork` | services/borrowed_books_service.go:44-85 | the unit of work succeeds exactly when the book is available, the record id is new and no step fails; a failed lookup gives Internal "failed to fetch book", an unavailable book NotFound "book not available", a failed or duplicate insert Internal "failed to create borrow record" (nothing written yet); a failed book update gives Internal "failed to update book status" with the new record already written; on success exactly one open record is added and the book becomes borrowed by the user |
| `BorrowService.Borrow` | services/borrowed_books_service.go:25-100 | malformed book or user id gives InvalidArgument; success exactly when the ids parse, the book is available, the record id is new and no storage call fails; each failing storage call gives its own error: Internal "failed to start transaction", "failed to fetch book", "failed to create borrow record" or "failed to update book status", or Unknown with the driver's text when the transaction does not start or commit; an unavailable book gives NotFound "book not available"; any error leaves both tables unchanged; success adds one record (BookID, UserID, BorrowedDate = now, no return date) and marks only that book borrowed by the user with every other book and record unchanged |
| `BorrowService.RunBorrowWork` | services/borrowed_books_service.go:44-85 | find, insert and update, in order, leave the state and result `BorrowWork` specifies, including the partial writes of a failed step |
| `BorrowService.BorrowBook` | services/borrowed_books_service.go:25-100 | the imperative transaction ends in the state and result `Borrow` specifies: on failure the snapshot is restored |
| `BorrowService.ReturnWork` | services/borrowed_books_service.go:117-151 | succeeds exactly when the record exists, is open and no step fails; a failed FindOneAndUpdate gives Internal "failed to update borrow record" and a missing or closed record NotFound, both with nothing written; a failed book update gives Internal "failed to update book status" with the return date already written; on success only that record's return date is set and its book, if it still exists, becomes available with no borrower |
| `BorrowService.Return` | services/borrowed_books_service.go:102-167 | malformed id gives InvalidArgument "invalid borrow ID"; success exactly when the record is open and no storage call fails; each failing storage call gives its own error: Internal "failed to start transaction", "failed to update borrow record" or "failed to update book status", or Unknown with the driver's text when the transaction does not start or commit; a missing or closed record gives NotFound; any error leaves both tables unchanged; the reply carries the record's ids and borrowed date and return date = returnTime |
| `BorrowService.RunReturnWork` | services/borrowed_books_service.go:117-151 | close-then-free, in order, leaves the state and result `ReturnWork` specifies |
| `BorrowService.ReturnBook` | services/borrowed_books_service.go:102-167 | the imperative transaction ends in the state and result `Return` specifies |
| `BorrowService.LentBookIsUnavailable` | services/borrowed_books_service.go:47-50 | in a consistent state a book with an open loan does not pass the borrow's `status = "available"` filter |
| `BorrowService.LoanOpenedKeepsConsistency` | services/borrowed_books_service.go:59-79 | inserting the open record and marking the available book borrowed turns a consistent state into a consistent one |
| `BorrowService.BorrowPreservesConsistency` | services/borrowed_books_service.go:44-89 | every borrow, successful or failed, preserves the lending invariant |
| `BorrowService.NoBorrowWhileLent` | services/borrowed_books_service.go:47-54 | in a consistent state, borrowing a book that has an open loan fails with NotFound and changes nothing |
| `BorrowService.SecondBorrowFails` | services/borrowed_books_service.go:47-79 | after a successful borrow, any borrow of the same book (any user) fails with NotFound and changes nothing |
| `BorrowService.LoanClosedKeepsConsistency` | services/borrowed_books_service.go:119-145 | closing an open record and freeing its book turns a consistent state into a consistent one |
| `BorrowService.ReturnPreservesConsistency` | services/borrowed_books_service.go:117-151 | every return, successful or failed and whatever the record's status, preserves the lending invariant |
| `BorrowService.ReturnFreesTheBook` | services/borrowed_books_service.go:136-145 | in a consistent state a successful return finds the loan's book and sets it available with no borrower, nothing else about it changed |
| `BorrowService.SecondReturnFails` | services/borrowed_books_service.go:119-131 | returning the same record a second time fails with NotFound and changes nothing |
| `BorrowService.ReturnAfterBookDeleted` | services/borrowed_books_service.go:136-148 | an open loan whose book was deleted can still be returned; the books table stays as it was |
| `BookService.Create` | services/books_service.go:25-48 | succeeds exactly when the insert does; adds one book under the new id with the request's title and author, published date = now (the request's date ignored), status "available" and no borrower; other books and all loans unchanged |
| `BookService.CreateBook` | services/books_service.go:25-48 | the method ends in the state and result `Create` specifies |
| `BookService.Get` | services/books_service.go:50-72 | malformed id gives InvalidArgument; any lookup failure gives NotFound "book not found"; otherwise the stored book |
| `BookService.GetBook` | services/books_service.go:50-72 | reads only, and returns what `Get` specifies |
| `BookService.Update` | services/books_service.go:74-95 | malformed id gives InvalidArgument; a storage error gives Internal and no change; otherwise the reply echoes the request, the book, if present, gets exactly the request's title, author, published date and status (any string) and keeps its borrower, and every other book and all loans are unchanged; a missing book is not an error |
| `BookService.UpdateBook` | services/books_service.go:74-95 | the method ends in the state and result `Update` specifies |
| `BookService.Delete` | services/books_service.go:97-109 | malformed id gives InvalidArgument; otherwise the book is removed whatever its status (absent is not an error), nothing else in books changes and loans are untouched |
| `BookService.DeleteBook` | services/books_service.go:97-109 | the method ends in the state and result `Delete` specifies |
| `BookService.CreatePreservesConsistency` | services/books_service.go:25-36 | creating a book preserves the lending invariant |
| `BookService.UpdateConsistentIff` | services/books_service.go:80-92 | from a consistent state, an update keeps the invariant exactly when the book is absent or its status is left as it was |
| `BookService.UpdateToAvailableBreaksConsistency` | services/books_service.go:80-87 | setting "available" on a book with an open loan breaks the invariant |
| `BookService.DeleteConsistentIff` | services/books_service.go:103-108 | from a consistent state, a delete keeps the invariant exactly when the book is absent or available; deleting a lent book orphans its open loan |
| `Scheduler.Sweep` | scheduler/book_scheduler.go:33-44 | same record ids; only `status` can change; a record ends with status "overdue" exactly when it matched the filter or already had it; records outside the filter are unchanged |
| `Scheduler.Tick` | scheduler/book_scheduler.go:29-51 | a tick never touches books; a failed UpdateMany changes nothing and is logged; otherwise the loan table becomes `Sweep` of the old one and the tick logs the number of matching records not already "overdue" |
| `Scheduler.MarkOverdueRecords` | scheduler/book_scheduler.go:33-44 | the UpdateMany, as a loop over the loan records, leaves the books alone, stores `Sweep` of the old records and returns the number of matching records not already "overdue" |
| `Scheduler.CheckOverdueBooks` | scheduler/book_scheduler.go:29-51 | one tick ends in the tables and log line `Tick` specifies |
| `Scheduler.CutoffIsStrict` | scheduler/book_scheduler.go:36 | an open loan borrowed exactly 14 days before now is not marked; one a second older is |
| `Scheduler.ClosedLoansNeverMarked` | scheduler/book_scheduler.go:34 | a record with a return date is never changed by the sweep |
| `Scheduler.TickIsIdempotent` | scheduler/book_scheduler.go:33-50 | a second tick at the same time leaves the tables unchanged and logs zero modified records |
| `Scheduler.LaterTickSubsumes` | scheduler/book_scheduler.go:33-44 | a tick at time t followed by one at a later time gives the same table as the later tick alone |
| `Scheduler.ModifiedCountBounded` | scheduler/book_scheduler.go:44-50 | the logged count never exceeds the number of loan records |
| `Scheduler.TickPreservesConsistency` | scheduler/book_scheduler.go:40-44 | a tick preserves the lending invariant |
| `Lifecycle.EmptyIsConsistent` | server/main.go:92-94 | the empty collections satisfy the lending invariant |
| `Lifecycle.BorrowThenReturn` | services/borrowed_books_service.go:59-145 | returning the record a borrow created succeeds, closes exactly that record with return date = returnTime and frees the book with no borrower; from a consistent state the books table is back where it started; a second return gives NotFound |
| `Lifecycle.OverdueLoanIsReturnable` | services/borrowed_books_service.go:119-124 | a loan the sweep marked overdue is still returned (the filter ignores the record's status); it keeps its overdue mark and gains its return date, its book becomes available, and the state stays consistent |

## Left out

- `BookScheduler.Start`: the hourly ticker goroutine is left out. Only one `checkOverdueBooks` tick is modelled.
- Sessions, `WithTransaction`'s automatic retries of transient errors (of the callback and of the commit), and isolation between concurrent requests are left out. Each transaction is one atomic sequential method. A commit whose outcome the driver cannot determine is modelled as not committed.
- Request deadlines: the HTTP client gives each call 5 seconds, and gRPC carries that deadline into the server's `ctx`, which every storage call here uses. A storage call that hits the deadline is one of the modelled step faults (Internal with that step's text). When the driver returns the context error itself from starting or committing the transaction, gRPC reports DeadlineExceeded or Canceled; the model reports every such driver error as `Unknown`.
- Time handling: `time.Now()`, RFC3339 formatting and nanosecond precision are left out. Timestamps are integer seconds passed in.
- `BorrowService.Borrow`: the reply re-reads the wall clock for its `BorrowedDate`. The model echoes the same `now` that was stored.
- `BookService.Update`: the request's `published_date` is a string, and MongoDB stores it as a string. The model keeps dates as integers, so it does not capture later decode failures of such a book in `GetBook` or `BorrowBook`.
- Document decode errors (other than "no document") are folded into the injected storage faults.
- Error texts: the storage error text that `CreateBook` appends ("failed to create book: %v") is dropped.
- `Scheduler.Tick`: a failed UpdateMany is modelled as changing nothing. A bulk update that fails part-way after writing some records is not modelled.
- `BookService.Get`: a book with no borrower prints the zero id in the reply. The model returns the absent borrower instead.
- `Models.ParseObjectId`: checks only that the text is 24 hex digits. The 12-byte ObjectID layout plays no part.
- The user service, the HTTP client (handlers, routes, middleware) and the server wiring are not part of this model. They are transport plumbing, foreign token calls, and single-document user CRUD with no invariant.
