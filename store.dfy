/**
 * The two MongoDB collections the core works on, as in-memory tables, and the
 * single-document primitives the services call on them (FindOne, InsertOne,
 * UpdateOne, FindOneAndUpdate, DeleteOne). The bulk UpdateMany of the overdue
 * sweep lives with the sweep, in module Scheduler.
 */
module Store {
  import opened Models

  /** A value snapshot of both collections, keyed by `_id`. */
  datatype Tables = Tables(
    books: map<ObjectId, Book>,
    borrowedBooks: map<ObjectId, BorrowedBook>)

  /** The state an operation leaves behind, with its reply or error. */
  datatype Outcome<+T> = Outcome(tables: Tables, result: Result<T>)

  /**
   * The storage calls at which a transaction can fail for reasons outside the
   * model (a network or server error). Passing `Some(step)` makes that call fail;
   * a step the operation does not perform has no effect. `StartTransaction` and
   * `CommitTransaction` are the driver's own calls inside `WithTransaction`; they
   * fail with a driver error whose text is `message`.
   */
  datatype Step =
    | StartSession | FindBook | InsertRecord | UpdateBookStatus | FindAndUpdateRecord
    | StartTransaction(message: string) | CommitTransaction(message: string)

  predicate StartFails(fault: Option<Step>) {
    fault.Some? && fault.value.StartTransaction?
  }

  predicate CommitFails(fault: Option<Step>) {
    fault.Some? && fault.value.CommitTransaction?
  }

  /**
   * `WithTransaction` around a unit of work `o` started from `before`: the work
   * runs only once the transaction has started; its writes are committed when it
   * succeeds and discarded when it fails. A failure to start or to commit is the
   * driver's raw error, which the service passes on unwrapped, so gRPC reports it
   * as `Unknown`, and nothing is written.
   */
  function WithTransaction<T>(before: Tables, o: Outcome<T>, fault: Option<Step>): (r: Outcome<T>)
    ensures StartFails(fault) ==> r == Outcome(before, Err(Status(Unknown, fault.value.message)))
    ensures !StartFails(fault) && o.result.Err? ==> r == Outcome(before, o.result)
    ensures !StartFails(fault) && o.result.Ok? && CommitFails(fault) ==>
      r == Outcome(before, Err(Status(Unknown, fault.value.message)))
    ensures !StartFails(fault) && o.result.Ok? && !CommitFails(fault) ==> r == o
  {
    if StartFails(fault) then Outcome(before, Err(Status(Unknown, fault.value.message)))
    else if o.result.Err? then Outcome(before, o.result)
    else if CommitFails(fault) then Outcome(before, Err(Status(Unknown, fault.value.message)))
    else o
  }

  // ---------------------------------------------------------------------------
  // The lending invariant
  // ---------------------------------------------------------------------------

  /** `rid` names an open loan of book `bookId`. */
  ghost predicate OpenLoanOf(t: Tables, bookId: ObjectId, rid: ObjectId) {
    rid in t.borrowedBooks && IsOpen(t.borrowedBooks[rid]) && t.borrowedBooks[rid].bookId == bookId
  }

  ghost predicate HasOpenLoan(t: Tables, bookId: ObjectId) {
    exists rid :: OpenLoanOf(t, bookId, rid)
  }

  /** The book of loan `r` exists and is recorded as borrowed by `r`'s user. */
  ghost predicate LentOut(t: Tables, r: BorrowedBook) {
    r.bookId in t.books && t.books[r.bookId].status == StatusBorrowed && t.books[r.bookId].userId == Some(r.userId)
  }

  /**
   * The consistency the lending workflow keeps between the collections:
   * at most one open loan per book; every open loan's book exists and is marked
   * borrowed by that loan's user; a book that is not available has an open loan;
   * an available book has no borrower.
   */
  ghost predicate Consistent(t: Tables) {
    && (forall r1, r2 |
          r1 in t.borrowedBooks && r2 in t.borrowedBooks &&
          IsOpen(t.borrowedBooks[r1]) && IsOpen(t.borrowedBooks[r2]) &&
          t.borrowedBooks[r1].bookId == t.borrowedBooks[r2].bookId
          :: r1 == r2)
    && (forall rid | rid in t.borrowedBooks && IsOpen(t.borrowedBooks[rid]) :: LentOut(t, t.borrowedBooks[rid]))
    && (forall id | id in t.books ::
          if t.books[id].status == StatusAvailable then t.books[id].userId.None? else HasOpenLoan(t, id))
  }

  /** In a consistent state a book is unavailable exactly when it has an open loan. */
  lemma UnavailableIffOpenLoan(t: Tables, bookId: ObjectId)
    requires Consistent(t) && bookId in t.books
    ensures t.books[bookId].status != StatusAvailable <==> HasOpenLoan(t, bookId)
  {
  }

  // ---------------------------------------------------------------------------
  // The database
  // ---------------------------------------------------------------------------

  class Database {
    var books: map<ObjectId, Book>
    var borrowedBooks: map<ObjectId, BorrowedBook>

    constructor ()
      ensures books == map[] && borrowedBooks == map[]
    {
      books := map[];
      borrowedBooks := map[];
    }

    function State(): (t: Tables)
      reads this
      ensures t.books == books && t.borrowedBooks == borrowedBooks
    {
      Tables(books, borrowedBooks)
    }

    /** `FindOne` on `books` by `_id`, optionally also filtering on `status`. */
    method FindBook(id: ObjectId, status: Option<string>) returns (found: Option<Book>)
      ensures found.Some? <==> id in books && (status.Some? ==> books[id].status == status.value)
      ensures found.Some? ==> found.value == books[id]
    {
      if id in books && (status.None? || books[id].status == status.value) {
        found := Some(books[id]);
      } else {
        found := None;
      }
    }

    /** `InsertOne` on `books`; a duplicate `_id` is refused. */
    method InsertBook(id: ObjectId, b: Book) returns (inserted: bool)
      modifies this
      ensures inserted <==> id !in old(books)
      ensures books == if inserted then old(books)[id := b] else old(books)
      ensures borrowedBooks == old(borrowedBooks)
    {
      inserted := id !in books;
      if inserted {
        books := books[id := b];
      }
    }

    /** `InsertOne` on `borrowed_books`; a duplicate `_id` is refused. */
    method InsertBorrowedBook(id: ObjectId, r: BorrowedBook) returns (inserted: bool)
      modifies this
      ensures inserted <==> id !in old(borrowedBooks)
      ensures borrowedBooks == if inserted then old(borrowedBooks)[id := r] else old(borrowedBooks)
      ensures books == old(books)
    {
      inserted := id !in borrowedBooks;
      if inserted {
        borrowedBooks := borrowedBooks[id := r];
      }
    }

    /** `UpdateOne` on `books` by `_id` that sets `status` and `user_id`. */
    method SetBookLoan(id: ObjectId, status: string, userId: Option<ObjectId>) returns (matched: bool)
      modifies this
      ensures matched <==> id in old(books)
      ensures books == if matched then old(books)[id := old(books)[id].(status := status, userId := userId)] else old(books)
      ensures borrowedBooks == old(borrowedBooks)
    {
      matched := id in books;
      if matched {
        books := books[id := books[id].(status := status, userId := userId)];
      }
    }

    /** `UpdateOne` on `books` by `_id` that sets title, author, published date and status. */
    method SetBookFields(id: ObjectId, title: string, author: string, publishedDate: int, status: string)
      returns (matched: bool)
      modifies this
      ensures matched <==> id in old(books)
      ensures books == if matched
        then old(books)[id := old(books)[id].(title := title, author := author, publishedDate := publishedDate, status := status)]
        else old(books)
      ensures borrowedBooks == old(borrowedBooks)
    {
      matched := id in books;
      if matched {
        books := books[id := books[id].(title := title, author := author, publishedDate := publishedDate, status := status)];
      }
    }

    /** `DeleteOne` on `books` by `_id`. */
    method DeleteBookDocument(id: ObjectId) returns (deleted: bool)
      modifies this
      ensures deleted <==> id in old(books)
      ensures books == old(books) - {id}
      ensures borrowedBooks == old(borrowedBooks)
    {
      deleted := id in books;
      books := books - {id};
    }

    /**
     * `FindOneAndUpdate` on `borrowed_books` with filter `_id = id, return_date = null`
     * that sets `return_date`; it yields the document as it was before the update.
     */
    method CloseOpenLoan(id: ObjectId, returnDate: int) returns (before: Option<BorrowedBook>)
      modifies this
      ensures before.Some? <==> id in old(borrowedBooks) && IsOpen(old(borrowedBooks)[id])
      ensures before.Some? ==> before.value == old(borrowedBooks)[id]
      ensures borrowedBooks == if before.Some?
        then old(borrowedBooks)[id := old(borrowedBooks)[id].(returnDate := Some(returnDate))]
        else old(borrowedBooks)
      ensures books == old(books)
    {
      if id in borrowedBooks && IsOpen(borrowedBooks[id]) {
        before := Some(borrowedBooks[id]);
        borrowedBooks := borrowedBooks[id := borrowedBooks[id].(returnDate := Some(returnDate))];
      } else {
        before := None;
      }
    }

    /** Aborting a transaction: every write made since `snapshot` is undone. */
    method Restore(snapshot: Tables)
      modifies this
      ensures State() == snapshot
    {
      books := snapshot.books;
      borrowedBooks := snapshot.borrowedBooks;
    }
  }
}
