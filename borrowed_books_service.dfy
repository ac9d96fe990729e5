/**
 * Lending: `BorrowBook` and `ReturnBook`, each one MongoDB transaction over the
 * `books` and `borrowed_books` collections. The functions state the effect of a
 * call on a snapshot of the tables; the methods perform the same storage calls
 * in order on a Database and abort (restore the snapshot) when a step fails.
 */
module BorrowService {
  import opened Models
  import opened Store

  // ---------------------------------------------------------------------------
  // Borrow
  // ---------------------------------------------------------------------------

  /** The book exists and its status is "available" (the borrow's FindOne filter). */
  predicate IsAvailable(t: Tables, bookId: ObjectId) {
    bookId in t.books && t.books[bookId].status == StatusAvailable
  }

  /** `fault` makes one of the storage calls of a borrow fail. */
  predicate FailsDuringBorrow(fault: Option<Step>) {
    || fault in {Some(StartSession), Some(FindBook), Some(InsertRecord), Some(UpdateBookStatus)}
    || StartFails(fault) || CommitFails(fault)
  }

  /**
   * The state after a successful borrow of `bookId` by `userId`: exactly one new
   * record `newId`, open, stamped `now`; the book marked borrowed by the user;
   * every other book and record as before.
   */
  ghost predicate LoanOpened(t: Tables, t': Tables, bookId: ObjectId, userId: ObjectId, now: int, newId: ObjectId) {
    && newId !in t.borrowedBooks
    && t'.borrowedBooks.Keys == t.borrowedBooks.Keys + {newId}
    && t'.borrowedBooks[newId] == BorrowedBook(bookId, userId, now, None, None)
    && (forall rid | rid in t.borrowedBooks :: t'.borrowedBooks[rid] == t.borrowedBooks[rid])
    && bookId in t.books
    && t'.books.Keys == t.books.Keys
    && t'.books[bookId] == t.books[bookId].(status := StatusBorrowed, userId := Some(userId))
    && (forall id | id in t.books && id != bookId :: t'.books[id] == t.books[id])
  }

  /**
   * The unit of work of a borrow, once both ids are parsed and the session is
   * open. On failure its tables are what the transaction had written so far.
   */
  function BorrowWork(t: Tables, bookId: ObjectId, userId: ObjectId, now: int, newId: ObjectId, fault: Option<Step>)
    : (o: Outcome<LoanReply>)
    ensures o.result.Ok? <==>
      IsAvailable(t, bookId) && newId !in t.borrowedBooks &&
      fault !in {Some(FindBook), Some(InsertRecord), Some(UpdateBookStatus)}
    ensures o.result.Ok? ==>
      LoanOpened(t, o.tables, bookId, userId, now, newId) &&
      o.result.value == LoanReply(newId, bookId, userId, now, None)
    ensures fault == Some(FindBook) ==>
      o == Outcome(t, Err(Status(Internal, "failed to fetch book")))
    ensures fault != Some(FindBook) && !IsAvailable(t, bookId) ==>
      o == Outcome(t, Err(Status(NotFound, "book not available")))
    ensures fault != Some(FindBook) && IsAvailable(t, bookId) &&
            (fault == Some(InsertRecord) || newId in t.borrowedBooks) ==>
      o == Outcome(t, Err(Status(Internal, "failed to create borrow record")))
    ensures fault == Some(UpdateBookStatus) && IsAvailable(t, bookId) && newId !in t.borrowedBooks ==>
      // The record is already written when the book update fails.
      && o.tables.books == t.books
      && o.tables.borrowedBooks == t.borrowedBooks[newId := BorrowedBook(bookId, userId, now, None, None)]
      && o.result == Err(Status(Internal, "failed to update book status"))
  {
    if fault == Some(FindBook) then
      Outcome(t, Err(Status(Internal, "failed to fetch book")))
    else if !IsAvailable(t, bookId) then
      Outcome(t, Err(Status(NotFound, "book not available")))
    else if fault == Some(InsertRecord) || newId in t.borrowedBooks then
      Outcome(t, Err(Status(Internal, "failed to create borrow record")))
    else
      var inserted := t.(borrowedBooks := t.borrowedBooks[newId := BorrowedBook(bookId, userId, now, None, None)]);
      if fault == Some(UpdateBookStatus) then
        Outcome(inserted, Err(Status(Internal, "failed to update book status")))
      else
        var lent := inserted.books[bookId].(status := StatusBorrowed, userId := Some(userId));
        Outcome(inserted.(books := inserted.books[bookId := lent]), Ok(LoanReply(newId, bookId, userId, now, None)))
  }

  /** The session and the transaction start, and the book lookup itself does not fail. */
  predicate ReachesFind(fault: Option<Step>) {
    fault !in {Some(StartSession), Some(FindBook)} && !StartFails(fault)
  }

  /** Both ids of a borrow request parse. */
  predicate WellFormedBorrow(req: BorrowRequest) {
    ParseObjectId(req.bookId).Some? && ParseObjectId(req.userId).Some?
  }

  /**
   * `BorrowBook` on the tables `t`, at time `now`, with `newId` the id the
   * storage assigns to the inserted record.
   */
  function Borrow(t: Tables, req: BorrowRequest, now: int, newId: ObjectId, fault: Option<Step>): (o: Outcome<LoanReply>)
    ensures o.result.Err? ==> o.tables == t
    ensures ParseObjectId(req.bookId).None? ==>
      o.result == Err(Status(InvalidArgument, "invalid book ID"))
    ensures ParseObjectId(req.bookId).Some? && ParseObjectId(req.userId).None? ==>
      o.result == Err(Status(InvalidArgument, "invalid user ID"))
    ensures o.result.Ok? <==>
      WellFormedBorrow(req) && IsAvailable(t, ParseObjectId(req.bookId).value) &&
      newId !in t.borrowedBooks && !FailsDuringBorrow(fault)
    ensures WellFormedBorrow(req) && fault == Some(StartSession) ==>
      o.result == Err(Status(Internal, "failed to start transaction"))
    ensures WellFormedBorrow(req) && StartFails(fault) ==>
      o.result == Err(Status(Unknown, fault.value.message))
    ensures WellFormedBorrow(req) && fault == Some(FindBook) ==>
      o.result == Err(Status(Internal, "failed to fetch book"))
    ensures (WellFormedBorrow(req) && ReachesFind(fault) &&
             !IsAvailable(t, ParseObjectId(req.bookId).value)) ==>
      o.result == Err(Status(NotFound, "book not available"))
    ensures (WellFormedBorrow(req) && IsAvailable(t, ParseObjectId(req.bookId).value) &&
             (fault == Some(InsertRecord) || (ReachesFind(fault) && newId in t.borrowedBooks))) ==>
      o.result == Err(Status(Internal, "failed to create borrow record"))
    ensures (WellFormedBorrow(req) && IsAvailable(t, ParseObjectId(req.bookId).value) &&
             newId !in t.borrowedBooks && fault == Some(UpdateBookStatus)) ==>
      o.result == Err(Status(Internal, "failed to update book status"))
    ensures (WellFormedBorrow(req) && IsAvailable(t, ParseObjectId(req.bookId).value) &&
             newId !in t.borrowedBooks && CommitFails(fault)) ==>
      o.result == Err(Status(Unknown, fault.value.message))
    ensures o.result.Ok? ==>
      var bookId, userId := ParseObjectId(req.bookId).value, ParseObjectId(req.userId).value;
      LoanOpened(t, o.tables, bookId, userId, now, newId) &&
      o.result.value == LoanReply(newId, bookId, userId, now, None)
  {
    match ParseObjectId(req.bookId)
    case None => Outcome(t, Err(Status(InvalidArgument, "invalid book ID")))
    case Some(bookId) =>
      match ParseObjectId(req.userId)
      case None => Outcome(t, Err(Status(InvalidArgument, "invalid user ID")))
      case Some(userId) =>
        if fault == Some(StartSession) then
          Outcome(t, Err(Status(Internal, "failed to start transaction")))
        else
          WithTransaction(t, BorrowWork(t, bookId, userId, now, newId, fault), fault)
  }

  /** The transaction callback of `BorrowBook`: find, insert, update, each checked. */
  method RunBorrowWork(db: Database, bookId: ObjectId, userId: ObjectId, now: int, newId: ObjectId, fault: Option<Step>)
    returns (r: Result<LoanReply>)
    modifies db
    ensures db.State() == BorrowWork(old(db.State()), bookId, userId, now, newId, fault).tables
    ensures r == BorrowWork(old(db.State()), bookId, userId, now, newId, fault).result
  {
    if fault == Some(FindBook) {
      return Err(Status(Internal, "failed to fetch book"));
    }
    var book := db.FindBook(bookId, Some(StatusAvailable));
    if book.None? {
      return Err(Status(NotFound, "book not available"));
    }
    if fault == Some(InsertRecord) {
      return Err(Status(Internal, "failed to create borrow record"));
    }
    var inserted := db.InsertBorrowedBook(newId, BorrowedBook(bookId, userId, now, None, None));
    if !inserted {
      return Err(Status(Internal, "failed to create borrow record"));
    }
    if fault == Some(UpdateBookStatus) {
      return Err(Status(Internal, "failed to update book status"));
    }
    var matched := db.SetBookLoan(bookId, StatusBorrowed, Some(userId));
    r := Ok(LoanReply(newId, bookId, userId, now, None));
  }

  /** `BorrowBook`: parse both ids, then run the work in one transaction. */
  method BorrowBook(db: Database, req: BorrowRequest, now: int, newId: ObjectId, fault: Option<Step>)
    returns (r: Result<LoanReply>)
    modifies db
    ensures db.State() == Borrow(old(db.State()), req, now, newId, fault).tables
    ensures r == Borrow(old(db.State()), req, now, newId, fault).result
  {
    var bookId := ParseObjectId(req.bookId);
    if bookId.None? {
      return Err(Status(InvalidArgument, "invalid book ID"));
    }
    var userId := ParseObjectId(req.userId);
    if userId.None? {
      return Err(Status(InvalidArgument, "invalid user ID"));
    }
    if fault == Some(StartSession) {
      return Err(Status(Internal, "failed to start transaction"));
    }
    if StartFails(fault) {
      return Err(Status(Unknown, fault.value.message));
    }
    var snapshot := db.State();
    r := RunBorrowWork(db, bookId.value, userId.value, now, newId, fault);
    if r.Err? {
      db.Restore(snapshot);
    } else if CommitFails(fault) {
      db.Restore(snapshot);
      r := Err(Status(Unknown, fault.value.message));
    }
  }

  // ---------------------------------------------------------------------------
  // Return
  // ---------------------------------------------------------------------------

  /** `fault` makes one of the storage calls of a return fail. */
  predicate FailsDuringReturn(fault: Option<Step>) {
    || fault in {Some(StartSession), Some(FindAndUpdateRecord), Some(UpdateBookStatus)}
    || StartFails(fault) || CommitFails(fault)
  }

  /** The session and the transaction start, and the record update itself does not fail. */
  predicate ReachesClose(fault: Option<Step>) {
    fault !in {Some(StartSession), Some(FindAndUpdateRecord)} && !StartFails(fault)
  }

  predicate IsOpenRecord(t: Tables, rid: ObjectId) {
    rid in t.borrowedBooks && IsOpen(t.borrowedBooks[rid])
  }

  /**
   * The state after a successful return of record `rid`: only that record's
   * return date is set; its book, if it still exists, is available with no
   * borrower; every other book and record as before.
   */
  ghost predicate LoanClosed(t: Tables, t': Tables, rid: ObjectId, returnTime: int) {
    && IsOpenRecord(t, rid)
    && t'.borrowedBooks.Keys == t.borrowedBooks.Keys
    && t'.borrowedBooks[rid] == t.borrowedBooks[rid].(returnDate := Some(returnTime))
    && (forall r | r in t.borrowedBooks && r != rid :: t'.borrowedBooks[r] == t.borrowedBooks[r])
    && var bookId := t.borrowedBooks[rid].bookId;
    && t'.books.Keys == t.books.Keys
    && (bookId in t.books ==> t'.books[bookId] == t.books[bookId].(status := StatusAvailable, userId := None))
    && (forall id | id in t.books && id != bookId :: t'.books[id] == t.books[id])
  }

  /** The unit of work of a return, once the id is parsed and the session is open. */
  function ReturnWork(t: Tables, rid: ObjectId, returnTime: int, fault: Option<Step>): (o: Outcome<LoanReply>)
    ensures o.result.Ok? <==>
      IsOpenRecord(t, rid) && fault !in {Some(FindAndUpdateRecord), Some(UpdateBookStatus)}
    ensures o.result.Ok? ==>
      var r := t.borrowedBooks[rid];
      LoanClosed(t, o.tables, rid, returnTime) &&
      o.result.value == LoanReply(rid, r.bookId, r.userId, r.borrowedDate, Some(returnTime))
    ensures fault == Some(FindAndUpdateRecord) ==>
      o == Outcome(t, Err(Status(Internal, "failed to update borrow record")))
    ensures fault != Some(FindAndUpdateRecord) && !IsOpenRecord(t, rid) ==>
      o == Outcome(t, Err(Status(NotFound, "borrow record not found or already returned")))
    ensures fault == Some(UpdateBookStatus) && IsOpenRecord(t, rid) ==>
      // The return date is already written when the book update fails.
      && o.tables.books == t.books
      && o.tables.borrowedBooks == t.borrowedBooks[rid := t.borrowedBooks[rid].(returnDate := Some(returnTime))]
      && o.result == Err(Status(Internal, "failed to update book status"))
  {
    if fault == Some(FindAndUpdateRecord) then
      Outcome(t, Err(Status(Internal, "failed to update borrow record")))
    else if !IsOpenRecord(t, rid) then
      Outcome(t, Err(Status(NotFound, "borrow record not found or already returned")))
    else
      var before := t.borrowedBooks[rid];
      var closed := t.(borrowedBooks := t.borrowedBooks[rid := before.(returnDate := Some(returnTime))]);
      if fault == Some(UpdateBookStatus) then
        Outcome(closed, Err(Status(Internal, "failed to update book status")))
      else
        var books := if before.bookId in closed.books
          then closed.books[before.bookId := closed.books[before.bookId].(status := StatusAvailable, userId := None)]
          else closed.books;
        Outcome(closed.(books := books),
                Ok(LoanReply(rid, before.bookId, before.userId, before.borrowedDate, Some(returnTime))))
  }

  /** `ReturnBook` of the record whose id is the text `id`, at time `returnTime`. */
  function Return(t: Tables, id: string, returnTime: int, fault: Option<Step>): (o: Outcome<LoanReply>)
    ensures o.result.Err? ==> o.tables == t
    ensures ParseObjectId(id).None? ==> o.result == Err(Status(InvalidArgument, "invalid borrow ID"))
    ensures o.result.Ok? <==>
      ParseObjectId(id).Some? && IsOpenRecord(t, ParseObjectId(id).value) && !FailsDuringReturn(fault)
    ensures ParseObjectId(id).Some? && fault == Some(StartSession) ==>
      o.result == Err(Status(Internal, "failed to start transaction"))
    ensures ParseObjectId(id).Some? && StartFails(fault) ==>
      o.result == Err(Status(Unknown, fault.value.message))
    ensures ParseObjectId(id).Some? && fault == Some(FindAndUpdateRecord) ==>
      o.result == Err(Status(Internal, "failed to update borrow record"))
    ensures (ParseObjectId(id).Some? && !IsOpenRecord(t, ParseObjectId(id).value) && ReachesClose(fault)) ==>
      o.result == Err(Status(NotFound, "borrow record not found or already returned"))
    ensures (ParseObjectId(id).Some? && IsOpenRecord(t, ParseObjectId(id).value) &&
             fault == Some(UpdateBookStatus)) ==>
      o.result == Err(Status(Internal, "failed to update book status"))
    ensures (ParseObjectId(id).Some? && IsOpenRecord(t, ParseObjectId(id).value) && CommitFails(fault)) ==>
      o.result == Err(Status(Unknown, fault.value.message))
    ensures o.result.Ok? ==>
      var rid := ParseObjectId(id).value;
      var r := t.borrowedBooks[rid];
      LoanClosed(t, o.tables, rid, returnTime) &&
      o.result.value == LoanReply(rid, r.bookId, r.userId, r.borrowedDate, Some(returnTime))
  {
    match ParseObjectId(id)
    case None => Outcome(t, Err(Status(InvalidArgument, "invalid borrow ID")))
    case Some(rid) =>
      if fault == Some(StartSession) then
        Outcome(t, Err(Status(Internal, "failed to start transaction")))
      else
        WithTransaction(t, ReturnWork(t, rid, returnTime, fault), fault)
  }

  /** The transaction callback of `ReturnBook`: close the loan, then free its book. */
  method RunReturnWork(db: Database, rid: ObjectId, returnTime: int, fault: Option<Step>) returns (r: Result<LoanReply>)
    modifies db
    ensures db.State() == ReturnWork(old(db.State()), rid, returnTime, fault).tables
    ensures r == ReturnWork(old(db.State()), rid, returnTime, fault).result
  {
    if fault == Some(FindAndUpdateRecord) {
      return Err(Status(Internal, "failed to update borrow record"));
    }
    var before := db.CloseOpenLoan(rid, returnTime);
    if before.None? {
      return Err(Status(NotFound, "borrow record not found or already returned"));
    }
    var loan := before.value;
    if fault == Some(UpdateBookStatus) {
      return Err(Status(Internal, "failed to update book status"));
    }
    // A loan whose book was deleted matches nothing here; that is not an error.
    var matched := db.SetBookLoan(loan.bookId, StatusAvailable, None);
    r := Ok(LoanReply(rid, loan.bookId, loan.userId, loan.borrowedDate, Some(returnTime)));
  }

  /** `ReturnBook`: parse the record id, then run the work in one transaction. */
  method ReturnBook(db: Database, id: string, returnTime: int, fault: Option<Step>) returns (r: Result<LoanReply>)
    modifies db
    ensures db.State() == Return(old(db.State()), id, returnTime, fault).tables
    ensures r == Return(old(db.State()), id, returnTime, fault).result
  {
    var rid := ParseObjectId(id);
    if rid.None? {
      return Err(Status(InvalidArgument, "invalid borrow ID"));
    }
    if fault == Some(StartSession) {
      return Err(Status(Internal, "failed to start transaction"));
    }
    if StartFails(fault) {
      return Err(Status(Unknown, fault.value.message));
    }
    var snapshot := db.State();
    r := RunReturnWork(db, rid.value, returnTime, fault);
    if r.Err? {
      db.Restore(snapshot);
    } else if CommitFails(fault) {
      db.Restore(snapshot);
      r := Err(Status(Unknown, fault.value.message));
    }
  }

  // ---------------------------------------------------------------------------
  // The lending invariant across borrow and return
  // ---------------------------------------------------------------------------

  /** In a consistent state a book with an open loan is not available. */
  lemma LentBookIsUnavailable(t: Tables, bookId: ObjectId)
    requires Consistent(t) && HasOpenLoan(t, bookId)
    ensures !IsAvailable(t, bookId)
  {
  }

  lemma LoanOpenedKeepsConsistency(t: Tables, t': Tables, bookId: ObjectId, userId: ObjectId, now: int, newId: ObjectId)
    requires Consistent(t) && IsAvailable(t, bookId)
    requires LoanOpened(t, t', bookId, userId, now, newId)
    ensures Consistent(t')
  {
    forall r | r in t.borrowedBooks && IsOpen(t.borrowedBooks[r])
      ensures t.borrowedBooks[r].bookId != bookId
    {
      assert LentOut(t, t.borrowedBooks[r]);
    }
    forall id | id in t'.books
      ensures if t'.books[id].status == StatusAvailable then t'.books[id].userId.None? else HasOpenLoan(t', id)
    {
      if id == bookId {
        assert OpenLoanOf(t', id, newId);
      } else if t.books[id].status != StatusAvailable {
        var rid :| OpenLoanOf(t, id, rid);
        assert OpenLoanOf(t', id, rid);
      }
    }
  }

  /** A borrow, successful or not, keeps the tables consistent. */
  lemma BorrowPreservesConsistency(t: Tables, req: BorrowRequest, now: int, newId: ObjectId, fault: Option<Step>)
    requires Consistent(t)
    ensures Consistent(Borrow(t, req, now, newId, fault).tables)
  {
    var o := Borrow(t, req, now, newId, fault);
    if o.result.Ok? {
      LoanOpenedKeepsConsistency(t, o.tables, ParseObjectId(req.bookId).value, ParseObjectId(req.userId).value, now, newId);
    }
  }

  /** In a consistent state a book that is out on loan cannot be borrowed. */
  lemma NoBorrowWhileLent(t: Tables, req: BorrowRequest, now: int, newId: ObjectId, fault: Option<Step>)
    requires Consistent(t) && WellFormedBorrow(req) && HasOpenLoan(t, ParseObjectId(req.bookId).value)
    requires ReachesFind(fault)
    ensures Borrow(t, req, now, newId, fault) == Outcome(t, Err(Status(NotFound, "book not available")))
  {
  }

  /** Once a borrow succeeded, a second borrow of that book fails until it is returned. */
  lemma SecondBorrowFails(t: Tables, req: BorrowRequest, now: int, newId: ObjectId, fault: Option<Step>,
                          req': BorrowRequest, now': int, newId': ObjectId, fault': Option<Step>)
    requires Borrow(t, req, now, newId, fault).result.Ok?
    requires WellFormedBorrow(req') && ParseObjectId(req'.bookId) == ParseObjectId(req.bookId)
    requires ReachesFind(fault')
    ensures var t' := Borrow(t, req, now, newId, fault).tables;
            Borrow(t', req', now', newId', fault') == Outcome(t', Err(Status(NotFound, "book not available")))
  {
  }

  lemma LoanClosedKeepsConsistency(t: Tables, t': Tables, rid: ObjectId, returnTime: int)
    requires Consistent(t) && LoanClosed(t, t', rid, returnTime)
    ensures Consistent(t')
  {
    var loan := t.borrowedBooks[rid];
    var bookId := loan.bookId;
    assert LentOut(t, loan);
    forall id | id in t'.books
      ensures if t'.books[id].status == StatusAvailable then t'.books[id].userId.None? else HasOpenLoan(t', id)
    {
      if id != bookId && t.books[id].status != StatusAvailable {
        var r :| OpenLoanOf(t, id, r);
        assert OpenLoanOf(t', id, r);
      }
    }
    forall r | r in t'.borrowedBooks && IsOpen(t'.borrowedBooks[r])
      ensures LentOut(t', t'.borrowedBooks[r])
    {
      assert LentOut(t, t.borrowedBooks[r]);
    }
  }

  /** A return, successful or not, keeps the tables consistent, whatever the record's status. */
  lemma ReturnPreservesConsistency(t: Tables, id: string, returnTime: int, fault: Option<Step>)
    requires Consistent(t)
    ensures Consistent(Return(t, id, returnTime, fault).tables)
  {
    var o := Return(t, id, returnTime, fault);
    if o.result.Ok? {
      LoanClosedKeepsConsistency(t, o.tables, ParseObjectId(id).value, returnTime);
    }
  }

  /** In a consistent state a successful return frees a book that exists. */
  lemma ReturnFreesTheBook(t: Tables, id: string, returnTime: int, fault: Option<Step>)
    requires Consistent(t)
    requires Return(t, id, returnTime, fault).result.Ok?
    ensures var bookId := Return(t, id, returnTime, fault).result.value.bookId;
            var t' := Return(t, id, returnTime, fault).tables;
            bookId in t.books && bookId in t'.books &&
            t'.books[bookId] == t.books[bookId].(status := StatusAvailable, userId := None)
  {
  }

  /** A closed (or unknown) record cannot be returned again. */
  lemma SecondReturnFails(t: Tables, id: string, returnTime: int, fault: Option<Step>,
                          returnTime': int, fault': Option<Step>)
    requires Return(t, id, returnTime, fault).result.Ok?
    requires ReachesClose(fault')
    ensures var t' := Return(t, id, returnTime, fault).tables;
            Return(t', id, returnTime', fault') ==
            Outcome(t', Err(Status(NotFound, "borrow record not found or already returned")))
  {
  }

  /** Returning a loan whose book is gone still succeeds and leaves the books table alone. */
  lemma ReturnAfterBookDeleted(t: Tables, id: string, returnTime: int, fault: Option<Step>)
    requires ParseObjectId(id).Some? && IsOpenRecord(t, ParseObjectId(id).value)
    requires t.borrowedBooks[ParseObjectId(id).value].bookId !in t.books
    requires !FailsDuringReturn(fault)
    ensures Return(t, id, returnTime, fault).result.Ok?
    ensures Return(t, id, returnTime, fault).tables.books == t.books
  {
  }
}
