/**
 * Properties of sequences of calls: a borrow followed by its return, and an
 * overdue sweep followed by the return of a swept loan.
 */
module Lifecycle {
  import opened Models
  import opened Store
  import opened BorrowService
  import opened Scheduler

  /** The empty database is consistent, so every state reached by lending calls and ticks is. */
  lemma EmptyIsConsistent()
    ensures Consistent(Tables(map[], map[]))
  {
  }

  /**
   * Borrow, then return the record the borrow created (by the id it printed):
   * the return succeeds, closes exactly that record, frees the book, and a
   * second return of the same record is refused.
   */
  lemma BorrowThenReturn(t: Tables, req: BorrowRequest, now: int, newId: ObjectId, fault: Option<Step>,
                         returnTime: int, fault': Option<Step>, returnTime': int, fault'': Option<Step>)
    requires Borrow(t, req, now, newId, fault).result.Ok?
    requires Canonical(newId) && !FailsDuringReturn(fault')
    requires ReachesClose(fault'')
    ensures var bookId, userId := ParseObjectId(req.bookId).value, ParseObjectId(req.userId).value;
            var back := Return(Borrow(t, req, now, newId, fault).tables, newId.hex, returnTime, fault');
            && back.result == Ok(LoanReply(newId, bookId, userId, now, Some(returnTime)))
            && back.tables.books == t.books[bookId := t.books[bookId].(status := StatusAvailable, userId := None)]
            && back.tables.borrowedBooks ==
               t.borrowedBooks[newId := BorrowedBook(bookId, userId, now, Some(returnTime), None)]
            && (Consistent(t) ==> back.tables.books == t.books)
            && Return(back.tables, newId.hex, returnTime', fault'') ==
               Outcome(back.tables, Err(Status(NotFound, "borrow record not found or already returned")))
  {
    var bookId, userId := ParseObjectId(req.bookId).value, ParseObjectId(req.userId).value;
    var lent := Borrow(t, req, now, newId, fault).tables;
    ParsePrintedId(newId);
    var back := Return(lent, newId.hex, returnTime, fault');
    assert back.tables.books == t.books[bookId := t.books[bookId].(status := StatusAvailable, userId := None)];
    assert back.tables.borrowedBooks ==
           t.borrowedBooks[newId := BorrowedBook(bookId, userId, now, Some(returnTime), None)];
    if Consistent(t) {
      assert t.books[bookId].(status := StatusAvailable, userId := None) == t.books[bookId];
    }
  }

  /**
   * A loan the sweep marked overdue can still be returned: the return does not
   * look at the record's status. The record keeps its overdue mark, gains its
   * return date, and its book becomes available with no borrower.
   */
  lemma OverdueLoanIsReturnable(t: Tables, now: int, id: string, returnTime: int, fault: Option<Step>)
    requires Consistent(t)
    requires ParseObjectId(id).Some? && IsOpenRecord(t, ParseObjectId(id).value)
    requires t.borrowedBooks[ParseObjectId(id).value].borrowedDate < Cutoff(now)
    requires !FailsDuringReturn(fault)
    ensures var rid := ParseObjectId(id).value;
            var swept := Tick(t, now, false).tables;
            var back := Return(swept, id, returnTime, fault);
            var bookId := t.borrowedBooks[rid].bookId;
            && swept.borrowedBooks[rid].status == Some(StatusOverdue)
            && back.result.Ok?
            && back.tables.borrowedBooks[rid] == t.borrowedBooks[rid].(returnDate := Some(returnTime), status := Some(StatusOverdue))
            && bookId in back.tables.books
            && back.tables.books[bookId] == t.books[bookId].(status := StatusAvailable, userId := None)
            && Consistent(back.tables)
  {
    var rid := ParseObjectId(id).value;
    var swept := Tick(t, now, false).tables;
    assert LentOut(t, t.borrowedBooks[rid]);
    TickPreservesConsistency(t, now, false);
    ReturnPreservesConsistency(swept, id, returnTime, fault);
  }
}
