/**
 * One tick of the overdue sweep (`checkOverdueBooks`): a bulk update of the
 * `borrowed_books` collection that sets `status = "overdue"` on every open loan
 * borrowed strictly before fourteen days ago. The tick reports the number of
 * records it changed, or that the update failed; it returns nothing to a caller.
 */
module Scheduler {
  import opened Models
  import opened Store

  /** Fourteen days, in seconds. */
  const OverduePeriod: int := 14 * 24 * 3600

  function Cutoff(now: int): int {
    now - OverduePeriod
  }

  /** The sweep's filter: `return_date` is null and `borrowed_date < cutoff`. */
  predicate MatchesOverdue(r: BorrowedBook, now: int) {
    IsOpen(r) && r.borrowedDate < Cutoff(now)
  }

  /** A matching record that the `$set` really changes (the driver's ModifiedCount). */
  predicate ChangedByTick(r: BorrowedBook, now: int) {
    MatchesOverdue(r, now) && r.status != Some(StatusOverdue)
  }

  /** A record as the tick's `$set` leaves it. */
  function MarkIfOverdue(r: BorrowedBook, now: int): BorrowedBook {
    if MatchesOverdue(r, now) then r.(status := Some(StatusOverdue)) else r
  }

  /** The `borrowed_books` table after one tick at time `now`. */
  function Sweep(m: map<ObjectId, BorrowedBook>, now: int): (m': map<ObjectId, BorrowedBook>)
    ensures m'.Keys == m.Keys
    ensures forall id | id in m :: m'[id].(status := m[id].status) == m[id]
    ensures forall id | id in m :: (m'[id].status == Some(StatusOverdue) <==>
                                      MatchesOverdue(m[id], now) || m[id].status == Some(StatusOverdue))
    ensures forall id | id in m && !MatchesOverdue(m[id], now) :: m'[id] == m[id]
  {
    map id | id in m :: MarkIfOverdue(m[id], now)
  }

  function ModifiedCount(m: map<ObjectId, BorrowedBook>, now: int): nat {
    |set id | id in m && ChangedByTick(m[id], now)|
  }

  /** How many of the records `keys` the tick changes. */
  function ChangedAmong(m: map<ObjectId, BorrowedBook>, now: int, keys: set<ObjectId>): nat {
    |set k | k in keys && k in m && ChangedByTick(m[k], now)|
  }

  /** What the tick logs. */
  datatype SweepLog = Updated(modifiedCount: nat) | UpdateFailed

  datatype TickOutcome = TickOutcome(tables: Tables, log: SweepLog)

  /** One tick at time `now` on the tables `t`; `fails` stands for UpdateMany returning an error. */
  function Tick(t: Tables, now: int, fails: bool): (o: TickOutcome)
    ensures o.tables.books == t.books
    ensures fails ==> o == TickOutcome(t, UpdateFailed)
    ensures !fails ==> o.tables.borrowedBooks == Sweep(t.borrowedBooks, now)
    ensures !fails ==> o.log == Updated(ModifiedCount(t.borrowedBooks, now))
  {
    if fails then TickOutcome(t, UpdateFailed)
    else TickOutcome(t.(borrowedBooks := Sweep(t.borrowedBooks, now)), Updated(ModifiedCount(t.borrowedBooks, now)))
  }

  /** Adding one key to the scanned part of the table adds at most that key to the changed ones. */
  lemma ChangedGrows(m: map<ObjectId, BorrowedBook>, now: int, done: set<ObjectId>, id: ObjectId)
    requires id in m && id !in done
    ensures ChangedAmong(m, now, done + {id}) == ChangedAmong(m, now, done) + (if ChangedByTick(m[id], now) then 1 else 0)
  {
    var before := set k | k in done && k in m && ChangedByTick(m[k], now);
    var after := set k | k in done + {id} && k in m && ChangedByTick(m[k], now);
    if ChangedByTick(m[id], now) {
      assert after == before + {id};
    } else {
      assert after == before;
    }
  }

  lemma SweepIsPointwise(m: map<ObjectId, BorrowedBook>, m': map<ObjectId, BorrowedBook>, now: int)
    requires m'.Keys == m.Keys
    requires forall id | id in m :: m'[id] == MarkIfOverdue(m[id], now)
    ensures m' == Sweep(m, now)
  {
  }

  /**
   * The sweep's UpdateMany, written out as a loop over the records: set the
   * status of each matching record and count those it changes, then store the
   * updated records.
   */
  method MarkOverdueRecords(db: Database, now: int) returns (modified: nat)
    modifies db
    ensures db.books == old(db.books)
    ensures db.borrowedBooks == Sweep(old(db.borrowedBooks), now)
    ensures modified == ModifiedCount(old(db.borrowedBooks), now)
  {
    var cutoff := now - OverduePeriod;
    var initial := db.borrowedBooks;
    var records := initial;
    var pending := initial.Keys;
    ghost var done: set<ObjectId> := {};
    modified := 0;
    while pending != {}
      invariant pending !! done && pending + done == initial.Keys
      invariant db.books == old(db.books)
      invariant records.Keys == initial.Keys
      invariant forall id | id in done :: records[id] == MarkIfOverdue(initial[id], now)
      invariant forall id | id in pending :: records[id] == initial[id]
      invariant modified == ChangedAmong(initial, now, done)
      decreases pending
    {
      var id :| id in pending;
      ChangedGrows(initial, now, done, id);
      var record := records[id];
      if record.returnDate.None? && record.borrowedDate < cutoff {
        if record.status != Some(StatusOverdue) {
          modified := modified + 1;
        }
        records := records[id := record.(status := Some(StatusOverdue))];
      }
      pending := pending - {id};
      done := done + {id};
    }
    SweepIsPointwise(initial, records, now);
    assert (set k | k in done && k in initial && ChangedByTick(initial[k], now)) ==
           (set k | k in initial && ChangedByTick(initial[k], now));
    db.borrowedBooks := records;
  }

  /** `checkOverdueBooks`: one UpdateMany, whose outcome is logged. */
  method CheckOverdueBooks(db: Database, now: int, fails: bool) returns (log: SweepLog)
    modifies db
    ensures db.State() == Tick(old(db.State()), now, fails).tables
    ensures log == Tick(old(db.State()), now, fails).log
  {
    if fails {
      return UpdateFailed;
    }
    var modified := MarkOverdueRecords(db, now);
    log := Updated(modified);
  }

  // ---------------------------------------------------------------------------
  // Properties of a tick
  // ---------------------------------------------------------------------------

  /** The cutoff is strict: a loan exactly fourteen days old is not overdue, one a second older is. */
  lemma CutoffIsStrict(r: BorrowedBook, now: int)
    requires IsOpen(r)
    ensures r.borrowedDate == now - 1209600 ==> !MatchesOverdue(r, now)
    ensures r.borrowedDate == now - 1209600 - 1 ==> MatchesOverdue(r, now)
  {
  }

  /** Closed loans are never marked, however old. */
  lemma ClosedLoansNeverMarked(m: map<ObjectId, BorrowedBook>, now: int, id: ObjectId)
    requires id in m && !IsOpen(m[id])
    ensures Sweep(m, now)[id] == m[id]
  {
  }

  /** Two ticks at the same time leave the tables as one does, and the second changes nothing. */
  lemma TickIsIdempotent(t: Tables, now: int)
    ensures var once := Tick(t, now, false).tables;
            Tick(once, now, false) == TickOutcome(once, Updated(0))
  {
  }

  /** A later tick subsumes an earlier one: marks only accumulate as the clock advances. */
  lemma LaterTickSubsumes(m: map<ObjectId, BorrowedBook>, now: int, later: int)
    requires now <= later
    ensures Sweep(Sweep(m, now), later) == Sweep(m, later)
  {
  }

  /** The reported count never exceeds the number of records. */
  lemma ModifiedCountBounded(m: map<ObjectId, BorrowedBook>, now: int)
    ensures ModifiedCount(m, now) <= |m|
  {
    var changed := set id | id in m && ChangedByTick(m[id], now);
    SubsetNoLarger(changed, m.Keys);
    assert |m.Keys| == |m|;
  }

  lemma {:induction false} SubsetNoLarger<T>(a: set<T>, b: set<T>)
    requires a <= b
    ensures |a| <= |b|
    decreases b
  {
    if a != {} {
      var x :| x in a;
      SubsetNoLarger(a - {x}, b - {x});
    }
  }

  /** A tick only writes record statuses, so it keeps the tables consistent. */
  lemma TickPreservesConsistency(t: Tables, now: int, fails: bool)
    requires Consistent(t)
    ensures Consistent(Tick(t, now, fails).tables)
  {
    var t' := Tick(t, now, fails).tables;
    forall rid | rid in t'.borrowedBooks && IsOpen(t'.borrowedBooks[rid])
      ensures LentOut(t', t'.borrowedBooks[rid])
    {
      assert LentOut(t, t.borrowedBooks[rid]);
    }
    forall id | id in t'.books && t'.books[id].status != StatusAvailable
      ensures HasOpenLoan(t', id)
    {
      var rid :| OpenLoanOf(t, id, rid);
      assert OpenLoanOf(t', id, rid);
    }
  }
}
