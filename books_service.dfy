/**
 * The book catalogue: `CreateBook`, `GetBook`, `UpdateBook` and `DeleteBook`,
 * each one single-document call on the `books` collection. `fails` stands for
 * that call returning a storage error.
 */
module BookService {
  import opened Models
  import opened Store

  /** `CreateBook` at time `now`, `newId` being the id the storage assigns. */
  function Create(t: Tables, req: BookPayload, now: int, newId: ObjectId, fails: bool): (o: Outcome<BookReply>)
    ensures o.result.Ok? <==> !fails && newId !in t.books
    ensures o.result.Err? ==> o.tables == t && o.result.status == Status(Internal, "failed to create book")
    ensures o.tables.borrowedBooks == t.borrowedBooks
    ensures o.result.Ok? ==>
      && o.tables.books.Keys == t.books.Keys + {newId}
      && o.tables.books[newId] == Book(req.title, req.author, now, StatusAvailable, None)
      && (forall id | id in t.books :: o.tables.books[id] == t.books[id])
      && o.result.value == BookReply(newId, o.tables.books[newId])
  {
    // The request's published date, status and user are not used.
    var book := Book(req.title, req.author, now, StatusAvailable, None);
    if fails || newId in t.books then
      Outcome(t, Err(Status(Internal, "failed to create book")))
    else
      Outcome(t.(books := t.books[newId := book]), Ok(BookReply(newId, book)))
  }

  method CreateBook(db: Database, req: BookPayload, now: int, newId: ObjectId, fails: bool) returns (r: Result<BookReply>)
    modifies db
    ensures db.State() == Create(old(db.State()), req, now, newId, fails).tables
    ensures r == Create(old(db.State()), req, now, newId, fails).result
  {
    var book := Book(req.title, req.author, now, StatusAvailable, None);
    if fails {
      return Err(Status(Internal, "failed to create book"));
    }
    var inserted := db.InsertBook(newId, book);
    if !inserted {
      return Err(Status(Internal, "failed to create book"));
    }
    r := Ok(BookReply(newId, book));
  }

  /** `GetBook` of the book whose id is the text `id`. */
  function Get(t: Tables, id: string, fails: bool): (r: Result<BookReply>)
    ensures ParseObjectId(id).None? ==> r == Err(Status(InvalidArgument, "invalid book ID"))
    ensures r.Ok? <==> ParseObjectId(id).Some? && !fails && ParseObjectId(id).value in t.books
    ensures r.Ok? ==> r.value == BookReply(ParseObjectId(id).value, t.books[ParseObjectId(id).value])
    ensures ParseObjectId(id).Some? && r.Err? ==> r == Err(Status(NotFound, "book not found"))
  {
    match ParseObjectId(id)
    case None => Err(Status(InvalidArgument, "invalid book ID"))
    case Some(bookId) =>
      if fails || bookId !in t.books then Err(Status(NotFound, "book not found"))
      else Ok(BookReply(bookId, t.books[bookId]))
  }

  /** `GetBook` reads the database and changes nothing. */
  method GetBook(db: Database, id: string, fails: bool) returns (r: Result<BookReply>)
    ensures r == Get(db.State(), id, fails)
  {
    var bookId := ParseObjectId(id);
    if bookId.None? {
      return Err(Status(InvalidArgument, "invalid book ID"));
    }
    var found := db.FindBook(bookId.value, None);
    if fails || found.None? {
      return Err(Status(NotFound, "book not found"));
    }
    r := Ok(BookReply(bookId.value, found.value));
  }

  /**
   * `UpdateBook`: overwrite title, author, published date and status of the book
   * `req.id` with the request's values; the borrower is left alone. The reply
   * echoes the request, whether or not a book matched.
   */
  function Update(t: Tables, req: BookPayload, fails: bool): (o: Outcome<BookPayload>)
    ensures ParseObjectId(req.id).None? ==> o.result == Err(Status(InvalidArgument, "invalid book ID"))
    ensures ParseObjectId(req.id).Some? && fails ==> o.result == Err(Status(Internal, "failed to update book"))
    ensures o.result.Ok? <==> ParseObjectId(req.id).Some? && !fails
    ensures o.result.Ok? ==> o.result.value == req
    ensures o.result.Err? ==> o.tables == t
    ensures o.tables.borrowedBooks == t.borrowedBooks && o.tables.books.Keys == t.books.Keys
    ensures o.result.Ok? ==>
      var bookId := ParseObjectId(req.id).value;
      && (forall id | id in t.books && id != bookId :: o.tables.books[id] == t.books[id])
      && (bookId in t.books ==>
            o.tables.books[bookId] ==
            Book(req.title, req.author, req.publishedDate, req.status, t.books[bookId].userId))
  {
    match ParseObjectId(req.id)
    case None => Outcome(t, Err(Status(InvalidArgument, "invalid book ID")))
    case Some(bookId) =>
      if fails then Outcome(t, Err(Status(Internal, "failed to update book")))
      else if bookId !in t.books then Outcome(t, Ok(req))
      else
        var b := t.books[bookId].(title := req.title, author := req.author,
                                  publishedDate := req.publishedDate, status := req.status);
        Outcome(t.(books := t.books[bookId := b]), Ok(req))
  }

  method UpdateBook(db: Database, req: BookPayload, fails: bool) returns (r: Result<BookPayload>)
    modifies db
    ensures db.State() == Update(old(db.State()), req, fails).tables
    ensures r == Update(old(db.State()), req, fails).result
  {
    var bookId := ParseObjectId(req.id);
    if bookId.None? {
      return Err(Status(InvalidArgument, "invalid book ID"));
    }
    if fails {
      return Err(Status(Internal, "failed to update book"));
    }
    var matched := db.SetBookFields(bookId.value, req.title, req.author, req.publishedDate, req.status);
    r := Ok(req);
  }

  /** `DeleteBook`: remove the book whatever its status; loans are not touched. */
  function Delete(t: Tables, id: string, fails: bool): (o: Outcome<string>)
    ensures ParseObjectId(id).None? ==> o.result == Err(Status(InvalidArgument, "invalid book ID"))
    ensures ParseObjectId(id).Some? && fails ==> o.result == Err(Status(Internal, "failed to delete book"))
    ensures o.result.Ok? <==> ParseObjectId(id).Some? && !fails
    ensures o.result.Ok? ==> o.result.value == id && o.tables.books.Keys == t.books.Keys - {ParseObjectId(id).value}
    ensures o.result.Err? ==> o.tables == t
    ensures o.tables.borrowedBooks == t.borrowedBooks
    ensures forall k | k in o.tables.books :: k in t.books && o.tables.books[k] == t.books[k]
  {
    match ParseObjectId(id)
    case None => Outcome(t, Err(Status(InvalidArgument, "invalid book ID")))
    case Some(bookId) =>
      if fails then Outcome(t, Err(Status(Internal, "failed to delete book")))
      else Outcome(t.(books := t.books - {bookId}), Ok(id))
  }

  method DeleteBook(db: Database, id: string, fails: bool) returns (r: Result<string>)
    modifies db
    ensures db.State() == Delete(old(db.State()), id, fails).tables
    ensures r == Delete(old(db.State()), id, fails).result
  {
    var bookId := ParseObjectId(id);
    if bookId.None? {
      return Err(Status(InvalidArgument, "invalid book ID"));
    }
    if fails {
      return Err(Status(Internal, "failed to delete book"));
    }
    // Matching no book is not an error.
    var deleted := db.DeleteBookDocument(bookId.value);
    r := Ok(id);
  }

  // ---------------------------------------------------------------------------
  // The catalogue calls and the lending invariant
  // ---------------------------------------------------------------------------

  /** Creating a book keeps the tables consistent: the new book is available and unlent. */
  lemma CreatePreservesConsistency(t: Tables, req: BookPayload, now: int, newId: ObjectId, fails: bool)
    requires Consistent(t)
    ensures Consistent(Create(t, req, now, newId, fails).tables)
  {
    var t' := Create(t, req, now, newId, fails).tables;
    forall rid | rid in t.borrowedBooks && IsOpen(t.borrowedBooks[rid])
      ensures LentOut(t', t.borrowedBooks[rid])
    {
      assert LentOut(t, t.borrowedBooks[rid]);
    }
    forall id | id in t'.books && t'.books[id].status != StatusAvailable
      ensures HasOpenLoan(t', id)
    {
      var rid :| OpenLoanOf(t, id, rid);
      assert OpenLoanOf(t', id, rid);
    }
  }

  /**
   * In a consistent state, a raw update keeps consistency exactly when it leaves
   * the book's status as it was (or matches no book): any other status string
   * breaks the link between the book and its loans.
   */
  lemma UpdateConsistentIff(t: Tables, req: BookPayload, fails: bool)
    requires Consistent(t) && Update(t, req, fails).result.Ok?
    ensures var bookId := ParseObjectId(req.id).value;
            Consistent(Update(t, req, fails).tables) <==>
            (bookId !in t.books || req.status == t.books[bookId].status)
  {
    var bookId := ParseObjectId(req.id).value;
    var t' := Update(t, req, fails).tables;
    if bookId !in t.books {
      assert t' == t;
    } else if req.status == t.books[bookId].status {
      forall rid | rid in t.borrowedBooks && IsOpen(t.borrowedBooks[rid])
        ensures LentOut(t', t.borrowedBooks[rid])
      {
        assert LentOut(t, t.borrowedBooks[rid]);
      }
      forall id | id in t'.books && t'.books[id].status != StatusAvailable
        ensures HasOpenLoan(t', id)
      {
        var rid :| OpenLoanOf(t, id, rid);
        assert OpenLoanOf(t', id, rid);
      }
    } else if t.books[bookId].status == StatusAvailable {
      // The book had no loan, and now claims to be lent.
      forall r | r in t.borrowedBooks && IsOpen(t.borrowedBooks[r])
        ensures t.borrowedBooks[r].bookId != bookId
      {
        assert LentOut(t, t.borrowedBooks[r]);
      }
      assert !HasOpenLoan(t', bookId);
    } else {
      // The book's open loan no longer finds it marked borrowed.
      var rid :| OpenLoanOf(t, bookId, rid);
      assert LentOut(t, t.borrowedBooks[rid]);
      assert !LentOut(t', t'.borrowedBooks[rid]);
    }
  }

  /** The concrete hazard: marking a lent book available leaves its open loan dangling. */
  lemma UpdateToAvailableBreaksConsistency(t: Tables, req: BookPayload, fails: bool)
    requires Consistent(t) && ParseObjectId(req.id).Some? && !fails
    requires HasOpenLoan(t, ParseObjectId(req.id).value)
    requires req.status == StatusAvailable
    ensures !Consistent(Update(t, req, fails).tables)
  {
  }

  /**
   * In a consistent state, deleting a book keeps consistency exactly when the
   * book is absent or available; deleting a lent book orphans its open loan.
   */
  lemma DeleteConsistentIff(t: Tables, id: string, fails: bool)
    requires Consistent(t) && Delete(t, id, fails).result.Ok?
    ensures var bookId := ParseObjectId(id).value;
            Consistent(Delete(t, id, fails).tables) <==>
            (bookId !in t.books || t.books[bookId].status == StatusAvailable)
  {
    var bookId := ParseObjectId(id).value;
    var t' := Delete(t, id, fails).tables;
    if bookId !in t.books || t.books[bookId].status == StatusAvailable {
      forall r | r in t.borrowedBooks && IsOpen(t.borrowedBooks[r])
        ensures t.borrowedBooks[r].bookId != bookId && LentOut(t', t.borrowedBooks[r])
      {
        assert LentOut(t, t.borrowedBooks[r]);
      }
      forall k | k in t'.books && t'.books[k].status != StatusAvailable
        ensures HasOpenLoan(t', k)
      {
        var rid :| OpenLoanOf(t, k, rid);
        assert OpenLoanOf(t', k, rid);
      }
    } else {
      var rid :| OpenLoanOf(t, bookId, rid);
      assert !LentOut(t', t'.borrowedBooks[rid]);
    }
  }
}
