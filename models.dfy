/**
 * Record shapes of the library service: MongoDB object ids, the documents of the
 * `books` and `borrowed_books` collections, the gRPC status carried by errors,
 * and the request and reply messages of the core operations.
 */
module Models {

  datatype Option<+T> = None | Some(value: T)

  /**
   * The gRPC status codes that the core operations return. `Unknown` is what gRPC
   * reports for an error that is not a status error, such as the driver's own
   * error when a transaction cannot be started or committed.
   */
  datatype Code = InvalidArgument | NotFound | Internal | Unknown

  datatype Status = Status(code: Code, message: string)

  /** A reply, or the gRPC error status that replaces it. */
  datatype Result<+T> = Ok(value: T) | Err(status: Status)

  // ---------------------------------------------------------------------------
  // Object ids
  // ---------------------------------------------------------------------------

  /**
   * A MongoDB ObjectID, kept as its canonical text: 24 lower-case hex digits.
   * Ids are compared only for equality; their byte layout plays no part.
   */
  datatype ObjectId = ObjectId(hex: string)

  const ObjectIdHexLength := 24

  predicate IsHexDigit(c: char) {
    '0' <= c <= '9' || 'a' <= c <= 'f' || 'A' <= c <= 'F'
  }

  predicate IsLowerHexDigit(c: char) {
    '0' <= c <= '9' || 'a' <= c <= 'f'
  }

  /** The text an id parser accepts: exactly 24 hex digits, in either case. */
  predicate IsObjectIdHex(s: string) {
    |s| == ObjectIdHexLength && forall i :: 0 <= i < |s| ==> IsHexDigit(s[i])
  }

  /** An id as the server prints it (`ObjectID.Hex()`). */
  predicate Canonical(id: ObjectId) {
    |id.hex| == ObjectIdHexLength && forall i :: 0 <= i < |id.hex| ==> IsLowerHexDigit(id.hex[i])
  }

  function ToLowerHexDigit(c: char): (d: char)
    ensures IsHexDigit(c) ==> IsLowerHexDigit(d)
    ensures IsLowerHexDigit(c) ==> d == c
  {
    if 'A' <= c <= 'F' then (c as int - 'A' as int + 'a' as int) as char else c
  }

  function LowerHex(s: string): (r: string)
    ensures |r| == |s|
  {
    seq(|s|, i requires 0 <= i < |s| => ToLowerHexDigit(s[i]))
  }

  /**
   * Stands in for the driver's `primitive.ObjectIDFromHex`: text of 24 hex digits
   * denotes the id whose canonical text is its lower-case form; anything else is
   * rejected.
   */
  function ParseObjectId(s: string): (r: Option<ObjectId>)
    ensures r.Some? <==> IsObjectIdHex(s)
    ensures r.Some? ==> Canonical(r.value)
  {
    if IsObjectIdHex(s) then Some(ObjectId(LowerHex(s))) else None
  }

  /** Parsing the text an id prints as gives back that id. */
  lemma ParsePrintedId(id: ObjectId)
    requires Canonical(id)
    ensures ParseObjectId(id.hex) == Some(id)
  {
    assert IsObjectIdHex(id.hex);
    assert LowerHex(id.hex) == id.hex by {
      forall i | 0 <= i < |id.hex|
        ensures LowerHex(id.hex)[i] == id.hex[i]
      {
        assert IsLowerHexDigit(id.hex[i]);
      }
    }
  }

  /** Upper- and lower-case spellings of the same hex digits denote one id. */
  lemma ParseIgnoresCase(s: string, s': string)
    requires IsObjectIdHex(s) && IsObjectIdHex(s')
    requires forall i :: 0 <= i < |s| ==> ToLowerHexDigit(s[i]) == ToLowerHexDigit(s'[i])
    ensures ParseObjectId(s) == ParseObjectId(s')
  {
    assert LowerHex(s) == LowerHex(s');
  }

  // ---------------------------------------------------------------------------
  // Documents
  // ---------------------------------------------------------------------------

  const StatusAvailable := "available"
  const StatusBorrowed := "borrowed"
  const StatusOverdue := "overdue"

  /**
   * A document of the `books` collection; its `_id` is the key under which the
   * table holds it. `userId` is the borrower (absent when the book was created,
   * null after a return). Dates are integer timestamps in seconds.
   */
  datatype Book = Book(
    title: string,
    author: string,
    publishedDate: int,
    status: string,
    userId: Option<ObjectId>)

  /**
   * A document of the `borrowed_books` collection; its `_id` is the table key.
   * `returnDate` absent means the loan is open. `status` is the field that the
   * overdue sweep writes: it is not part of the record struct, so it is absent
   * until the sweep sets it.
   */
  datatype BorrowedBook = BorrowedBook(
    bookId: ObjectId,
    userId: ObjectId,
    borrowedDate: int,
    returnDate: Option<int>,
    status: Option<string>)

  predicate IsOpen(r: BorrowedBook) {
    r.returnDate.None?
  }

  // ---------------------------------------------------------------------------
  // Messages
  // ---------------------------------------------------------------------------

  /** The wire form of a book (`pb.Book`): ids as text. */
  datatype BookPayload = BookPayload(
    id: string,
    title: string,
    author: string,
    publishedDate: int,
    status: string,
    userId: string)

  /** A book as the server reports it: its id and its stored document. */
  datatype BookReply = BookReply(id: ObjectId, book: Book)

  /** `pb.BorrowBookRequest`: the book to lend and the borrowing user, as text. */
  datatype BorrowRequest = BorrowRequest(bookId: string, userId: string)

  /** The wire form of a loan (`pb.BorrowedBook`) returned by borrow and return. */
  datatype LoanReply = LoanReply(
    id: ObjectId,
    bookId: ObjectId,
    userId: ObjectId,
    borrowedDate: int,
    returnDate: Option<int>)
}
