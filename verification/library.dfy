/**
 * The three tables of the library as one immutable value: books by id,
 * users by id, and the ledger of transactions in insertion order.
 */
module Library {
  import opened Wrappers
  import opened Ledger

  /** The `status` enum of a book. */
  datatype Status = Available | Borrowed

  /** The integer stored in the `status` column. */
  function StatusCode(s: Status): int
  {
    match s
    case Available => 0
    case Borrowed => 1
  }

  /** Reading the column back; the enum admits no value besides 0 and 1. */
  function StatusFromCode(c: int): (r: Option<Status>)
    ensures r.Some? <==> c == 0 || c == 1
    ensures r.Some? ==> StatusCode(r.value) == c
  {
    if c == 0 then Some(Available)
    else if c == 1 then Some(Borrowed)
    else None
  }

  lemma StatusCodeRoundTrip(s: Status)
    ensures StatusFromCode(StatusCode(s)) == Some(s)
  {
  }

  datatype Book = Book(title: string, status: Status)

  datatype User = User(accountNumber: string, balance: Money)

  datatype State = State(users: map<UserId, User>, books: map<BookId, Book>, ledger: seq<Entry>)

  /** The record whose validation or lookup failed. */
  datatype Record = UserRecord | BookRecord | TransactionRecord

  /** The exceptions and error replies of the core. */
  datatype Error =
    | RecordNotFound(record: Record)    // `find` raised ActiveRecord::RecordNotFound
    | RecordInvalid(record: Record)     // `save!`/`update!` raised ActiveRecord::RecordInvalid
    | Unprocessable(message: string)    // a controller guard rejected the request
    | InvalidPeriod                     // `period_range` raised ArgumentError
    | GenerationExhausted               // no candidate account number was free

  /** ASCII whitespace: space and the control characters tab through carriage return. */
  predicate IsSpace(c: char)
  {
    c == ' ' || '\t' <= c <= '\r'
  }

  /** Ruby's `blank?` on a string: empty or whitespace only; `presence: true` rejects it. */
  predicate Blank(s: string)
  {
    forall i :: 0 <= i < |s| ==> IsSpace(s[i])
  }
}
