/**
 * The Transaction model: the fixed fee, the entry validations, and the two
 * raw transitions `process_borrow!` and `process_return!`. Each transition
 * runs inside one database transaction, so it either commits every write or
 * raises and leaves the state as it was; the model returns either the whole
 * new state or an error, never a partial state.
 */
module Transactions {
  import opened Wrappers
  import opened Ledger
  import opened Library
  import opened Users
  import opened Books

  /** `DEFAULT_BORROW_FEE`, 10.0, in cents. */
  const DefaultBorrowFee: Money := 1000

  /**
   * The validations of a transaction row: both owners exist (`belongs_to`) and
   * the fee is at least 0; the `Kind` datatype admits only the enum's values.
   */
  function ValidEntry(s: State, e: Entry): (r: bool)
    ensures r <==> e.user in s.users && e.book in s.books && e.fee >= 0
  {
    e.user in s.users && e.book in s.books && e.fee >= 0
  }

  /**
   * A row's validity depends only on which users and books are stored, so
   * updating a balance or a status, or adding records, never invalidates a
   * row already saved.
   */
  lemma EntryStaysValid(s: State, s': State, e: Entry)
    requires s.users.Keys <= s'.users.Keys && s.books.Keys <= s'.books.Keys
    ensures ValidEntry(s, e) ==> ValidEntry(s', e)
  {
  }

  /** `save!` on a new transaction row: validate, then append it to the ledger. */
  function SaveEntry(s: State, e: Entry): (r: Result<State, Error>)
    ensures r.Success? <==> e.user in s.users && e.book in s.books && e.fee >= 0
    ensures r.Success? ==> r.value.ledger == s.ledger + [e] && r.value.users == s.users && r.value.books == s.books
    ensures r.Failure? ==> r.error == RecordInvalid(TransactionRecord)
  {
    if ValidEntry(s, e) then Success(s.(ledger := s.ledger + [e]))
    else Failure(RecordInvalid(TransactionRecord))
  }

  /** A committed transition: the new state and the ledger entry it wrote. */
  datatype Committed = Committed(state: State, entry: Entry)

  /** `book.update!(status: status)`: validate the book with its new status, then store it. */
  function UpdateBookStatus(s: State, id: BookId, status: Status): (r: Result<State, Error>)
    requires id in s.books
    ensures r.Success? <==> ValidBook(s.books[id])
    ensures r.Success? ==> r.value.books == s.books[id := s.books[id].(status := status)]
    ensures r.Success? ==> r.value.users == s.users && r.value.ledger == s.ledger
    ensures r.Failure? ==> r.error == RecordInvalid(BookRecord)
  {
    var b := s.books[id].(status := status);
    if ValidBook(b) then Success(s.(books := s.books[id := b]))
    else Failure(RecordInvalid(BookRecord))
  }

  /** `user.update!(balance: balance)`: validate the user with its new balance, then store it. */
  function UpdateBalance(s: State, id: UserId, balance: Money): (r: Result<State, Error>)
    requires id in s.users
    ensures r.Success? <==> ValidUser(s.users, id, s.users[id].(balance := balance))
    ensures r.Success? ==> r.value.users == s.users[id := s.users[id].(balance := balance)]
    ensures r.Success? ==> r.value.books == s.books && r.value.ledger == s.ledger
    ensures r.Failure? ==> r.error == RecordInvalid(UserRecord)
  {
    var u := s.users[id].(balance := balance);
    if ValidUser(s.users, id, u) then Success(s.(users := s.users[id := u]))
    else Failure(RecordInvalid(UserRecord))
  }

  /**
   * `process_borrow!(user, book)`: mark the book borrowed and record a borrow
   * entry with no fee, together. No balance changes; the fee is charged at
   * return. The caller passes records it has loaded, so both ids are present.
   */
  function ProcessBorrow(s: State, user: UserId, book: BookId, now: Time): (r: Result<Committed, Error>)
    requires user in s.users && book in s.books
    ensures r.Success? <==> ValidBook(s.books[book])
    ensures r.Failure? ==> r.error == RecordInvalid(BookRecord)
    ensures r.Success? ==> r.value.entry == Entry(user, book, Borrow, 0, now)
    ensures r.Success? ==> r.value.state.ledger == s.ledger + [r.value.entry]
    ensures r.Success? ==> r.value.state.books.Keys == s.books.Keys && r.value.state.books[book].status == Borrowed
    ensures r.Success? ==> r.value.state.books[book].title == s.books[book].title
    ensures r.Success? ==> forall other :: other in s.books && other != book ==> r.value.state.books[other] == s.books[other]
    ensures r.Success? ==> r.value.state.users == s.users
  {
    var t := Entry(user, book, Borrow, 0, now);
    var s1 :- UpdateBookStatus(s, book, Borrowed);
    match SaveEntry(s1, t)
    case Success(s2) => Success(Committed(s2, t))
    case Failure(e) => Failure(e)
  }

  /**
   * `process_return!(user, book)`: deduct the fee from the requesting user,
   * mark the book available and record a return entry carrying the fee,
   * together. A balance that would fall below 0 fails the user validation
   * and rolls the whole transition back.
   */
  function ProcessReturn(s: State, user: UserId, book: BookId, now: Time): (r: Result<Committed, Error>)
    requires user in s.users && book in s.books
    ensures r.Success? <==> ValidUser(s.users, user, s.users[user].(balance := s.users[user].balance - DefaultBorrowFee))
                            && ValidBook(s.books[book])
    ensures s.users[user].balance < DefaultBorrowFee ==> r == Failure(RecordInvalid(UserRecord))
    ensures r.Success? ==> r.value.entry == Entry(user, book, Return, DefaultBorrowFee, now)
    ensures r.Success? ==> r.value.state.ledger == s.ledger + [r.value.entry]
    ensures r.Success? ==> r.value.state.users.Keys == s.users.Keys
    ensures r.Success? ==> r.value.state.users[user].balance == s.users[user].balance - DefaultBorrowFee
    ensures r.Success? ==> r.value.state.users[user].accountNumber == s.users[user].accountNumber
    ensures r.Success? ==> forall other :: other in s.users && other != user ==> r.value.state.users[other] == s.users[other]
    ensures r.Success? ==> r.value.state.books.Keys == s.books.Keys && r.value.state.books[book].status == Available
    ensures r.Success? ==> r.value.state.books[book].title == s.books[book].title
    ensures r.Success? ==> forall other :: other in s.books && other != book ==> r.value.state.books[other] == s.books[other]
  {
    var t := Entry(user, book, Return, DefaultBorrowFee, now);
    var s1 :- UpdateBalance(s, user, s.users[user].balance - DefaultBorrowFee);
    var s2 :- UpdateBookStatus(s1, book, Available);
    match SaveEntry(s2, t)
    case Success(s3) => Success(Committed(s3, t))
    case Failure(e) => Failure(e)
  }
}
