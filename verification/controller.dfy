/**
 * The transactions controller: it loads the user and the book, checks its
 * guards, and only then runs the raw transition. A guard failure or a
 * validation failure inside the transition is an error reply and leaves the
 * state as it was.
 */
module TransactionsController {
  import opened Wrappers
  import opened Ledger
  import opened Library
  import opened Users
  import opened Books
  import opened Transactions

  const UserNotFound: string := "User not found"
  const BookNotFound: string := "Book not found"
  const BookNotAvailable: string := "Book is not available for borrowing"
  const InsufficientBalance: string := "Insufficient balance to borrow the book"
  const BookNotBorrowed: string := "Book is not currently borrowed"

  /**
   * `sufficient_balance?`: the balance covers one fee, the bound included. For a
   * user who passes its validations, the guard holds exactly when the user
   * would still pass them after the return deducts the fee.
   */
  function SufficientBalance(u: User): (r: bool)
    ensures r <==> u.balance - DefaultBorrowFee >= 0
    ensures forall users: map<UserId, User>, id: UserId {:trigger ValidUser(users, id, u)} ::
              ValidUser(users, id, u) ==> (r <==> ValidUser(users, id, u.(balance := u.balance - DefaultBorrowFee)))
  {
    u.balance >= DefaultBorrowFee
  }

  /** `borrow_conditions_errors`: the first failing check, in order user, book, availability, balance. */
  function BorrowConditionsErrors(user: Option<User>, book: Option<Book>): (r: Option<string>)
    ensures r.None? <==> user.Some? && book.Some? && book.value.status == Available && SufficientBalance(user.value)
    ensures user.None? ==> r == Some(UserNotFound)
    ensures user.Some? && book.None? ==> r == Some(BookNotFound)
    ensures user.Some? && book.Some? && book.value.status == Borrowed ==> r == Some(BookNotAvailable)
    ensures user.Some? && book.Some? && book.value.status == Available && !SufficientBalance(user.value)
            ==> r == Some(InsufficientBalance)
  {
    if user.None? then Some(UserNotFound)
    else if book.None? then Some(BookNotFound)
    else if book.value.status != Available then Some(BookNotAvailable)
    else if !SufficientBalance(user.value) then Some(InsufficientBalance)
    else None
  }

  /** `return_conditions_error`: only the book's status is checked, not who borrowed it. */
  function ReturnConditionsError(book: Book): (r: Option<string>)
    ensures r.None? <==> book.status == Borrowed
    ensures r.Some? ==> r.value == BookNotBorrowed
  {
    if book.status != Borrowed then Some(BookNotBorrowed) else None
  }

  /** A reply: the written entry or the error, and the state after the request. */
  datatype Reply = Reply(result: Result<Entry, Error>, state: State)

  /**
   * `borrow_book`. `User.find` and `Book.find` raise before the guard runs,
   * so the guard's own not-found messages are never the reply.
   */
  function BorrowBook(s: State, user: UserId, book: BookId, now: Time): (r: Reply)
    ensures r.result.Failure? ==> r.state == s
    ensures user !in s.users ==> r.result == Failure(RecordNotFound(UserRecord))
    ensures user in s.users && book !in s.books ==> r.result == Failure(RecordNotFound(BookRecord))
    ensures user in s.users && book in s.books && s.books[book].status == Borrowed
            ==> r.result == Failure(Unprocessable(BookNotAvailable))
    ensures user in s.users && book in s.books && s.books[book].status == Available && !SufficientBalance(s.users[user])
            ==> r.result == Failure(Unprocessable(InsufficientBalance))
    ensures r.result != Failure(Unprocessable(UserNotFound)) && r.result != Failure(Unprocessable(BookNotFound))
    ensures r.result.Success? <==> user in s.users && book in s.books && s.books[book].status == Available
                                   && SufficientBalance(s.users[user]) && ValidBook(s.books[book])
    ensures r.result.Success? ==> r.result.value == Entry(user, book, Borrow, 0, now)
    ensures r.result.Success? ==> r.state.ledger == s.ledger + [r.result.value]
    ensures r.result.Success? ==> r.state.users == s.users
    ensures r.result.Success? ==> r.state.books.Keys == s.books.Keys && r.state.books[book] == s.books[book].(status := Borrowed)
    ensures r.result.Success? ==> forall other :: other in s.books && other != book ==> r.state.books[other] == s.books[other]
  {
    if user !in s.users then Reply(Failure(RecordNotFound(UserRecord)), s)
    else if book !in s.books then Reply(Failure(RecordNotFound(BookRecord)), s)
    else
      match BorrowConditionsErrors(Some(s.users[user]), Some(s.books[book]))
      case Some(message) => Reply(Failure(Unprocessable(message)), s)
      case None =>
        match ProcessBorrow(s, user, book, now)
        case Success(c) => Reply(Success(c.entry), c.state)
        case Failure(e) => Reply(Failure(e), s)
  }

  /**
   * `return_book`. The requesting user is charged, whoever borrowed the book;
   * a balance below the fee passes the guard and is rejected by the rollback
   * of `process_return!`.
   */
  function ReturnBook(s: State, user: UserId, book: BookId, now: Time): (r: Reply)
    ensures r.result.Failure? ==> r.state == s
    ensures user !in s.users ==> r.result == Failure(RecordNotFound(UserRecord))
    ensures user in s.users && book !in s.books ==> r.result == Failure(RecordNotFound(BookRecord))
    ensures user in s.users && book in s.books && s.books[book].status == Available
            ==> r.result == Failure(Unprocessable(BookNotBorrowed))
    ensures user in s.users && book in s.books && s.books[book].status == Borrowed && s.users[user].balance < DefaultBorrowFee
            ==> r.result == Failure(RecordInvalid(UserRecord))
    ensures r.result.Success? <==> user in s.users && book in s.books && s.books[book].status == Borrowed
                                   && ValidUser(s.users, user, s.users[user].(balance := s.users[user].balance - DefaultBorrowFee))
                                   && ValidBook(s.books[book])
    ensures r.result.Success? ==> r.result.value == Entry(user, book, Return, DefaultBorrowFee, now)
    ensures r.result.Success? ==> r.state.ledger == s.ledger + [r.result.value]
    ensures r.result.Success? ==> r.state.users.Keys == s.users.Keys
                                  && r.state.users[user] == s.users[user].(balance := s.users[user].balance - DefaultBorrowFee)
    ensures r.result.Success? ==> forall other :: other in s.users && other != user ==> r.state.users[other] == s.users[other]
    ensures r.result.Success? ==> r.state.books.Keys == s.books.Keys && r.state.books[book] == s.books[book].(status := Available)
    ensures r.result.Success? ==> forall other :: other in s.books && other != book ==> r.state.books[other] == s.books[other]
  {
    if user !in s.users then Reply(Failure(RecordNotFound(UserRecord)), s)
    else if book !in s.books then Reply(Failure(RecordNotFound(BookRecord)), s)
    else
      match ReturnConditionsError(s.books[book])
      case Some(message) => Reply(Failure(Unprocessable(message)), s)
      case None =>
        match ProcessReturn(s, user, book, now)
        case Success(c) => Reply(Success(c.entry), c.state)
        case Failure(e) => Reply(Failure(e), s)
  }
}
