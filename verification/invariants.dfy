/**
 * Invariants of the library state and their preservation by the guarded
 * controller actions: every stored record satisfies its validations, and a
 * book's status flag agrees with its latest ledger entry.
 */
module Invariants {
  import opened Wrappers
  import opened Ledger
  import opened Library
  import opened Users
  import opened Books
  import opened Transactions
  import opened TransactionsController

  /** Every stored record passes its model's validations. */
  ghost predicate Valid(s: State)
  {
    && (forall id :: id in s.users ==> ValidUser(s.users, id, s.users[id]))
    && (forall id :: id in s.books ==> ValidBook(s.books[id]))
    && (forall i :: 0 <= i < |s.ledger| ==> ValidEntry(s, s.ledger[i]))
  }

  ghost predicate BalancesNonNegative(s: State)
  {
    forall id :: id in s.users ==> s.users[id].balance >= 0
  }

  /** A book is borrowed exactly when its latest ledger entry is a borrow. */
  ghost predicate Paired(s: State)
  {
    forall b :: b in s.books ==> (s.books[b].status == Borrowed <==> Holder(s.ledger, b).Some?)
  }

  /** The empty library. */
  function Empty(): (s: State)
    ensures Valid(s) && Paired(s) && BalancesNonNegative(s)
  {
    State(map[], map[], [])
  }

  lemma SaveEntryPreservesValid(s: State, e: Entry)
    requires Valid(s)
    ensures SaveEntry(s, e).Success? ==> Valid(SaveEntry(s, e).value)
  {
  }

  lemma CreateUserPreservesValid(s: State, id: UserId, balance: Money, accountNumber: Option<string>, candidates: seq<string>)
    requires Valid(s) && id !in s.users
    ensures CreateUser(s, id, balance, accountNumber, candidates).Success? ==> Valid(CreateUser(s, id, balance, accountNumber, candidates).value)
  {
  }

  lemma BorrowBookPreservesValid(s: State, user: UserId, book: BookId, now: Time)
    requires Valid(s)
    ensures Valid(BorrowBook(s, user, book, now).state)
  {
  }

  lemma ReturnBookPreservesValid(s: State, user: UserId, book: BookId, now: Time)
    requires Valid(s)
    ensures Valid(ReturnBook(s, user, book, now).state)
  {
  }

  /** In a valid state a guarded borrow commits exactly when the guard passes. */
  lemma GuardedBorrowCommitsIffGuardPasses(s: State, user: UserId, book: BookId, now: Time)
    requires Valid(s)
    ensures BorrowBook(s, user, book, now).result.Success?
            <==> user in s.users && book in s.books
                 && BorrowConditionsErrors(Some(s.users[user]), Some(s.books[book])).None?
  {
  }

  /**
   * In a valid state, a guarded return of a borrowed book commits exactly when
   * the requester's balance covers the fee; otherwise it is rolled back.
   */
  lemma GuardedReturnCommitsIffBalanceCoversFee(s: State, user: UserId, book: BookId, now: Time)
    requires Valid(s) && user in s.users && book in s.books && s.books[book].status == Borrowed
    ensures ReturnBook(s, user, book, now).result.Success? <==> s.users[user].balance >= DefaultBorrowFee
    ensures s.users[user].balance < DefaultBorrowFee
            ==> ReturnBook(s, user, book, now) == Reply(Failure(RecordInvalid(UserRecord)), s)
  {
  }

  /** From any state with no negative balance, neither guarded action creates one. */
  lemma GuardedActionsKeepBalancesNonNegative(s: State, user: UserId, book: BookId, now: Time)
    requires BalancesNonNegative(s)
    ensures BalancesNonNegative(BorrowBook(s, user, book, now).state)
    ensures BalancesNonNegative(ReturnBook(s, user, book, now).state)
  {
  }

  lemma BorrowBookPreservesPaired(s: State, user: UserId, book: BookId, now: Time)
    requires Paired(s)
    ensures Paired(BorrowBook(s, user, book, now).state)
  {
  }

  lemma ReturnBookPreservesPaired(s: State, user: UserId, book: BookId, now: Time)
    requires Paired(s)
    ensures Paired(ReturnBook(s, user, book, now).state)
  {
  }

  /** After a return, no user's `borrowed_by` lists the book. */
  lemma ReturnBookClearsBorrowedBy(s: State, user: UserId, book: BookId, now: Time, anyone: UserId)
    requires ReturnBook(s, user, book, now).result.Success?
    ensures var t := ReturnBook(s, user, book, now).state; book !in BorrowedBy(t.books, t.ledger, anyone)
  {
  }

  /**
   * A committed borrow hands the book to the borrower alone: it joins the
   * borrower's current loans and leaves every other user's unchanged except
   * for no longer counting this book.
   */
  lemma BorrowBookMovesCurrentLoan(s: State, user: UserId, book: BookId, now: Time, other: UserId)
    requires BorrowBook(s, user, book, now).result.Success?
    ensures var t := BorrowBook(s, user, book, now).state;
            CurrentlyBorrowedBy(t.books, t.ledger, user) == CurrentlyBorrowedBy(s.books, s.ledger, user) + {book}
    ensures var t := BorrowBook(s, user, book, now).state;
            other != user ==> CurrentlyBorrowedBy(t.books, t.ledger, other) == CurrentlyBorrowedBy(s.books, s.ledger, other) - {book}
  {
  }

  /** A committed return ends the open loan on the book for every user. */
  lemma ReturnBookEndsCurrentLoan(s: State, user: UserId, book: BookId, now: Time, anyone: UserId)
    requires ReturnBook(s, user, book, now).result.Success?
    ensures var t := ReturnBook(s, user, book, now).state;
            CurrentlyBorrowedBy(t.books, t.ledger, anyone) == CurrentlyBorrowedBy(s.books, s.ledger, anyone) - {book}
  {
  }
}
