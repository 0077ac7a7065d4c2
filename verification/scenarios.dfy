/**
 * Concrete instances of the model that mirror the behaviour the
 * repository's request and model RSpec examples describe.
 */
module Scenarios {
  import opened Wrappers
  import opened Ledger
  import opened Library
  import opened Users
  import opened Books
  import opened Transactions
  import opened TransactionsController

  const Title: string := "Test Book"
  const Token1: string := "a1b2c3d4e5"
  const Token2: string := "0f9e8d7c6b"

  /** One user with `balance` cents and one book with the given status. */
  function OneUserOneBook(balance: Money, status: Status): State
  {
    State(map[1 := User(Token1, balance)], map[1 := Book(Title, status)], [])
  }

  lemma TitleAndTokensPresent()
    ensures !Blank(Title) && !Blank(Token1) && !Blank(Token2)
  {
    assert !IsSpace(Title[0]) && !IsSpace(Token1[0]) && !IsSpace(Token2[0]);
  }

  /** The month around instant 500, and the day around it. */
  const Cal: Calendar := Calendar(0, 999, 0, 9999)
  const Today: Day := Day(400, 599)

  const BorrowEntry: Entry := Entry(1, 1, Borrow, 0, 500)
  const ReturnEntry: Entry := Entry(1, 1, Return, DefaultBorrowFee, 510)

  /** Balance 100.00: borrowing leaves it at 100.00, marks the book borrowed and lists it for the user. */
  lemma BorrowKeepsBalance()
    ensures BorrowBook(OneUserOneBook(10000, Available), 1, 1, 500)
            == Reply(Success(BorrowEntry), State(map[1 := User(Token1, 10000)], map[1 := Book(Title, Borrowed)], [BorrowEntry]))
    ensures BorrowedBy(map[1 := Book(Title, Borrowed)], [BorrowEntry], 1) == {1}
  {
    TitleAndTokensPresent();
    assert [BorrowEntry][0] == BorrowEntry;
  }

  /**
   * Returning it leaves 90.00, the book available and unlisted, an income of
   * 10.00 for today, and a monthly report of one borrow and 10.00 spent.
   */
  lemma ReturnChargesFee()
    ensures ReturnBook(State(map[1 := User(Token1, 10000)], map[1 := Book(Title, Borrowed)], [BorrowEntry]), 1, 1, 510)
            == Reply(Success(ReturnEntry), State(map[1 := User(Token1, 9000)], map[1 := Book(Title, Available)], [BorrowEntry, ReturnEntry]))
    ensures BorrowedBy(map[1 := Book(Title, Available)], [BorrowEntry, ReturnEntry], 1) == {}
    ensures Income([BorrowEntry, ReturnEntry], 1, None, None, Today) == 1000
    ensures ReportFor([BorrowEntry, ReturnEntry], 1, Monthly, Cal) == Success(Report(Monthly, 0, 999, 1, 1000))
  {
    TitleAndTokensPresent();
    var l := [BorrowEntry, ReturnEntry];
    assert l[..1] == [BorrowEntry];
    assert [BorrowEntry][..0] == [];
    var q := ReturnsOf(1, Today.start, Today.end);
    assert SumFees([BorrowEntry], q) == 0;
    assert SumFees(l, q) == 1000;
    var spent := OwnEntries(1, Return, 0, 999);
    assert SumFees([BorrowEntry], spent) == 0;
    assert AmountSpentIn(l, 1, 0, 999) == 1000;
    assert BorrowPositions(l, 1, 0, 999) == {0};
    var b := BorrowedBy(map[1 := Book(Title, Available)], l, 1);
    assert forall x :: x !in b;
  }

  /** Borrowing a book that is already borrowed is refused and changes nothing. */
  lemma BorrowUnavailableBook()
    ensures BorrowBook(OneUserOneBook(10000, Borrowed), 1, 1, 500)
            == Reply(Failure(Unprocessable(BookNotAvailable)), OneUserOneBook(10000, Borrowed))
  {
  }

  /** A balance of 5.00 does not cover the fee, so the borrow is refused. */
  lemma BorrowWithInsufficientBalance()
    ensures BorrowBook(OneUserOneBook(500, Available), 1, 1, 500)
            == Reply(Failure(Unprocessable(InsufficientBalance)), OneUserOneBook(500, Available))
  {
  }

  /** A balance of exactly the fee is sufficient. */
  lemma BorrowWithExactlyTheFee()
    ensures BorrowBook(OneUserOneBook(1000, Available), 1, 1, 500).result.Success?
  {
    TitleAndTokensPresent();
  }

  /** Returning a book that is not borrowed is refused and changes nothing. */
  lemma ReturnAvailableBook()
    ensures ReturnBook(OneUserOneBook(10000, Available), 1, 1, 500)
            == Reply(Failure(Unprocessable(BookNotBorrowed)), OneUserOneBook(10000, Available))
  {
  }

  /** Any period token other than the two known ones is an invalid period. */
  lemma WeeklyReportIsInvalid(l: seq<Entry>, user: UserId, cal: Calendar)
    ensures ReportFor(l, user, "weekly", cal) == Failure(InvalidPeriod)
  {
  }

  /**
   * Entries stamped exactly at the first and last instant of the month count
   * toward the monthly report, as do those at the current instant.
   */
  lemma MonthBoundariesIncluded()
    ensures ReportFor([Entry(1, 1, Borrow, 0, 500), Entry(1, 1, Return, 1000, 500),
                       Entry(1, 2, Borrow, 0, 0), Entry(1, 2, Return, 1000, 999),
                       Entry(1, 2, Borrow, 0, 1000), Entry(2, 2, Return, 1000, 999)], 1, Monthly, Cal)
            == Success(Report(Monthly, 0, 999, 2, 2000))
  {
    var e0, e1, e2 := Entry(1, 1, Borrow, 0, 500), Entry(1, 1, Return, 1000, 500), Entry(1, 2, Borrow, 0, 0);
    var e3, e4, e5 := Entry(1, 2, Return, 1000, 999), Entry(1, 2, Borrow, 0, 1000), Entry(2, 2, Return, 1000, 999);
    var l := [e0, e1, e2, e3, e4, e5];
    assert l[..5] == [e0, e1, e2, e3, e4];
    assert l[..5][..4] == [e0, e1, e2, e3];
    assert l[..5][..4][..3] == [e0, e1, e2];
    assert l[..5][..4][..3][..2] == [e0, e1];
    assert l[..5][..4][..3][..2][..1] == [e0];
    assert l[..5][..4][..3][..2][..1][..0] == [];
    var q := OwnEntries(1, Return, 0, 999);
    assert SumFees([e0], q) == 0;
    assert SumFees([e0, e1], q) == 1000;
    assert SumFees([e0, e1, e2], q) == 1000;
    assert SumFees([e0, e1, e2, e3], q) == 2000;
    assert SumFees([e0, e1, e2, e3, e4], q) == 2000;
    assert SumFees(l, q) == 2000;
    assert BorrowPositions(l, 1, 0, 999) == {0, 2};
  }

  /** Income counts both return fees of the day and ignores the borrow entry. */
  lemma IncomeOfTheDay()
    ensures var l := [Entry(1, 1, Return, 1000, 500), Entry(1, 1, Return, 500, 500), Entry(1, 1, Borrow, 0, 500)];
            && Income(l, 1, None, None, Today) == 1500
            && Income(l, 1, Some(500 - 100), Some(500 + 100), Today) == 1500
            && Income(l, 2, None, None, Today) == 0
  {
    var e0, e1, e2 := Entry(1, 1, Return, 1000, 500), Entry(1, 1, Return, 500, 500), Entry(1, 1, Borrow, 0, 500);
    var l := [e0, e1, e2];
    assert l[..2] == [e0, e1];
    assert l[..2][..1] == [e0];
    assert l[..2][..1][..0] == [];
    var q := ReturnsOf(1, Today.start, Today.end);
    assert SumFees([e0], q) == 1000;
    assert SumFees([e0, e1], q) == 1500;
    assert SumFees(l, q) == 1500;
    var q' := ReturnsOf(1, 400, 600);
    assert SumFees([e0], q') == 1000;
    assert SumFees([e0, e1], q') == 1500;
    assert SumFees(l, q') == 1500;
  }

  /**
   * The borrow guard looks at the balance, but the fee is charged at return:
   * with 10.00 a user may borrow two books, and the second return is rolled
   * back, leaving that book borrowed.
   */
  lemma TwoLoansOneFee()
    ensures var s0 := State(map[1 := User(Token1, 1000)], map[1 := Book(Title, Available), 2 := Book(Title, Available)], []);
            var r1 := BorrowBook(s0, 1, 1, 500);
            var r2 := BorrowBook(r1.state, 1, 2, 501);
            var r3 := ReturnBook(r2.state, 1, 1, 502);
            var r4 := ReturnBook(r3.state, 1, 2, 503);
            && r1.result.Success? && r2.result.Success? && r3.result.Success?
            && r3.state.users[1].balance == 0
            && r4 == Reply(Failure(RecordInvalid(UserRecord)), r3.state)
            && r4.state.books[2].status == Borrowed
  {
    TitleAndTokensPresent();
  }

  /** The return charges whoever requests it, not the user who borrowed the book. */
  lemma ReturnChargesTheRequester()
    ensures var s0 := State(map[1 := User(Token1, 10000), 2 := User(Token2, 10000)], map[1 := Book(Title, Available)], []);
            var r1 := BorrowBook(s0, 1, 1, 500);
            var r2 := ReturnBook(r1.state, 2, 1, 501);
            && r2.result.Success?
            && r2.state.users[1].balance == 10000
            && r2.state.users[2].balance == 9000
  {
    TitleAndTokensPresent();
  }

  /**
   * `borrowed_by` as written: user 1 borrows and returns the book, user 2
   * borrows it. The book is then listed for user 1 as well, although user 1
   * holds no open loan on it; the current-loan query lists it for user 2 only.
   */
  lemma BorrowedByListsAnotherUsersLoan()
    ensures var s0 := State(map[1 := User(Token1, 10000), 2 := User(Token2, 10000)], map[1 := Book(Title, Available)], []);
            var r1 := BorrowBook(s0, 1, 1, 500);
            var r2 := ReturnBook(r1.state, 1, 1, 501);
            var r3 := BorrowBook(r2.state, 2, 1, 502);
            && r1.result.Success? && r2.result.Success? && r3.result.Success?
            && 1 in BorrowedBy(r3.state.books, r3.state.ledger, 1)
            && 1 !in CurrentlyBorrowedBy(r3.state.books, r3.state.ledger, 1)
            && CurrentlyBorrowedBy(r3.state.books, r3.state.ledger, 2) == {1}
  {
    TitleAndTokensPresent();
    var s0 := State(map[1 := User(Token1, 10000), 2 := User(Token2, 10000)], map[1 := Book(Title, Available)], []);
    var r1 := BorrowBook(s0, 1, 1, 500);
    var r2 := ReturnBook(r1.state, 1, 1, 501);
    var r3 := BorrowBook(r2.state, 2, 1, 502);
    var l := r3.state.ledger;
    assert l == [Entry(1, 1, Borrow, 0, 500), Entry(1, 1, Return, DefaultBorrowFee, 501), Entry(2, 1, Borrow, 0, 502)];
    assert l[0].user == 1 && l[0].book == 1 && l[0].kind == Borrow;
    assert LastEntryFor(l, 1) == Some(l[2]);
  }

  /**
   * Account numbers stay unique: a second user whose first random token is
   * already taken gets the next free one.
   */
  lemma AccountNumbersStayUnique()
    ensures var r1 := CreateUser(State(map[], map[], []), 1, 10000, None, [Token1]);
            && r1.Success?
            && CreateUser(r1.value, 2, 10000, None, [Token1, Token2]).Success?
            && CreateUser(r1.value, 2, 10000, None, [Token1, Token2]).value.users[2].accountNumber == Token2
  {
    TitleAndTokensPresent();
    assert Token1 != Token2 by { assert Token1[0] != Token2[0]; }
    var r1 := CreateUser(State(map[], map[], []), 1, 10000, None, [Token1]);
    assert r1.value.users == map[1 := User(Token1, 10000)];
    assert AccountNumbers(r1.value.users) == {Token1};
    assert GenerateAccountNumber(None, {Token1}, [Token1, Token2]) == Success(Token2);
    assert ValidUser(r1.value.users, 2, User(Token2, 10000));
  }

  /** A negative balance fails validation on create. */
  lemma NegativeBalanceRejected(s: State, id: UserId, candidates: seq<string>)
    requires id !in s.users
    ensures CreateUser(s, id, -1000, None, candidates).Failure?
  {
  }
}
