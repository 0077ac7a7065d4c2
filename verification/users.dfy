/**
 * The User model: its validations, account-number generation on create, and
 * the period report aggregated from the user's own ledger entries.
 */
module Users {
  import opened Wrappers
  import opened Ledger
  import opened Library

  /**
   * The validations run by every save of user `id` with attributes `u`:
   * balance present and at least 0, account number present, and no other
   * user holding the same account number.
   */
  function ValidUser(users: map<UserId, User>, id: UserId, u: User): (r: bool)
    ensures r <==> u.balance >= 0 && !Blank(u.accountNumber) && u.accountNumber !in AccountNumbers(users - {id})
  {
    var others := users - {id};
    assert (forall other :: other in users && other != id ==> users[other].accountNumber != u.accountNumber)
           <==> u.accountNumber !in AccountNumbers(others) by {
      assert forall other :: other in others <==> other in users && other != id;
    }
    && u.balance >= 0
    && !Blank(u.accountNumber)
    && forall other :: other in users && other != id ==> users[other].accountNumber != u.accountNumber
  }

  /** The account numbers already stored, as `User.exists?(account_number: token)` sees them. */
  function AccountNumbers(users: map<UserId, User>): (taken: set<string>)
    ensures forall id :: id in users ==> users[id].accountNumber in taken
    ensures forall a :: a in taken ==> exists id :: id in users && users[id].accountNumber == a
  {
    set id | id in users :: users[id].accountNumber
  }

  /** Candidate `k` is free and every earlier candidate is already taken. */
  ghost predicate FirstFree(candidates: seq<string>, taken: set<string>, k: int)
  {
    && 0 <= k < |candidates|
    && candidates[k] !in taken
    && forall j :: 0 <= j < k ==> candidates[j] in taken
  }

  /**
   * `generate_account_number`: an account number already assigned is kept;
   * otherwise the first candidate token no existing user holds is taken. The
   * candidates stand for the successive `SecureRandom.hex(5)` draws; running
   * out of them is the only failure.
   */
  function GenerateAccountNumber(current: Option<string>, taken: set<string>, candidates: seq<string>): (r: Result<string, Error>)
    ensures current.Some? ==> r == Success(current.value)
    ensures current.None? && r.Success? ==> exists k :: FirstFree(candidates, taken, k) && candidates[k] == r.value
    ensures current.None? ==> (r.Failure? <==> forall j :: 0 <= j < |candidates| ==> candidates[j] in taken)
    ensures r.Failure? ==> r.error == GenerationExhausted
  {
    match current
    case Some(a) => Success(a)
    case None =>
      if |candidates| == 0 then Failure(GenerationExhausted)
      else if candidates[0] !in taken then Success(candidates[0])
      else
        var r := GenerateAccountNumber(None, taken, candidates[1..]);
        assert r.Success? ==> exists k :: FirstFree(candidates, taken, k) && candidates[k] == r.value by {
          if r.Success? {
            var k :| FirstFree(candidates[1..], taken, k) && candidates[1..][k] == r.value;
            assert FirstFree(candidates, taken, k + 1) by {
              forall j | 0 <= j < k + 1 ensures candidates[j] in taken {
                if j > 0 { assert candidates[j] == candidates[1..][j - 1]; }
              }
            }
          }
        }
        r
  }

  /**
   * `User.create!(balance: ...)`: the `before_validation` callback assigns an
   * account number, then the validations run. The database picks the fresh
   * primary key `id`.
   */
  function CreateUser(s: State, id: UserId, balance: Money, accountNumber: Option<string>, candidates: seq<string>): (r: Result<State, Error>)
    requires id !in s.users
    ensures r.Success? ==> r.value.books == s.books && r.value.ledger == s.ledger
    ensures r.Success? ==> r.value.users.Keys == s.users.Keys + {id}
    ensures r.Success? ==> forall other :: other in s.users ==> r.value.users[other] == s.users[other]
    ensures r.Success? ==> r.value.users[id].balance == balance && ValidUser(s.users, id, r.value.users[id])
    ensures r.Success? ==> r.value.users[id].accountNumber !in AccountNumbers(s.users)
    ensures accountNumber.Some? && r.Success? ==> r.value.users[id].accountNumber == accountNumber.value
    ensures var g := GenerateAccountNumber(accountNumber, AccountNumbers(s.users), candidates);
            r.Success? <==> balance >= 0 && g.Success? && !Blank(g.value) && g.value !in AccountNumbers(s.users)
    ensures balance < 0 ==> r.Failure?
    ensures accountNumber.Some? && Blank(accountNumber.value) ==> r == Failure(RecordInvalid(UserRecord))
  {
    var a :- GenerateAccountNumber(accountNumber, AccountNumbers(s.users), candidates);
    var u := User(a, balance);
    if ValidUser(s.users, id, u) then Success(s.(users := s.users[id := u]))
    else Failure(RecordInvalid(UserRecord))
  }

  /** The instants `Time.current` resolves to: the bounds of the current month and year. */
  datatype Calendar = Calendar(monthStart: Time, monthEnd: Time, yearStart: Time, yearEnd: Time)

  /** The hash `report_for` returns. */
  datatype Report = Report(period: string, startDate: Time, endDate: Time, borrowedBooksCount: nat, amountSpent: Money)

  const Monthly: string := "monthly"
  const Annual: string := "annual"

  /** `period_range`: the closed period enum, resolved against the calendar. */
  function PeriodRange(period: string, cal: Calendar): (r: Result<(Time, Time), Error>)
    ensures r.Success? <==> period == Monthly || period == Annual
    ensures period == Monthly ==> r == Success((cal.monthStart, cal.monthEnd))
    ensures period == Annual ==> r == Success((cal.yearStart, cal.yearEnd))
    ensures r.Failure? ==> r.error == InvalidPeriod
  {
    if period == Monthly then Success((cal.monthStart, cal.monthEnd))
    else if period == Annual then Success((cal.yearStart, cal.yearEnd))
    else Failure(InvalidPeriod)
  }

  /** The `where` clause of both report queries: this user's entries of one type in `start..end`. */
  function OwnEntries(id: UserId, kind: Kind, start: Time, end: Time): Query
  {
    Query(Some(id), None, kind, start, end)
  }

  /** The positions of this user's borrow entries created within `start..end`, bounds included. */
  ghost function BorrowPositions(l: seq<Entry>, id: UserId, start: Time, end: Time): set<int>
  {
    set i | 0 <= i < |l| && l[i].user == id && l[i].kind == Borrow && start <= l[i].createdAt <= end
  }

  /** No entry of this user of the given type lies within `start..end`. */
  ghost predicate NoOwnEntries(l: seq<Entry>, id: UserId, kind: Kind, start: Time, end: Time)
  {
    forall i :: 0 <= i < |l| ==> !(l[i].user == id && l[i].kind == kind && start <= l[i].createdAt <= end)
  }

  /** `borrowed_books_count_in`: the number of borrow entries, not of distinct books. */
  function BorrowedBooksCountIn(l: seq<Entry>, id: UserId, start: Time, end: Time): (n: nat)
    ensures n == |BorrowPositions(l, id, start, end)|
    ensures n == 0 <==> NoOwnEntries(l, id, Borrow, start, end)
  {
    var q := OwnEntries(id, Borrow, start, end);
    CountIsCardinality(l, q);
    CountZeroIffNoneMatch(l, q);
    assert MatchIndices(l, q) == BorrowPositions(l, id, start, end);
    Count(l, q)
  }

  /** `amount_spent_in`: the fees of this user's return entries within `start..end`. */
  function AmountSpentIn(l: seq<Entry>, id: UserId, start: Time, end: Time): (amount: Money)
    ensures FeesNonNegative(l) ==> amount >= 0
    ensures NoOwnEntries(l, id, Return, start, end) ==> amount == 0
  {
    var q := OwnEntries(id, Return, start, end);
    SumNoneMatch(l, q);
    SumFees(l, q)
  }

  /**
   * `report_for`: resolves the period, echoes it with the bounds used, and
   * aggregates this user's ledger entries within those bounds.
   */
  function ReportFor(l: seq<Entry>, id: UserId, period: string, cal: Calendar): (r: Result<Report, Error>)
    ensures r.Success? <==> period == Monthly || period == Annual
    ensures r.Failure? ==> r.error == InvalidPeriod
    ensures r.Success? ==> r.value.period == period
    ensures r.Success? && period == Monthly ==> r.value.startDate == cal.monthStart && r.value.endDate == cal.monthEnd
    ensures r.Success? && period == Annual ==> r.value.startDate == cal.yearStart && r.value.endDate == cal.yearEnd
    ensures r.Success? ==> r.value.borrowedBooksCount == |BorrowPositions(l, id, r.value.startDate, r.value.endDate)|
    ensures r.Success? && FeesNonNegative(l) ==> r.value.amountSpent >= 0
    ensures r.Success? && NoOwnEntries(l, id, Borrow, r.value.startDate, r.value.endDate) ==> r.value.borrowedBooksCount == 0
    ensures r.Success? && NoOwnEntries(l, id, Return, r.value.startDate, r.value.endDate) ==> r.value.amountSpent == 0
  {
    var range :- PeriodRange(period, cal);
    var (start, end) := range;
    Success(Report(period, start, end, BorrowedBooksCountIn(l, id, start, end), AmountSpentIn(l, id, start, end)))
  }

  /** Whether entry `e` takes part in the report of user `id` over `start..end`. */
  predicate CountsToward(e: Entry, id: UserId, start: Time, end: Time)
  {
    e.user == id && start <= e.createdAt <= end
  }

  /**
   * Entries of other users, and entries outside the period, do not affect the
   * report, wherever they sit in the ledger.
   */
  lemma ReportIgnoresForeignEntries(a: seq<Entry>, e: Entry, b: seq<Entry>, id: UserId, period: string, cal: Calendar)
    requires period == Monthly || period == Annual
    requires var (start, end) := PeriodRange(period, cal).value; !CountsToward(e, id, start, end)
    ensures ReportFor(a + [e] + b, id, period, cal) == ReportFor(a + b, id, period, cal)
  {
    var (start, end) := PeriodRange(period, cal).value;
    UnselectedEntryIgnored(a, e, b, OwnEntries(id, Borrow, start, end));
    UnselectedEntryIgnored(a, e, b, OwnEntries(id, Return, start, end));
  }

  /**
   * At the report level: one more own entry within the period adds one to the
   * borrowed-books count if it is a borrow, or its fee to the amount spent if
   * it is a return, and leaves everything else of the report as it was.
   */
  lemma ReportAfterOwnEntryInPeriod(l: seq<Entry>, e: Entry, id: UserId, period: string, cal: Calendar)
    requires period == Monthly || period == Annual
    requires var (start, end) := PeriodRange(period, cal).value; CountsToward(e, id, start, end)
    ensures ReportFor(l + [e], id, period, cal).Success?
    ensures var before := ReportFor(l, id, period, cal).value;
            ReportFor(l + [e], id, period, cal).value
            == before.(borrowedBooksCount := before.borrowedBooksCount + (if e.kind == Borrow then 1 else 0),
                       amountSpent := before.amountSpent + (if e.kind == Return then e.fee else 0))
  {
  }

  /** A return entry adds its fee to the amount spent, a borrow entry one to the count. */
  lemma ReportAfterOwnEntry(l: seq<Entry>, e: Entry, id: UserId, start: Time, end: Time)
    requires CountsToward(e, id, start, end)
    ensures e.kind == Borrow ==> BorrowedBooksCountIn(l + [e], id, start, end) == BorrowedBooksCountIn(l, id, start, end) + 1
    ensures e.kind == Borrow ==> AmountSpentIn(l + [e], id, start, end) == AmountSpentIn(l, id, start, end)
    ensures e.kind == Return ==> BorrowedBooksCountIn(l + [e], id, start, end) == BorrowedBooksCountIn(l, id, start, end)
    ensures e.kind == Return ==> AmountSpentIn(l + [e], id, start, end) == AmountSpentIn(l, id, start, end) + e.fee
  {
  }
}
