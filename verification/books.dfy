/**
 * The Book model: its validation, the `borrowed_by` join of the status flag
 * with the ledger, and the per-book income query.
 */
module Books {
  import opened Wrappers
  import opened Ledger
  import opened Library

  /** The validations run by every save of a book: title present (the status enum admits only its two values). */
  function ValidBook(b: Book): (r: bool)
    ensures r <==> exists i :: 0 <= i < |b.title| && !IsSpace(b.title[i])
    ensures r ==> |b.title| > 0
  {
    !Blank(b.title)
  }

  /** The validations look at the title only, so a status change never makes a book valid or invalid. */
  lemma StatusChangeKeepsValidity(b: Book, status: Status)
    ensures ValidBook(b.(status := status)) == ValidBook(b)
  {
  }

  /** Entry `e` records `user` borrowing `book`. */
  predicate IsBorrowOf(e: Entry, user: UserId, book: BookId)
  {
    e.user == user && e.book == book && e.kind == Borrow
  }

  /** Some entry of the ledger is a borrow of `book` by `user`. */
  ghost predicate HasBorrowEntry(l: seq<Entry>, user: UserId, book: BookId)
  {
    exists i :: 0 <= i < |l| && IsBorrowOf(l[i], user, book)
  }

  /**
   * `Book.borrowed_by(user)`: the distinct books whose status is borrowed and
   * that have at least one borrow entry by `user`, with no check for a later
   * return. Computed as a scan of the joined rows; a set, so each book
   * appears once, as `.distinct` guarantees.
   */
  function BorrowedBy(books: map<BookId, Book>, l: seq<Entry>, user: UserId): (r: set<BookId>)
    ensures forall b :: b in r <==> b in books && books[b].status == Borrowed && HasBorrowEntry(l, user, b)
  {
    if |l| == 0 then {}
    else
      var n := |l| - 1;
      var e := l[n];
      var earlier := BorrowedBy(books, l[..n], user);
      assert forall b :: HasBorrowEntry(l, user, b) <==> (HasBorrowEntry(l[..n], user, b) || IsBorrowOf(e, user, b)) by {
        forall b ensures HasBorrowEntry(l, user, b) ==> (HasBorrowEntry(l[..n], user, b) || IsBorrowOf(e, user, b)) {
          if HasBorrowEntry(l, user, b) {
            var i :| 0 <= i < |l| && IsBorrowOf(l[i], user, b);
            if i < n { assert l[..n][i] == l[i]; }
          }
        }
        forall b ensures HasBorrowEntry(l[..n], user, b) ==> HasBorrowEntry(l, user, b) {
          if HasBorrowEntry(l[..n], user, b) {
            var i :| 0 <= i < n && IsBorrowOf(l[..n][i], user, b);
            assert l[..n][i] == l[i];
          }
        }
      }
      earlier + (if e.user == user && e.kind == Borrow && e.book in books && books[e.book].status == Borrowed
                 then {e.book} else {})
  }

  /** The bounds of the current day, as `Time.current.beginning_of_day` and `end_of_day` give them. */
  datatype Day = Day(start: Time, end: Time)

  /** The query `income` runs: this book's return entries within `start..end`. */
  function ReturnsOf(book: BookId, start: Time, end: Time): Query
  {
    Query(None, Some(book), Return, start, end)
  }

  /**
   * `Book#income`: the fees of this book's return entries within the given
   * range. Each bound omitted (an absent or blank parameter) defaults on its
   * own to the corresponding bound of the current day.
   */
  function Income(l: seq<Entry>, book: BookId, startDate: Option<Time>, endDate: Option<Time>, today: Day): (income: Money)
    ensures FeesNonNegative(l) ==> income >= 0
    ensures NoneMatch(l, ReturnsOf(book, startDate.GetOr(today.start), endDate.GetOr(today.end))) ==> income == 0
  {
    var q := ReturnsOf(book, startDate.GetOr(today.start), endDate.GetOr(today.end));
    SumNoneMatch(l, q);
    SumFees(l, q)
  }

  /** An omitted bound means exactly the current day's bound, whatever the other bound is. */
  lemma IncomeDefaultsEachBound(l: seq<Entry>, book: BookId, startDate: Option<Time>, endDate: Option<Time>, today: Day)
    ensures Income(l, book, None, endDate, today) == Income(l, book, Some(today.start), endDate, today)
    ensures Income(l, book, startDate, None, today) == Income(l, book, startDate, Some(today.end), today)
  {
  }

  /** Borrow entries, entries of other books, and returns outside the range never change a book's income. */
  lemma IncomeIgnoresOtherEntries(a: seq<Entry>, e: Entry, b: seq<Entry>, book: BookId, startDate: Option<Time>, endDate: Option<Time>, today: Day)
    requires e.kind == Borrow || e.book != book || !(startDate.GetOr(today.start) <= e.createdAt <= endDate.GetOr(today.end))
    ensures Income(a + [e] + b, book, startDate, endDate, today) == Income(a + b, book, startDate, endDate, today)
  {
    UnselectedEntryIgnored(a, e, b, ReturnsOf(book, startDate.GetOr(today.start), endDate.GetOr(today.end)));
  }

  /** A return of this book inside the range adds exactly its fee to the income. */
  lemma IncomeAfterReturn(l: seq<Entry>, e: Entry, startDate: Option<Time>, endDate: Option<Time>, today: Day)
    requires e.kind == Return
    requires startDate.GetOr(today.start) <= e.createdAt <= endDate.GetOr(today.end)
    ensures Income(l + [e], e.book, startDate, endDate, today) == Income(l, e.book, startDate, endDate, today) + e.fee
  {
  }

  /** The most recent ledger entry about `book`, if any. */
  function LastEntryFor(l: seq<Entry>, book: BookId): (r: Option<Entry>)
    ensures r.Some? ==> r.value.book == book && r.value in l
    ensures r.Some? ==> exists i :: 0 <= i < |l| && l[i] == r.value && forall j :: i < j < |l| ==> l[j].book != book
    ensures r.None? <==> forall i :: 0 <= i < |l| ==> l[i].book != book
  {
    if |l| == 0 then None
    else if l[|l| - 1].book == book then Some(l[|l| - 1])
    else
      var r := LastEntryFor(l[..|l| - 1], book);
      assert r.None? <==> forall i :: 0 <= i < |l| ==> l[i].book != book by {
        if r.None? {
          forall i | 0 <= i < |l| ensures l[i].book != book {
            if i < |l| - 1 { assert l[..|l| - 1][i] == l[i]; }
          }
        } else {
          var j :| 0 <= j < |l| - 1 && l[..|l| - 1][j] == r.value;
        }
      }
      r
  }

  /** The holder of the open loan on `book`: the user of its last entry, when that entry is a borrow. */
  function Holder(l: seq<Entry>, book: BookId): Option<UserId>
  {
    match LastEntryFor(l, book)
    case Some(e) => if e.kind == Borrow then Some(e.user) else None
    case None => None
  }

  /**
   * The books `user` currently holds: borrowed, and with the open loan (the
   * latest entry about the book, a borrow) being the user's.
   */
  function CurrentlyBorrowedBy(books: map<BookId, Book>, l: seq<Entry>, user: UserId): (r: set<BookId>)
    ensures forall b :: b in r <==> b in books && books[b].status == Borrowed && Holder(l, b) == Some(user)
    ensures r <= BorrowedBy(books, l, user)
  {
    var r := set b | b in books && books[b].status == Borrowed && Holder(l, b) == Some(user);
    assert forall b :: b in r ==> HasBorrowEntry(l, user, b) by {
      forall b | b in r ensures HasBorrowEntry(l, user, b) {
        var e := LastEntryFor(l, b).value;
        var i :| 0 <= i < |l| && l[i] == e;
      }
    }
    r
  }

  /** A borrowed book is held by at most one user. */
  lemma CurrentlyBorrowedByIsExclusive(books: map<BookId, Book>, l: seq<Entry>, u1: UserId, u2: UserId, b: BookId)
    requires b in CurrentlyBorrowedBy(books, l, u1) && b in CurrentlyBorrowedBy(books, l, u2)
    ensures u1 == u2
  {
  }
}
