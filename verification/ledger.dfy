/**
 * The transactions table: one ledger entry per borrow or return event, and the
 * two aggregate queries the application runs over it, a `count` and a
 * `sum(:fee_amount)` restricted by a `where` chain with an inclusive
 * `created_at: start..end` range.
 */
module Ledger {
  import opened Wrappers

  type UserId = int
  type BookId = int

  /** An abstract instant. The model only ever compares instants. */
  type Time = int

  /** Money in integer cents: the balance and fee columns are decimal(10,2). */
  type Money = int

  /** The `transaction_type` enum. */
  datatype Kind = Borrow | Return

  /** The integer stored in the `transaction_type` column. */
  function KindCode(k: Kind): int
  {
    match k
    case Borrow => 0
    case Return => 1
  }

  /** Reading the column back; any other integer is not a valid transaction type. */
  function KindFromCode(c: int): (r: Option<Kind>)
    ensures r.Some? <==> c == 0 || c == 1
    ensures r.Some? ==> KindCode(r.value) == c
  {
    if c == 0 then Some(Borrow)
    else if c == 1 then Some(Return)
    else None
  }

  lemma KindCodeRoundTrip(k: Kind)
    ensures KindFromCode(KindCode(k)) == Some(k)
  {
  }

  /** One row of the transactions table, in insertion order in the ledger. */
  datatype Entry = Entry(user: UserId, book: BookId, kind: Kind, fee: Money, createdAt: Time)

  /**
   * A `where` chain on the transactions table: an optional owner filter, an
   * optional book filter, the transaction type and the inclusive range
   * `from..to` on `created_at`. A range whose start lies after its end
   * selects nothing, as a Ruby range does.
   */
  datatype Query = Query(user: Option<UserId>, book: Option<BookId>, kind: Kind, from: Time, to: Time)

  predicate Matches(q: Query, e: Entry)
  {
    && (q.user.Some? ==> e.user == q.user.value)
    && (q.book.Some? ==> e.book == q.book.value)
    && e.kind == q.kind
    && q.from <= e.createdAt <= q.to
  }

  /** No entry of the ledger satisfies the query. */
  ghost predicate NoneMatch(l: seq<Entry>, q: Query)
  {
    forall i :: 0 <= i < |l| ==> !Matches(q, l[i])
  }

  /** Every fee in the ledger is non-negative, as the `fee_amount` validation demands. */
  ghost predicate FeesNonNegative(l: seq<Entry>)
  {
    forall i :: 0 <= i < |l| ==> l[i].fee >= 0
  }

  /** The positions of the entries selected by the query. */
  ghost function MatchIndices(l: seq<Entry>, q: Query): set<int>
  {
    set i | 0 <= i < |l| && Matches(q, l[i])
  }

  /** `count` over the selected rows, folded from the most recent entry backwards. */
  function Count(l: seq<Entry>, q: Query): (n: nat)
    ensures n <= |l|
  {
    if |l| == 0 then 0
    else Count(l[..|l| - 1], q) + (if Matches(q, l[|l| - 1]) then 1 else 0)
  }

  /** `sum(:fee_amount)` over the selected rows; an empty selection sums to 0. */
  function SumFees(l: seq<Entry>, q: Query): (total: Money)
    ensures FeesNonNegative(l) ==> total >= 0
  {
    if |l| == 0 then 0
    else SumFees(l[..|l| - 1], q) + (if Matches(q, l[|l| - 1]) then l[|l| - 1].fee else 0)
  }

  /** The count is the number of positions the query selects. */
  lemma {:induction false} CountIsCardinality(l: seq<Entry>, q: Query)
    ensures Count(l, q) == |MatchIndices(l, q)|
  {
    if |l| > 0 {
      var n := |l| - 1;
      var init := l[..n];
      CountIsCardinality(init, q);
      assert MatchIndices(init, q) == set i | 0 <= i < n && Matches(q, l[i]);
      if Matches(q, l[n]) {
        assert MatchIndices(l, q) == MatchIndices(init, q) + {n};
      } else {
        assert MatchIndices(l, q) == MatchIndices(init, q);
      }
    }
  }

  /** The count is zero exactly when no entry is selected. */
  lemma CountZeroIffNoneMatch(l: seq<Entry>, q: Query)
    ensures Count(l, q) == 0 <==> NoneMatch(l, q)
  {
    CountIsCardinality(l, q);
    if !NoneMatch(l, q) {
      var i :| 0 <= i < |l| && Matches(q, l[i]);
      assert i in MatchIndices(l, q);
    } else {
      assert MatchIndices(l, q) == {};
    }
  }

  /** With nothing selected the fee sum is 0. */
  lemma {:induction false} SumNoneMatch(l: seq<Entry>, q: Query)
    ensures NoneMatch(l, q) ==> SumFees(l, q) == 0
  {
    if |l| > 0 && NoneMatch(l, q) {
      var n := |l| - 1;
      assert NoneMatch(l[..n], q) by {
        forall i | 0 <= i < n ensures !Matches(q, l[..n][i]) {
          assert l[..n][i] == l[i];
        }
      }
      SumNoneMatch(l[..n], q);
    }
  }

  /** Counting distributes over concatenation of ledgers. */
  lemma {:induction false} CountConcat(a: seq<Entry>, b: seq<Entry>, q: Query)
    ensures Count(a + b, q) == Count(a, q) + Count(b, q)
  {
    if |b| == 0 {
      assert a + b == a;
    } else {
      var n := |b| - 1;
      assert (a + b)[..|a + b| - 1] == a + b[..n];
      assert (a + b)[|a + b| - 1] == b[n];
      CountConcat(a, b[..n], q);
    }
  }

  /** Summing fees distributes over concatenation of ledgers. */
  lemma {:induction false} SumConcat(a: seq<Entry>, b: seq<Entry>, q: Query)
    ensures SumFees(a + b, q) == SumFees(a, q) + SumFees(b, q)
  {
    if |b| == 0 {
      assert a + b == a;
    } else {
      var n := |b| - 1;
      assert (a + b)[..|a + b| - 1] == a + b[..n];
      assert (a + b)[|a + b| - 1] == b[n];
      SumConcat(a, b[..n], q);
    }
  }

  /**
   * An entry the query does not select (another owner, another book, the
   * other transaction type, or a timestamp outside the range) changes neither
   * aggregate, wherever it sits in the ledger.
   */
  lemma UnselectedEntryIgnored(a: seq<Entry>, e: Entry, b: seq<Entry>, q: Query)
    requires !Matches(q, e)
    ensures Count(a + [e] + b, q) == Count(a + b, q)
    ensures SumFees(a + [e] + b, q) == SumFees(a + b, q)
  {
    CountConcat(a + [e], b, q);
    CountConcat(a, [e], q);
    CountConcat(a, b, q);
    SumConcat(a + [e], b, q);
    SumConcat(a, [e], q);
    SumConcat(a, b, q);
    assert [e][..0] == [];
  }

  /** When every selected entry carries the same fee, the sum is count times fee. */
  lemma {:induction false} SumOfUniformFees(l: seq<Entry>, q: Query, fee: Money)
    requires forall i :: 0 <= i < |l| && Matches(q, l[i]) ==> l[i].fee == fee
    ensures SumFees(l, q) == Count(l, q) * fee
  {
    if |l| > 0 {
      var n := |l| - 1;
      forall i | 0 <= i < n && Matches(q, l[..n][i]) ensures l[..n][i].fee == fee {
        assert l[..n][i] == l[i];
      }
      SumOfUniformFees(l[..n], q, fee);
    }
  }

  /** The query `q` with its created_at range widened to `from..to`. */
  function Widen(q: Query, from: Time, to: Time): (w: Query)
    requires from <= q.from && q.to <= to
    ensures forall e :: Matches(q, e) ==> Matches(w, e)
  {
    q.(from := from, to := to)
  }

  /** Widening the range never lowers the count, nor the fee sum when fees are non-negative. */
  lemma {:induction false} WideningRangeIsMonotone(l: seq<Entry>, q: Query, from: Time, to: Time)
    requires from <= q.from && q.to <= to
    ensures Count(l, q) <= Count(l, Widen(q, from, to))
    ensures FeesNonNegative(l) ==> SumFees(l, q) <= SumFees(l, Widen(q, from, to))
  {
    if |l| > 0 {
      var n := |l| - 1;
      assert FeesNonNegative(l) ==> FeesNonNegative(l[..n]) by {
        if FeesNonNegative(l) {
          forall i | 0 <= i < n ensures l[..n][i].fee >= 0 {
            assert l[..n][i] == l[i];
          }
        }
      }
      WideningRangeIsMonotone(l[..n], q, from, to);
    }
  }
}
