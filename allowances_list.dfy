/** The background action behind the allowances report: every stored
    allowance, most recently paid first, each enriched with its used budget
    and with the number and total amount of the payments recorded for its
    host (hosts matched ignoring case). The two stores are in-memory
    sequences and amounts are integers. */
module AllowancesList {
  import opened AsciiCase

  /** A stored allowance record. */
  datatype Allowance = Allowance(
    id: nat,
    host: string,
    totalBudget: int,
    remainingBudget: int,
    lastPaymentAt: int)

  /** A stored payment record; only the fields the listing reads. */
  datatype Payment = Payment(id: nat, host: string, totalAmount: int)

  /** An allowance as the listing returns it: the stored record, unchanged,
      together with the fields the listing adds to it. */
  datatype ListedAllowance = ListedAllowance(
    stored: Allowance,
    usedBudget: int,
    paymentsCount: nat,
    paymentsAmount: int)

  // ---------------------------------------------------------------------
  // Reference definitions of what the derived fields mean

  /** Number of payments whose host equals `host` ignoring case. */
  function CountWhere(payments: seq<Payment>, host: string): nat {
    if payments == [] then 0
    else (if EqualsIgnoreCase(payments[0].host, host) then 1 else 0) + CountWhere(payments[1..], host)
  }

  /** Sum of `totalAmount` over the payments whose host equals `host` ignoring case. */
  function SumWhere(payments: seq<Payment>, host: string): int {
    if payments == [] then 0
    else (if EqualsIgnoreCase(payments[0].host, host) then payments[0].totalAmount else 0)
         + SumWhere(payments[1..], host)
  }

  /** Sum of `totalAmount` over a sequence of payments. */
  function AmountTotal(payments: seq<Payment>): int {
    if payments == [] then 0 else payments[0].totalAmount + AmountTotal(payments[1..])
  }

  /** Non-increasing `lastPaymentAt`: most recent first. */
  ghost predicate MostRecentFirst(s: seq<Allowance>) {
    forall i, j :: 0 <= i < j < |s| ==> s[i].lastPaymentAt >= s[j].lastPaymentAt
  }

  // ---------------------------------------------------------------------
  // The store queries

  /** The query `payments.where("host").equalsIgnoreCase(host)`: exactly the
      payments of that host, each as often as it is stored. */
  function MatchingPayments(payments: seq<Payment>, host: string): (r: seq<Payment>)
    ensures forall p :: multiset(r)[p] == if EqualsIgnoreCase(p.host, host) then multiset(payments)[p] else 0
    ensures forall p :: p in r ==> EqualsIgnoreCase(p.host, host)
  {
    if payments == [] then []
    else
      assert payments == [payments[0]] + payments[1..];
      (if EqualsIgnoreCase(payments[0].host, host) then [payments[0]] else [])
      + MatchingPayments(payments[1..], host)
  }

  /** The `.reverse()` applied before `toArray()`. */
  function Reverse(s: seq<Payment>): (r: seq<Payment>)
    ensures |r| == |s|
    ensures forall i :: 0 <= i < |s| ==> r[i] == s[|s| - 1 - i]
    ensures multiset(r) == multiset(s)
  {
    if s == [] then []
    else
      assert s == [s[0]] + s[1..];
      Reverse(s[1..]) + [s[0]]
  }

  /** Sum of a sequence of integers, added up from the right. */
  function Total(xs: seq<int>): int {
    if xs == [] then 0 else xs[0] + Total(xs[1..])
  }

  /** The `.map((p) => parseInt(p.totalAmount))` step; amounts are integers
      here, so `parseInt` leaves them as they are. */
  function Amounts(payments: seq<Payment>): (r: seq<int>)
    ensures |r| == |payments|
    ensures forall i :: 0 <= i < |payments| ==> r[i] == payments[i].totalAmount
    ensures Total(r) == AmountTotal(payments)
  {
    if payments == [] then []
    else [payments[0].totalAmount] + Amounts(payments[1..])
  }

  /** The `.reduce((p, c) => p + c, acc)` step: a left fold, which adds up
      to the same as the right-nested `Total`. */
  function ReduceAdd(xs: seq<int>, acc: int): (r: int)
    ensures r == acc + Total(xs)
  {
    if xs == [] then acc else ReduceAdd(xs[1..], acc + xs[0])
  }

  /** Descending sort by `lastPaymentAt` (the store's `reverse().sortBy(...)`):
      insert one allowance into a list that is already most recent first. */
  function InsertByRecency(a: Allowance, s: seq<Allowance>): (r: seq<Allowance>)
    requires MostRecentFirst(s)
    ensures |r| == |s| + 1
    ensures MostRecentFirst(r)
    ensures multiset(r) == multiset(s) + multiset{a}
  {
    if s == [] || a.lastPaymentAt >= s[0].lastPaymentAt then [a] + s
    else
      assert s == [s[0]] + s[1..];
      var rest := InsertByRecency(a, s[1..]);
      HeadIsMostRecent(a, s, rest);
      [s[0]] + rest
  }

  /** Every element of `rest`, drawn from `s[1..]` and `a`, is no more recent than `s[0]`. */
  lemma HeadIsMostRecent(a: Allowance, s: seq<Allowance>, rest: seq<Allowance>)
    requires s != [] && MostRecentFirst(s) && a.lastPaymentAt < s[0].lastPaymentAt
    requires multiset(rest) == multiset(s[1..]) + multiset{a}
    ensures forall k :: 0 <= k < |rest| ==> rest[k].lastPaymentAt <= s[0].lastPaymentAt
  {
    forall k | 0 <= k < |rest| ensures rest[k].lastPaymentAt <= s[0].lastPaymentAt {
      assert rest[k] in multiset(rest);
      if rest[k] != a {
        assert rest[k] in s[1..];
      }
    }
  }

  function SortByRecency(s: seq<Allowance>): (r: seq<Allowance>)
    ensures |r| == |s|
    ensures MostRecentFirst(r)
    ensures multiset(r) == multiset(s)
  {
    if s == [] then []
    else
      assert s == [s[0]] + s[1..];
      InsertByRecency(s[0], SortByRecency(s[1..]))
  }

  // ---------------------------------------------------------------------
  // The listing

  /** The derived fields the listing adds to one allowance. */
  function Enrich(a: Allowance, payments: seq<Payment>): (r: ListedAllowance)
    ensures r.stored == a
    ensures r.usedBudget + a.remainingBudget == a.totalBudget
    ensures r.paymentsCount == CountWhere(payments, a.host)
    ensures r.paymentsAmount == SumWhere(payments, a.host)
    ensures r.paymentsCount == 0 ==> r.paymentsAmount == 0
  {
    var matching := MatchingPayments(payments, a.host);
    CountIsMatchingLength(payments, a.host);
    AmountTotalPermutation(Reverse(matching), matching);
    SumIsAmountTotal(payments, a.host);
    assert |matching| == 0 ==> matching == [];
    ListedAllowance(
      a,
      a.totalBudget - a.remainingBudget,
      |matching|,
      ReduceAdd(Amounts(Reverse(matching)), 0))
  }

  /** The stored records inside a listing, in listing order. */
  function Stored(r: seq<ListedAllowance>): (s: seq<Allowance>)
    ensures |s| == |r|
    ensures forall i :: 0 <= i < |r| ==> s[i] == r[i].stored
  {
    seq(|r|, i requires 0 <= i < |r| => r[i].stored)
  }

  /** `list`: every stored allowance exactly once, most recent first, with
      its derived fields. */
  function List(allowances: seq<Allowance>, payments: seq<Payment>): (r: seq<ListedAllowance>)
    ensures |r| == |allowances|
    ensures multiset(Stored(r)) == multiset(allowances)
    ensures Stored(r) == SortByRecency(allowances)
    ensures forall i, j :: 0 <= i < j < |r| ==> r[i].stored.lastPaymentAt >= r[j].stored.lastPaymentAt
    ensures forall i :: 0 <= i < |r| ==>
              && r[i].usedBudget + r[i].stored.remainingBudget == r[i].stored.totalBudget
              && r[i].paymentsCount == CountWhere(payments, r[i].stored.host)
              && r[i].paymentsAmount == SumWhere(payments, r[i].stored.host)
  {
    var sorted := SortByRecency(allowances);
    var r := seq(|sorted|, i requires 0 <= i < |sorted| => Enrich(sorted[i], payments));
    assert Stored(r) == sorted;
    r
  }

  // ---------------------------------------------------------------------
  // Lemmas

  /** `count()` counts exactly the payments the reference definition counts. */
  lemma {:induction false} CountIsMatchingLength(payments: seq<Payment>, host: string)
    ensures |MatchingPayments(payments, host)| == CountWhere(payments, host)
  {
    if payments != [] {
      CountIsMatchingLength(payments[1..], host);
    }
  }

  /** The amounts summed are those of exactly the payments counted. */
  lemma {:induction false} SumIsAmountTotal(payments: seq<Payment>, host: string)
    ensures AmountTotal(MatchingPayments(payments, host)) == SumWhere(payments, host)
  {
    if payments != [] {
      SumIsAmountTotal(payments[1..], host);
      var head: seq<Payment> := if EqualsIgnoreCase(payments[0].host, host) then [payments[0]] else [];
      AmountTotalAppend(head, MatchingPayments(payments[1..], host));
    }
  }

  lemma {:induction false} AmountTotalAppend(a: seq<Payment>, b: seq<Payment>)
    ensures AmountTotal(a + b) == AmountTotal(a) + AmountTotal(b)
  {
    if a != [] {
      assert (a + b)[0] == a[0];
      assert (a + b)[1..] == a[1..] + b;
      AmountTotalAppend(a[1..], b);
    } else {
      assert a + b == b;
    }
  }

  /** The total amount depends only on which payments there are, not on
      their order; in particular the `.reverse()` leaves it unchanged. */
  lemma {:induction false} AmountTotalPermutation(a: seq<Payment>, b: seq<Payment>)
    requires multiset(a) == multiset(b)
    ensures AmountTotal(a) == AmountTotal(b)
    decreases |a|
  {
    if a == [] {
      assert |b| == |multiset(b)| == 0;
    } else {
      var x := a[0];
      MultisetRemove(a, 0);
      assert a[..0] + a[1..] == a[1..];
      var rest := a[1..];
      assert multiset(rest) == multiset(a) - multiset{x};
      assert x in multiset(a);
      assert x in b;
      var k :| 0 <= k < |b| && b[k] == x;
      var others := b[..k] + b[k + 1..];
      MultisetRemove(b, k);
      assert multiset(others) == multiset(b) - multiset{x};
      assert multiset(rest) == multiset(others);
      AmountTotalPermutation(rest, others);
      AmountTotalRemove(b, k);
      assert AmountTotal(a) == x.totalAmount + AmountTotal(rest);
    }
  }

  /** Dropping position `k` removes one occurrence of `s[k]`. */
  lemma MultisetRemove(s: seq<Payment>, k: nat)
    requires k < |s|
    ensures multiset(s[..k] + s[k + 1..]) == multiset(s) - multiset{s[k]}
  {
    assert s == s[..k] + [s[k]] + s[k + 1..];
  }

  lemma {:induction false} AmountTotalRemove(s: seq<Payment>, k: nat)
    requires k < |s|
    ensures AmountTotal(s) == s[k].totalAmount + AmountTotal(s[..k] + s[k + 1..])
  {
    if k == 0 {
      assert s[..0] + s[1..] == s[1..];
    } else {
      AmountTotalRemove(s[1..], k - 1);
      var t := s[..k] + s[k + 1..];
      assert t[0] == s[0];
      assert t[1..] == s[1..][..k - 1] + s[1..][k..];
    }
  }

  /** The count and the amount of a host depend only on which payments are
      stored, not on the order in which they are stored. */
  lemma CountAndSumIgnorePaymentOrder(p1: seq<Payment>, p2: seq<Payment>, host: string)
    requires multiset(p1) == multiset(p2)
    ensures CountWhere(p1, host) == CountWhere(p2, host)
    ensures SumWhere(p1, host) == SumWhere(p2, host)
  {
    var m1, m2 := MatchingPayments(p1, host), MatchingPayments(p2, host);
    assert multiset(m1) == multiset(m2);
    assert |m1| == |multiset(m1)| == |multiset(m2)| == |m2|;
    CountIsMatchingLength(p1, host);
    CountIsMatchingLength(p2, host);
    SumIsAmountTotal(p1, host);
    SumIsAmountTotal(p2, host);
    AmountTotalPermutation(m1, m2);
  }

  /** The listing does not depend on the order in which payments are stored. */
  lemma ListIgnoresPaymentOrder(allowances: seq<Allowance>, p1: seq<Payment>, p2: seq<Payment>)
    requires multiset(p1) == multiset(p2)
    ensures List(allowances, p1) == List(allowances, p2)
  {
    var r1, r2 := List(allowances, p1), List(allowances, p2);
    assert Stored(r1) == Stored(r2);
    forall i | 0 <= i < |r1| ensures r1[i] == r2[i] {
      assert r1[i].stored == Stored(r1)[i] == Stored(r2)[i] == r2[i].stored;
      CountAndSumIgnorePaymentOrder(p1, p2, r1[i].stored.host);
    }
  }

  /** Changing a stored payment's host to another spelling that differs only
      in letter case changes no allowance's listing. */
  lemma {:induction false} RecasedHostSameListing(a: Allowance, payments: seq<Payment>, k: nat, host: string)
    requires k < |payments|
    requires EqualsIgnoreCase(payments[k].host, host)
    ensures Enrich(a, payments[k := payments[k].(host := host)]) == Enrich(a, payments)
  {
    RecasedCounts(payments, k, host, a.host);
  }

  lemma {:induction false} RecasedCounts(payments: seq<Payment>, k: nat, host: string, h: string)
    requires k < |payments|
    requires EqualsIgnoreCase(payments[k].host, host)
    ensures CountWhere(payments[k := payments[k].(host := host)], h) == CountWhere(payments, h)
    ensures SumWhere(payments[k := payments[k].(host := host)], h) == SumWhere(payments, h)
  {
    var q := payments[k := payments[k].(host := host)];
    if k > 0 {
      assert q[1..] == payments[1..][k - 1 := payments[k].(host := host)];
      RecasedCounts(payments[1..], k - 1, host, h);
    } else {
      assert q[1..] == payments[1..];
    }
  }

  /** An allowance whose host is spelled in a different case gets the same
      payments attributed to it. */
  lemma {:induction false} AllowanceHostCaseIrrelevant(payments: seq<Payment>, h1: string, h2: string)
    requires EqualsIgnoreCase(h1, h2)
    ensures CountWhere(payments, h1) == CountWhere(payments, h2)
    ensures SumWhere(payments, h1) == SumWhere(payments, h2)
  {
    if payments != [] {
      AllowanceHostCaseIrrelevant(payments[1..], h1, h2);
    }
  }

  /** Two allowances paid at T1 < T2: the T2 one is listed first. */
  lemma TwoAllowancesOrdered(older: Allowance, newer: Allowance, payments: seq<Payment>)
    requires older.lastPaymentAt < newer.lastPaymentAt
    ensures var r := List([older, newer], payments);
            |r| == 2 && r[0].stored == newer && r[1].stored == older
  {
    assert [older, newer][1..] == [newer];
    assert SortByRecency([newer]) == [newer];
    assert SortByRecency([older, newer]) == InsertByRecency(older, [newer]);
    assert InsertByRecency(older, [newer]) == [newer, older];
    var r := List([older, newer], payments);
    assert Stored(r) == [newer, older];
  }

  /** The scenario above with concrete records: a payment recorded under
      "NEWER.example" is attributed to the allowance for "newer.example". */
  lemma TwoAllowancesExample(older: Allowance, newer: Allowance, payments: seq<Payment>)
    requires older == Allowance(1, "older.example", 1000, 1000, 10)
    requires newer == Allowance(2, "newer.example", 1000, 600, 20)
    requires payments == [Payment(1, "NEWER.example", 400)]
    ensures var r := List([older, newer], payments);
      && |r| == 2
      && r[0].stored == newer && r[0].usedBudget == 400 && r[0].paymentsCount == 1 && r[0].paymentsAmount == 400
      && r[1].stored == older && r[1].usedBudget == 0 && r[1].paymentsCount == 0 && r[1].paymentsAmount == 0
  {
    TwoAllowancesOrdered(older, newer, payments);
    ExampleHosts(payments);
  }

  lemma ExampleHosts(payments: seq<Payment>)
    requires payments == [Payment(1, "NEWER.example", 400)]
    ensures CountWhere(payments, "newer.example") == 1 && SumWhere(payments, "newer.example") == 400
    ensures CountWhere(payments, "older.example") == 0 && SumWhere(payments, "older.example") == 0
  {
    assert LowerStr("NEWER.example") == "newer.example";
    assert LowerStr("newer.example") == "newer.example";
    assert LowerStr("NEWER.example")[0] != LowerStr("older.example")[0];
    assert payments[1..] == [];
  }
}
