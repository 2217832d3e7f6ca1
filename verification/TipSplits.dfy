/** How a tip to a team is divided. Amounts are in stroops, the seventh decimal place of the currency,
    so rounding to seven places is rounding to a whole number of stroops. */
module TipSplits {
  import opened Prelude

  datatype Member = Member(username: string, share: int)

  datatype Split = Split(username: string, amount: real)

  /** The nearest whole number, ties to the even one. */
  function RoundHalfEven(x: real): int {
    var below := x.Floor;
    var rest := x - below as real;
    if rest < 0.5 || (rest == 0.5 && below % 2 == 0) then below else below + 1
  }

  function Distance(x: real, k: int): real { if x < k as real then k as real - x else x - k as real }

  /** Rounding gives the one whole number that is strictly nearest or, on a tie, even. */
  lemma {:induction false} RoundsToNearestEven(x: real, k: int)
    ensures k == RoundHalfEven(x) <==> Distance(x, k) < 0.5 || (Distance(x, k) == 0.5 && k % 2 == 0)
  {
    var below := x.Floor;
    assert below as real <= x < below as real + 1.0;
    if k < below {
      assert k as real <= below as real - 1.0;
    } else if k > below + 1 {
      assert k as real >= below as real + 2.0;
    }
  }

  function TotalShares(shares: seq<int>): int {
    if |shares| == 0 then 0 else TotalShares(shares[..|shares| - 1]) + shares[|shares| - 1]
  }

  /** A member's exact part of the tip. */
  function Exact(amount: real, share: int, total: int): real
    requires total > 0
  {
    amount * (share as real / total as real)
  }

  function Sum(amounts: seq<real>): real {
    if |amounts| == 0 then 0.0 else Sum(amounts[..|amounts| - 1]) + amounts[|amounts| - 1]
  }

  function Shares(members: seq<Member>): seq<int> {
    seq(|members|, i requires 0 <= i < |members| => members[i].share)
  }

  function Amounts(rows: seq<Split>): seq<real> { seq(|rows|, i requires 0 <= i < |rows| => rows[i].amount) }

  /** One amount per share: for every share but the last its rounded part, for the last what remains. */
  ghost predicate Divides(amount: real, shares: seq<int>, amounts: seq<real>)
    requires |shares| > 0 && TotalShares(shares) > 0
  {
    var total, n := TotalShares(shares), |shares|;
    && |amounts| == n
    && (forall i :: 0 <= i < n - 1 ==> amounts[i] == RoundHalfEven(Exact(amount, shares[i], total)) as real)
    && amounts[n - 1] == amount - Sum(amounts[..n - 1])
  }

  method SumOfShares(members: seq<Member>) returns (total: int)
    ensures total == TotalShares(Shares(members))
  {
    ghost var shares := Shares(members);
    total := 0;
    for i := 0 to |members|
      invariant total == TotalShares(shares[..i])
    {
      assert shares[..i + 1][..i] == shares[..i];
      total := total + members[i].share;
    }
    assert shares[..|members|] == shares;
  }

  method RoundedPart(amount: real, share: int, total: int) returns (split: real)
    requires total > 0
    ensures split == RoundHalfEven(Exact(amount, share, total)) as real
  {
    var percent := share as real / total as real;
    assert amount * percent == Exact(amount, share, total);
    split := RoundHalfEven(amount * percent) as real;
  }

  lemma {:induction false} AmountsAdd(rows: seq<Split>, row: Split)
    ensures (rows + [row])[..|rows|] == rows
    ensures Sum(Amounts(rows + [row])) == Sum(Amounts(rows)) + row.amount
  {
    assert Amounts(rows + [row])[..|rows|] == Amounts(rows);
  }

  /** A team without members or without shares gets no rows; otherwise each member gets one, in order. */
  method RecordTipSplits(amount: real, members: seq<Member>) returns (rows: seq<Split>)
    ensures |members| == 0 || TotalShares(Shares(members)) <= 0 ==> rows == []
    ensures |members| > 0 && TotalShares(Shares(members)) > 0 ==>
              && |rows| == |members|
              && (forall i :: 0 <= i < |rows| ==> rows[i].username == members[i].username)
              && Divides(amount, Shares(members), Amounts(rows))
  {
    rows := [];
    if |members| == 0 {
      return;
    }
    ghost var shares := Shares(members);
    var total := SumOfShares(members);
    if total <= 0 {
      return;
    }
    var accumulated := 0.0;
    for i := 0 to |members|
      invariant |rows| == i
      invariant i < |members| ==> accumulated == Sum(Amounts(rows))
      invariant forall k :: 0 <= k < i ==> rows[k].username == members[k].username
      invariant forall k :: 0 <= k < i && k < |members| - 1 ==>
                              rows[k].amount == RoundHalfEven(Exact(amount, shares[k], total)) as real
      invariant i == |members| ==> rows[i - 1].amount == amount - Sum(Amounts(rows[..i - 1]))
    {
      var memberAmount;
      if i == |members| - 1 {
        memberAmount := amount - accumulated;
      } else {
        var split := RoundedPart(amount, members[i].share, total);
        accumulated := accumulated + split;
        memberAmount := split;
      }
      AmountsAdd(rows, Split(members[i].username, memberAmount));
      rows := rows + [Split(members[i].username, memberAmount)];
    }
    assert Amounts(rows)[..|rows| - 1] == Amounts(rows[..|rows| - 1]);
  }

  /** Whatever the rounding did, the rows add up to the tip exactly. */
  lemma {:induction false} SplitsSumToTip(amount: real, shares: seq<int>, amounts: seq<real>)
    requires |shares| > 0 && TotalShares(shares) > 0 && Divides(amount, shares, amounts)
    ensures Sum(amounts) == amount
  {
    assert amounts[..|amounts| - 1] == amounts[..|shares| - 1];
  }

  lemma {:induction false} ExactAdds(amount: real, a: int, b: int, total: int)
    requires total > 0
    ensures Exact(amount, a + b, total) == Exact(amount, a, total) + Exact(amount, b, total)
  {
    var x, y, t := a as real, b as real, total as real;
    assert (x + y) / t == x / t + y / t;
  }

  lemma {:induction false} ExactWhole(amount: real, total: int)
    requires total > 0
    ensures Exact(amount, total, total) == amount && Exact(amount, 0, total) == 0.0
  {
    assert total as real / total as real == 1.0;
  }

  function Abs(x: real): real { if x < 0.0 then -x else x }

  /** The rounding errors of the first `n` rows add up to at most half a stroop each. */
  lemma {:induction false} ErrorsAddUp(amount: real, shares: seq<int>, amounts: seq<real>, n: nat)
    requires |shares| > 0 && TotalShares(shares) > 0 && Divides(amount, shares, amounts) && n < |shares|
    ensures Abs(Sum(amounts[..n]) - Exact(amount, TotalShares(shares[..n]), TotalShares(shares))) <= n as real / 2.0
  {
    var total := TotalShares(shares);
    if n == 0 {
      ExactWhole(amount, total);
    } else {
      ErrorsAddUp(amount, shares, amounts, n - 1);
      assert amounts[..n][..n - 1] == amounts[..n - 1] && shares[..n][..n - 1] == shares[..n - 1];
      var part := Exact(amount, shares[n - 1], total);
      ExactAdds(amount, TotalShares(shares[..n - 1]), shares[n - 1], total);
      RoundsToNearestEven(part, RoundHalfEven(part));
      assert n as real / 2.0 == (n - 1) as real / 2.0 + 0.5;
    }
  }

  /** Every member but the last is within half a stroop of its exact part, ties to even, and the last
      within half a stroop for each of the others. */
  lemma {:induction false} SplitsAreFair(amount: real, shares: seq<int>, amounts: seq<real>, i: nat)
    requires |shares| > 0 && TotalShares(shares) > 0 && Divides(amount, shares, amounts) && i < |shares|
    ensures var part := Exact(amount, shares[i], TotalShares(shares));
            if i < |shares| - 1 then
              exists k: int :: amounts[i] == k as real
                               && (Distance(part, k) < 0.5 || (Distance(part, k) == 0.5 && k % 2 == 0))
            else
              Abs(amounts[i] - part) <= (|shares| - 1) as real / 2.0
  {
    var total, n := TotalShares(shares), |shares|;
    var part := Exact(amount, shares[i], total);
    if i < n - 1 {
      RoundsToNearestEven(part, RoundHalfEven(part));
    } else {
      ErrorsAddUp(amount, shares, amounts, n - 1);
      ExactAdds(amount, TotalShares(shares[..n - 1]), shares[n - 1], total);
      ExactWhole(amount, total);
    }
  }

  /** The last member may owe: five stroops among eight equal members give one to each of the first
      seven and minus two to the last. */
  lemma {:induction false} LastMayBeNegative(shares: seq<int>, amounts: seq<real>)
    requires |shares| == 8 && (forall i :: 0 <= i < 8 ==> shares[i] == 1) && TotalShares(shares) > 0
    requires Divides(5.0, shares, amounts)
    ensures |amounts| == 8 && amounts[7] == -2.0 && forall i :: 0 <= i < 7 ==> amounts[i] == 1.0
  {
    EqualShares(shares, 1, 8);
    assert shares[..8] == shares;
    assert Exact(5.0, 1, 8) == 0.625;
    RoundsToNearestEven(0.625, 1);
    forall i | 0 <= i < 7 ensures amounts[i] == 1.0 {
      assert shares[i] == 1;
    }
    SumOfSame(amounts, 1.0, 7);
  }

  lemma {:induction false} EqualShares(shares: seq<int>, share: int, n: nat)
    requires n <= |shares| && forall i :: 0 <= i < |shares| ==> shares[i] == share
    ensures TotalShares(shares[..n]) == share * n
  {
    if n > 0 {
      EqualShares(shares, share, n - 1);
      assert shares[..n][..n - 1] == shares[..n - 1];
      assert share * n == share * (n - 1) + share;
    }
  }

  lemma {:induction false} SumOfSame(amounts: seq<real>, x: real, n: nat)
    requires n <= |amounts| && forall i :: 0 <= i < n ==> amounts[i] == x
    ensures Sum(amounts[..n]) == x * n as real
  {
    if n > 0 {
      SumOfSame(amounts, x, n - 1);
      assert amounts[..n][..n - 1] == amounts[..n - 1];
      assert x * n as real == x * (n - 1) as real + x;
    }
  }

  /** Whatever the amount, it never owes when its exact part covers half a stroop for each of the others. */
  lemma {:induction false} LastIsNonNegativeIf(amount: real, shares: seq<int>, amounts: seq<real>)
    requires |shares| > 0 && TotalShares(shares) > 0 && Divides(amount, shares, amounts)
    requires Exact(amount, shares[|shares| - 1], TotalShares(shares)) >= (|shares| - 1) as real / 2.0
    ensures amounts[|shares| - 1] >= 0.0
  {
    SplitsAreFair(amount, shares, amounts, |shares| - 1);
  }

  /** What the roundings of the first `n` amounts take beyond the exact parts. */
  function Excess(amount: real, shares: seq<int>, total: int, n: nat): real
    requires total > 0 && n <= |shares|
  {
    if n == 0 then 0.0 else
    var part := Exact(amount, shares[n - 1], total);
    Excess(amount, shares, total, n - 1) + (RoundHalfEven(part) as real - part)
  }

  lemma {:induction false} ExcessIsSum(amount: real, shares: seq<int>, amounts: seq<real>, n: nat)
    requires |shares| > 0 && TotalShares(shares) > 0 && Divides(amount, shares, amounts) && n < |shares|
    ensures Sum(amounts[..n]) == Exact(amount, TotalShares(shares[..n]), TotalShares(shares))
                                 + Excess(amount, shares, TotalShares(shares), n)
  {
    var total := TotalShares(shares);
    if n == 0 {
      ExactWhole(amount, total);
    } else {
      ExcessIsSum(amount, shares, amounts, n - 1);
      assert amounts[..n][..n - 1] == amounts[..n - 1] && shares[..n][..n - 1] == shares[..n - 1];
      ExactAdds(amount, TotalShares(shares[..n - 1]), shares[n - 1], total);
    }
  }

  /** The last member's amount, spelled out: its exact part less what the other roundings took. */
  lemma {:induction false} LastIsNonNegativeIff(amount: real, shares: seq<int>, amounts: seq<real>)
    requires |shares| > 0 && TotalShares(shares) > 0 && Divides(amount, shares, amounts)
    ensures var n, total := |shares|, TotalShares(shares);
            var part, excess := Exact(amount, shares[n - 1], total), Excess(amount, shares, total, n - 1);
            amounts[n - 1] == part - excess && (amounts[n - 1] >= 0.0 <==> excess <= part)
  {
    var n, total := |shares|, TotalShares(shares);
    ExcessIsSum(amount, shares, amounts, n - 1);
    ExactAdds(amount, TotalShares(shares[..n - 1]), shares[n - 1], total);
    ExactWhole(amount, total);
  }

  // ---- Amounts with fractions of a stroop: the bound is exact ----

  /** All but the last of `n` members have 3q shares, the last has `k`. */
  function Threes(n: nat, q: nat, k: int): seq<int> { seq(n, i => if i == n - 1 then k else 3 * q) }

  lemma {:induction false} TotalOfThrees(n: nat, q: nat, k: int, m: nat)
    requires m < n
    ensures TotalShares(Threes(n, q, k)[..m]) == 3 * q * m
  {
    var shares := Threes(n, q, k);
    if m > 0 {
      TotalOfThrees(n, q, k, m - 1);
      assert shares[..m][..m - 1] == shares[..m - 1] && shares[..m][m - 1] == 3 * q;
      assert 3 * q * m == 3 * q * (m - 1) + 3 * q;
    }
  }

  /** A tip of which a member with 3q shares has exactly one and a half stroops, rounded to two. */
  lemma {:induction false} HalfUp(n: nat, q: nat, k: int, amount: real)
    requires n >= 1 && q >= 1 && 3 * q * (n - 1) + k > 0
    requires amount == (3 * q * (n - 1) + k) as real / (2 * q) as real
    ensures TotalShares(Threes(n, q, k)) == 3 * q * (n - 1) + k
    ensures Exact(amount, 3 * q, 3 * q * (n - 1) + k) == 1.5 && RoundHalfEven(1.5) == 2
    ensures Exact(amount, k, 3 * q * (n - 1) + k) == k as real / (2 * q) as real
  {
    var shares, total, half := Threes(n, q, k), (3 * q * (n - 1) + k) as real, (2 * q) as real;
    TotalOfThrees(n, q, k, n - 1);
    assert shares[n - 1] == k;
    RoundsToNearestEven(1.5, 2);
    Quotients(total, half, (3 * q) as real);
    Quotients(total, half, k as real);
    assert (3 * q) as real / half == 1.5;
  }

  lemma {:induction false} Quotients(t: real, h: real, x: real)
    requires t > 0.0 && h > 0.0
    ensures (t / h) * (x / t) == x / h
  {
    var a, b := t / h, x / t;
    assert a * h == t && b * t == x;
    assert a * b * h == x;
  }

  /** On this family the bound of `LastIsNonNegativeIf` decides: the last amount is its exact part less half
      a stroop for each other member. */
  lemma {:induction false} ThresholdIsExact(n: nat, q: nat, k: int, amount: real, amounts: seq<real>)
    requires n >= 1 && q >= 1 && 3 * q * (n - 1) + k > 0
    requires amount == (3 * q * (n - 1) + k) as real / (2 * q) as real
    requires TotalShares(Threes(n, q, k)) > 0 && Divides(amount, Threes(n, q, k), amounts)
    ensures var part := Exact(amount, k, TotalShares(Threes(n, q, k)));
            && part == k as real / (2 * q) as real
            && amounts[n - 1] == part - (n - 1) as real / 2.0
            && (amounts[n - 1] >= 0.0 <==> part >= (n - 1) as real / 2.0)
  {
    var shares := Threes(n, q, k);
    HalfUp(n, q, k, amount);
    forall i | 0 <= i < n - 1
      ensures amounts[i] == 2.0
    {
      assert shares[i] == 3 * q;
    }
    SumOfSame(amounts, 2.0, n - 1);
    FamilyTip(n - 1, q, k, amount);
  }

  lemma {:induction false} FamilyTip(m: nat, q: nat, k: int, amount: real)
    requires q >= 1 && amount == (3 * q * m + k) as real / (2 * q) as real
    ensures amount == 1.5 * m as real + k as real / (2 * q) as real
  {
    var h := (2 * q) as real;
    assert (3 * q * m) as real == 1.5 * m as real * h;
    assert (3 * q * m + k) as real == (3 * q * m) as real + k as real;
  }

  lemma {:induction false} ThreesDivide(n: nat, q: nat, k: int) returns (amount: real, amounts: seq<real>)
    requires n >= 1 && q >= 1 && 3 * q * (n - 1) + k > 0
    ensures amount == (3 * q * (n - 1) + k) as real / (2 * q) as real
    ensures TotalShares(Threes(n, q, k)) > 0 && Divides(amount, Threes(n, q, k), amounts)
  {
    var shares := Threes(n, q, k);
    amount := (3 * q * (n - 1) + k) as real / (2 * q) as real;
    HalfUp(n, q, k, amount);
    amounts := seq(n, i => if i == n - 1 then amount - 2.0 * (n - 1) as real else 2.0);
    SumOfSame(amounts, 2.0, n - 1);
    forall i | 0 <= i < n - 1
      ensures amounts[i] == RoundHalfEven(Exact(amount, shares[i], TotalShares(shares))) as real
    {
      assert shares[i] == 3 * q;
    }
  }

  /** So for amounts with fractions of a stroop no smaller bound will do: for any number of members from two
      on and any bound below half a stroop for each of the others, some amount gives the last member an exact
      part of at least the bound and a negative amount. */
  lemma {:induction false} NoSmallerBound(n: nat, bound: real)
    returns (amount: real, shares: seq<int>, amounts: seq<real>)
    requires n >= 2 && bound < (n - 1) as real / 2.0
    ensures |shares| == n && (forall i :: 0 <= i < n ==> shares[i] > 0) && TotalShares(shares) > 0
    ensures Divides(amount, shares, amounts)
    ensures Exact(amount, shares[n - 1], TotalShares(shares)) >= bound && amounts[n - 1] < 0.0
  {
    var q, k := SmallGap(n - 1, bound);
    shares := Threes(n, q, k);
    amount, amounts := ThreesDivide(n, q, k);
    ThresholdIsExact(n, q, k, amount, amounts);
  }

  lemma {:induction false} SmallGap(m: nat, bound: real) returns (q: nat, k: nat)
    requires m >= 1 && bound < m as real / 2.0
    ensures q >= 1 && k >= 1 && 3 * q * m + k > 0 && bound <= k as real / (2 * q) as real < m as real / 2.0
  {
    var gap := m as real / 2.0 - bound;
    q := LargeEnough(gap);
    AboveQuotient(1.0, gap, q as real);
    FamilyIsProper(m, q);
    k := q * m - 1;
    JustBelow(m, q, k, bound);
  }

  lemma {:induction false} FamilyIsProper(m: nat, q: nat)
    requires m >= 1 && q >= 2
    ensures q * m >= 2 && 3 * q * m + (q * m - 1) > 0
  {
    assert 3 * q * m == 3 * (q * m);
  }

  lemma {:induction false} ProductIsPositive(a: real, b: real)
    requires a > 0.0 && b > 0.0
    ensures a * b > 0.0
  {
  }

  lemma {:induction false} ProductGrows(x: real, a: real, y: real)
    requires x > 0.0 && y > a
    ensures y * x > a * x
  {
    ProductIsPositive(y - a, x);
    assert (y - a) * x == y * x - a * x;
  }

  lemma {:induction false} AboveQuotient(a: real, g: real, q: real)
    requires g > 0.0 && a / g < q
    ensures a < q * g
  {
    var d := a / g;
    assert d * g == a;
    ProductGrows(g, d, q);
  }

  lemma {:induction false} LargeEnough(gap: real) returns (q: nat)
    requires gap > 0.0
    ensures q >= 2 && 1.0 / gap < q as real
  {
    assert 1.0 / gap >= 0.0;
    q := (1.0 / gap).Floor + 2;
  }

  lemma {:induction false} JustBelow(m: nat, q: nat, k: int, bound: real)
    requires q >= 1 && k == q * m - 1 && q as real * (m as real / 2.0 - bound) > 1.0
    ensures bound <= k as real / (2 * q) as real < m as real / 2.0
  {
    var h, x := (2 * q) as real, k as real;
    assert x == q as real * m as real - 1.0;
    assert x == (m as real / 2.0) * h - 1.0;
    assert bound * h < x;
    var r := x / h;
    assert r * h == x;
    assert (r - bound) * h > 0.0 && (m as real / 2.0 - r) * h > 0.0;
  }

  // ---- Whole stroops: the bound for the tips that are received ----

  predicate Whole(x: real) { x == x.Floor as real }

  /** A tip is a positive whole number of stroops, and every member has a positive share. */
  ghost predicate Received(n: nat, amount: real, shares: seq<int>, amounts: seq<real>) {
    && amount > 0.0 && Whole(amount)
    && |shares| == n > 0 && (forall i :: 0 <= i < n ==> shares[i] > 0)
    && TotalShares(shares) > 0 && Divides(amount, shares, amounts)
  }

  function LastPart(shares: seq<int>, amount: real): real
    requires |shares| > 0 && TotalShares(shares) > 0
  {
    Exact(amount, shares[|shares| - 1], TotalShares(shares))
  }

  lemma {:induction false} FloorPlus(k: int, rest: real)
    requires 0.0 <= rest < 1.0
    ensures (k as real + rest).Floor == k
  {
  }

  lemma {:induction false} WholeAdds(x: real, y: real)
    requires Whole(x) && Whole(y)
    ensures Whole(x + y) && Whole(x - y)
  {
    var a, b := x.Floor, y.Floor;
    FloorPlus(a + b, 0.0);
    FloorPlus(a - b, 0.0);
    assert x + y == (a + b) as real + 0.0 && x - y == (a - b) as real + 0.0;
  }

  lemma {:induction false} SumIsWhole(amounts: seq<real>, n: nat)
    requires n <= |amounts| && forall i :: 0 <= i < n ==> Whole(amounts[i])
    ensures Whole(Sum(amounts[..n]))
  {
    if n > 0 {
      SumIsWhole(amounts, n - 1);
      assert amounts[..n][..n - 1] == amounts[..n - 1];
      WholeAdds(Sum(amounts[..n - 1]), amounts[n - 1]);
    }
  }

  /** Of a whole number of stroops every member gets a whole number. */
  lemma {:induction false} RowsAreWhole(amount: real, shares: seq<int>, amounts: seq<real>)
    requires |shares| > 0 && TotalShares(shares) > 0 && Divides(amount, shares, amounts) && Whole(amount)
    ensures forall i :: 0 <= i < |amounts| ==> Whole(amounts[i])
  {
    var n := |shares|;
    SumIsWhole(amounts, n - 1);
    WholeAdds(amount, Sum(amounts[..n - 1]));
  }

  /** Of a whole number of stroops the last member never owes when its exact part exceeds half a stroop for
      each of the others but two. */
  lemma {:induction false} WholeTipIsSafeAbove(amount: real, shares: seq<int>, amounts: seq<real>)
    requires |shares| > 0 && TotalShares(shares) > 0 && Divides(amount, shares, amounts) && Whole(amount)
    requires LastPart(shares, amount) > (|shares| - 3) as real / 2.0
    ensures amounts[|shares| - 1] >= 0.0
  {
    SplitsAreFair(amount, shares, amounts, |shares| - 1);
    RowsAreWhole(amount, shares, amounts);
    HalfLess(|shares| - 1);
    assert amounts[|shares| - 1] > -1.0;
  }

  lemma {:induction false} HalfLess(m: int)
    ensures (m - 2) as real / 2.0 == m as real / 2.0 - 1.0
  {
  }

  /** In teams of up to three members the last one never owes. */
  lemma {:induction false} SmallTeamsNeverOwe(n: nat, amount: real, shares: seq<int>, amounts: seq<real>)
    requires Received(n, amount, shares, amounts) && n <= 3
    ensures amounts[n - 1] >= 0.0
  {
    PartIsPositive(amount, shares[n - 1], TotalShares(shares));
    assert (n - 3) as real / 2.0 <= 0.0;
    WholeTipIsSafeAbove(amount, shares, amounts);
  }

  lemma {:induction false} PartIsPositive(amount: real, share: int, total: int)
    requires amount > 0.0 && share > 0 && total > 0
    ensures Exact(amount, share, total) > 0.0
  {
    var x := share as real / total as real;
    assert x > 0.0;
    ProductIsPositive(amount, x);
  }

  /** From four members on that bound is reached: with three shares each, n - 3 for the last, and a tip of
      2n - 3 stroops the last member owes one, at an exact part of (n - 3) / 2. */
  lemma {:induction false} LastOwesOne(n: nat) returns (amount: real, shares: seq<int>, amounts: seq<real>)
    requires n >= 4
    ensures Received(n, amount, shares, amounts) && amount == (2 * n - 3) as real
    ensures LastPart(shares, amount) == (n - 3) as real / 2.0 && amounts[n - 1] == -1.0
  {
    shares := Threes(n, 1, n - 3);
    amount, amounts := ThreesDivide(n, 1, n - 3);
    ThresholdIsExact(n, 1, n - 3, amount, amounts);
    WholeHalves(n);
    HalfLess(n - 1);
  }

  lemma {:induction false} WholeHalves(n: nat)
    requires n >= 4
    ensures (3 * 1 * (n - 1) + (n - 3)) as real / (2 * 1) as real == (2 * n - 3) as real
    ensures (2 * n - 3) as real > 0.0 && Whole((2 * n - 3) as real)
  {
  }

  /** No tip to `n` members with the last exact part above `bound` leaves the last one owing. */
  ghost predicate SafeAbove(n: nat, bound: real) {
    forall amount, shares, amounts :: Received(n, amount, shares, amounts) && LastPart(shares, amount) > bound ==>
                                        amounts[n - 1] >= 0.0
  }

  /** For the tips that are received the bound is exact: any team of up to three is safe, and a larger one
      exactly above half a stroop for each of the other members but two. */
  lemma {:induction false} SafeAboveIff(n: nat, bound: real)
    ensures SafeAbove(n, bound) <==> n <= 3 || bound >= (n - 3) as real / 2.0
  {
    if n <= 3 || bound >= (n - 3) as real / 2.0 {
      forall amount, shares, amounts | Received(n, amount, shares, amounts) && LastPart(shares, amount) > bound
        ensures amounts[n - 1] >= 0.0
      {
        if n <= 3 {
          SmallTeamsNeverOwe(n, amount, shares, amounts);
        } else {
          WholeTipIsSafeAbove(amount, shares, amounts);
        }
      }
    } else {
      var amount, shares, amounts := LastOwesOne(n);
    }
  }

  // ---- Equal shares: which tips leave the last member owing ----

  lemma {:induction false} EqualPart(tip: nat, share: int, n: nat)
    requires n > 0 && share > 0 && share * n > 0
    ensures Exact(tip as real, share, share * n) == tip as real / n as real
  {
    var s, m := share as real, n as real;
    assert (share * n) as real == s * m;
    assert s / (s * m) == 1.0 / m by {
      assert (1.0 / m) * (s * m) == s;
    }
  }

  /** What each of `n` equal members but the last gets. */
  function EqualRounded(tip: nat, n: nat): nat
    requires n > 0
  {
    var q, r := tip / n, tip % n;
    if 2 * r > n || (2 * r == n && q % 2 == 1) then q + 1 else q
  }

  lemma {:induction false} Scaled(a: real, b: real, m: real)
    requires m > 0.0
    ensures a < b <==> a * m < b * m
  {
    assert (b - a) * m == b * m - a * m;
    if a < b {
      ProductIsPositive(b - a, m);
    } else if b < a {
      ProductIsPositive(a - b, m);
      assert (a - b) * m == a * m - b * m;
    }
  }

  lemma {:induction false} RestOf(r: int, n: int)
    requires 0 <= r < n
    ensures var rest := r as real / n as real;
            0.0 <= rest < 1.0 && (rest < 0.5 <==> 2 * r < n) && (rest == 0.5 <==> 2 * r == n)
  {
    var rest, m := r as real / n as real, n as real;
    assert rest * m == r as real;
    Scaled(rest, 1.0, m);
    Scaled(rest, 0.5, m);
    Scaled(0.5, rest, m);
    Scaled(rest, 0.0, m);
  }

  lemma {:induction false} QuotientSplits(q: int, r: int, n: int)
    requires n > 0
    ensures (q * n + r) as real / n as real == q as real + r as real / n as real
  {
    var m := n as real;
    assert (q * n + r) as real == q as real * m + r as real;
    assert (q as real * m + r as real) / m == q as real + r as real / m;
  }

  lemma {:induction false} EqualRounds(tip: nat, n: nat)
    requires n > 0
    ensures RoundHalfEven(tip as real / n as real) == EqualRounded(tip, n)
  {
    var q, r := tip / n, tip % n;
    assert tip == q * n + r;
    QuotientSplits(q, r, n);
    RestOf(r, n);
    FloorPlus(q, r as real / n as real);
  }

  /** The last of `n` amounts when each of the others is the rounded quotient. */
  lemma {:induction false} EqualRest(tip: nat, n: nat)
    requires n > 0
    ensures var q, r := tip / n, tip % n;
            tip - EqualRounded(tip, n) * (n - 1) < 0
            <==> (2 * r > n || (2 * r == n && q % 2 == 1)) && q + r < n - 1
  {
    var q, r := tip / n, tip % n;
    assert tip == q * n + r;
    assert (q + 1) * (n - 1) == q * n - q + n - 1;
    assert q * (n - 1) == q * n - q;
  }

  /** Among `n` equal members the last one owes exactly when the others' part rounds up and the quotient and
      the remainder of the tip together come to less than n - 1. */
  lemma {:induction false} EqualTeamOwesIff(tip: nat, n: nat, share: int, shares: seq<int>, amounts: seq<real>)
    requires n > 0 && share > 0 && |shares| == n && forall i :: 0 <= i < n ==> shares[i] == share
    requires TotalShares(shares) > 0 && Divides(tip as real, shares, amounts)
    ensures var q, r := tip / n, tip % n;
            amounts[n - 1] < 0.0 <==> (2 * r > n || (2 * r == n && q % 2 == 1)) && q + r < n - 1
  {
    EqualAmounts(tip, n, share, shares, amounts);
    EqualRest(tip, n);
  }

  lemma {:induction false} EqualAmounts(tip: nat, n: nat, share: int, shares: seq<int>, amounts: seq<real>)
    requires n > 0 && share > 0 && |shares| == n && forall i :: 0 <= i < n ==> shares[i] == share
    requires TotalShares(shares) > 0 && Divides(tip as real, shares, amounts)
    ensures amounts[n - 1] == (tip - EqualRounded(tip, n) * (n - 1)) as real
  {
    var each := EqualRounded(tip, n);
    EqualShares(shares, share, n);
    assert shares[..n] == shares;
    EqualPart(tip, share, n);
    EqualRounds(tip, n);
    forall i | 0 <= i < n - 1
      ensures amounts[i] == each as real
    {
      assert shares[i] == share;
    }
    SumOfSame(amounts, each as real, n - 1);
    RealProduct(each, n - 1);
  }

  lemma {:induction false} RealProduct(a: int, b: int)
    ensures (a * b) as real == a as real * b as real
  {
  }
}
