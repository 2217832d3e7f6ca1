/** What whole runs of the rate limiter admit. A run is the list of arrival times at one key. */
module GcraRuns {
  import opened Arith
  import opened Prelude
  import opened Gcra

  /** The stored arrival time after a run. */
  function After(p: Params, start: Option<int>, a: seq<int>): Option<int>
    requires p.Valid()
  {
    if |a| == 0 then start else Step(p, After(p, start, a[..|a| - 1]), a[|a| - 1]).0
  }

  /** Whether a request at `now` would be admitted after the run. */
  predicate Admits(p: Params, start: Option<int>, a: seq<int>, now: int)
    requires p.Valid()
  {
    Step(p, After(p, start, a), now).1.allowed
  }

  /** The arrivals that the run admits, in order. */
  function Admitted(p: Params, start: Option<int>, a: seq<int>): seq<int>
    requires p.Valid()
  {
    if |a| == 0 then [] else
    var before := a[..|a| - 1];
    if Admits(p, start, before, a[|a| - 1]) then Admitted(p, start, before) + [a[|a| - 1]]
    else Admitted(p, start, before)
  }

  /** Any two of the arrivals are far enough apart for the requests between them, up to the tolerance. */
  ghost predicate Conforms(p: Params, a: seq<int>) {
    forall i, j :: 0 <= i <= j < |a| ==> (j - i) * p.interval <= a[j] - a[i] + p.Tolerance()
  }

  lemma {:induction false} Snoc<T>(a: seq<T>, t: T)
    ensures (a + [t])[..|a + [t]| - 1] == a && (a + [t])[|a + [t]| - 1] == t
  {
  }

  // ---- Which streams are admitted ----

  /** The stored time as a maximum: no arrival i may still claim more than the value, and from an
      empty key one of them claims exactly it. */
  ghost predicate ClosedForm(p: Params, start: Option<int>, a: seq<int>, tat: Option<int>) {
    && (|a| > 0 ==> tat.Some?)
    && (forall i :: 0 <= i < |a| ==> a[i] + (|a| - i) * p.interval <= tat.value)
    && (start.None? && |a| > 0 ==> exists i :: 0 <= i < |a| && tat.value == a[i] + (|a| - i) * p.interval)
    && (|a| == 0 ==> tat == start)
  }

  lemma {:induction false} ClosedFormStep(p: Params, start: Option<int>, b: seq<int>, t: int, tat: Option<int>)
    requires p.Valid() && ClosedForm(p, start, b, tat)
    requires Step(p, tat, t).1.allowed
    ensures ClosedForm(p, start, b + [t], Step(p, tat, t).0)
  {
    var a, next := b + [t], Step(p, tat, t).0.value;
    assert next == Effective(tat, t) + p.interval;
    forall i | 0 <= i < |a|
      ensures a[i] + (|a| - i) * p.interval <= next
    {
      if i < |b| {
        assert (|a| - i) * p.interval == (|b| - i) * p.interval + p.interval;
      }
    }
    if start.None? {
      if tat.None? || tat.value < t {
        assert next == a[|b|] + (|a| - |b|) * p.interval;
      } else {
        if |b| > 0 {
          var i :| 0 <= i < |b| && tat.value == b[i] + (|b| - i) * p.interval;
          assert (|a| - i) * p.interval == (|b| - i) * p.interval + p.interval;
          assert next == a[i] + (|a| - i) * p.interval;
        }
      }
    }
  }

  lemma {:induction false} AllAdmittedForm(p: Params, start: Option<int>, a: seq<int>)
    requires p.Valid() && Admitted(p, start, a) == a
    ensures ClosedForm(p, start, a, After(p, start, a))
  {
    if |a| > 0 {
      var b, t := a[..|a| - 1], a[|a| - 1];
      assert a == b + [t];
      AdmittedLength(p, start, b);
      AllAdmittedForm(p, start, b);
      ClosedFormStep(p, start, b, t, After(p, start, b));
    }
  }

  lemma {:induction false} AdmittedLength(p: Params, start: Option<int>, a: seq<int>)
    requires p.Valid()
    ensures |Admitted(p, start, a)| <= |a|
    ensures NonDecreasing(a) ==> NonDecreasing(Admitted(p, start, a))
    ensures forall t :: t in Admitted(p, start, a) ==> t in a
  {
    if |a| > 0 {
      AdmittedLength(p, start, a[..|a| - 1]);
      var rest := Admitted(p, start, a[..|a| - 1]);
      assert forall i :: 0 <= i < |rest| ==> rest[i] in rest;
    }
  }

  lemma {:induction false} ConformsSnoc(p: Params, b: seq<int>, t: int)
    requires p.Valid()
    ensures Conforms(p, b + [t]) <==>
            Conforms(p, b) && forall i :: 0 <= i < |b| ==> b[i] + (|b| - i) * p.interval <= t + p.Tolerance()
  {
    var a := b + [t];
    MulMono(0, p.burst - 1, p.interval);
    if Conforms(p, a) {
      forall i, j | 0 <= i <= j < |b|
        ensures (j - i) * p.interval <= b[j] - b[i] + p.Tolerance()
      {
        assert a[i] == b[i] && a[j] == b[j];
      }
      forall i | 0 <= i < |b|
        ensures b[i] + (|b| - i) * p.interval <= t + p.Tolerance()
      {
        assert a[i] == b[i] && a[|b|] == t;
      }
    }
  }

  /** Necessity, from any starting value: a stream admitted in full is spaced out as `Conforms` says. */
  lemma {:induction false} FullyAdmittedConforms(p: Params, start: Option<int>, a: seq<int>)
    requires p.Valid() && Admitted(p, start, a) == a
    ensures Conforms(p, a)
  {
    if |a| > 0 {
      var b, t := a[..|a| - 1], a[|a| - 1];
      assert a == b + [t];
      AdmittedLength(p, start, b);
      FullyAdmittedConforms(p, start, b);
      AllAdmittedForm(p, start, b);
      ConformsSnoc(p, b, t);
    }
  }

  /** From an empty key, a stream is admitted in full exactly when every two of its arrivals conform. */
  lemma {:induction false} FullyAdmittedIff(p: Params, a: seq<int>)
    requires p.Valid()
    ensures Admitted(p, None, a) == a <==> Conforms(p, a)
  {
    if Admitted(p, None, a) == a {
      FullyAdmittedConforms(p, None, a);
    }
    if |a| > 0 && Conforms(p, a) {
      var b, t := a[..|a| - 1], a[|a| - 1];
      assert a == b + [t];
      ConformsSnoc(p, b, t);
      FullyAdmittedIff(p, b);
      AllAdmittedForm(p, None, b);
      MulMono(0, p.burst - 1, p.interval);
    }
  }

  // ---- Rejections cost nothing ----

  /** Deleting every rejected request changes neither the stored value nor any other decision. */
  lemma {:induction false} RejectionsAreFree(p: Params, start: Option<int>, a: seq<int>)
    requires p.Valid()
    ensures After(p, start, Admitted(p, start, a)) == After(p, start, a)
    ensures Admitted(p, start, Admitted(p, start, a)) == Admitted(p, start, a)
  {
    if |a| > 0 {
      var b, t := a[..|a| - 1], a[|a| - 1];
      RejectionsAreFree(p, start, b);
      if Admits(p, start, b, t) {
        Snoc(Admitted(p, start, b), t);
      }
    }
  }

  // ---- Sliding windows ----

  function CountWithin(a: seq<int>, from: int, to: int): nat {
    if |a| == 0 then 0
    else CountWithin(a[..|a| - 1], from, to) + if from <= a[|a| - 1] <= to then 1 else 0
  }

  /** The arrivals inside a window span at most a stretch of that many indices. */
  lemma {:induction false} WindowSpan(a: seq<int>, from: int, to: int) returns (i: int, j: int)
    requires CountWithin(a, from, to) > 0
    ensures 0 <= i <= j < |a| && from <= a[i] <= to && from <= a[j] <= to
    ensures CountWithin(a, from, to) <= j - i + 1
  {
    var b, t := a[..|a| - 1], a[|a| - 1];
    if CountWithin(b, from, to) == 0 {
      i, j := |b|, |b|;
    } else {
      i, j := WindowSpan(b, from, to);
      if from <= t <= to {
        j := |b|;
      }
    }
  }

  lemma {:induction false} SpanBound(p: Params, i: int, j: int, a: seq<int>, width: int)
    requires p.Valid() && Conforms(p, a) && 0 <= i <= j < |a| && a[j] - a[i] <= width
    ensures j - i + 1 <= p.burst + width / p.interval
  {
    var k, e := j - i - (p.burst - 1), p.interval;
    assert k * e == (j - i) * e - e * (p.burst - 1);
    DivGreatest(width, e, k);
  }

  /** In any run, from any stored value and rejections included, a closed window of `width`
      milliseconds admits at most `burst + width / interval` requests. */
  lemma {:induction false} WindowCap(p: Params, start: Option<int>, a: seq<int>, from: int, width: nat)
    requires p.Valid()
    ensures CountWithin(Admitted(p, start, a), from, from + width) <= p.burst + width / p.interval
  {
    var adm := Admitted(p, start, a);
    if CountWithin(adm, from, from + width) > 0 {
      var i, j := WindowSpan(adm, from, from + width);
      RejectionsAreFree(p, start, a);
      FullyAdmittedConforms(p, start, adm);
      SpanBound(p, i, j, adm, width);
    } else {
      DivGreatest(width, p.interval, 0);
    }
  }

  /** With the interval that `check` computes, any window of one period admits at most `limit + burst`. */
  lemma {:induction false} PeriodCap(limit: nat, burst: nat, periodSecs: nat, start: Option<int>, a: seq<int>,
                                     from: int)
    ensures var p := CheckParams(limit, burst, periodSecs);
            CountWithin(Admitted(p, start, a), from, from + Max(periodSecs, 1) * 1000)
            <= Max(limit, 1) + Max(burst, 1)
  {
    var p := CheckParams(limit, burst, periodSecs);
    var period := Max(periodSecs, 1) * 1000;
    WindowCap(p, start, a, from, period);
    DivGreatest(period, p.interval, Max(limit, 1) + 1);
    MulNext(Max(limit, 1), p.interval);
  }

  /** A burst at time 0 and then one arrival per interval. */
  function Steady(p: Params, n: nat): seq<int> {
    seq(n, i => if i < p.burst then 0 else (i - p.burst + 1) * p.interval)
  }

  lemma {:induction false} SteadyConforms(p: Params, n: nat)
    requires p.Valid()
    ensures NonDecreasing(Steady(p, n)) && Conforms(p, Steady(p, n))
  {
    var a := Steady(p, n);
    forall i, j | 0 <= i <= j < n
      ensures a[i] <= a[j] && (j - i) * p.interval <= a[j] - a[i] + p.Tolerance()
    {
      var e, slack := p.interval, p.burst - 1;
      MulMono(0, slack, e);
      if i < p.burst <= j {
        MulMono(0, j - slack, e);
        MulMono(j - i, j, e);
        assert (j - slack) * e == j * e - slack * e;
      } else if i < p.burst {
        MulMono(j - i, slack, e);
      } else {
        MulMono(i - slack, j - slack, e);
        assert (j - slack) * e - (i - slack) * e == (j - i) * e;
      }
    }
  }

  lemma {:induction false} AllWithin(a: seq<int>, from: int, to: int)
    requires forall i :: 0 <= i < |a| ==> from <= a[i] <= to
    ensures CountWithin(a, from, to) == |a|
  {
    if |a| > 0 {
      AllWithin(a[..|a| - 1], from, to);
    }
  }

  lemma {:induction false} SteadyWithin(p: Params, full: nat, width: nat)
    requires p.Valid() && full * p.interval <= width
    ensures CountWithin(Steady(p, p.burst + full), 0, width) == p.burst + full
  {
    var a := Steady(p, p.burst + full);
    forall i | 0 <= i < |a|
      ensures 0 <= a[i] <= width
    {
      if i >= p.burst {
        MulMono(0, i - p.burst + 1, p.interval);
        MulMono(i - p.burst + 1, full, p.interval);
      }
    }
    AllWithin(a, 0, width);
  }

  /** The cap is reached: for every width some stream is admitted in full and fills its window. */
  lemma {:induction false} WindowCapIsReached(p: Params, width: nat) returns (a: seq<int>)
    requires p.Valid()
    ensures NonDecreasing(a) && Admitted(p, None, a) == a
    ensures CountWithin(a, 0, width) == p.burst + width / p.interval
  {
    DivGreatest(width, p.interval, 0);
    var full: nat := width / p.interval;
    DivFloor(width, p.interval);
    a := Steady(p, p.burst + full);
    SteadyConforms(p, p.burst + full);
    FullyAdmittedIff(p, a);
    SteadyWithin(p, full, width);
  }

  /** How many requests a run admits in the window from `from` on. */
  function InWindow(p: Params, start: Option<int>, a: seq<int>, from: int, width: nat): nat
    requires p.Valid()
  {
    CountWithin(Admitted(p, start, a), from, from + width)
  }

  /** A window of one period admits `limit + burst` requests in some run exactly when the limit divides the
      period in milliseconds; otherwise the rounded-up interval always costs at least one. */
  lemma {:induction false} PeriodCapReachedIff(limit: nat, burst: nat, periodSecs: nat)
    ensures var p, period := CheckParams(limit, burst, periodSecs), Max(periodSecs, 1) * 1000;
            (exists start, a, from :: InWindow(p, start, a, from, period) == Max(limit, 1) + Max(burst, 1))
            <==> period % Max(limit, 1) == 0
  {
    var p, period, l := CheckParams(limit, burst, periodSecs), Max(periodSecs, 1) * 1000, Max(limit, 1);
    IntervalsInPeriod(period, l, p.interval);
    if period % l == 0 {
      var a := WindowCapIsReached(p, period);
      assert InWindow(p, None, a, 0, period) == l + Max(burst, 1);
    } else {
      forall start, a, from
        ensures InWindow(p, start, a, from, period) != l + Max(burst, 1)
      {
        WindowCap(p, start, a, from, period);
      }
    }
  }

  /** The rounded-up interval fits `l` times into the period exactly when nothing was rounded. */
  lemma {:induction false} IntervalsInPeriod(period: int, l: int, e: int)
    requires period >= 1 && l >= 1 && e >= 1 && e * l >= period && (e - 1) * l < period
    ensures period / e <= l && (period / e == l <==> period % l == 0)
  {
    DivGreatest(period, e, l);
    DivGreatest(period, e, l + 1);
    MulNext(l, e);
    assert period == (period / l) * l + period % l;
    if period % l == 0 {
      if period / l < e {
        MulMono(period / l, e - 1, l);
      }
    } else if e * l <= period {
      DivUnique(period, l, e);
    }
  }

  lemma {:induction false} DivUnique(x: int, l: int, q: int)
    requires l >= 1 && x == q * l
    ensures x % l == 0
  {
    DivFloor(x, l);
    DivGreatest(x, l, q);
    DivGreatest(x, l, q + 1);
    MulNext(q, l);
    assert x / l == q;
  }

  // ---- No other choice admits more ----

  /** The arrivals that some other policy keeps. */
  function Keep(a: seq<int>, choice: seq<bool>): seq<int>
    requires |choice| == |a|
  {
    if |a| == 0 then [] else
    var n := |a| - 1;
    if choice[n] then Keep(a[..n], choice[..n]) + [a[n]] else Keep(a[..n], choice[..n])
  }

  /** Compared with any other choice whose picks would all be admitted, the limiter is never behind, and is
      ahead in time by at most what it has admitted in excess. */
  ghost predicate Dominates(p: Params, mine: Option<int>, admitted: int, theirs: Option<int>, kept: int, now: int) {
    && admitted >= kept
    && Effective(mine, now) <= Effective(theirs, now) + (admitted - kept) * p.interval
  }

  lemma {:induction false} DominatesLater(p: Params, m: Option<int>, n: int, o: Option<int>, k: int, now: int,
                                          later: int)
    requires p.Valid() && now <= later && Dominates(p, m, n, o, k, now)
    ensures Dominates(p, m, n, o, k, later)
  {
    assert (n - k) * p.interval >= 0;
  }

  lemma {:induction false} DominatesStep(p: Params, m: Option<int>, n: int, o: Option<int>, k: int, now: int,
                                         take: bool)
    requires p.Valid() && Dominates(p, m, n, o, k, now)
    requires take ==> Step(p, o, now).1.allowed
    ensures var n' := if Step(p, m, now).1.allowed then n + 1 else n;
            Dominates(p, Step(p, m, now).0, n', if take then Step(p, o, now).0 else o, if take then k + 1 else k, now)
  {
    var ahead := n - k;
    assert (ahead + 1) * p.interval == ahead * p.interval + p.interval;
    assert (ahead - 1) * p.interval == ahead * p.interval - p.interval;
    if take && !Step(p, m, now).1.allowed {
      if ahead == 0 {
        assert false;
      }
    }
  }

  /** A stream admitted in full has every prefix admitted in full. */
  lemma {:induction false} FullyAdmittedPrefix(p: Params, b: seq<int>, t: int)
    requires p.Valid() && Admitted(p, None, b + [t]) == b + [t]
    ensures Admitted(p, None, b) == b && Admits(p, None, b, t)
    ensures After(p, None, b + [t]) == Step(p, After(p, None, b), t).0
  {
    Snoc(b, t);
    AdmittedLength(p, None, b);
  }

  lemma {:induction false} DominatesRun(p: Params, a: seq<int>, choice: seq<bool>, now: int)
    requires p.Valid() && |choice| == |a| && NonDecreasing(a)
    requires forall i :: 0 <= i < |a| ==> a[i] <= now
    requires Admitted(p, None, Keep(a, choice)) == Keep(a, choice)
    ensures Dominates(p, After(p, None, a), |Admitted(p, None, a)|,
                      After(p, None, Keep(a, choice)), |Keep(a, choice)|, now)
  {
    if |a| > 0 {
      var n := |a| - 1;
      var b, c, t := a[..n], choice[..n], a[n];
      var kept := Keep(b, c);
      if choice[n] {
        FullyAdmittedPrefix(p, kept, t);
      }
      DominatesRun(p, b, c, t);
      DominatesStep(p, After(p, None, b), |Admitted(p, None, b)|, After(p, None, kept), |kept|, t, choice[n]);
      DominatesLater(p, After(p, None, a), |Admitted(p, None, a)|,
                     After(p, None, Keep(a, choice)), |Keep(a, choice)|, t, now);
    }
  }

  /** Of all ways to pick arrivals that keep the spacing rule, none picks more than the limiter admits. */
  lemma {:induction false} GreedyIsOptimal(p: Params, a: seq<int>, choice: seq<bool>)
    requires p.Valid() && |choice| == |a| && NonDecreasing(a) && Conforms(p, Keep(a, choice))
    ensures |Keep(a, choice)| <= |Admitted(p, None, a)|
  {
    if |a| > 0 {
      FullyAdmittedIff(p, Keep(a, choice));
      DominatesRun(p, a, choice, a[|a| - 1]);
    }
  }

  // ---- The continuous-state leaky bucket ----

  /** The bucket level just after the last conforming arrival. */
  datatype Bucket = Bucket(level: int, lastConforming: int)

  /** Annex A of ITU-T I.371, second form: drain since the last conforming arrival, then test and fill. */
  function BucketStep(p: Params, b: Option<Bucket>, now: int): (Option<Bucket>, bool) {
    var drained := if b.None? then 0 else b.value.level - (now - b.value.lastConforming);
    if drained > p.Tolerance() then (b, false)
    else (Some(Bucket(Max(drained, 0) + p.interval, now)), true)
  }

  function BucketAfter(p: Params, a: seq<int>): Option<Bucket> {
    if |a| == 0 then None else BucketStep(p, BucketAfter(p, a[..|a| - 1]), a[|a| - 1]).0
  }

  ghost predicate SameBucket(tat: Option<int>, b: Option<Bucket>) {
    tat.Some? == b.Some? && (tat.Some? ==> tat.value == b.value.level + b.value.lastConforming)
  }

  /** On every run, in any order of times, both forms make the same decision on the next arrival,
      and the stored time is the bucket's level plus its last conforming arrival. */
  lemma {:induction false} LeakyBucketAgrees(p: Params, a: seq<int>, now: int)
    requires p.Valid()
    ensures SameBucket(After(p, None, a), BucketAfter(p, a))
    ensures Admits(p, None, a, now) == BucketStep(p, BucketAfter(p, a), now).1
  {
    MulMono(0, p.burst - 1, p.interval);
    if |a| > 0 {
      LeakyBucketAgrees(p, a[..|a| - 1], a[|a| - 1]);
    }
  }

  // ---- Key expiry ----

  /** An arrival, and whether Redis has meanwhile dropped the key if its deadline has passed. */
  datatype Arrival = Arrival(now: int, dropped: bool)

  function Found(cell: Option<Cell>, arrival: Arrival): Option<int> {
    if cell.None? || (arrival.dropped && cell.value.deadline <= arrival.now) then None
    else Some(cell.value.tat)
  }

  /** One call against a key that may vanish from its deadline on. */
  function ExpiringStep(p: Params, cell: Option<Cell>, arrival: Arrival): (Option<Cell>, Reply)
    requires p.Valid()
  {
    var (tat, reply) := Step(p, Found(cell, arrival), arrival.now);
    if reply.allowed then (Some(Cell(tat.value, arrival.now + p.ttl)), reply)
    else (if Found(cell, arrival).None? then None else cell, reply)
  }

  function ExpiringAfter(p: Params, a: seq<Arrival>): Option<Cell>
    requires p.Valid()
  {
    if |a| == 0 then None else ExpiringStep(p, ExpiringAfter(p, a[..|a| - 1]), a[|a| - 1]).0
  }

  function Times(a: seq<Arrival>): seq<int> { seq(|a|, i requires 0 <= i < |a| => a[i].now) }

  /** What the forgetting key and the remembering one have in common at time `now`. */
  ghost predicate SameUntilForgotten(cell: Option<Cell>, tat: Option<int>, now: int) {
    if cell.Some? then tat == Some(cell.value.tat) && cell.value.tat < cell.value.deadline
    else tat.None? || tat.value < now
  }

  lemma {:induction false} ExpiringStepAgrees(p: Params, cell: Option<Cell>, tat: Option<int>, arrival: Arrival)
    requires p.Valid() && SameUntilForgotten(cell, tat, arrival.now)
    ensures ExpiringStep(p, cell, arrival).1 == Step(p, tat, arrival.now).1
    ensures SameUntilForgotten(ExpiringStep(p, cell, arrival).0, Step(p, tat, arrival.now).0, arrival.now)
  {
    assert p.interval * p.burst == p.Tolerance() + p.interval;
  }

  /** With one clock that never runs back, a limiter whose key may vanish at its deadline or any time
      later gives the same full reply at every step as one that never forgets. */
  lemma {:induction false} ExpiryIsHarmless(p: Params, a: seq<Arrival>, next: Arrival)
    requires p.Valid() && NonDecreasing(Times(a + [next]))
    ensures SameUntilForgotten(ExpiringAfter(p, a), After(p, None, Times(a)), next.now)
    ensures ExpiringStep(p, ExpiringAfter(p, a), next).1 == Step(p, After(p, None, Times(a)), next.now).1
  {
    var all := Times(a + [next]);
    if |a| > 0 {
      var b, last := a[..|a| - 1], a[|a| - 1];
      assert Times(b + [last]) == Times(a) == all[..|a|];
      assert Times(a)[..|a| - 1] == Times(b);
      ExpiryIsHarmless(p, b, last);
      ExpiringStepAgrees(p, ExpiringAfter(p, b), After(p, None, Times(b)), last);
      assert all[|a| - 1] == last.now && all[|a|] == next.now;
      assert all[|a| - 1] <= all[|a|];
    }
    ExpiringStepAgrees(p, ExpiringAfter(p, a), After(p, None, Times(a)), next);
  }

  // ---- The numbers in the reply ----

  function Repeat(now: int, n: nat): seq<int> { seq(n, i requires 0 <= i < n => now) }

  /** How many more requests fit at one instant when the stored time is `tat`. */
  function Room(p: Params, tat: int, now: int): int
    requires p.Valid()
  {
    (p.Tolerance() - (tat - now)) / p.interval + 1
  }

  lemma {:induction false} RoomShrinks(p: Params, tat: int, now: int)
    requires p.Valid()
    ensures Room(p, tat + p.interval, now) == Room(p, tat, now) - 1
    ensures tat - now <= p.Tolerance() <==> Room(p, tat, now) >= 1
  {
    var x := p.Tolerance() - (tat - now);
    DivShift(x, p.interval);
    DivGreatest(x, p.interval, 0);
  }

  function Advance(p: Params, tat: int, k: int): int { tat + k * p.interval }

  lemma {:induction false} RoomAfter(p: Params, tat: int, now: int, k: nat)
    requires p.Valid()
    ensures Room(p, Advance(p, tat, k), now) == Room(p, tat, now) - k
  {
    if k > 0 {
      RoomAfter(p, tat, now, k - 1);
      RoomShrinks(p, Advance(p, tat, k - 1), now);
      MulNext(k, p.interval);
    }
  }

  lemma {:induction false} FurtherRequest(p: Params, tat: int, now: int, k: nat)
    requires p.Valid() && tat >= now
    ensures var (next, reply) := Step(p, Some(Advance(p, tat, k)), now);
            && (reply.allowed <==> k < Room(p, tat, now))
            && next == Some(Advance(p, tat, if reply.allowed then k + 1 else k))
  {
    RoomAfter(p, tat, now, k);
    RoomShrinks(p, Advance(p, tat, k), now);
    MulMono(0, k, p.interval);
    MulNext(k, p.interval);
  }

  /** Of `n` requests at one instant, exactly the first `Room` are admitted. */
  lemma {:induction false} InstantBurst(p: Params, tat: int, now: int, n: nat)
    requires p.Valid() && tat >= now
    ensures var k := Min(n, Max(Room(p, tat, now), 0));
            && Admitted(p, Some(tat), Repeat(now, n)) == Repeat(now, k)
            && After(p, Some(tat), Repeat(now, n)) == Some(Advance(p, tat, k))
  {
    if n > 0 {
      InstantBurst(p, tat, now, n - 1);
      assert Repeat(now, n)[..n - 1] == Repeat(now, n - 1);
      var k := Min(n - 1, Max(Room(p, tat, now), 0));
      FurtherRequest(p, tat, now, k);
      assert Repeat(now, k) + [now] == Repeat(now, k + 1);
    }
  }

  /** After an admission that reports `remaining`, of any number of further requests at that instant
      exactly the first `remaining` are admitted. */
  lemma {:induction false} RemainingIsExact(p: Params, tat: Option<int>, now: int, n: nat)
    requires p.Valid() && Step(p, tat, now).1.allowed
    ensures var (next, reply) := Step(p, tat, now);
            && reply.remaining >= 0 && reply.retryAfterMs == 0
            && Admitted(p, next, Repeat(now, n)) == Repeat(now, Min(n, reply.remaining))
  {
    InstantBurst(p, Step(p, tat, now).0.value, now, n);
  }

  /** After a rejection nothing has changed, and a retry is admitted exactly from `retryAfterMs` later on;
      the whole-second header suffices, and is the least whole number of seconds that does. */
  lemma {:induction false} RetryIsExact(p: Params, tat: Option<int>, now: int, delay: nat)
    requires p.Valid() && !Step(p, tat, now).1.allowed
    ensures var (next, reply) := Step(p, tat, now);
            && next == tat && reply.remaining == 0 && reply.retryAfterMs > 0
            && (Step(p, next, now + delay).1.allowed <==> delay >= reply.retryAfterMs)
            && (forall secs: nat :: Step(p, next, now + 1000 * secs).1.allowed
                                    <==> secs >= MsToSecsCeil(reply.retryAfterMs))
  {
    assert p.Tolerance() >= 0;
  }

  /** A stored time in the past counts as the present. */
  lemma {:induction false} StalePast(p: Params, tat: Option<int>, now: int, n: nat)
    requires p.Valid() && (tat.None? || tat.value <= now)
    ensures Admitted(p, tat, Repeat(now, n)) == Admitted(p, Some(now), Repeat(now, n))
    ensures n > 0 ==> After(p, tat, Repeat(now, n)) == After(p, Some(now), Repeat(now, n))
  {
    if n > 0 {
      assert Repeat(now, n)[..n - 1] == Repeat(now, n - 1);
      StalePast(p, tat, now, n - 1);
      assert p.Tolerance() >= 0;
    }
  }

  lemma {:induction false} RoomForBurst(p: Params, tat: int, now: int)
    requires p.Valid()
    ensures Room(p, tat, now) >= p.burst <==> tat <= now
  {
    DivGreatest(p.Tolerance() - (tat - now), p.interval, p.burst - 1);
  }

  /** A full burst fits at an instant exactly from the stored time on. */
  lemma {:induction false} FullBurst(p: Params, tat: int, now: int)
    requires p.Valid()
    ensures |Admitted(p, Some(tat), Repeat(now, p.burst))| == p.burst <==> tat <= now
  {
    var base := Max(tat, now);
    if tat < now {
      StalePast(p, Some(tat), now, p.burst);
    }
    InstantBurst(p, base, now, p.burst);
    RoomForBurst(p, base, now);
  }

  /** `resetAfterMs` is the least delay after which the full burst is available again. */
  lemma {:induction false} ResetIsExact(p: Params, tat: Option<int>, now: int, delay: nat)
    requires p.Valid()
    ensures var (next, reply) := Step(p, tat, now);
            |Admitted(p, next, Repeat(now + delay, p.burst))| == p.burst <==> delay >= reply.resetAfterMs
  {
    var (next, reply) := Step(p, tat, now);
    MulMono(0, p.burst - 1, p.interval);
    FullBurst(p, next.value, now + delay);
  }
}
