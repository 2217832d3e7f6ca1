/** Runs of the service in which Redis may answer any calls and fail any others: exactly when an execution
    starts, and so when a second one starts within the lease of a first. */
module ServiceRuns {
  import opened Prelude
  import opened Idempotency
  import Redis = RedisBackend
  import Pg = PostgresBackend
  import Service = IdempotencyService

  /** Call `n` is a `begin` that is told to proceed. */
  predicate Starts(cfg: Config, calls: seq<Call>, up: seq<bool>, n: nat)
    requires n < |calls| == |up|
  {
    calls[n].Begin?
    && Service.Step(Service.Before(cfg, calls, up, n), cfg, calls[n], up[n]).1 == Some(Proceed(calls[n].token))
  }

  /** The same for one scope and one store: Redis, or else Postgres. */
  predicate StartsBy(cfg: Config, calls: seq<Call>, up: seq<bool>, n: nat, s: Scope, redis: bool)
    requires n < |calls| == |up|
  {
    Starts(cfg, calls, up, n) && calls[n].scope == s && up[n] == redis
  }

  /** The last execution of `s` that the store gave out before call `n` is that of call `j`. */
  ghost predicate LastStart(cfg: Config, calls: seq<Call>, up: seq<bool>, j: nat, n: nat, s: Scope, redis: bool)
    requires n <= |calls| == |up|
  {
    j < n && StartsBy(cfg, calls, up, j, s, redis) && forall m :: j < m < n ==> !StartsBy(cfg, calls, up, m, s, redis)
  }

  lemma {:induction false} OneLastStart(cfg: Config, calls: seq<Call>, up: seq<bool>, i: nat, j: nat, n: nat, s: Scope,
                                        redis: bool)
    requires n <= |calls| == |up|
    requires LastStart(cfg, calls, up, i, n, s, redis) && LastStart(cfg, calls, up, j, n, s, redis)
    ensures i == j
  {
  }

  lemma {:induction false} FindLastStart(cfg: Config, calls: seq<Call>, up: seq<bool>, n: nat, s: Scope, redis: bool)
    returns (j: Option<nat>)
    requires n <= |calls| == |up|
    ensures j.None? ==> forall m :: 0 <= m < n ==> !StartsBy(cfg, calls, up, m, s, redis)
    ensures j.Some? ==> LastStart(cfg, calls, up, j.value, n, s, redis)
  {
    if n == 0 {
      j := None;
    } else if StartsBy(cfg, calls, up, n - 1, s, redis) {
      j := Some(n - 1);
    } else {
      j := FindLastStart(cfg, calls, up, n - 1, s, redis);
    }
  }

  // ---- The lock ----

  /** The call, if Redis answers it, releases the lock that `t` holds. */
  predicate Frees(cfg: Config, c: Call, s: Scope, t: Token) {
    c.Resolves(s, t) && (c.Fail? || c.gzipLen > cfg.maxBody || Redis.EntrySecs(cfg) > 0)
  }

  ghost predicate Freed(cfg: Config, calls: seq<Call>, up: seq<bool>, j: nat, n: nat, s: Scope)
    requires j < n <= |calls| == |up| && calls[j].Begin?
  {
    exists k :: j < k < n && up[k] && Frees(cfg, calls[k], s, calls[j].token)
  }

  function LocksAt(cfg: Config, calls: seq<Call>, up: seq<bool>, n: nat): map<Scope, Redis.Lock>
    requires n <= |calls| == |up|
  {
    Service.Before(cfg, calls, up, n).keys.locks
  }

  /** What one call does to the lock of a scope. */
  lemma {:induction false} LockStep(cfg: Config, calls: seq<Call>, up: seq<bool>, n: nat, s: Scope)
    requires n < |calls| == |up| && cfg.lockTtl > 0
    ensures var before, after, c := LocksAt(cfg, calls, up, n), LocksAt(cfg, calls, up, n + 1), calls[n];
            if StartsBy(cfg, calls, up, n, s, true) then
              s in after && after[s] == Redis.Lock(c.token, c.now + cfg.lockTtl)
            else if up[n] && s in before && c.now < before[s].deadline && Frees(cfg, c, s, before[s].token) then
              s !in after
            else
              (s in after <==> s in before) && (s in before ==> after[s] == before[s])
  {
  }

  /** The lock of a scope in terms of the last execution that Redis gave out. */
  ghost predicate LockIs(cfg: Config, calls: seq<Call>, up: seq<bool>, i: nat, n: nat, s: Scope)
    requires i < n <= |calls| == |up| && calls[i].Begin?
  {
    var locks := LocksAt(cfg, calls, up, n);
    if Freed(cfg, calls, up, i, n, s) then s in locks ==> locks[s].deadline <= calls[n - 1].now
    else s in locks && locks[s] == Redis.Lock(calls[i].token, calls[i].now + cfg.lockTtl)
  }

  lemma {:induction false} LockIsNext(cfg: Config, calls: seq<Call>, up: seq<bool>, i: nat, n: nat, s: Scope)
    requires i < n < |calls| == |up| && calls[i].Begin? && Chronological(calls) && cfg.lockTtl > 0
    requires LockIs(cfg, calls, up, i, n, s) && !StartsBy(cfg, calls, up, n, s, true)
    ensures LockIs(cfg, calls, up, i, n + 1, s)
  {
    LockStep(cfg, calls, up, n, s);
    assert calls[n - 1].now <= calls[n].now;
    var frees := up[n] && Frees(cfg, calls[n], s, calls[i].token);
    assert Freed(cfg, calls, up, i, n + 1, s) <==> Freed(cfg, calls, up, i, n, s) || frees;
  }

  lemma {:induction false} LockIsAt(cfg: Config, calls: seq<Call>, up: seq<bool>, i: nat, n: nat, s: Scope)
    requires n <= |calls| == |up| && Chronological(calls) && cfg.lockTtl > 0 && LastStart(cfg, calls, up, i, n, s, true)
    ensures LockIs(cfg, calls, up, i, n, s)
  {
    if n == i + 1 {
      LockStep(cfg, calls, up, i, s);
    } else {
      LockIsAt(cfg, calls, up, i, n - 1, s);
      LockIsNext(cfg, calls, up, i, n - 1, s);
    }
  }

  lemma {:induction false} NoLock(cfg: Config, calls: seq<Call>, up: seq<bool>, n: nat, s: Scope)
    requires n <= |calls| == |up| && cfg.lockTtl > 0
    requires forall m :: 0 <= m < n ==> !StartsBy(cfg, calls, up, m, s, true)
    ensures s !in LocksAt(cfg, calls, up, n)
  {
    if n > 0 {
      NoLock(cfg, calls, up, n - 1, s);
      LockStep(cfg, calls, up, n - 1, s);
    }
  }

  /** The lock given out at `j` bars call `n`. */
  ghost predicate LockStands(cfg: Config, calls: seq<Call>, up: seq<bool>, j: nat, n: nat, s: Scope)
    requires n < |calls| == |up|
  {
    && LastStart(cfg, calls, up, j, n, s, true) && !Freed(cfg, calls, up, j, n, s)
    && calls[n].now < calls[j].now + cfg.lockTtl
  }

  lemma {:induction false} LockedIff(cfg: Config, calls: seq<Call>, up: seq<bool>, n: nat, s: Scope)
    requires n < |calls| == |up| && Chronological(calls) && cfg.lockTtl > 0
    ensures Redis.Locked(Service.Before(cfg, calls, up, n).keys, s, calls[n].now)
       <==> exists j: nat :: LockStands(cfg, calls, up, j, n, s)
  {
    var last := FindLastStart(cfg, calls, up, n, s, true);
    match last
    case None =>
      NoLock(cfg, calls, up, n, s);
    case Some(i) =>
      LockIsAt(cfg, calls, up, i, n, s);
      assert calls[n - 1].now <= calls[n].now;
      assert Redis.Locked(Service.Before(cfg, calls, up, n).keys, s, calls[n].now)
        <==> LockStands(cfg, calls, up, i, n, s);
      forall j: nat | LockStands(cfg, calls, up, j, n, s)
        ensures j == i
      {
        OneLastStart(cfg, calls, up, i, j, n, s, true);
      }
  }

  // ---- The record ----

  /** The call, if Redis answers it, stores a record. */
  predicate Keeps(cfg: Config, c: Call, s: Scope) {
    c.Complete? && c.guard.scope == s && c.gzipLen <= cfg.maxBody && Redis.EntrySecs(cfg) > 0
  }

  ghost predicate LastKept(cfg: Config, calls: seq<Call>, up: seq<bool>, k: nat, n: nat, s: Scope)
    requires n <= |calls| == |up|
  {
    k < n && up[k] && Keeps(cfg, calls[k], s) && forall m :: k < m < n ==> !(up[m] && Keeps(cfg, calls[m], s))
  }

  lemma {:induction false} RecordAfter(cfg: Config, calls: seq<Call>, up: seq<bool>, n: nat, s: Scope)
    returns (k: Option<nat>)
    requires n <= |calls| == |up|
    ensures var done := Service.Before(cfg, calls, up, n).keys.done;
            match k
            case None => s !in done && forall m :: 0 <= m < n ==> !(up[m] && Keeps(cfg, calls[m], s))
            case Some(i) =>
              && LastKept(cfg, calls, up, i, n, s) && s in done
              && done[s] == Redis.Record(calls[i].guard.fingerprint, calls[i].response,
                                         calls[i].now + 1000 * Redis.EntrySecs(cfg))
  {
    if n == 0 {
      k := None;
    } else {
      k := RecordAfter(cfg, calls, up, n - 1, s);
      if up[n - 1] && Keeps(cfg, calls[n - 1], s) {
        k := Some(n - 1);
      }
    }
  }

  /** The record stored at `k` answers call `n`. */
  ghost predicate RecordStands(cfg: Config, calls: seq<Call>, up: seq<bool>, k: nat, n: nat, s: Scope)
    requires n < |calls| == |up|
  {
    LastKept(cfg, calls, up, k, n, s) && calls[n].now < calls[k].now + 1000 * Redis.EntrySecs(cfg)
  }

  lemma {:induction false} RecordedIff(cfg: Config, calls: seq<Call>, up: seq<bool>, n: nat, s: Scope)
    requires n < |calls| == |up|
    ensures Redis.Recorded(Service.Before(cfg, calls, up, n).keys, s, calls[n].now)
       <==> exists k: nat :: RecordStands(cfg, calls, up, k, n, s)
  {
    var last := RecordAfter(cfg, calls, up, n, s);
    if last.Some? {
      forall k: nat | LastKept(cfg, calls, up, k, n, s)
        ensures k == last.value
      {
      }
      assert Redis.Recorded(Service.Before(cfg, calls, up, n).keys, s, calls[n].now)
        <==> RecordStands(cfg, calls, up, last.value, n, s);
    }
  }

  /** While Redis answers, a `begin` starts an execution exactly when neither the last lock given out by Redis
      nor the last record stored there stands in its way; what happened in outages plays no part. */
  lemma {:induction false} RedisStartsIff(cfg: Config, calls: seq<Call>, up: seq<bool>, n: nat, s: Scope)
    requires n < |calls| == |up| && Chronological(calls) && cfg.lockTtl > 0
    requires calls[n].Begin? && calls[n].scope == s && up[n]
    ensures Starts(cfg, calls, up, n)
       <==> && (forall j: nat :: !LockStands(cfg, calls, up, j, n, s))
            && (forall k: nat :: !RecordStands(cfg, calls, up, k, n, s))
  {
    LockedIff(cfg, calls, up, n, s);
    RecordedIff(cfg, calls, up, n, s);
  }

  // ---- The row ----

  /** The call completes or fails the scope in Postgres, whoever's guard it carries. */
  predicate Settles(c: Call, s: Scope) { !c.Begin? && c.guard.scope == s }

  ghost predicate Unsettled(calls: seq<Call>, j: nat, n: nat, s: Scope)
    requires n <= |calls|
  {
    forall m :: j < m < n ==> !Settles(calls[m], s)
  }

  ghost predicate FirstSettled(calls: seq<Call>, j: nat, k: nat, n: nat, s: Scope)
    requires n <= |calls|
  {
    j < k < n && Settles(calls[k], s) && Unsettled(calls, j, k, s)
  }

  ghost predicate LastCompleted(calls: seq<Call>, k: nat, m: nat, n: nat, s: Scope)
    requires n <= |calls|
  {
    && k <= m < n && calls[m].Complete? && Settles(calls[m], s)
    && forall x :: m < x < n ==> !(calls[x].Complete? && Settles(calls[x], s))
  }

  function Retention(cfg: Config): nat { 1000 * (cfg.entryTtl / 1000) }

  function RowsAt(cfg: Config, calls: seq<Call>, up: seq<bool>, n: nat): Pg.Rows
    requires n <= |calls| == |up|
  {
    Service.Before(cfg, calls, up, n).rows
  }

  lemma {:induction false} NoRow(cfg: Config, calls: seq<Call>, up: seq<bool>, n: nat, s: Scope)
    requires n <= |calls| == |up| && cfg.lockTtl > 0
    requires forall m :: 0 <= m < n ==> !StartsBy(cfg, calls, up, m, s, false)
    ensures s !in RowsAt(cfg, calls, up, n)
  {
    if n > 0 {
      NoRow(cfg, calls, up, n - 1, s);
      assert !StartsBy(cfg, calls, up, n - 1, s, false);
    }
  }

  lemma {:induction false} StartedRow(cfg: Config, calls: seq<Call>, up: seq<bool>, j: nat, s: Scope)
    requires j < |calls| == |up| && StartsBy(cfg, calls, up, j, s, false)
    ensures var rows := RowsAt(cfg, calls, up, j + 1);
            && s in rows && rows[s].inFlight && rows[s].createdAt == calls[j].now
            && rows[s].fingerprint == calls[j].fingerprint
  {
  }

  /** What one call does to the row of a scope. */
  lemma {:induction false} RowStep(cfg: Config, calls: seq<Call>, up: seq<bool>, n: nat, s: Scope)
    requires n < |calls| == |up| && cfg.lockTtl > 0 && !StartsBy(cfg, calls, up, n, s, false)
    ensures var before, after, c := RowsAt(cfg, calls, up, n), RowsAt(cfg, calls, up, n + 1), calls[n];
            if !Settles(c, s) || s !in before || (c.Fail? && !before[s].inFlight) then
              (s in after <==> s in before) && (s in before ==> after[s] == before[s])
            else if c.Fail? then s !in after
            else s in after && !after[s].inFlight && after[s].expiresAt == c.now + Retention(cfg)
  {
  }

  /** The row of the last execution given out by Postgres: as it was, gone if a failure came first, and
      otherwise done, with the expiry of the last completion. */
  lemma {:induction false} RowAfter(cfg: Config, calls: seq<Call>, up: seq<bool>, j: nat, n: nat, s: Scope)
    returns (k: Option<nat>, m: nat)
    requires n <= |calls| == |up| && cfg.lockTtl > 0 && LastStart(cfg, calls, up, j, n, s, false)
    ensures var rows, first := RowsAt(cfg, calls, up, n), RowsAt(cfg, calls, up, j + 1);
            match k
            case None => Unsettled(calls, j, n, s) && s in rows && s in first && rows[s] == first[s]
            case Some(i) =>
              && FirstSettled(calls, j, i, n, s)
              && if calls[i].Fail? then s !in rows
                 else LastCompleted(calls, i, m, n, s) && s in rows && !rows[s].inFlight
                      && rows[s].expiresAt == calls[m].now + Retention(cfg)
  {
    StartedRow(cfg, calls, up, j, s);
    if n == j + 1 {
      k, m := None, 0;
    } else {
      k, m := RowAfter(cfg, calls, up, j, n - 1, s);
      var c := calls[n - 1];
      assert !StartsBy(cfg, calls, up, n - 1, s, false);
      RowStep(cfg, calls, up, n - 1, s);
      if Settles(c, s) {
        if k.None? {
          k, m := Some(n - 1), n - 1;
        } else if c.Complete? {
          m := n - 1;
        }
      }
    }
  }

  /** The row of the execution given out at `j` bars call `n`: its lease and its hour are not over, or it was
      completed before any failure and is still kept. */
  ghost predicate RowStands(cfg: Config, calls: seq<Call>, up: seq<bool>, j: nat, n: nat, s: Scope)
    requires n < |calls| == |up|
  {
    && LastStart(cfg, calls, up, j, n, s, false)
    && (|| (Unsettled(calls, j, n, s) && InLease(cfg, calls, up, j, n, s))
        || exists k: nat, m: nat :: FirstSettled(calls, j, k, n, s) && calls[k].Complete?
                                    && LastCompleted(calls, k, m, n, s) && calls[n].now < calls[m].now + Retention(cfg))
  }

  /** The lease of the execution given out by Postgres at `j`, and the row that it was given, are not over. */
  ghost predicate InLease(cfg: Config, calls: seq<Call>, up: seq<bool>, j: nat, n: nat, s: Scope)
    requires j < n < |calls| == |up|
  {
    && calls[n].now <= calls[j].now + cfg.lockTtl
    && var rows := RowsAt(cfg, calls, up, j + 1); s in rows && calls[n].now < rows[s].expiresAt
  }

  lemma {:induction false} OneFirstSettled(calls: seq<Call>, j: nat, k: nat, l: nat, n: nat, s: Scope)
    requires n <= |calls| && FirstSettled(calls, j, k, n, s) && FirstSettled(calls, j, l, n, s)
    ensures k == l
  {
  }

  lemma {:induction false} OneLastCompleted(calls: seq<Call>, k: nat, m: nat, l: nat, n: nat, s: Scope)
    requires n <= |calls| && LastCompleted(calls, k, m, n, s) && LastCompleted(calls, k, l, n, s)
    ensures m == l
  {
  }

  /** The row bars the `begin` exactly when `RowStands` says so. */
  lemma {:induction false} RowDecides(cfg: Config, calls: seq<Call>, up: seq<bool>, j: nat, n: nat, s: Scope)
    requires n < |calls| == |up| && cfg.lockTtl > 0 && LastStart(cfg, calls, up, j, n, s, false)
    requires calls[n].Begin? && calls[n].scope == s && !up[n]
    ensures Starts(cfg, calls, up, n) <==> !RowStands(cfg, calls, up, j, n, s)
  {
    var k, m := RowAfter(cfg, calls, up, j, n, s);
    StartedRow(cfg, calls, up, j, s);
    match k
    case None =>
    case Some(i) =>
      forall l: nat, x: nat | FirstSettled(calls, j, l, n, s) && LastCompleted(calls, l, x, n, s)
        ensures l == i && (calls[i].Complete? ==> x == m)
      {
        OneFirstSettled(calls, j, i, l, n, s);
        if calls[i].Complete? {
          OneLastCompleted(calls, i, m, x, n, s);
        }
      }
  }

  /** While Redis does not answer, a `begin` starts an execution exactly when the row of the last execution
      given out by Postgres does not stand in its way; what Redis holds plays no part. */
  lemma {:induction false} PostgresStartsIff(cfg: Config, calls: seq<Call>, up: seq<bool>, n: nat, s: Scope)
    requires n < |calls| == |up| && cfg.lockTtl > 0
    requires calls[n].Begin? && calls[n].scope == s && !up[n]
    ensures Starts(cfg, calls, up, n) <==> forall j: nat :: !RowStands(cfg, calls, up, j, n, s)
  {
    var last := FindLastStart(cfg, calls, up, n, s, false);
    match last
    case None =>
      NoRow(cfg, calls, up, n, s);
    case Some(i) =>
      RowDecides(cfg, calls, up, i, n, s);
      forall j: nat | RowStands(cfg, calls, up, j, n, s)
        ensures j == i
      {
        OneLastStart(cfg, calls, up, i, j, n, s, false);
      }
  }

  // ---- A second execution within the lease of a first ----

  lemma {:induction false} LockKept(cfg: Config, calls: seq<Call>, up: seq<bool>, i: nat, n: nat, s: Scope)
    requires i < n <= |calls| == |up| && Chronological(calls) && cfg.lockTtl > 0 && StartsBy(cfg, calls, up, i, s, true)
    requires forall k :: i < k < n ==> !(up[k] && calls[k].Resolves(s, calls[i].token))
    ensures var locks := Service.Before(cfg, calls, up, n).keys.locks;
            || calls[n - 1].now >= calls[i].now + cfg.lockTtl
            || (s in locks && locks[s] == Redis.Lock(calls[i].token, calls[i].now + cfg.lockTtl))
  {
    if n > i + 1 {
      LockKept(cfg, calls, up, i, n - 1, s);
      assert calls[n - 2].now <= calls[n - 1].now;
      assert !(up[n - 1] && calls[n - 1].Resolves(s, calls[i].token));
    }
  }

  /** Whatever the outages, two executions given out by Redis are at least a lease apart unless the first was
      resolved in between while Redis answered. */
  lemma {:induction false} RedisStartsApart(cfg: Config, calls: seq<Call>, up: seq<bool>, i: nat, n: nat, s: Scope)
    requires i < n < |calls| == |up| && Chronological(calls) && cfg.lockTtl > 0
    requires StartsBy(cfg, calls, up, i, s, true) && StartsBy(cfg, calls, up, n, s, true)
    requires forall k :: i < k < n ==> !(up[k] && calls[k].Resolves(s, calls[i].token))
    ensures calls[n].now - calls[i].now >= cfg.lockTtl
  {
    LockKept(cfg, calls, up, i, n, s);
    assert calls[n - 1].now <= calls[n].now;
  }

  /** Within the lease of an unresolved execution, under any pattern of outages: Redis never gives out a second
      one beside its own; Postgres does beside either exactly when no row stands, and Redis beside one of
      Postgres exactly when neither lock nor record stands. */
  lemma {:induction false} SecondStartIff(cfg: Config, calls: seq<Call>, up: seq<bool>, i: nat, n: nat, s: Scope)
    requires i < n < |calls| == |up| && Chronological(calls) && cfg.lockTtl > 0
    requires StartsBy(cfg, calls, up, i, s, up[i]) && calls[n].Begin? && calls[n].scope == s
    requires forall k :: i < k < n ==> !calls[k].Resolves(s, calls[i].token)
    requires calls[n].now < calls[i].now + cfg.lockTtl
    ensures Starts(cfg, calls, up, n)
       <==> if !up[n] then forall j: nat :: !RowStands(cfg, calls, up, j, n, s)
            else && !up[i]
                 && (forall j: nat :: !LockStands(cfg, calls, up, j, n, s))
                 && (forall k: nat :: !RecordStands(cfg, calls, up, k, n, s))
  {
    if !up[n] {
      PostgresStartsIff(cfg, calls, up, n, s);
    } else {
      RedisStartsIff(cfg, calls, up, n, s);
      if up[i] && Starts(cfg, calls, up, n) {
        RedisStartsApart(cfg, calls, up, i, n, s);
        assert false;
      }
    }
  }

  /** The last completion from `k` on is no longer kept at call `n`. */
  ghost predicate NoLongerKept(cfg: Config, calls: seq<Call>, k: nat, n: nat, s: Scope)
    requires n < |calls|
  {
    exists m: nat :: LastCompleted(calls, k, m, n, s) && calls[m].now + Retention(cfg) <= calls[n].now
  }

  /** Beside an execution that Postgres itself gave out last, and whose row is not over, Postgres gives out a
      second one exactly when someone else settled the scope first: failed it, or completed it with the last
      completion no longer kept. */
  lemma {:induction false} TakenAwayIff(cfg: Config, calls: seq<Call>, up: seq<bool>, i: nat, n: nat, s: Scope)
    requires n < |calls| == |up| && cfg.lockTtl > 0 && LastStart(cfg, calls, up, i, n, s, false)
    requires calls[n].Begin? && calls[n].scope == s && !up[n] && InLease(cfg, calls, up, i, n, s)
    requires forall k :: i < k < n ==> !calls[k].Resolves(s, calls[i].token)
    ensures Starts(cfg, calls, up, n)
       <==> exists k: nat :: && FirstSettled(calls, i, k, n, s) && calls[k].guard.token != calls[i].token
                             && (calls[k].Complete? ==> NoLongerKept(cfg, calls, k, n, s))
  {
    RowDecides(cfg, calls, up, i, n, s);
    var k, m := RowAfter(cfg, calls, up, i, n, s);
    if k.Some? {
      forall l: nat | FirstSettled(calls, i, l, n, s)
        ensures l == k.value && calls[l].guard.token != calls[i].token
      {
        OneFirstSettled(calls, i, k.value, l, n, s);
        assert !calls[l].Resolves(s, calls[i].token);
      }
      if calls[k.value].Complete? {
        forall x: nat | LastCompleted(calls, k.value, x, n, s)
          ensures x == m
        {
          OneLastCompleted(calls, k.value, m, x, n, s);
        }
      }
      assert FirstSettled(calls, i, k.value, n, s);
    }
  }

  /** The smallest such run: one execution given out by Redis, one beside it by Postgres in an outage, and when
      the first fails it takes the second one's row, so that Postgres gives out a third. */
  lemma {:induction false} ForeignFailure(cfg: Config, s: Scope, fp: Fingerprint, now: int, failUp: bool)
    requires cfg.lockTtl > 0
    ensures var calls := [Begin(s, fp, 0, now), Begin(s, fp, 1, now), Fail(Guard(s, fp, 0), now), Begin(s, fp, 2, now)];
            var up := [true, false, failUp, false];
            Starts(cfg, calls, up, 0) && Starts(cfg, calls, up, 1) && Starts(cfg, calls, up, 3)
  {
    var calls := [Begin(s, fp, 0, now), Begin(s, fp, 1, now), Fail(Guard(s, fp, 0), now), Begin(s, fp, 2, now)];
    var up := [true, false, failUp, false];
    assert Service.Before(cfg, calls, up, 0) == Service.EMPTY;
    assert StartsBy(cfg, calls, up, 0, s, true);
    assert Service.Before(cfg, calls, up, 1).rows == map[];
    assert StartsBy(cfg, calls, up, 1, s, false);
    assert RowsAt(cfg, calls, up, 2) == map[s := Pg.FreshRow(fp, now)];
    assert RowsAt(cfg, calls, up, 3) == map[];
  }
}
