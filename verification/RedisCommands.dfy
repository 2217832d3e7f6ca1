/** The Redis backend one command at a time, the commands of any number of requests interleaved. */
module RedisCommands {
  import opened Prelude
  import opened Idempotency
  import opened RedisBackend

  /** A command of some request. `caller` names the request: it is the token that its `begin` draws.
      `dropped` tells whether Redis had already removed the scope's lock, which it may do at any time from
      its deadline on. */
  datatype Command =
    | GetDone(caller: Token, scope: Scope, fingerprint: Fingerprint, now: int)
    | SetNx(caller: Token, scope: Scope, now: int, dropped: bool)
    | SetEx(caller: Token, scope: Scope, record: Record, now: int)
    | Release(caller: Token, scope: Scope, now: int, dropped: bool)

  predicate Present(k: Keys, s: Scope, now: int, dropped: bool) {
    s in k.locks && !(dropped && k.locks[s].deadline <= now)
  }

  function Exec(k: Keys, lockTtl: nat, c: Command): Keys {
    match c
    case GetDone(_, _, _, _) => k
    case SetNx(caller, s, now, dropped) =>
      if Present(k, s, now, dropped) then k else k.(locks := k.locks[s := Lock(caller, now + lockTtl)])
    case SetEx(_, s, record, _) => k.(done := k.done[s := record])
    case Release(caller, s, now, dropped) =>
      if Present(k, s, now, dropped) && k.locks[s].token == caller then k.(locks := k.locks - {s}) else k
  }

  function Before(lockTtl: nat, cs: seq<Command>, n: nat): Keys
    requires n <= |cs|
  {
    if n == 0 then Keys(map[], map[]) else Exec(Before(lockTtl, cs, n - 1), lockTtl, cs[n - 1])
  }

  predicate Acquires(lockTtl: nat, cs: seq<Command>, n: nat, s: Scope)
    requires n < |cs|
  {
    cs[n].SetNx? && cs[n].scope == s && !Present(Before(lockTtl, cs, n), s, cs[n].now, cs[n].dropped)
  }

  ghost predicate Chronological(cs: seq<Command>) {
    forall i, j :: 0 <= i <= j < |cs| ==> cs[i].now <= cs[j].now
  }

  predicate Frees(c: Command, s: Scope, caller: Token) { c.Release? && c.scope == s && c.caller == caller }

  predicate Stores(c: Command, s: Scope) { c.SetEx? && c.scope == s }

  // ---- The lock ----

  /** Whatever the other clients send, a lock stays with its holder until its deadline or its holder's release. */
  lemma {:induction false} LockStays(lockTtl: nat, cs: seq<Command>, i: nat, n: nat, s: Scope)
    requires i < n <= |cs| && Chronological(cs) && Acquires(lockTtl, cs, i, s)
    requires forall k :: i < k < n ==> !Frees(cs[k], s, cs[i].caller)
    ensures
      || cs[n - 1].now >= cs[i].now + lockTtl
      || (s in Before(lockTtl, cs, n).locks
          && Before(lockTtl, cs, n).locks[s] == Lock(cs[i].caller, cs[i].now + lockTtl))
  {
    if n > i + 1 {
      LockStays(lockTtl, cs, i, n - 1, s);
      assert cs[n - 2].now <= cs[n - 1].now;
      assert !Frees(cs[n - 1], s, cs[i].caller);
    }
  }

  /** Two acquisitions of one scope's lock are at least `lockTtl` apart unless the first holder released it. */
  lemma {:induction false} LockSpacing(lockTtl: nat, cs: seq<Command>, i: nat, j: nat, s: Scope)
    requires i < j < |cs| && Chronological(cs)
    requires Acquires(lockTtl, cs, i, s) && Acquires(lockTtl, cs, j, s)
    requires forall k :: i < k < j ==> !Frees(cs[k], s, cs[i].caller)
    ensures cs[j].now - cs[i].now >= lockTtl
  {
    LockStays(lockTtl, cs, i, j, s);
    assert cs[j - 1].now <= cs[j].now;
  }

  ghost predicate FreshTokens(cs: seq<Command>) {
    forall i, j :: 0 <= i < j < |cs| && cs[i].SetNx? && cs[j].SetNx? ==> cs[i].caller != cs[j].caller
  }

  lemma {:induction false} TokenGone(lockTtl: nat, cs: seq<Command>, i: nat, j: nat, n: nat, s: Scope)
    requires i < j < n <= |cs| && FreshTokens(cs) && cs[i].SetNx? && Acquires(lockTtl, cs, j, s)
    ensures s in Before(lockTtl, cs, n).locks ==> Before(lockTtl, cs, n).locks[s].token != cs[i].caller
  {
    if n > j + 1 {
      TokenGone(lockTtl, cs, i, j, n - 1, s);
    }
  }

  /** With unique tokens, the release of a holder that was overtaken never removes anything. */
  lemma {:induction false} StaleReleaseIsInert(lockTtl: nat, cs: seq<Command>, i: nat, j: nat, n: nat, s: Scope)
    requires i < j < n < |cs| && FreshTokens(cs)
    requires Acquires(lockTtl, cs, i, s) && Acquires(lockTtl, cs, j, s)
    requires Frees(cs[n], s, cs[i].caller)
    ensures Before(lockTtl, cs, n + 1) == Before(lockTtl, cs, n)
  {
    TokenGone(lockTtl, cs, i, j, n, s);
  }

  /** A release by the lock's holder frees it for whoever asks next. */
  lemma {:induction false} ReleaseFreesLock(lockTtl: nat, cs: seq<Command>, i: nat, n: nat, s: Scope)
    requires i < n < |cs| && Frees(cs[i], s, cs[i].caller)
    requires s in Before(lockTtl, cs, i).locks && Before(lockTtl, cs, i).locks[s].token == cs[i].caller
    requires cs[i].now < Before(lockTtl, cs, i).locks[s].deadline
    requires forall k :: i < k < n ==> !(cs[k].SetNx? && cs[k].scope == s)
    ensures s !in Before(lockTtl, cs, n).locks
    ensures cs[n].SetNx? && cs[n].scope == s ==> Acquires(lockTtl, cs, n, s)
  {
    if n > i + 1 {
      ReleaseFreesLock(lockTtl, cs, i, n - 1, s);
    }
  }

  /** The next attempt at a lock that nobody gave back succeeds exactly when Redis has dropped it, which it may
      do from `lockTtl` after it was given out on. */
  lemma {:induction false} NextAcquiresIff(lockTtl: nat, cs: seq<Command>, i: nat, n: nat, s: Scope)
    requires i < n < |cs| && Acquires(lockTtl, cs, i, s) && cs[n].SetNx? && cs[n].scope == s
    requires forall k :: i < k < n && cs[k].scope == s ==> !cs[k].SetNx? && !cs[k].Release?
    ensures Acquires(lockTtl, cs, n, s) <==> cs[n].dropped && cs[n].now >= cs[i].now + lockTtl
  {
    LockUntouched(lockTtl, cs, i, n, s);
  }

  lemma {:induction false} LockUntouched(lockTtl: nat, cs: seq<Command>, i: nat, n: nat, s: Scope)
    requires i < n <= |cs| && Acquires(lockTtl, cs, i, s)
    requires forall k :: i < k < n && cs[k].scope == s ==> !cs[k].SetNx? && !cs[k].Release?
    ensures var locks := Before(lockTtl, cs, n).locks;
            s in locks && locks[s] == Lock(cs[i].caller, cs[i].now + lockTtl)
  {
    if n > i + 1 {
      LockUntouched(lockTtl, cs, i, n - 1, s);
    }
  }

  // ---- The record ----

  /** Command `k` is the last one from `from` on and before `n` that stores a record for `s`. */
  ghost predicate LastStore(cs: seq<Command>, from: nat, k: nat, n: nat, s: Scope)
    requires n <= |cs|
  {
    from <= k < n && Stores(cs[k], s) && forall m :: k < m < n ==> !Stores(cs[m], s)
  }

  lemma {:induction false} RecordIsLastStored(lockTtl: nat, cs: seq<Command>, n: nat, s: Scope) returns (k: Option<nat>)
    requires n <= |cs|
    ensures k.None? ==> s !in Before(lockTtl, cs, n).done && forall m :: 0 <= m < n ==> !Stores(cs[m], s)
    ensures k.Some? ==> LastStore(cs, 0, k.value, n, s) && s in Before(lockTtl, cs, n).done
                        && Before(lockTtl, cs, n).done[s] == cs[k.value].record
  {
    if n == 0 {
      k := None;
    } else {
      k := RecordIsLastStored(lockTtl, cs, n - 1, s);
      if Stores(cs[n - 1], s) {
        k := Some(n - 1);
      }
    }
  }

  /** A record is visible exactly when the last one stored has its deadline ahead. */
  lemma {:induction false} RecordedIff(lockTtl: nat, cs: seq<Command>, n: nat, s: Scope, now: int)
    requires n <= |cs|
    ensures Recorded(Before(lockTtl, cs, n), s, now)
       <==> exists k: nat :: LastStore(cs, 0, k, n, s) && now < cs[k].record.deadline
  {
    var last := RecordIsLastStored(lockTtl, cs, n, s);
    if last.Some? {
      forall k: nat | LastStore(cs, 0, k, n, s)
        ensures k == last.value
      {
      }
    }
  }

  /** The `begin` whose GET at `g` saw no record sets the lock at `n` over a visible record exactly when a
      response was stored in between and the last such record has not expired. */
  lemma {:induction false} ProceedsOverRecordIff(lockTtl: nat, cs: seq<Command>, g: nat, n: nat, s: Scope)
    requires g < n < |cs| && Chronological(cs) && cs[g].GetDone? && cs[g].scope == s
    requires !Recorded(Before(lockTtl, cs, g), s, cs[g].now)
    ensures Recorded(Before(lockTtl, cs, n), s, cs[n].now)
       <==> exists k: nat :: LastStore(cs, g + 1, k, n, s) && cs[n].now < cs[k].record.deadline
  {
    RecordedIff(lockTtl, cs, g, s, cs[g].now);
    RecordedIff(lockTtl, cs, n, s, cs[n].now);
    assert cs[g].now <= cs[n].now;
    forall k: nat | LastStore(cs, 0, k, n, s) && k <= g
      ensures cs[k].record.deadline <= cs[n].now
    {
      assert LastStore(cs, 0, k, g, s);
    }
    if Recorded(Before(lockTtl, cs, n), s, cs[n].now) {
      var k: nat :| LastStore(cs, 0, k, n, s) && cs[n].now < cs[k].record.deadline;
      assert LastStore(cs, g + 1, k, n, s);
    } else {
      forall k: nat | LastStore(cs, g + 1, k, n, s)
        ensures cs[k].record.deadline <= cs[n].now
      {
        assert LastStore(cs, 0, k, n, s);
      }
    }
  }

  /** A `begin` with no response stored between its two commands never proceeds over a visible record. */
  lemma {:induction false} UndisturbedBeginIsExact(lockTtl: nat, cs: seq<Command>, g: nat, n: nat, s: Scope)
    requires g < n < |cs| && Chronological(cs) && cs[g].GetDone? && cs[g].scope == s
    requires !Recorded(Before(lockTtl, cs, g), s, cs[g].now) && forall k :: g < k < n ==> !Stores(cs[k], s)
    ensures !Recorded(Before(lockTtl, cs, n), s, cs[n].now)
  {
    ProceedsOverRecordIff(lockTtl, cs, g, n, s);
  }

  // ---- Requests ----

  /** How far a request has come; a running one has its handler's response, or not yet. */
  datatype Stage =
    | New
    | Looked(scope: Scope, fingerprint: Fingerprint)
    | Running(scope: Scope, fingerprint: Fingerprint)
    | Stored(scope: Scope)
    | Over
  {
    function Rank(): nat {
      match this
      case New => 0
      case Looked(_, _) => 1
      case Running(_, _) => 2
      case Stored(_) => 3
      case Over => 4
    }
  }

  /** What its command tells the request: a record ends it, a lock starts its handler, a held lock ends it. */
  function NextStage(lockTtl: nat, cs: seq<Command>, n: nat): Stage
    requires n < |cs|
    decreases n, 1
  {
    match cs[n]
    case GetDone(_, s, fp, now) => if Recorded(Before(lockTtl, cs, n), s, now) then Over else Looked(s, fp)
    case SetNx(caller, s, _, _) =>
      if Acquires(lockTtl, cs, n, s) && StageAt(lockTtl, cs, n, caller).Looked?
      then Running(s, StageAt(lockTtl, cs, n, caller).fingerprint) else Over
    case SetEx(_, s, _, _) => Stored(s)
    case Release(_, _, _, _) => Over
  }

  function StageAt(lockTtl: nat, cs: seq<Command>, n: nat, caller: Token): Stage
    requires n <= |cs|
    decreases n, 0
  {
    if n == 0 then New
    else if cs[n - 1].caller != caller then StageAt(lockTtl, cs, n - 1, caller)
    else NextStage(lockTtl, cs, n - 1)
  }

  /** Every request follows the protocol: GET, then SET NX, and for the one that got the lock a SETEX of its
      own fingerprint for `keep` milliseconds or nothing, and then the release. */
  ghost predicate Requests(lockTtl: nat, keep: nat, cs: seq<Command>) {
    Chronological(cs) && forall n :: 0 <= n < |cs| ==> InTurn(lockTtl, keep, cs, n)
  }

  ghost predicate InTurn(lockTtl: nat, keep: nat, cs: seq<Command>, n: nat)
    requires n < |cs|
  {
    var stage := StageAt(lockTtl, cs, n, cs[n].caller);
    match cs[n]
    case GetDone(_, _, _, _) => stage.New?
    case SetNx(_, s, _, _) => stage.Looked? && stage.scope == s
    case SetEx(_, s, record, now) =>
      stage.Running? && stage.scope == s && record.fingerprint == stage.fingerprint && record.deadline == now + keep
    case Release(_, s, _, _) => (stage.Running? || stage.Stored?) && stage.scope == s
  }

  lemma {:induction false} StagesAdvance(lockTtl: nat, keep: nat, cs: seq<Command>, i: nat, n: nat, caller: Token)
    requires Requests(lockTtl, keep, cs) && i <= n <= |cs|
    ensures StageAt(lockTtl, cs, i, caller).Rank() <= StageAt(lockTtl, cs, n, caller).Rank()
  {
    if i < n {
      StagesAdvance(lockTtl, keep, cs, i, n - 1, caller);
      assert InTurn(lockTtl, keep, cs, n - 1);
    }
  }

  /** A request sets a lock at most once. */
  lemma {:induction false} TokensAreFresh(lockTtl: nat, keep: nat, cs: seq<Command>)
    requires Requests(lockTtl, keep, cs)
    ensures FreshTokens(cs)
  {
    forall i, j | 0 <= i < j < |cs| && cs[i].SetNx? && cs[j].SetNx?
      ensures cs[i].caller != cs[j].caller
    {
      StagesAdvance(lockTtl, keep, cs, i + 1, j, cs[i].caller);
      assert InTurn(lockTtl, keep, cs, j);
    }
  }

  /** A request that looked has sent a GET that saw no record. */
  lemma {:induction false} LookedBefore(lockTtl: nat, cs: seq<Command>, n: nat, caller: Token) returns (g: nat)
    requires n <= |cs| && StageAt(lockTtl, cs, n, caller).Looked?
    ensures g < n && cs[g].GetDone? && cs[g].caller == caller
    ensures cs[g].scope == StageAt(lockTtl, cs, n, caller).scope
    ensures !Recorded(Before(lockTtl, cs, g), cs[g].scope, cs[g].now)
  {
    if cs[n - 1].caller == caller {
      g := n - 1;
    } else {
      g := LookedBefore(lockTtl, cs, n - 1, caller);
    }
  }

  /** A request whose handler runs, or has run, had its scope's lock given out to it. */
  lemma {:induction false} OnlyHoldersRun(lockTtl: nat, cs: seq<Command>, n: nat, caller: Token) returns (k: nat)
    requires n <= |cs| && StageAt(lockTtl, cs, n, caller).Running?
    ensures k < n && cs[k].caller == caller && Acquires(lockTtl, cs, k, StageAt(lockTtl, cs, n, caller).scope)
  {
    if cs[n - 1].caller == caller {
      k := n - 1;
    } else {
      k := OnlyHoldersRun(lockTtl, cs, n - 1, caller);
    }
  }

  /** Two handlers for one scope start at least `lockTtl` apart unless the first one's request ran its
      release in between, which it does only once its handler is done. */
  lemma {:induction false} HandlersApart(lockTtl: nat, keep: nat, cs: seq<Command>, i: nat, j: nat, s: Scope)
    requires Requests(lockTtl, keep, cs) && i < j < |cs|
    requires Acquires(lockTtl, cs, i, s) && Acquires(lockTtl, cs, j, s)
    ensures cs[i].caller != cs[j].caller
    ensures
      || cs[j].now - cs[i].now >= lockTtl
      || exists k :: i < k < j && Frees(cs[k], s, cs[i].caller)
  {
    TokensAreFresh(lockTtl, keep, cs);
    if forall k :: i < k < j ==> !Frees(cs[k], s, cs[i].caller) {
      LockSpacing(lockTtl, cs, i, j, s);
    }
  }

  /** A handler that starts while a response stored at `k` is still kept belongs to a request that had
      looked before the response was stored. */
  lemma {:induction false} LateStartHadLooked(lockTtl: nat, keep: nat, cs: seq<Command>, k: nat, n: nat, s: Scope)
    returns (g: nat)
    requires Requests(lockTtl, keep, cs) && k < n < |cs|
    requires Stores(cs[k], s) && Acquires(lockTtl, cs, n, s) && cs[n].now < cs[k].record.deadline
    ensures g < k && cs[g].GetDone? && cs[g].caller == cs[n].caller && cs[g].scope == s
  {
    assert InTurn(lockTtl, keep, cs, n) && InTurn(lockTtl, keep, cs, k);
    g := LookedBefore(lockTtl, cs, n, cs[n].caller);
    assert cs[g].now <= cs[n].now;
    if k < g {
      KeptWhileFresh(lockTtl, keep, cs, k, g, s);
    }
  }

  /** A stored response stays visible until its deadline; a later one lives longer. */
  lemma {:induction false} KeptWhileFresh(lockTtl: nat, keep: nat, cs: seq<Command>, k: nat, n: nat, s: Scope)
    requires Requests(lockTtl, keep, cs) && k < n < |cs| && Stores(cs[k], s) && cs[n].now < cs[k].record.deadline
    ensures Recorded(Before(lockTtl, cs, n), s, cs[n].now)
  {
    var last := RecordIsLastStored(lockTtl, cs, n, s);
    assert InTurn(lockTtl, keep, cs, k) && InTurn(lockTtl, keep, cs, last.value);
    assert cs[k].now <= cs[last.value].now;
  }

  /** What a GET tells its request, if it ends it. */
  function Answer(lockTtl: nat, cs: seq<Command>, n: nat): Option<Decision>
    requires n < |cs| && cs[n].GetDone?
  {
    var k, s := Before(lockTtl, cs, n), cs[n].scope;
    if !Recorded(k, s, cs[n].now) then None
    else Some(if k.done[s].fingerprint == cs[n].fingerprint then Replay(k.done[s].response) else Mismatch)
  }

  /** Until its deadline, and until a later response replaces it, a stored response answers every request
      that looks: the same response for the same fingerprint, a mismatch for any other. */
  lemma {:induction false} StoredResponseIsReplayed(lockTtl: nat, keep: nat, cs: seq<Command>, k: nat, n: nat, s: Scope)
    requires Requests(lockTtl, keep, cs) && n < |cs| && LastStore(cs, 0, k, n, s)
    requires cs[n].GetDone? && cs[n].scope == s && cs[n].now < cs[k].record.deadline
    ensures var record := cs[k].record;
            Answer(lockTtl, cs, n)
            == Some(if cs[n].fingerprint == record.fingerprint then Replay(record.response) else Mismatch)
    ensures StageAt(lockTtl, cs, n + 1, cs[n].caller).Over?
  {
    var last := RecordIsLastStored(lockTtl, cs, n, s);
  }

  /** The smallest such run. Request 0 finds no record, request 1 then goes from lock to record to release,
      and the SET NX of request 0 succeeds while the record is visible. */
  lemma {:induction false} CheckThenLockRaces(lockTtl: nat, keep: nat, s: Scope, fp: Fingerprint, r: Response, now: int)
    requires keep > 0
    ensures var record := Record(fp, r, now + keep);
            var cs := [GetDone(0, s, fp, now), GetDone(1, s, fp, now), SetNx(1, s, now, false),
                       SetEx(1, s, record, now), Release(1, s, now, false), SetNx(0, s, now, false)];
            && Requests(lockTtl, keep, cs)
            && Acquires(lockTtl, cs, 2, s) && Acquires(lockTtl, cs, 5, s)
            && Recorded(Before(lockTtl, cs, 5), s, now)
  {
    var record, lock := Record(fp, r, now + keep), Lock(1, now + lockTtl);
    var cs := [GetDone(0, s, fp, now), GetDone(1, s, fp, now), SetNx(1, s, now, false),
               SetEx(1, s, record, now), Release(1, s, now, false), SetNx(0, s, now, false)];
    assert Before(lockTtl, cs, 0) == Before(lockTtl, cs, 1) == Before(lockTtl, cs, 2) == Keys(map[], map[]);
    assert Before(lockTtl, cs, 3) == Keys(map[], map[s := lock]);
    assert Before(lockTtl, cs, 4) == Keys(map[s := record], map[s := lock]);
    assert Before(lockTtl, cs, 5) == Keys(map[s := record], map[]);
    assert StageAt(lockTtl, cs, 2, 1) == NextStage(lockTtl, cs, 1) == Looked(s, fp);
    assert StageAt(lockTtl, cs, 3, 1) == NextStage(lockTtl, cs, 2) == Running(s, fp);
    assert StageAt(lockTtl, cs, 4, 1) == NextStage(lockTtl, cs, 3) == Stored(s);
    assert StageAt(lockTtl, cs, 1, 0) == NextStage(lockTtl, cs, 0) == Looked(s, fp);
    assert StageAt(lockTtl, cs, 5, 0) == StageAt(lockTtl, cs, 4, 0) == StageAt(lockTtl, cs, 3, 0)
        == StageAt(lockTtl, cs, 2, 0) == Looked(s, fp);
    forall n | 0 <= n < |cs|
      ensures InTurn(lockTtl, keep, cs, n)
    {
    }
  }
}
