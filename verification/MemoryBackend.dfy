/** The in-memory backend: one map of entries behind a mutex, so every call is atomic. */
module MemoryBackend {
  import opened Prelude
  import opened Idempotency

  datatype Entry = Entry(
    inFlight: bool, token: Token, fingerprint: Fingerprint,
    response: Option<Response>, lockedAt: int, expiresAt: Option<int>)

  type Entries = map<Scope, Entry>

  /** A completed entry has its response and its expiry. */
  ghost predicate Sound(es: Entries) {
    forall s :: s in es && !es[s].inFlight ==> es[s].response.Some? && es[s].expiresAt.Some?
  }

  function BeginStep(es: Entries, cfg: Config, scope: Scope, fp: Fingerprint, token: Token, now: int): (Entries,
    Decision)
    requires Sound(es)
  {
    var acquired := (es[scope := Entry(true, token, fp, None, now, None)], Proceed(token));
    if scope !in es then acquired
    else if es[scope].inFlight then
      if now - es[scope].lockedAt >= cfg.lockTtl then acquired else (es, Conflict(LeaseSecs(cfg.lockTtl)))
    else if now >= es[scope].expiresAt.value then acquired
    else (es, if es[scope].fingerprint == fp then Replay(es[scope].response.value) else Mismatch)
  }

  function CompleteStep(es: Entries, cfg: Config, g: Guard, r: Response, now: int): Entries {
    if g.scope in es && es[g.scope].token == g.token then
      es[g.scope := es[g.scope].(inFlight := false, response := Some(r), expiresAt := Some(now + cfg.entryTtl))]
    else es
  }

  function FailStep(es: Entries, g: Guard): Entries {
    if g.scope in es && es[g.scope].token == g.token then es - {g.scope} else es
  }

  class InMemoryBackend {
    var entries: Entries

    constructor ()
      ensures entries == map[]
    {
      entries := map[];
    }

    method Begin(cfg: Config, scope: Scope, fp: Fingerprint, token: Token, now: int) returns (d: Decision)
      requires Sound(entries)
      modifies this
      ensures Sound(entries)
      ensures (entries, d) == BeginStep(old(entries), cfg, scope, fp, token, now)
    {
      if scope in entries {
        var entry := entries[scope];
        var expired := entry.expiresAt.Some? && now >= entry.expiresAt.value;
        if !entry.inFlight && !expired {
          if entry.fingerprint == fp {
            return Replay(entry.response.value);
          }
          return Mismatch;
        }
        if entry.inFlight {
          var stale := now - entry.lockedAt >= cfg.lockTtl;
          if !stale {
            return Conflict(LeaseSecs(cfg.lockTtl));
          }
        }
      }
      entries := entries[scope := Entry(true, token, fp, None, now, None)];
      return Proceed(token);
    }

    method Complete(cfg: Config, g: Guard, r: Response, now: int)
      requires Sound(entries)
      modifies this
      ensures Sound(entries)
      ensures entries == CompleteStep(old(entries), cfg, g, r, now)
    {
      if g.scope in entries {
        var entry := entries[g.scope];
        if entry.token == g.token {
          entry := entry.(inFlight := false);
          entry := entry.(response := Some(r));
          entry := entry.(expiresAt := Some(now + cfg.entryTtl));
          entries := entries[g.scope := entry];
        }
      }
    }

    method Fail(g: Guard)
      requires Sound(entries)
      modifies this
      ensures Sound(entries)
      ensures entries == FailStep(old(entries), g)
    {
      if g.scope in entries && entries[g.scope].token == g.token {
        entries := entries - {g.scope};
      }
    }
  }

  // ---- One scope, call by call ----

  /** A second attempt at a scope that had no entry proceeds from the end of the lease on, and until then is
      told to come back after the whole seconds of the lease. */
  lemma {:induction false} SecondBegin(es: Entries, cfg: Config, s: Scope, first: Fingerprint, t: Token, at: int,
                                       second: Fingerprint, u: Token, now: int)
    requires Sound(es) && s !in es
    ensures var (held, d) := BeginStep(es, cfg, s, first, t, at);
            && d == Proceed(t)
            && BeginStep(held, cfg, s, second, u, now).1
               == if now >= at + cfg.lockTtl then Proceed(u)
                  else if cfg.lockTtl < 1000 then Conflict(1) else Conflict(cfg.lockTtl / 1000)
  {
  }

  /** After a completion at `done` an attempt is answered from the response until `entryTtl` later. */
  lemma {:induction false} AfterCompletion(es: Entries, cfg: Config, s: Scope, first: Fingerprint, t: Token, at: int,
                                           r: Response, done: int, second: Fingerprint, u: Token, now: int)
    requires Sound(es) && s !in es
    ensures var held := BeginStep(es, cfg, s, first, t, at).0;
            var kept := CompleteStep(held, cfg, Guard(s, first, t), r, done);
            && Sound(kept)
            && BeginStep(kept, cfg, s, second, u, now).1
               == if now >= done + cfg.entryTtl then Proceed(u) else if second == first then Replay(r) else Mismatch
  {
  }

  /** After a failure the next attempt proceeds at once, and no other scope has noticed. */
  lemma {:induction false} AfterFailure(es: Entries, cfg: Config, s: Scope, first: Fingerprint, t: Token, at: int,
                                        second: Fingerprint, u: Token, now: int)
    requires Sound(es) && s !in es
    ensures var held := BeginStep(es, cfg, s, first, t, at).0;
            var freed := FailStep(held, Guard(s, first, t));
            && freed == es && BeginStep(freed, cfg, s, second, u, now).1 == Proceed(u)
  {
  }

  // ---- Runs ----

  function Step(es: Entries, cfg: Config, c: Call): (r: (Entries, Option<Decision>))
    requires Sound(es)
    ensures Sound(r.0)
  {
    match c
    case Begin(scope, fp, token, now) =>
      var (next, d) := BeginStep(es, cfg, scope, fp, token, now);
      (next, Some(d))
    case Complete(g, r, _, now) => (CompleteStep(es, cfg, g, r, now), None)
    case Fail(g, _) => (FailStep(es, g), None)
  }

  /** The entries before call number `n` of a run that starts empty. */
  function Before(cfg: Config, calls: seq<Call>, n: nat): (es: Entries)
    requires n <= |calls|
    ensures Sound(es)
  {
    if n == 0 then map[] else Step(Before(cfg, calls, n - 1), cfg, calls[n - 1]).0
  }

  /** What call number `n` is told; only a `Begin` is told anything. */
  function Answer(cfg: Config, calls: seq<Call>, n: nat): Option<Decision>
    requires n < |calls|
  {
    Step(Before(cfg, calls, n), cfg, calls[n]).1
  }

  predicate Acquires(cfg: Config, calls: seq<Call>, n: nat, s: Scope)
    requires n < |calls|
  {
    calls[n].Begin? && calls[n].scope == s && Answer(cfg, calls, n) == Some(Proceed(calls[n].token))
  }

  // ---- Exclusion ----

  /** Until it is resolved or its lease runs out, an execution stays recorded as the one in flight. */
  lemma {:induction false} HeldUntil(cfg: Config, calls: seq<Call>, i: nat, n: nat, s: Scope)
    requires i < n <= |calls| && Chronological(calls) && Acquires(cfg, calls, i, s)
    requires forall k :: i < k < n ==> !calls[k].Resolves(s, calls[i].token)
    ensures
      || calls[n - 1].now >= calls[i].now + cfg.lockTtl
      || (s in Before(cfg, calls, n) &&
          Before(cfg, calls, n)[s] == Entry(true, calls[i].token, calls[i].fingerprint, None, calls[i].now, None))
  {
    if n > i + 1 {
      HeldUntil(cfg, calls, i, n - 1, s);
      assert calls[n - 2].now <= calls[n - 1].now;
      assert !calls[n - 1].Resolves(s, calls[i].token);
    }
  }

  /** Late holders included, two executions of one scope start at least `lockTtl` apart unless the
      first was completed or failed in between. */
  lemma {:induction false} LeaseSpacing(cfg: Config, calls: seq<Call>, i: nat, j: nat, s: Scope)
    requires i < j < |calls| && Chronological(calls)
    requires Acquires(cfg, calls, i, s) && Acquires(cfg, calls, j, s)
    requires forall k :: i < k < j ==> !calls[k].Resolves(s, calls[i].token)
    ensures calls[j].now - calls[i].now >= cfg.lockTtl
  {
    HeldUntil(cfg, calls, i, j, s);
    assert calls[j - 1].now <= calls[j].now;
  }

  lemma {:induction false} NeverAgain(cfg: Config, calls: seq<Call>, i: nat, j: nat, n: nat, s: Scope)
    requires i < j < n <= |calls| && FreshTokens(calls) && calls[i].Begin? && Acquires(cfg, calls, j, s)
    ensures s in Before(cfg, calls, n) ==> Before(cfg, calls, n)[s].token != calls[i].token
  {
    if n > j + 1 {
      NeverAgain(cfg, calls, i, j, n - 1, s);
    }
  }

  /** Once the scope has been given out again, whatever the earlier holder still sends changes nothing. */
  lemma {:induction false} SupersededIsInert(cfg: Config, calls: seq<Call>, i: nat, j: nat, n: nat, s: Scope)
    requires i < j < n < |calls| && FreshTokens(calls)
    requires Acquires(cfg, calls, i, s) && Acquires(cfg, calls, j, s)
    requires calls[n].Resolves(s, calls[i].token)
    ensures Before(cfg, calls, n + 1) == Before(cfg, calls, n)
  {
    NeverAgain(cfg, calls, i, j, n, s);
  }

  // ---- Replay ----

  /** The entry that the completion of a held execution leaves behind. */
  function Completed(cfg: Config, c: Call, held: Entry): Entry
    requires c.Complete?
  {
    held.(inFlight := false, response := Some(c.response), expiresAt := Some(c.now + cfg.entryTtl))
  }

  /** A completion by the current holder stays on record until it expires. */
  lemma {:induction false} CompletedStays(cfg: Config, calls: seq<Call>, i: nat, n: nat, s: Scope)
    requires i < n <= |calls| && Chronological(calls)
    requires calls[i].Complete? && calls[i].guard.scope == s && s in Before(cfg, calls, i)
    requires Before(cfg, calls, i)[s].token == calls[i].guard.token
    requires forall k :: i < k < n ==> !calls[k].Resolves(s, calls[i].guard.token)
    ensures
      || calls[n - 1].now >= calls[i].now + cfg.entryTtl
      || (s in Before(cfg, calls, n) &&
          Before(cfg, calls, n)[s] == Completed(cfg, calls[i], Before(cfg, calls, i)[s]))
  {
    if n > i + 1 {
      CompletedStays(cfg, calls, i, n - 1, s);
      assert calls[n - 2].now <= calls[n - 1].now;
      assert !calls[n - 1].Resolves(s, calls[i].guard.token);
    }
  }

  /** Until its expiry, every later attempt is answered from the stored response: the very same
      response for the same fingerprint, a mismatch for any other. */
  lemma {:induction false} ReplayUntilExpiry(cfg: Config, calls: seq<Call>, i: nat, n: nat, s: Scope)
    requires i < n < |calls| && Chronological(calls)
    requires calls[i].Complete? && calls[i].guard.scope == s && s in Before(cfg, calls, i)
    requires Before(cfg, calls, i)[s].token == calls[i].guard.token
    requires forall k :: i < k < n ==> !calls[k].Resolves(s, calls[i].guard.token)
    requires calls[n].Begin? && calls[n].scope == s && calls[n].now < calls[i].now + cfg.entryTtl
    ensures var same := calls[n].fingerprint == Before(cfg, calls, i)[s].fingerprint;
            Answer(cfg, calls, n) == Some(if same then Replay(calls[i].response) else Mismatch)
  {
    CompletedStays(cfg, calls, i, n, s);
    assert calls[n - 1].now <= calls[n].now;
  }
}
