/** The Redis backend: a done record with a time to live, a lock set with NX and PX, and a
    compare-and-delete release. */
module RedisBackend {
  import opened Prelude
  import opened Idempotency

  datatype Record = Record(fingerprint: Fingerprint, response: Response, deadline: int)
  datatype Lock = Lock(token: Token, deadline: int)

  /** The two key spaces of the backend. A key is visible strictly before its deadline. */
  datatype Keys = Keys(done: map<Scope, Record>, locks: map<Scope, Lock>)

  predicate Locked(k: Keys, s: Scope, now: int) { s in k.locks && now < k.locks[s].deadline }

  predicate Recorded(k: Keys, s: Scope, now: int) { s in k.done && now < k.done[s].deadline }

  function BeginStep(k: Keys, cfg: Config, scope: Scope, fp: Fingerprint, token: Token, now: int): (Keys, Decision) {
    if Recorded(k, scope, now) then
      (k, if k.done[scope].fingerprint == fp then Replay(k.done[scope].response) else Mismatch)
    else if cfg.lockTtl == 0 then
      (k, Error)
    else if Locked(k, scope, now) then
      (k, Conflict(LeaseSecs(k.locks[scope].deadline - now)))
    else
      (k.(locks := k.locks[scope := Lock(token, now + cfg.lockTtl)]), Proceed(token))
  }

  function ReleaseStep(k: Keys, g: Guard, now: int): Keys {
    if Locked(k, g.scope, now) && k.locks[g.scope].token == g.token then k.(locks := k.locks - {g.scope}) else k
  }

  /** The seconds that SETEX is given; it refuses zero, and then the lock is not released either. */
  function EntrySecs(cfg: Config): nat { cfg.entryTtl / 1000 }

  function CompleteStep(k: Keys, cfg: Config, g: Guard, r: Response, gzipLen: nat, now: int): (Keys, bool) {
    if gzipLen > cfg.maxBody then (ReleaseStep(k, g, now), true)
    else if EntrySecs(cfg) == 0 then (k, false)
    else
      var done := k.done[g.scope := Record(g.fingerprint, r, now + 1000 * EntrySecs(cfg))];
      (ReleaseStep(k.(done := done), g, now), true)
  }

  class RedisBackend {
    var keys: Keys

    constructor ()
      ensures keys == Keys(map[], map[])
    {
      keys := Keys(map[], map[]);
    }

    /** SET key token NX PX lockTtl. Redis refuses a time to live of zero. */
    method SetNxPx(scope: Scope, token: Token, lockTtl: nat, now: int) returns (ok: bool)
      requires lockTtl > 0
      modifies this
      ensures ok == !old(Locked(keys, scope, now))
      ensures keys == if ok
                      then old(keys).(locks := old(keys.locks)[scope := Lock(token, now + lockTtl)]) else old(keys)
    {
      ok := !(scope in keys.locks && now < keys.locks[scope].deadline);
      if ok {
        keys := keys.(locks := keys.locks[scope := Lock(token, now + lockTtl)]);
      }
    }

    /** The release script: delete the lock only if it still carries the caller's token. */
    method Release(g: Guard, now: int)
      modifies this
      ensures keys == ReleaseStep(old(keys), g, now)
    {
      if g.scope in keys.locks && now < keys.locks[g.scope].deadline && keys.locks[g.scope].token == g.token {
        keys := keys.(locks := keys.locks - {g.scope});
      }
    }

    method Begin(cfg: Config, scope: Scope, fp: Fingerprint, token: Token, now: int) returns (d: Decision)
      modifies this
      ensures (keys, d) == BeginStep(old(keys), cfg, scope, fp, token, now)
    {
      if scope in keys.done && now < keys.done[scope].deadline {
        var record := keys.done[scope];
        if record.fingerprint == fp {
          return Replay(record.response);
        }
        return Mismatch;
      }
      if cfg.lockTtl == 0 {
        return Error;
      }
      var acquired := SetNxPx(scope, token, cfg.lockTtl, now);
      if acquired {
        return Proceed(token);
      }
      var pttl := keys.locks[scope].deadline - now;
      return Conflict(Max(pttl / 1000, 1));
    }

    method Complete(cfg: Config, g: Guard, r: Response, gzipLen: nat, now: int) returns (ok: bool)
      modifies this
      ensures (keys, ok) == CompleteStep(old(keys), cfg, g, r, gzipLen, now)
    {
      if gzipLen <= cfg.maxBody {
        var secs := cfg.entryTtl / 1000;
        if secs == 0 {
          return false;
        }
        keys := keys.(done := keys.done[g.scope := Record(g.fingerprint, r, now + 1000 * secs)]);
      }
      Release(g, now);
      return true;
    }

    method Fail(g: Guard, now: int)
      modifies this
      ensures keys == ReleaseStep(old(keys), g, now)
    {
      Release(g, now);
    }
  }

  // ---- One scope, call by call ----

  /** A second attempt at a scope without record and lock proceeds from the lock's deadline on, and until then
      is told to come back after the whole seconds that the lock has left. */
  lemma {:induction false} SecondBegin(k: Keys, cfg: Config, s: Scope, first: Fingerprint, t: Token, at: int,
                                       second: Fingerprint, u: Token, now: int)
    requires s !in k.done && s !in k.locks && cfg.lockTtl > 0
    ensures var (held, d) := BeginStep(k, cfg, s, first, t, at);
            && d == Proceed(t)
            && BeginStep(held, cfg, s, second, u, now).1
               == if now >= at + cfg.lockTtl then Proceed(u)
                  else if at + cfg.lockTtl - now < 1000 then Conflict(1)
                  else Conflict((at + cfg.lockTtl - now) / 1000)
  {
  }

  /** After a completion at `done` whose response fits, an attempt is answered from the response for the whole
      seconds of the retention; the lock is given back, and an overtaken holder's completion counts too. */
  lemma {:induction false} AfterCompletion(k: Keys, cfg: Config, s: Scope, first: Fingerprint, t: Token, at: int,
                                           r: Response, gzipLen: nat, done: int,
                                           second: Fingerprint, u: Token, now: int)
    requires s !in k.done && s !in k.locks && cfg.lockTtl > 0 && at <= done <= now
    requires gzipLen <= cfg.maxBody && cfg.entryTtl >= 1000
    ensures var held := BeginStep(k, cfg, s, first, t, at).0;
            var (kept, ok) := CompleteStep(held, cfg, Guard(s, first, t), r, gzipLen, done);
            && ok
            && BeginStep(kept, cfg, s, second, u, now).1
               == if now >= done + cfg.entryTtl - cfg.entryTtl % 1000 then Proceed(u)
                  else if second == first then Replay(r) else Mismatch
  {
  }

  /** A response that does not fit is not kept, and the lock is given back. With a retention below a second the
      completion of one that fits is refused, and the lock stays. */
  lemma {:induction false} AfterOtherCompletion(k: Keys, cfg: Config, s: Scope, first: Fingerprint, t: Token, at: int,
                                                r: Response, gzipLen: nat, done: int,
                                                second: Fingerprint, u: Token, now: int)
    requires s !in k.done && s !in k.locks && cfg.lockTtl > 0 && at <= done <= now
    requires gzipLen > cfg.maxBody || cfg.entryTtl < 1000
    ensures var held := BeginStep(k, cfg, s, first, t, at).0;
            var (kept, ok) := CompleteStep(held, cfg, Guard(s, first, t), r, gzipLen, done);
            && (ok <==> gzipLen > cfg.maxBody)
            && (BeginStep(kept, cfg, s, second, u, now).1 == Proceed(u)
                <==> gzipLen > cfg.maxBody || now >= at + cfg.lockTtl)
  {
  }

  /** After a failure by the lock's holder the next attempt proceeds at once; an overtaken holder frees nothing. */
  lemma {:induction false} AfterFailure(k: Keys, cfg: Config, s: Scope, first: Fingerprint, t: Token, at: int, v: Token,
                                        done: int, second: Fingerprint, u: Token, now: int)
    requires s !in k.done && s !in k.locks && cfg.lockTtl > 0 && at <= done <= now
    ensures var held := BeginStep(k, cfg, s, first, t, at).0;
            BeginStep(ReleaseStep(held, Guard(s, first, v), done), cfg, s, second, u, now).1 == Proceed(u)
            <==> now >= at + cfg.lockTtl || v == t
  {
  }

  /** One call of the backend, taken to be atomic. */
  function Step(k: Keys, cfg: Config, c: Call): (Keys, Option<Decision>) {
    match c
    case Begin(scope, fp, token, now) =>
      var (next, d) := BeginStep(k, cfg, scope, fp, token, now);
      (next, Some(d))
    case Complete(g, r, len, now) => (CompleteStep(k, cfg, g, r, len, now).0, None)
    case Fail(g, now) => (ReleaseStep(k, g, now), None)
  }

  function Before(cfg: Config, calls: seq<Call>, n: nat): Keys
    requires n <= |calls|
  {
    if n == 0 then Keys(map[], map[]) else Step(Before(cfg, calls, n - 1), cfg, calls[n - 1]).0
  }

  function Answer(cfg: Config, calls: seq<Call>, n: nat): Option<Decision>
    requires n < |calls|
  {
    Step(Before(cfg, calls, n), cfg, calls[n]).1
  }
}
