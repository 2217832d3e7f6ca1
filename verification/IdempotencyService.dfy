/** The service in front of the backends: Redis while it answers, Postgres otherwise, and every completion
    sent to both. */
module IdempotencyService {
  import opened Prelude
  import opened Idempotency
  import Redis = RedisBackend
  import Pg = PostgresBackend

  datatype Stores = Stores(keys: Redis.Keys, rows: Pg.Rows)

  const EMPTY := Stores(Redis.Keys(map[], map[]), map[])

  /** `up` tells whether Redis is configured and answers during the call. A refused lock counts as an outage. */
  function BeginStep(st: Stores, cfg: Config, s: Scope, fp: Fingerprint, token: Token, now: int, up: bool)
    : (Stores, Decision)
  {
    var (keys, d) := Redis.BeginStep(st.keys, cfg, s, fp, token, now);
    if up && !d.Error? then (st.(keys := keys), d)
    else
      var (rows, fallback) := Pg.BeginStep(st.rows, cfg, s, fp, token, now);
      (st.(rows := rows), fallback)
  }

  function CompleteStep(st: Stores, cfg: Config, g: Guard, r: Response, gzipLen: nat, now: int, up: bool): Stores {
    Stores(if up then Redis.CompleteStep(st.keys, cfg, g, r, gzipLen, now).0 else st.keys,
           Pg.CompleteStep(st.rows, cfg, g.scope, r, gzipLen, now))
  }

  function FailStep(st: Stores, g: Guard, now: int, up: bool): Stores {
    Stores(if up then Redis.ReleaseStep(st.keys, g, now) else st.keys, Pg.FailStep(st.rows, g.scope))
  }

  class IdempotencyService {
    const redis: Redis.RedisBackend
    const pg: Pg.PostgresBackend

    constructor (redis: Redis.RedisBackend, pg: Pg.PostgresBackend)
      ensures this.redis == redis && this.pg == pg
    {
      this.redis := redis;
      this.pg := pg;
    }

    ghost function Contents(): Stores
      reads this, redis, pg
    {
      Stores(redis.keys, pg.rows)
    }

    method Begin(cfg: Config, s: Scope, fp: Fingerprint, token: Token, now: int, up: bool) returns (d: Decision)
      modifies redis, pg
      ensures (Contents(), d) == BeginStep(old(Contents()), cfg, s, fp, token, now, up)
    {
      if up {
        d := redis.Begin(cfg, s, fp, token, now);
        if !d.Error? {
          return;
        }
      }
      d := pg.Begin(cfg, s, fp, token, now);
    }

    method Complete(cfg: Config, g: Guard, r: Response, gzipLen: nat, now: int, up: bool)
      modifies redis, pg
      ensures Contents() == CompleteStep(old(Contents()), cfg, g, r, gzipLen, now, up)
    {
      pg.Complete(cfg, g, r, gzipLen, now);
      if up {
        var _ := redis.Complete(cfg, g, r, gzipLen, now);
      }
    }

    method Fail(g: Guard, now: int, up: bool)
      modifies redis, pg
      ensures Contents() == FailStep(old(Contents()), g, now, up)
    {
      if up {
        redis.Fail(g, now);
      }
      pg.Fail(g);
    }
  }

  // ---- Runs ----

  function Step(st: Stores, cfg: Config, c: Call, up: bool): (Stores, Option<Decision>) {
    match c
    case Begin(s, fp, token, now) =>
      var (next, d) := BeginStep(st, cfg, s, fp, token, now, up);
      (next, Some(d))
    case Complete(g, r, len, now) => (CompleteStep(st, cfg, g, r, len, now, up), None)
    case Fail(g, now) => (FailStep(st, g, now, up), None)
  }

  /** The stores before call number `n`; `up[k]` tells whether Redis answers during call `k`. */
  function Before(cfg: Config, calls: seq<Call>, up: seq<bool>, n: nat): Stores
    requires n <= |calls| == |up|
  {
    if n == 0 then EMPTY else Step(Before(cfg, calls, up, n - 1), cfg, calls[n - 1], up[n - 1]).0
  }

  // ---- Without outages, and with nothing else ----

  /** While Redis answers every call, the service is the Redis backend, and no completion leaves a row in
      Postgres: the write-through updates a row that only a fallback would have inserted. */
  lemma {:induction false} WriteThroughWritesNothing(cfg: Config, calls: seq<Call>, up: seq<bool>, n: nat)
    requires n <= |calls| == |up| && cfg.lockTtl > 0 && forall k :: 0 <= k < n ==> up[k]
    ensures Before(cfg, calls, up, n) == Stores(Redis.Before(cfg, calls, n), map[])
  {
    if n > 0 {
      WriteThroughWritesNothing(cfg, calls, up, n - 1);
    }
  }

  /** While Redis answers none, the service is the Postgres backend. */
  lemma {:induction false} FallbackIsPostgres(cfg: Config, calls: seq<Call>, up: seq<bool>, n: nat)
    requires n <= |calls| == |up| && forall k :: 0 <= k < n ==> !up[k]
    ensures Before(cfg, calls, up, n) == Stores(Redis.Keys(map[], map[]), Pg.Before(cfg, calls, n))
  {
    if n > 0 {
      FallbackIsPostgres(cfg, calls, up, n - 1);
    }
  }

  // ---- Does a replay survive the loss of its Redis record? ----

  /** The stores once Redis has evicted the record of `s`. */
  function Evicted(st: Stores, s: Scope): Stores { st.(keys := st.keys.(done := st.keys.done - {s})) }

  /** After a completion whose Redis record is lost, a repeat within the retention is answered by a replay
      exactly when Postgres already had a row for the scope, with the same fingerprint, when the
      execution completed, and Redis does not answer the repeat (or refuses leases altogether). */
  lemma {:induction false} ReplaySurvivesEvictionIff(st: Stores, cfg: Config, g: Guard, r: Response, gzipLen: nat,
                                                     now: int, up: bool, token: Token, later: int, upLater: bool)
    requires gzipLen <= cfg.maxBody && later < now + 1000 * (cfg.entryTtl / 1000)
    ensures var lost := Evicted(CompleteStep(st, cfg, g, r, gzipLen, now, up), g.scope);
            BeginStep(lost, cfg, g.scope, g.fingerprint, token, later, upLater).1 == Replay(r)
            <==> (!upLater || cfg.lockTtl == 0) && g.scope in st.rows && st.rows[g.scope].fingerprint == g.fingerprint
  {
  }

  /** So while Redis answers every call, a repeat after an eviction is given out for a second execution as
      soon as no lock stands in its way. */
  lemma {:induction false} EvictionRepeatsExecution(cfg: Config, calls: seq<Call>, up: seq<bool>, n: nat, g: Guard,
                                                    r: Response, gzipLen: nat, token: Token, later: int,
                                                    upLater: bool)
    requires n < |calls| == |up| && cfg.lockTtl > 0 && forall k :: 0 <= k <= n ==> up[k]
    requires calls[n] == Complete(g, r, gzipLen, calls[n].now)
    ensures var lost := Evicted(Before(cfg, calls, up, n + 1), g.scope);
            BeginStep(lost, cfg, g.scope, g.fingerprint, token, later, upLater).1.Proceed?
            <==> !upLater || !Redis.Locked(lost.keys, g.scope, later)
  {
    WriteThroughWritesNothing(cfg, calls, up, n + 1);
  }

  // ---- Does exclusion survive an outage? ----

  /** After calls that Redis all answered, an outage gives every scope away again, locked or not, and at
      the end of the outage Redis gives it away exactly when its own lock and record are gone. */
  lemma {:induction false} OutageIgnoresLocks(cfg: Config, calls: seq<Call>, up: seq<bool>, n: nat, s: Scope,
                                              fp: Fingerprint, token: Token, now: int, later: int)
    requires n <= |calls| == |up| && cfg.lockTtl > 0 && forall k :: 0 <= k < n ==> up[k]
    ensures var st := Before(cfg, calls, up, n);
            var (next, d) := BeginStep(st, cfg, s, fp, token, now, false);
            && d == Proceed(token)
            && (BeginStep(next, cfg, s, fp, token + 1, later, true).1 == Proceed(token + 1)
                <==> !Redis.Recorded(st.keys, s, later) && !Redis.Locked(st.keys, s, later))
  {
    WriteThroughWritesNothing(cfg, calls, up, n);
  }
}
