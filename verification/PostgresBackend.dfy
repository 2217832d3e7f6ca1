/** The Postgres backend: one row per scope under a unique constraint. Every SQL statement is atomic. */
module PostgresBackend {
  import opened Prelude
  import opened Idempotency

  /** Only the columns that the protocol reads. `body` is missing when the response exceeded the cap. */
  datatype Row = Row(
    inFlight: bool, fingerprint: Fingerprint, response: Option<Response>, createdAt: int, expiresAt: int)

  type Rows = map<Scope, Row>

  /** The expiry that `begin` gives to a row in flight. */
  const HOUR := 3_600_000

  function FreshRow(fp: Fingerprint, now: int): Row { Row(true, fp, None, now, now + HOUR) }

  predicate Expired(rows: Rows, s: Scope, now: int) { s in rows && rows[s].expiresAt <= now }

  predicate Reclaimable(rows: Rows, s: Scope, lockTtl: nat, now: int) {
    s in rows && rows[s].inFlight && rows[s].createdAt < now - lockTtl
  }

  /** INSERT ... ON CONFLICT (scope_hash) DO NOTHING. */
  function InsertStep(rows: Rows, s: Scope, fp: Fingerprint, now: int): Rows {
    if s in rows then rows else rows[s := FreshRow(fp, now)]
  }

  /** DELETE ... WHERE expires_at <= NOW(). */
  function DeleteExpiredStep(rows: Rows, s: Scope, now: int): Rows {
    if Expired(rows, s, now) then rows - {s} else rows
  }

  /** The compare-and-swap UPDATE; it leaves `expires_at` as it was. */
  function ReclaimStep(rows: Rows, s: Scope, fp: Fingerprint, lockTtl: nat, now: int): Rows {
    if Reclaimable(rows, s, lockTtl, now) then rows[s := rows[s].(createdAt := now, fingerprint := fp)] else rows
  }

  /** What a row that is no longer in flight answers. Decompressing a missing body is an error. */
  function Finished(row: Row, fp: Fingerprint): Decision {
    if row.fingerprint != fp then Mismatch
    else if row.response.None? then Error
    else Replay(row.response.value)
  }

  function BeginStep(rows: Rows, cfg: Config, s: Scope, fp: Fingerprint, token: Token, now: int): (Rows, Decision) {
    if s !in rows || Expired(rows, s, now) then (rows[s := FreshRow(fp, now)], Proceed(token))
    else if !rows[s].inFlight then (rows, Finished(rows[s], fp))
    else if Reclaimable(rows, s, cfg.lockTtl, now) then (ReclaimStep(rows, s, fp, cfg.lockTtl, now), Proceed(token))
    else (rows, Conflict(LeaseSecs(cfg.lockTtl)))
  }

  /** The token and the fingerprint of the caller are ignored. */
  function CompleteStep(rows: Rows, cfg: Config, s: Scope, r: Response, gzipLen: nat, now: int): Rows {
    if s !in rows then rows else
    var stored := if gzipLen <= cfg.maxBody then Some(r) else None;
    rows[s := rows[s].(inFlight := false, response := stored, expiresAt := now + 1000 * (cfg.entryTtl / 1000))]
  }

  function FailStep(rows: Rows, s: Scope): Rows {
    if s in rows && rows[s].inFlight then rows - {s} else rows
  }

  class PostgresBackend {
    var rows: Rows

    constructor ()
      ensures rows == map[]
    {
      rows := map[];
    }

    method Insert(s: Scope, fp: Fingerprint, now: int) returns (affected: nat)
      modifies this
      ensures rows == InsertStep(old(rows), s, fp, now)
      ensures affected == if s in old(rows) then 0 else 1
    {
      affected := 0;
      if s !in rows {
        rows := rows[s := Row(true, fp, None, now, now + HOUR)];
        affected := 1;
      }
    }

    method Select(s: Scope, now: int) returns (row: Option<Row>)
      ensures row == if s in rows && !Expired(rows, s, now) then Some(rows[s]) else None
    {
      row := None;
      if s in rows && rows[s].expiresAt > now {
        row := Some(rows[s]);
      }
    }

    method DeleteExpired(s: Scope, now: int)
      modifies this
      ensures rows == DeleteExpiredStep(old(rows), s, now)
    {
      if s in rows && rows[s].expiresAt <= now {
        rows := rows - {s};
      }
    }

    method Reclaim(s: Scope, fp: Fingerprint, lockTtl: nat, now: int) returns (affected: nat)
      modifies this
      ensures rows == ReclaimStep(old(rows), s, fp, lockTtl, now)
      ensures affected == if Reclaimable(old(rows), s, lockTtl, now) then 1 else 0
    {
      affected := 0;
      if s in rows {
        var row := rows[s];
        if row.inFlight && row.createdAt < now - lockTtl {
          row := row.(inFlight := true, createdAt := now, fingerprint := fp);
          rows := rows[s := row];
          affected := 1;
        }
      }
    }

    /** A call that nothing interrupts. The retry after deleting an expired row happens at most once. */
    method Begin(cfg: Config, s: Scope, fp: Fingerprint, token: Token, now: int) returns (d: Decision)
      modifies this
      ensures (rows, d) == BeginStep(old(rows), cfg, s, fp, token, now)
      decreases if Expired(rows, s, now) then 1 else 0
    {
      var inserted := Insert(s, fp, now);
      if inserted == 1 {
        return Proceed(token);
      }
      var found := Select(s, now);
      if found.None? {
        DeleteExpired(s, now);
        assert rows[s := FreshRow(fp, now)] == old(rows)[s := FreshRow(fp, now)];
        d := Begin(cfg, s, fp, token, now);
        return;
      }
      var row := found.value;
      if !row.inFlight {
        if row.fingerprint == fp {
          return if row.response.Some? then Replay(row.response.value) else Error;
        }
        return Mismatch;
      }
      var reclaimed := Reclaim(s, fp, cfg.lockTtl, now);
      if reclaimed == 1 {
        return Proceed(token);
      }
      return Conflict(LeaseSecs(cfg.lockTtl));
    }

    method Complete(cfg: Config, g: Guard, r: Response, gzipLen: nat, now: int)
      modifies this
      ensures rows == CompleteStep(old(rows), cfg, g.scope, r, gzipLen, now)
    {
      var stored: Option<Response> := None;
      if gzipLen <= cfg.maxBody {
        stored := Some(r);
      }
      if g.scope in rows {
        var row := rows[g.scope];
        row := row.(inFlight := false, response := stored, expiresAt := now + 1000 * (cfg.entryTtl / 1000));
        rows := rows[g.scope := row];
      }
    }

    method Fail(g: Guard)
      modifies this
      ensures rows == FailStep(old(rows), g.scope)
    {
      if g.scope in rows && rows[g.scope].inFlight {
        rows := rows - {g.scope};
      }
    }
  }

  // ---- One scope, call by call ----

  /** Inserting leaves a row that is there alone, expired or not. */
  lemma {:induction false} InsertKeepsRows(rows: Rows, s: Scope, fp: Fingerprint, now: int, x: Scope)
    requires x in rows
    ensures x in InsertStep(rows, s, fp, now) && InsertStep(rows, s, fp, now)[x] == rows[x]
  {
  }

  /** A second attempt at a scope without a row proceeds once the lease is over, or after an hour, and until
      then is told to come back after the whole seconds of the lease. */
  lemma {:induction false} SecondBegin(rows: Rows, cfg: Config, s: Scope, first: Fingerprint, t: Token, at: int,
                                       second: Fingerprint, u: Token, now: int)
    requires s !in rows
    ensures var (held, d) := BeginStep(rows, cfg, s, first, t, at);
            && d == Proceed(t)
            && BeginStep(held, cfg, s, second, u, now).1
               == if now > at + cfg.lockTtl || now >= at + 3_600_000 then Proceed(u)
                  else if cfg.lockTtl < 1000 then Conflict(1) else Conflict(cfg.lockTtl / 1000)
  {
  }

  /** An attempt that takes a row over renews its lease, but not its hour. */
  lemma {:induction false} ThirdBegin(rows: Rows, cfg: Config, s: Scope, first: Fingerprint, t: Token, at: int,
                                      second: Fingerprint, u: Token, again: int, third: Fingerprint, v: Token, now: int)
    requires s !in rows && at + cfg.lockTtl < again < at + 3_600_000
    ensures var held := BeginStep(rows, cfg, s, first, t, at).0;
            var taken := BeginStep(held, cfg, s, second, u, again).0;
            BeginStep(taken, cfg, s, third, v, now).1 == Proceed(v)
            <==> now > again + cfg.lockTtl || now >= at + 3_600_000
  {
  }

  /** After a completion at `done`, by whomever, an attempt is answered from the row for the whole seconds of
      the retention: with the response, with an error if it did not fit, or with a mismatch. */
  lemma {:induction false} AfterCompletion(rows: Rows, cfg: Config, s: Scope, first: Fingerprint, t: Token, at: int,
                                           r: Response, gzipLen: nat, done: int,
                                           second: Fingerprint, u: Token, now: int)
    requires s !in rows
    ensures var held := BeginStep(rows, cfg, s, first, t, at).0;
            var kept := CompleteStep(held, cfg, s, r, gzipLen, done);
            BeginStep(kept, cfg, s, second, u, now).1
            == if now >= done + cfg.entryTtl - cfg.entryTtl % 1000 then Proceed(u)
            else if second != first then Mismatch
            else if gzipLen <= cfg.maxBody then Replay(r) else Error
    ensures CompleteStep(rows, cfg, s, r, gzipLen, done) == rows
  {
  }

  /** After a failure, by whomever, the next attempt proceeds at once; a completed row stays. */
  lemma {:induction false} AfterFailure(rows: Rows, cfg: Config, s: Scope, first: Fingerprint, t: Token, at: int,
                                        r: Response, gzipLen: nat, done: int,
                                        second: Fingerprint, u: Token, now: int)
    requires s !in rows
    ensures var held := BeginStep(rows, cfg, s, first, t, at).0;
            var kept := CompleteStep(held, cfg, s, r, gzipLen, done);
            && FailStep(held, s) == rows && BeginStep(FailStep(held, s), cfg, s, second, u, now).1 == Proceed(u)
            && FailStep(kept, s) == kept
  {
  }

  /** One call of the backend, taken to be atomic. */
  function Step(rows: Rows, cfg: Config, c: Call): (Rows, Option<Decision>) {
    match c
    case Begin(s, fp, token, now) =>
      var (next, d) := BeginStep(rows, cfg, s, fp, token, now);
      (next, Some(d))
    case Complete(g, r, len, now) => (CompleteStep(rows, cfg, g.scope, r, len, now), None)
    case Fail(g, _) => (FailStep(rows, g.scope), None)
  }

  function Before(cfg: Config, calls: seq<Call>, n: nat): Rows
    requires n <= |calls|
  {
    if n == 0 then map[] else Step(Before(cfg, calls, n - 1), cfg, calls[n - 1]).0
  }

  function Answer(cfg: Config, calls: seq<Call>, n: nat): Option<Decision>
    requires n < |calls|
  {
    Step(Before(cfg, calls, n), cfg, calls[n]).1
  }
}
