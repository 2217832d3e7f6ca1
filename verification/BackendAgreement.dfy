/** The contract that the three backends share, as one abstract machine, and when they keep it alike. */
module BackendAgreement {
  import opened Prelude
  import opened Idempotency
  import Memory = MemoryBackend
  import Redis = RedisBackend
  import Pg = PostgresBackend

  /** A decision without what is particular to a backend: its token and its retry seconds. */
  datatype Verdict = Go | Again(response: Response) | Reused | Busy | Broken

  function Erase(d: Decision): Verdict {
    match d
    case Proceed(_) => Go
    case Replay(r) => Again(r)
    case Mismatch => Reused
    case Conflict(_) => Busy
    case Error => Broken
  }

  datatype Slot =
    | Held(token: Token, fingerprint: Fingerprint, since: int)
    | Done(fingerprint: Fingerprint, response: Response, until: int)

  type Slots = map<Scope, Slot>

  /** The contract: one holder at a time, and `keep` milliseconds of replay after a completion. */
  function Step(st: Slots, keep: int, c: Call): (Slots, Option<Verdict>) {
    match c
    case Begin(s, fp, token, now) =>
      if s !in st || (st[s].Done? && st[s].until <= now) then (st[s := Held(token, fp, now)], Some(Go))
      else if st[s].Held? then (st, Some(Busy))
      else (st, Some(if st[s].fingerprint == fp then Again(st[s].response) else Reused))
    case Complete(g, r, _, now) => (st[g.scope := Done(g.fingerprint, r, now + keep)], None)
    case Fail(g, _) => (st - {g.scope}, None)
  }

  function Before(keep: int, calls: seq<Call>, n: nat): Slots
    requires n <= |calls|
  {
    if n == 0 then map[] else Step(Before(keep, calls, n - 1), keep, calls[n - 1]).0
  }

  /** Holders resolve once, within their lease, and with bodies that fit; nobody is still holding a
      scope past the lease when someone else asks for it. */
  ghost predicate Prompt(st: Slots, cfg: Config, c: Call) {
    match c
    case Begin(s, _, _, now) => s in st && st[s].Held? ==> now < st[s].since + cfg.lockTtl
    case Complete(g, _, len, now) => Holds(st, cfg, g, now) && len <= cfg.maxBody
    case Fail(g, now) => Holds(st, cfg, g, now)
  }

  ghost predicate Holds(st: Slots, cfg: Config, g: Guard, now: int) {
    && g.scope in st && st[g.scope].Held?
    && st[g.scope].token == g.token && st[g.scope].fingerprint == g.fingerprint
    && now < st[g.scope].since + cfg.lockTtl
  }

  ghost predicate PromptRun(cfg: Config, keep: int, calls: seq<Call>) {
    Chronological(calls) && forall n :: 0 <= n < |calls| ==> Prompt(Before(keep, calls, n), cfg, calls[n])
  }

  /** The retention that second-granular times to live amount to. */
  function WholeSeconds(ttl: nat): nat { 1000 * (ttl / 1000) }

  // ---- The in-memory backend ----

  ghost predicate MemoryRefines(st: Slots, es: Memory.Entries) {
    && st.Keys == es.Keys
    && forall s :: s in st ==>
                     match st[s]
                     case Held(token, fp, since) => es[s] == Memory.Entry(true, token, fp, None, since, None)
                     case Done(fp, r, until) =>
                       !es[s].inFlight && es[s].fingerprint == fp && es[s].response == Some(r)
                       && es[s].expiresAt == Some(until)
  }

  lemma {:induction false} MemoryStep(st: Slots, es: Memory.Entries, cfg: Config, c: Call)
    requires Memory.Sound(es) && MemoryRefines(st, es) && Prompt(st, cfg, c)
    ensures MemoryRefines(Step(st, cfg.entryTtl, c).0, Memory.Step(es, cfg, c).0)
    ensures c.Begin? ==> Some(Erase(Memory.Step(es, cfg, c).1.value)) == Step(st, cfg.entryTtl, c).1
  {
  }

  lemma {:induction false} MemoryRun(cfg: Config, calls: seq<Call>, n: nat)
    requires n <= |calls| && PromptRun(cfg, cfg.entryTtl, calls)
    ensures MemoryRefines(Before(cfg.entryTtl, calls, n), Memory.Before(cfg, calls, n))
  {
    if n > 0 {
      MemoryRun(cfg, calls, n - 1);
      MemoryStep(Before(cfg.entryTtl, calls, n - 1), Memory.Before(cfg, calls, n - 1), cfg, calls[n - 1]);
    }
  }

  // ---- The Redis backend ----

  /** One scope of the contract and of Redis, up to a record that has expired by `now`. */
  ghost predicate RedisSlot(st: Slots, k: Redis.Keys, cfg: Config, now: int, s: Scope) {
    if s !in st then s !in k.locks && !Redis.Recorded(k, s, now)
    else match st[s]
         case Held(token, fp, since) =>
           && s in k.locks && k.locks[s] == Redis.Lock(token, since + cfg.lockTtl)
           && !Redis.Recorded(k, s, now)
         case Done(fp, r, until) =>
           s !in k.locks && s in k.done && k.done[s] == Redis.Record(fp, r, until)
  }

  ghost predicate RedisRefines(st: Slots, k: Redis.Keys, cfg: Config, now: int) {
    forall s :: RedisSlot(st, k, cfg, now, s)
  }

  lemma {:induction false} RedisStep(st: Slots, k: Redis.Keys, cfg: Config, c: Call)
    requires cfg.entryTtl >= 1000 && cfg.lockTtl > 0
    requires RedisRefines(st, k, cfg, c.now) && Prompt(st, cfg, c)
    ensures RedisRefines(Step(st, WholeSeconds(cfg.entryTtl), c).0, Redis.Step(k, cfg, c).0, cfg, c.now)
    ensures c.Begin? ==>
              Some(Erase(Redis.Step(k, cfg, c).1.value)) == Step(st, WholeSeconds(cfg.entryTtl), c).1
  {
    var target := if c.Begin? then c.scope else c.guard.scope;
    assert RedisSlot(st, k, cfg, c.now, target);
    forall s
      ensures RedisSlot(Step(st, WholeSeconds(cfg.entryTtl), c).0, Redis.Step(k, cfg, c).0, cfg, c.now, s)
    {
      assert RedisSlot(st, k, cfg, c.now, s);
    }
  }

  lemma {:induction false} RedisLater(st: Slots, k: Redis.Keys, cfg: Config, now: int, later: int)
    requires RedisRefines(st, k, cfg, now) && now <= later
    ensures RedisRefines(st, k, cfg, later)
  {
    forall s
      ensures RedisSlot(st, k, cfg, later, s)
    {
      assert RedisSlot(st, k, cfg, now, s);
    }
  }

  lemma {:induction false} RedisRun(cfg: Config, calls: seq<Call>, n: nat, now: int)
    requires n <= |calls| && PromptRun(cfg, WholeSeconds(cfg.entryTtl), calls)
    requires cfg.entryTtl >= 1000 && cfg.lockTtl > 0
    requires n > 0 ==> calls[n - 1].now <= now
    ensures RedisRefines(Before(WholeSeconds(cfg.entryTtl), calls, n), Redis.Before(cfg, calls, n), cfg, now)
  {
    if n > 0 {
      var c := calls[n - 1];
      if n > 1 {
        assert calls[n - 2].now <= c.now;
      }
      var keep := WholeSeconds(cfg.entryTtl);
      var st, k := Before(keep, calls, n - 1), Redis.Before(cfg, calls, n - 1);
      var nextSt, nextK := Before(keep, calls, n), Redis.Before(cfg, calls, n);
      RedisRun(cfg, calls, n - 1, c.now);
      assert Prompt(st, cfg, c);
      assert nextSt == Step(st, keep, c).0 && nextK == Redis.Step(k, cfg, c).0;
      RedisStep(st, k, cfg, c);
      RedisLater(nextSt, nextK, cfg, c.now, now);
    }
  }

  // ---- The Postgres backend ----

  ghost predicate PgRefines(st: Slots, rows: Pg.Rows) {
    && st.Keys == rows.Keys
    && forall s :: s in st ==>
                     match st[s]
                     case Held(token, fp, since) => rows[s] == Pg.FreshRow(fp, since)
                     case Done(fp, r, until) =>
                       !rows[s].inFlight && rows[s].fingerprint == fp && rows[s].response == Some(r)
                       && rows[s].expiresAt == until
  }

  lemma {:induction false} PgStep(st: Slots, rows: Pg.Rows, cfg: Config, c: Call)
    requires cfg.lockTtl <= Pg.HOUR && PgRefines(st, rows) && Prompt(st, cfg, c)
    ensures PgRefines(Step(st, WholeSeconds(cfg.entryTtl), c).0, Pg.Step(rows, cfg, c).0)
    ensures c.Begin? ==> Some(Erase(Pg.Step(rows, cfg, c).1.value)) == Step(st, WholeSeconds(cfg.entryTtl), c).1
  {
  }

  lemma {:induction false} PgRun(cfg: Config, calls: seq<Call>, n: nat)
    requires n <= |calls| && PromptRun(cfg, WholeSeconds(cfg.entryTtl), calls) && cfg.lockTtl <= Pg.HOUR
    ensures PgRefines(Before(WholeSeconds(cfg.entryTtl), calls, n), Pg.Before(cfg, calls, n))
  {
    if n > 0 {
      PgRun(cfg, calls, n - 1);
      PgStep(Before(WholeSeconds(cfg.entryTtl), calls, n - 1), Pg.Before(cfg, calls, n - 1), cfg, calls[n - 1]);
    }
  }

  // ---- All three ----

  /** Every `begin` of the run is told the same by all three backends and by the contract. */
  ghost predicate AlikeOn(cfg: Config, calls: seq<Call>) {
    forall n :: 0 <= n < |calls| && calls[n].Begin? ==>
                  var verdict := Some(Erase(Memory.Answer(cfg, calls, n).value));
                  && verdict == Some(Erase(Redis.Answer(cfg, calls, n).value))
                  && verdict == Some(Erase(Pg.Answer(cfg, calls, n).value))
                  && verdict == Step(Before(cfg.entryTtl, calls, n), cfg.entryTtl, calls[n]).1
  }

  lemma {:induction false} BackendsAgree(cfg: Config, calls: seq<Call>)
    requires 0 < cfg.lockTtl <= Pg.HOUR && cfg.entryTtl > 0 && cfg.entryTtl % 1000 == 0
    requires PromptRun(cfg, cfg.entryTtl, calls)
    ensures AlikeOn(cfg, calls)
  {
    assert WholeSeconds(cfg.entryTtl) == cfg.entryTtl;
    forall n | 0 <= n < |calls| && calls[n].Begin?
      ensures var verdict := Some(Erase(Memory.Answer(cfg, calls, n).value));
              && verdict == Some(Erase(Redis.Answer(cfg, calls, n).value))
              && verdict == Some(Erase(Pg.Answer(cfg, calls, n).value))
              && verdict == Step(Before(cfg.entryTtl, calls, n), cfg.entryTtl, calls[n]).1
    {
      var st := Before(cfg.entryTtl, calls, n);
      MemoryRun(cfg, calls, n);
      MemoryStep(st, Memory.Before(cfg, calls, n), cfg, calls[n]);
      RedisRun(cfg, calls, n, calls[n].now);
      RedisStep(st, Redis.Before(cfg, calls, n), cfg, calls[n]);
      PgRun(cfg, calls, n);
      PgStep(st, Pg.Before(cfg, calls, n), cfg, calls[n]);
    }
  }

  /** A run that tells the backends apart when the retention is not a positive number of whole seconds:
      ask again at the moment to which second-granular times to live round down. */
  function Probe(cfg: Config): seq<Call> {
    var g := Guard("scope", "fingerprint", 0);
    [Begin(g.scope, g.fingerprint, 0, 0), Complete(g, Response(201, None, []), 0, 0),
     Begin(g.scope, g.fingerprint, 1, WholeSeconds(cfg.entryTtl))]
  }

  lemma {:induction false} ProbeTellsApart(cfg: Config)
    requires 0 < cfg.lockTtl && (cfg.entryTtl == 0 || cfg.entryTtl % 1000 != 0)
    ensures PromptRun(cfg, cfg.entryTtl, Probe(cfg)) && !AlikeOn(cfg, Probe(cfg))
  {
    var calls, s, w := Probe(cfg), "scope", WholeSeconds(cfg.entryTtl);
    var r := Response(201, None, []);
    assert Before(cfg.entryTtl, calls, 0) == map[];
    assert Before(cfg.entryTtl, calls, 1) == map[s := Held(0, "fingerprint", 0)];
    assert Before(cfg.entryTtl, calls, 2) == map[s := Done("fingerprint", r, cfg.entryTtl)];
    assert Memory.Before(cfg, calls, 1) == map[s := Memory.Entry(true, 0, "fingerprint", None, 0, None)];
    assert Memory.Before(cfg, calls, 2)
        == map[s := Memory.Entry(false, 0, "fingerprint", Some(r), 0, Some(cfg.entryTtl))];
    if cfg.entryTtl == 0 {
      assert Redis.Before(cfg, calls, 1) == Redis.Keys(map[], map[s := Redis.Lock(0, cfg.lockTtl)]);
      assert Redis.Before(cfg, calls, 2) == Redis.Before(cfg, calls, 1);
      assert Erase(Redis.Answer(cfg, calls, 2).value) == Busy;
    } else {
      assert Pg.Before(cfg, calls, 1) == map[s := Pg.FreshRow("fingerprint", 0)];
      assert Pg.Before(cfg, calls, 2) == map[s := Pg.Row(false, "fingerprint", Some(r), 0, w)];
      assert Erase(Pg.Answer(cfg, calls, 2).value) == Go;
    }
  }

  /** Redis refuses a lock without a lease, and a row in flight expires after an hour whatever the lease. */
  lemma {:induction false} LeaseTellsApart(cfg: Config)
    requires cfg.lockTtl == 0 || cfg.lockTtl > Pg.HOUR
    ensures exists calls :: PromptRun(cfg, cfg.entryTtl, calls) && !AlikeOn(cfg, calls)
  {
    var s, fp := "scope", "fingerprint";
    var calls := [Begin(s, fp, 0, 0), Begin(s, fp, 1, Pg.HOUR)];
    if cfg.lockTtl == 0 {
      calls := calls[..1];
      assert Erase(Redis.Answer(cfg, calls, 0).value) == Broken;
    } else {
      assert Before(cfg.entryTtl, calls, 1) == map[s := Held(0, fp, 0)];
      assert Memory.Before(cfg, calls, 1) == map[s := Memory.Entry(true, 0, fp, None, 0, None)];
      assert Pg.Before(cfg, calls, 1) == map[s := Pg.FreshRow(fp, 0)];
      assert Erase(Pg.Answer(cfg, calls, 1).value) == Go;
    }
    assert PromptRun(cfg, cfg.entryTtl, calls) && !AlikeOn(cfg, calls);
  }

  /** On prompt runs the three backends answer every call alike exactly when the lease is positive and at
      most an hour and the retention is a positive number of whole seconds. */
  lemma {:induction false} AgreeIff(cfg: Config)
    ensures (forall calls :: PromptRun(cfg, cfg.entryTtl, calls) ==> AlikeOn(cfg, calls))
       <==> 0 < cfg.lockTtl <= 3_600_000 && cfg.entryTtl > 0 && cfg.entryTtl % 1000 == 0
  {
    if cfg.lockTtl == 0 || cfg.lockTtl > Pg.HOUR {
      LeaseTellsApart(cfg);
    } else if cfg.entryTtl == 0 || cfg.entryTtl % 1000 != 0 {
      ProbeTellsApart(cfg);
    } else {
      forall calls | PromptRun(cfg, cfg.entryTtl, calls)
        ensures AlikeOn(cfg, calls)
      {
        BackendsAgree(cfg, calls);
      }
    }
  }
}
