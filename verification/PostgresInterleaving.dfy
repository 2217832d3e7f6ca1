/** The Postgres backend one SQL statement at a time, with any number of `begin` calls interleaved. */
module PostgresInterleaving {
  import opened Prelude
  import opened Idempotency
  import opened PostgresBackend

  type Id = nat

  /** The statement at which a running `begin` stands. */
  datatype Place = AtInsert | AtSelect | AtDelete | AtReclaim

  datatype Attempt = Attempt(scope: Scope, fingerprint: Fingerprint, place: Place)

  /** An execution given out and not yet resolved. */
  datatype Lease = Lease(scope: Scope, fingerprint: Fingerprint, acquired: int)

  /** `owner` records who last acquired a scope; the backend itself does not store it. */
  datatype State = State(
    rows: Rows, attempts: map<Id, Attempt>, leases: map<Id, Lease>, owner: map<Scope, Id>, used: set<Id>)

  datatype Event =
    | Arrive(id: Id, scope: Scope, fingerprint: Fingerprint, now: int)
    | Next(id: Id, now: int)
    | Complete(id: Id, response: Response, gzipLen: nat, now: int)
    | Fail(id: Id, now: int)

  const EMPTY := State(map[], map[], map[], map[], {})

  function MoveTo(st: State, id: Id, place: Place): State
    requires id in st.attempts
  {
    st.(attempts := st.attempts[id := st.attempts[id].(place := place)])
  }

  function Acquire(st: State, id: Id, rows: Rows, now: int): State
    requires id in st.attempts
  {
    var Attempt(s, fp, _) := st.attempts[id];
    var leases, owner := st.leases[id := Lease(s, fp, now)], st.owner[s := id];
    st.(rows := rows, attempts := st.attempts - {id}, leases := leases, owner := owner)
  }

  function Return(st: State, id: Id): State { st.(attempts := st.attempts - {id}) }

  /** The next statement of a running `begin`, and its answer once it has one. */
  function Statement(cfg: Config, st: State, id: Id, now: int): (State, Option<Decision>)
    requires id in st.attempts
  {
    var Attempt(s, fp, place) := st.attempts[id];
    match place
    case AtInsert =>
      if s in st.rows then (MoveTo(st, id, AtSelect), None)
      else (Acquire(st, id, InsertStep(st.rows, s, fp, now), now), Some(Proceed(id)))
    case AtSelect =>
      if s !in st.rows || Expired(st.rows, s, now) then (MoveTo(st, id, AtDelete), None)
      else if st.rows[s].inFlight then (MoveTo(st, id, AtReclaim), None)
      else (Return(st, id), Some(Finished(st.rows[s], fp)))
    case AtDelete =>
      (MoveTo(st.(rows := DeleteExpiredStep(st.rows, s, now)), id, AtInsert), None)
    case AtReclaim =>
      if Reclaimable(st.rows, s, cfg.lockTtl, now) then
        (Acquire(st, id, ReclaimStep(st.rows, s, fp, cfg.lockTtl, now), now), Some(Proceed(id)))
      else (Return(st, id), Some(Conflict(LeaseSecs(cfg.lockTtl))))
  }

  /** Calls are made once, statements belong to running calls, and holders act only within their lease.
      A holder that crashes simply never acts again. */
  ghost predicate Allowed(cfg: Config, st: State, e: Event) {
    match e
    case Arrive(id, _, _, _) => id !in st.used
    case Next(id, _) => id in st.attempts
    case Complete(id, _, _, now) => Live(cfg, st, id, now)
    case Fail(id, now) => Live(cfg, st, id, now)
  }

  ghost predicate Live(cfg: Config, st: State, id: Id, now: int) {
    id in st.leases && now <= st.leases[id].acquired + cfg.lockTtl
  }

  function Step(cfg: Config, st: State, e: Event): (State, Option<Decision>)
    requires e.Next? ==> e.id in st.attempts
  {
    match e
    case Arrive(id, s, fp, _) =>
      (st.(attempts := st.attempts[id := Attempt(s, fp, AtInsert)], used := st.used + {id}), None)
    case Next(id, now) => Statement(cfg, st, id, now)
    case Complete(id, r, len, now) =>
      if id !in st.leases then (st, None) else
      (st.(rows := CompleteStep(st.rows, cfg, st.leases[id].scope, r, len, now), leases := st.leases - {id}), None)
    case Fail(id, now) =>
      if id !in st.leases then (st, None) else
      (st.(rows := FailStep(st.rows, st.leases[id].scope), leases := st.leases - {id}), None)
  }

  /** A run from `st` at time `from`: chronological, and every event allowed where it happens. */
  ghost predicate Runs(cfg: Config, st: State, from: int, es: seq<Event>)
    decreases |es|, 0
  {
    |es| == 0 ||
    var n := |es| - 1;
    && Runs(cfg, st, from, es[..n])
    && (if n == 0 then from else es[n - 1].now) <= es[n].now
    && Allowed(cfg, After(cfg, st, from, es[..n]), es[n])
  }

  ghost function After(cfg: Config, st: State, from: int, es: seq<Event>): State
    requires Runs(cfg, st, from, es)
    decreases |es|, 1
  {
    if |es| == 0 then st else Step(cfg, After(cfg, st, from, es[..|es| - 1]), es[|es| - 1]).0
  }

  function LastTime(from: int, es: seq<Event>): int { if |es| == 0 then from else es[|es| - 1].now }

  // ---- Alone ----

  /** Up to `n` statements of one `begin`, all at one moment and nothing in between. */
  function Uninterrupted(cfg: Config, st: State, id: Id, now: int, n: nat): (State, Option<Decision>)
    requires id in st.attempts
    decreases n
  {
    var (next, answer) := Statement(cfg, st, id, now);
    if n <= 1 || answer.Some? || id !in next.attempts then (next, answer) else Uninterrupted(cfg, next, id, now, n - 1)
  }

  /** A `begin` that nothing interrupts has its answer after at most four statements, and does what the
      atomic call does. */
  lemma {:induction false} UninterruptedIsAtomic(cfg: Config, st: State, id: Id, s: Scope, fp: Fingerprint, now: int)
    requires id in st.attempts && st.attempts[id] == Attempt(s, fp, AtInsert)
    ensures var (end, answer) := Uninterrupted(cfg, st, id, now, 4);
            var (rows, d) := BeginStep(st.rows, cfg, s, fp, id, now);
            end.rows == rows && answer == Some(d) && end.attempts == st.attempts - {id}
  {
    var second := Statement(cfg, st, id, now).0;
    if s in st.rows {
      var third := Statement(cfg, second, id, now).0;
      if Expired(st.rows, s, now) {
        var fourth := Statement(cfg, third, id, now).0;
        assert Uninterrupted(cfg, st, id, now, 4) == Uninterrupted(cfg, second, id, now, 3)
            == Uninterrupted(cfg, third, id, now, 2) == Uninterrupted(cfg, fourth, id, now, 1);
        assert fourth.rows[s := FreshRow(fp, now)] == st.rows[s := FreshRow(fp, now)];
      } else if st.rows[s].inFlight {
        assert Uninterrupted(cfg, st, id, now, 4) == Uninterrupted(cfg, second, id, now, 3)
            == Uninterrupted(cfg, third, id, now, 2);
      }
    }
  }

  // ---- The invariant ----

  /** A row in flight belongs to the unresolved lease of its owner. */
  ghost predicate RowOwned(st: State, s: Scope) {
    s in st.rows && st.rows[s].inFlight ==>
      s in st.owner && st.owner[s] in st.leases
      && st.leases[st.owner[s]] == Lease(s, st.rows[s].fingerprint, st.rows[s].createdAt)
  }

  /** A live lease owns the row of its scope, which stays unexpired for as long as the lease may live. */
  ghost predicate LeaseShielded(cfg: Config, st: State, now: int, id: Id) {
    Live(cfg, st, id, now) ==>
      var Lease(s, fp, acquired) := st.leases[id];
      && s in st.rows && st.rows[s].inFlight && st.rows[s].createdAt == acquired && st.rows[s].fingerprint == fp
      && s in st.owner && st.owner[s] == id
      && st.rows[s].expiresAt > acquired + cfg.lockTtl
  }

  ghost predicate Tidy(st: State) {
    && st.attempts.Keys <= st.used && st.leases.Keys <= st.used
    && st.attempts.Keys !! st.leases.Keys
  }

  ghost predicate Inv(cfg: Config, st: State, now: int) {
    && Tidy(st)
    && (forall s :: RowOwned(st, s))
    && (forall id :: LeaseShielded(cfg, st, now, id))
  }

  /** Taking over a crashed holder's row keeps the row's old expiry. The reclaim is covered when that
      expiry leaves the new holder its whole lease. */
  ghost predicate Covered(cfg: Config, st: State, e: Event) {
    e.Next? && e.id in st.attempts && st.attempts[e.id].place == AtReclaim ==>
      var s := st.attempts[e.id].scope;
      Reclaimable(st.rows, s, cfg.lockTtl, e.now) ==> st.rows[s].expiresAt > e.now + cfg.lockTtl
  }

  lemma {:induction false} InvLater(cfg: Config, st: State, now: int, later: int)
    requires Inv(cfg, st, now) && now <= later
    ensures Inv(cfg, st, later)
  {
    forall id
      ensures LeaseShielded(cfg, st, later, id)
    {
      assert LeaseShielded(cfg, st, now, id);
    }
  }

  lemma {:induction false} StepOwned(cfg: Config, st: State, e: Event, s: Scope)
    requires Inv(cfg, st, e.now) && Allowed(cfg, st, e)
    ensures RowOwned(Step(cfg, st, e).0, s)
  {
    assert RowOwned(st, s);
    if e.Complete? || e.Fail? {
      assert LeaseShielded(cfg, st, e.now, e.id);
    }
  }

  lemma {:induction false} StepShielded(cfg: Config, st: State, e: Event, id: Id)
    requires cfg.lockTtl < HOUR && Inv(cfg, st, e.now) && Allowed(cfg, st, e) && Covered(cfg, st, e)
    ensures LeaseShielded(cfg, Step(cfg, st, e).0, e.now, id)
  {
    assert LeaseShielded(cfg, st, e.now, id);
    if e.Complete? || e.Fail? {
      assert LeaseShielded(cfg, st, e.now, e.id);
    }
  }

  lemma {:induction false} InvStep(cfg: Config, st: State, e: Event)
    requires cfg.lockTtl < HOUR && Inv(cfg, st, e.now) && Allowed(cfg, st, e) && Covered(cfg, st, e)
    ensures Inv(cfg, Step(cfg, st, e).0, e.now)
  {
    var next := Step(cfg, st, e).0;
    forall s
      ensures RowOwned(next, s)
    {
      StepOwned(cfg, st, e, s);
    }
    forall id
      ensures LeaseShielded(cfg, next, e.now, id)
    {
      StepShielded(cfg, st, e, id);
    }
  }

  // ---- One lease ----

  /** The row of a live lease that nobody else can touch before the lease is over. */
  ghost predicate Shielded(cfg: Config, st: State, id: Id, now: int) {
    && Live(cfg, st, id, now)
    && var lease := st.leases[id];
    && Holding(st, id) && st.rows[lease.scope].expiresAt > lease.acquired + cfg.lockTtl
    && Alone(cfg, st, id, now)
  }

  /** The row in flight is the one that this lease wrote. */
  ghost predicate Holding(st: State, id: Id) {
    && id in st.leases && st.leases[id].scope in st.rows
    && st.rows[st.leases[id].scope].inFlight && st.rows[st.leases[id].scope].createdAt == st.leases[id].acquired
  }

  ghost predicate Alone(cfg: Config, st: State, id: Id, now: int)
    requires id in st.leases
  {
    forall other :: Live(cfg, st, other, now) && st.leases[other].scope == st.leases[id].scope ==> other == id
  }

  lemma {:induction false} AloneStep(cfg: Config, st: State, id: Id, now: int, e: Event)
    requires Shielded(cfg, st, id, now) && now <= e.now && Allowed(cfg, st, e) && id !in st.attempts
    requires e.now <= st.leases[id].acquired + cfg.lockTtl && id in Step(cfg, st, e).0.leases
    ensures Step(cfg, st, e).0.leases[id] == st.leases[id] && Alone(cfg, Step(cfg, st, e).0, id, e.now)
  {
    var next := Step(cfg, st, e).0;
    forall other | Live(cfg, next, other, e.now) && next.leases[other].scope == st.leases[id].scope
      ensures other == id
    {
      if other in st.leases && st.leases[other] == next.leases[other] {
        assert Live(cfg, st, other, now);
      }
    }
  }

  lemma {:induction false} ShieldStep(cfg: Config, st: State, id: Id, now: int, e: Event)
    requires Shielded(cfg, st, id, now) && now <= e.now && Allowed(cfg, st, e) && id !in st.attempts
    requires e.now <= st.leases[id].acquired + cfg.lockTtl && id in Step(cfg, st, e).0.leases
    ensures Shielded(cfg, Step(cfg, st, e).0, id, e.now)
  {
    AloneStep(cfg, st, id, now, e);
    if e.Complete? || e.Fail? {
      assert Live(cfg, st, e.id, now);
      assert st.leases[e.id].scope != st.leases[id].scope;
    }
  }

  // ---- Whole runs ----

  ghost predicate CoveredRun(cfg: Config, st: State, from: int, es: seq<Event>)
    requires Runs(cfg, st, from, es)
  {
    |es| == 0 ||
    var before := es[..|es| - 1];
    CoveredRun(cfg, st, from, before) && Covered(cfg, After(cfg, st, from, before), es[|es| - 1])
  }

  /** Every unresolved execution is still within its lease whenever anything happens. */
  ghost predicate PromptRun(cfg: Config, st: State, from: int, es: seq<Event>)
    requires Runs(cfg, st, from, es)
  {
    |es| == 0 ||
    var before := es[..|es| - 1];
    && PromptRun(cfg, st, from, before)
    && AllLive(cfg, After(cfg, st, from, before), es[|es| - 1].now)
  }

  lemma {:induction false} InvRun(cfg: Config, from: int, es: seq<Event>)
    requires cfg.lockTtl < HOUR && Runs(cfg, EMPTY, from, es) && CoveredRun(cfg, EMPTY, from, es)
    ensures Inv(cfg, After(cfg, EMPTY, from, es), LastTime(from, es))
  {
    if |es| > 0 {
      var before, e := es[..|es| - 1], es[|es| - 1];
      InvRun(cfg, from, before);
      InvLater(cfg, After(cfg, EMPTY, from, before), LastTime(from, before), e.now);
      InvStep(cfg, After(cfg, EMPTY, from, before), e);
    }
  }

  /** With crashes allowed and every reclaim covered, two live executions of one scope are the same one. */
  lemma {:induction false} AtMostOneLive(cfg: Config, from: int, es: seq<Event>, a: Id, b: Id)
    requires cfg.lockTtl < 3_600_000 && Runs(cfg, EMPTY, from, es) && CoveredRun(cfg, EMPTY, from, es)
    requires var st, now := After(cfg, EMPTY, from, es), LastTime(from, es);
             Live(cfg, st, a, now) && Live(cfg, st, b, now) && st.leases[a].scope == st.leases[b].scope
    ensures a == b
  {
    InvRun(cfg, from, es);
    assert LeaseShielded(cfg, After(cfg, EMPTY, from, es), LastTime(from, es), a);
    assert LeaseShielded(cfg, After(cfg, EMPTY, from, es), LastTime(from, es), b);
  }

  ghost predicate AllLive(cfg: Config, st: State, now: int) {
    forall id :: id in st.leases ==> Live(cfg, st, id, now)
  }

  /** While every lease is live no row is old enough to be reclaimed. */
  lemma {:induction false} PromptStep(cfg: Config, st: State, e: Event)
    requires Tidy(st) && (forall s :: RowOwned(st, s)) && AllLive(cfg, st, e.now) && Allowed(cfg, st, e)
    ensures Covered(cfg, st, e) && AllLive(cfg, Step(cfg, st, e).0, e.now)
  {
    if e.Next? {
      var s := st.attempts[e.id].scope;
      assert RowOwned(st, s);
    }
  }

  lemma {:induction false} PromptIsCovered(cfg: Config, from: int, es: seq<Event>)
    requires cfg.lockTtl < HOUR && Runs(cfg, EMPTY, from, es) && PromptRun(cfg, EMPTY, from, es)
    ensures CoveredRun(cfg, EMPTY, from, es) && AllLive(cfg, After(cfg, EMPTY, from, es), LastTime(from, es))
  {
    if |es| > 0 {
      var before := es[..|es| - 1];
      PromptIsCovered(cfg, from, before);
      InvRun(cfg, from, before);
      PromptStep(cfg, After(cfg, EMPTY, from, before), es[|es| - 1]);
    }
  }

  /** If every holder resolves within its lease, no scope ever has two unresolved executions. */
  lemma {:induction false} AtMostOneUnresolved(cfg: Config, from: int, es: seq<Event>, a: Id, b: Id)
    requires cfg.lockTtl < 3_600_000 && Runs(cfg, EMPTY, from, es) && PromptRun(cfg, EMPTY, from, es)
    requires var leases := After(cfg, EMPTY, from, es).leases;
             a in leases && b in leases && leases[a].scope == leases[b].scope
    ensures a == b
  {
    PromptIsCovered(cfg, from, es);
    AtMostOneLive(cfg, from, es, a, b);
  }

  // ---- Replay ----

  /** What the completion of a lease leaves in the table. */
  function DoneRow(cfg: Config, lease: Lease, e: Event): Row
    requires e.Complete?
  {
    Row(false, lease.fingerprint, if e.gzipLen <= cfg.maxBody then Some(e.response) else None,
        lease.acquired, e.now + 1000 * (cfg.entryTtl / 1000))
  }

  lemma {:induction false} CompleteLeaves(cfg: Config, st: State, e: Event)
    requires Inv(cfg, st, e.now) && e.Complete? && Allowed(cfg, st, e)
    ensures var lease, next := st.leases[e.id], Step(cfg, st, e).0;
            lease.scope in next.rows && next.rows[lease.scope] == DoneRow(cfg, lease, e)
  {
    assert LeaseShielded(cfg, st, e.now, e.id);
  }

  lemma {:induction false} DoneRowStep(cfg: Config, st: State, e: Event, s: Scope)
    requires Inv(cfg, st, e.now) && Allowed(cfg, st, e)
    requires s in st.rows && !st.rows[s].inFlight && e.now < st.rows[s].expiresAt
    ensures var next := Step(cfg, st, e).0; s in next.rows && next.rows[s] == st.rows[s]
  {
    if e.Complete? || e.Fail? {
      assert LeaseShielded(cfg, st, e.now, e.id);
    }
  }

  lemma {:induction false} DoneRowStays(cfg: Config, from: int, es: seq<Event>, n: nat)
    requires cfg.lockTtl < 3_600_000 && Runs(cfg, EMPTY, from, es) && CoveredRun(cfg, EMPTY, from, es)
    requires n < |es| && es[n].Complete?
    ensures Runs(cfg, EMPTY, from, es[..n]) && Live(cfg, After(cfg, EMPTY, from, es[..n]), es[n].id, es[n].now)
    ensures var lease, st := After(cfg, EMPTY, from, es[..n]).leases[es[n].id], After(cfg, EMPTY, from, es);
            var row := DoneRow(cfg, lease, es[n]);
            LastTime(from, es) >= row.expiresAt || (lease.scope in st.rows && st.rows[lease.scope] == row)
    decreases |es|
  {
    var before, e := es[..|es| - 1], es[|es| - 1];
    var st := After(cfg, EMPTY, from, before);
    InvRun(cfg, from, before);
    InvLater(cfg, st, LastTime(from, before), e.now);
    if n == |before| {
      CompleteLeaves(cfg, st, e);
    } else {
      assert before[..n] == es[..n];
      DoneRowStays(cfg, from, before, n);
      var lease := After(cfg, EMPTY, from, es[..n]).leases[es[n].id];
      if e.now < DoneRow(cfg, lease, es[n]).expiresAt {
        DoneRowStep(cfg, st, e, lease.scope);
      }
    }
  }

  /** From a completion until its expiry no `begin` on the scope is told to proceed, and one that reads
      the row is told to replay the stored response, or that the key was used for something else. */
  lemma {:induction false} NoSecondExecution(cfg: Config, from: int, es: seq<Event>, n: nat)
    requires cfg.lockTtl < 3_600_000 && Runs(cfg, EMPTY, from, es) && CoveredRun(cfg, EMPTY, from, es)
    requires n < |es| - 1 && es[n].Complete? && es[|es| - 1].Next?
    ensures Runs(cfg, EMPTY, from, es[..n]) && es[n].id in After(cfg, EMPTY, from, es[..n]).leases
    ensures Runs(cfg, EMPTY, from, es[..|es| - 1])
    ensures var lease, row := After(cfg, EMPTY, from, es[..n]).leases[es[n].id],
                              DoneRow(cfg, After(cfg, EMPTY, from, es[..n]).leases[es[n].id], es[n]);
            var st, e := After(cfg, EMPTY, from, es[..|es| - 1]), es[|es| - 1];
            && e.id in st.attempts
            && (e.now < row.expiresAt && st.attempts[e.id].scope == lease.scope ==>
                  var answer := Step(cfg, st, e).1;
                  && (answer.Some? ==> !answer.value.Proceed?)
                  && (st.attempts[e.id].place == AtSelect ==>
                        answer == Some(Finished(row, st.attempts[e.id].fingerprint))))
  {
    var before := es[..|es| - 1];
    assert before[..n] == es[..n];
    DoneRowStays(cfg, from, before, n);
  }

  // ---- When a reclaim is not covered ----

  ghost predicate TwoLive(cfg: Config, st: State, id: Id, now: int) {
    Live(cfg, st, id, now) && !Alone(cfg, st, id, now)
  }

  lemma {:induction false} RunsSnoc(cfg: Config, st: State, from: int, es: seq<Event>, e: Event)
    requires Runs(cfg, st, from, es) && LastTime(from, es) <= e.now && Allowed(cfg, After(cfg, st, from, es), e)
    ensures Runs(cfg, st, from, es + [e])
    ensures After(cfg, st, from, es + [e]) == Step(cfg, After(cfg, st, from, es), e).0
    ensures LastTime(from, es + [e]) == e.now
  {
    assert (es + [e])[..|es + [e]| - 1] == es;
  }

  function Waiting(st: State, id: Id, s: Scope, fp: Fingerprint, place: Place): State {
    st.(attempts := st.attempts[id := Attempt(s, fp, place)], used := st.used + {id})
  }

  /** The five steps, state by state. */
  lemma {:induction false} TakeOverSteps(cfg: Config, st: State, t: int, s: Scope, fp: Fingerprint, newcomer: Id)
    requires Expired(st.rows, s, t)
    ensures var at := place => Waiting(st, newcomer, s, fp, place);
            var gone := at(AtInsert).(rows := st.rows - {s});
            && Step(cfg, st, Arrive(newcomer, s, fp, t)).0 == at(AtInsert)
            && Step(cfg, at(AtInsert), Next(newcomer, t)).0 == at(AtSelect)
            && Step(cfg, at(AtSelect), Next(newcomer, t)).0 == at(AtDelete)
            && Step(cfg, at(AtDelete), Next(newcomer, t)).0 == gone
            && Step(cfg, gone, Next(newcomer, t)).0 == Acquire(gone, newcomer, gone.rows[s := FreshRow(fp, t)], t)
  {
  }

  /** `RunsSnoc` between named states. */
  lemma {:induction false} Extend(cfg: Config, st: State, from: int, es: seq<Event>, mid: State, e: Event, next: State)
    returns (all: seq<Event>)
    requires Runs(cfg, st, from, es) && After(cfg, st, from, es) == mid && LastTime(from, es) <= e.now
    requires Allowed(cfg, mid, e) && Step(cfg, mid, e).0 == next
    ensures all == es + [e]
    ensures Runs(cfg, st, from, all) && After(cfg, st, from, all) == next && LastTime(from, all) == e.now
  {
    all := es + [e];
    RunsSnoc(cfg, st, from, es, e);
  }

  lemma {:induction false} TakeOverRuns(cfg: Config, st: State, from: int, es: seq<Event>, t: int, id: Id, newcomer: Id)
    returns (all: seq<Event>)
    requires Runs(cfg, st, from, es) && LastTime(from, es) <= t
    requires var mid := After(cfg, st, from, es);
             && Live(cfg, mid, id, t) && Holding(mid, id) && Expired(mid.rows, mid.leases[id].scope, t)
             && newcomer !in mid.used && id in mid.used
    ensures Runs(cfg, st, from, all) && LastTime(from, all) == t && TwoLive(cfg, After(cfg, st, from, all), id, t)
  {
    var mid := After(cfg, st, from, es);
    var Lease(s, fp, _) := mid.leases[id];
    TakeOverSteps(cfg, mid, t, s, fp, newcomer);
    var w1, w2 := Waiting(mid, newcomer, s, fp, AtInsert), Waiting(mid, newcomer, s, fp, AtSelect);
    var w3 := Waiting(mid, newcomer, s, fp, AtDelete);
    var w4 := w1.(rows := mid.rows - {s});
    var last := Acquire(w4, newcomer, w4.rows[s := FreshRow(fp, t)], t);
    all := Extend(cfg, st, from, es, mid, Arrive(newcomer, s, fp, t), w1);
    all := Extend(cfg, st, from, all, w1, Next(newcomer, t), w2);
    all := Extend(cfg, st, from, all, w2, Next(newcomer, t), w3);
    all := Extend(cfg, st, from, all, w3, Next(newcomer, t), w4);
    all := Extend(cfg, st, from, all, w4, Next(newcomer, t), last);
    assert Live(cfg, last, newcomer, t) && Live(cfg, last, id, t);
  }

  /** The lease `id` is over, or still shielded. */
  ghost predicate ShieldedWhileLive(cfg: Config, st: State, id: Id, now: int) {
    && Tidy(st) && id in st.used && id !in st.attempts
    && (Live(cfg, st, id, now) ==> Shielded(cfg, st, id, now))
  }

  lemma {:induction false} TidyStep(cfg: Config, st: State, e: Event)
    requires Tidy(st) && Allowed(cfg, st, e)
    ensures var next := Step(cfg, st, e).0;
            && Tidy(next) && st.used <= next.used
            && next.leases.Keys + next.attempts.Keys <= st.leases.Keys + st.attempts.Keys + (next.used - st.used)
            && forall id :: id in st.leases && id in next.leases ==> next.leases[id] == st.leases[id]
  {
  }

  lemma {:induction false} ShieldedWhileLiveStep(cfg: Config, st: State, id: Id, now: int, e: Event)
    requires ShieldedWhileLive(cfg, st, id, now) && now <= e.now && Allowed(cfg, st, e)
    ensures ShieldedWhileLive(cfg, Step(cfg, st, e).0, id, e.now)
  {
    TidyStep(cfg, st, e);
    var next := Step(cfg, st, e).0;
    assert id !in next.attempts && (id in next.leases ==> id in st.leases);
    if Live(cfg, next, id, e.now) {
      assert Live(cfg, st, id, now);
      ShieldStep(cfg, st, id, now, e);
    }
  }

  lemma {:induction false} ShieldRun(cfg: Config, st: State, now: int, id: Id, es: seq<Event>)
    requires ShieldedWhileLive(cfg, st, id, now) && Runs(cfg, st, now, es)
    ensures ShieldedWhileLive(cfg, After(cfg, st, now, es), id, LastTime(now, es))
  {
    if |es| > 0 {
      var before, e := es[..|es| - 1], es[|es| - 1];
      ShieldRun(cfg, st, now, id, before);
      ShieldedWhileLiveStep(cfg, After(cfg, st, now, before), id, LastTime(now, before), e);
    }
  }

  /** For a live holder that is alone, some continuation leads to a second live holder of its scope
      exactly when the row it holds expires before its lease does. */
  lemma {:induction false} DoubledIffUncovered(cfg: Config, st: State, now: int, id: Id, newcomer: Id)
    requires Tidy(st) && Live(cfg, st, id, now) && Holding(st, id) && Alone(cfg, st, id, now) && newcomer !in st.used
    ensures (exists es :: Runs(cfg, st, now, es) && TwoLive(cfg, After(cfg, st, now, es), id, LastTime(now, es)))
       <==> st.rows[st.leases[id].scope].expiresAt <= st.leases[id].acquired + cfg.lockTtl
  {
    var expiry := st.rows[st.leases[id].scope].expiresAt;
    if expiry <= st.leases[id].acquired + cfg.lockTtl {
      var t := Max(now, expiry);
      var es := TakeOverRuns(cfg, st, now, [], t, id, newcomer);
      assert Runs(cfg, st, now, es) && TwoLive(cfg, After(cfg, st, now, es), id, LastTime(now, es));
    } else {
      forall es | Runs(cfg, st, now, es)
        ensures !TwoLive(cfg, After(cfg, st, now, es), id, LastTime(now, es))
      {
        ShieldRun(cfg, st, now, id, es);
      }
    }
  }

  /** The table while a first holder, acquired at 0, has crashed. */
  function Crashed(s: Scope, fp: Fingerprint): State {
    State(map[s := FreshRow(fp, 0)], map[], map[0 := Lease(s, fp, 0)], map[s := 0], {0})
  }

  /** The same after a second call took the row over as it expired. */
  function TakenOver(s: Scope, fp: Fingerprint): State {
    Acquire(Waiting(Crashed(s, fp), 1, s, fp, AtReclaim), 1, map[s := Row(true, fp, None, HOUR, HOUR)], HOUR)
  }

  lemma {:induction false} CrashSteps(cfg: Config, s: Scope, fp: Fingerprint)
    ensures Step(cfg, EMPTY, Arrive(0, s, fp, 0)).0 == Waiting(EMPTY, 0, s, fp, AtInsert)
    ensures Step(cfg, Waiting(EMPTY, 0, s, fp, AtInsert), Next(0, 0)).0 == Crashed(s, fp)
  {
  }

  /** The row is still visible to the SELECT, and has just expired when the UPDATE follows. */
  lemma {:induction false} ReclaimSteps(cfg: Config, s: Scope, fp: Fingerprint)
    requires cfg.lockTtl < HOUR
    ensures var at := place => Waiting(Crashed(s, fp), 1, s, fp, place);
            && Step(cfg, Crashed(s, fp), Arrive(1, s, fp, HOUR - 1)).0 == at(AtInsert)
            && Step(cfg, at(AtInsert), Next(1, HOUR - 1)).0 == at(AtSelect)
            && Step(cfg, at(AtSelect), Next(1, HOUR - 1)).0 == at(AtReclaim)
            && Step(cfg, at(AtReclaim), Next(1, HOUR)).0 == TakenOver(s, fp)
  {
  }

  lemma {:induction false} CrashRun(cfg: Config, s: Scope, fp: Fingerprint) returns (es: seq<Event>)
    ensures Runs(cfg, EMPTY, 0, es) && LastTime(0, es) == 0 && After(cfg, EMPTY, 0, es) == Crashed(s, fp)
  {
    CrashSteps(cfg, s, fp);
    es := Extend(cfg, EMPTY, 0, [], EMPTY, Arrive(0, s, fp, 0), Waiting(EMPTY, 0, s, fp, AtInsert));
    es := Extend(cfg, EMPTY, 0, es, Waiting(EMPTY, 0, s, fp, AtInsert), Next(0, 0), Crashed(s, fp));
  }

  lemma {:induction false} ReclaimRun(cfg: Config, s: Scope, fp: Fingerprint) returns (es: seq<Event>)
    requires cfg.lockTtl < HOUR
    ensures Runs(cfg, EMPTY, 0, es) && LastTime(0, es) == HOUR && After(cfg, EMPTY, 0, es) == TakenOver(s, fp)
  {
    ReclaimSteps(cfg, s, fp);
    var held := Crashed(s, fp);
    var w1, w2 := Waiting(held, 1, s, fp, AtInsert), Waiting(held, 1, s, fp, AtSelect);
    var w3 := Waiting(held, 1, s, fp, AtReclaim);
    es := CrashRun(cfg, s, fp);
    es := Extend(cfg, EMPTY, 0, es, held, Arrive(1, s, fp, HOUR - 1), w1);
    es := Extend(cfg, EMPTY, 0, es, w1, Next(1, HOUR - 1), w2);
    es := Extend(cfg, EMPTY, 0, es, w2, Next(1, HOUR - 1), w3);
    es := Extend(cfg, EMPTY, 0, es, w3, Next(1, HOUR), TakenOver(s, fp));
  }

  /** Whatever the lease, such a state is reached from the empty table. With a lease shorter than the hour, a
      holder crashes, its row is reclaimed at the end of the row's hour, and a third call then deletes and
      re-inserts the row; with a longer one the second call already does. */
  lemma {:induction false} CrashThenTwoLive(cfg: Config, s: Scope, fp: Fingerprint)
    ensures exists es, id :: Runs(cfg, EMPTY, 0, es) && TwoLive(cfg, After(cfg, EMPTY, 0, es), id, LastTime(0, es))
  {
    if cfg.lockTtl < HOUR {
      var es := ReclaimRun(cfg, s, fp);
      es := TakeOverRuns(cfg, EMPTY, 0, es, HOUR, 1, 2);
      assert TwoLive(cfg, After(cfg, EMPTY, 0, es), 1, LastTime(0, es));
    } else {
      var es := CrashRun(cfg, s, fp);
      es := TakeOverRuns(cfg, EMPTY, 0, es, HOUR, 0, 1);
      assert TwoLive(cfg, After(cfg, EMPTY, 0, es), 0, LastTime(0, es));
    }
  }
}
