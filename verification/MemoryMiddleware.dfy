/** The runs of the middleware over the in-memory backend, which the service is given in its own tests:
    arriving requests and finishing handlers interleave freely. */
module MemoryMiddleware {
  import opened Prelude
  import opened Idempotency
  import opened Outcomes
  import Memory = MemoryBackend

  datatype Event =
    | Arrive(id: Id, scope: Scope, fingerprint: Fingerprint, token: Token, now: int)
    | Finish(id: Id, result: Result, now: int)

  /** `open` are the guards of the handlers that are still running; `ids` and `tokens` are those seen so far. */
  datatype State = State(entries: Memory.Entries, open: map<Id, Guard>, ids: set<Id>, tokens: set<Token>)

  function ArriveStep(cfg: Config, st: State, e: Event): (State, Reaction)
    requires e.Arrive? && Memory.Sound(st.entries)
  {
    var (entries, d) := Memory.BeginStep(st.entries, cfg, e.scope, e.fingerprint, e.token, e.now);
    (State(entries, Opened(st.open, e.id, e.scope, e.fingerprint, d), st.ids + {e.id}, st.tokens + {e.token}), React(d))
  }

  /** The guard is consumed, whatever the outcome. */
  function FinishStep(cfg: Config, st: State, e: Event): State
    requires e.Finish? && e.id in st.open
  {
    var g := st.open[e.id];
    var entries := if Stores(e.result) then Memory.CompleteStep(st.entries, cfg, g, e.result.response, e.now)
                   else Memory.FailStep(st.entries, g);
    st.(entries := entries, open := st.open - {e.id})
  }

  // ---- Runs ----

  /** Requests and tokens are new, and only running handlers finish. */
  ghost predicate Allowed(st: State, e: Event) {
    match e
    case Arrive(id, _, _, token, _) => id !in st.ids && token !in st.tokens
    case Finish(id, _, _) => id in st.open
  }

  ghost predicate Inv(st: State) {
    && Memory.Sound(st.entries) && st.open.Keys <= st.ids
    && (forall id :: id in st.open ==> st.open[id].token in st.tokens)
    && (forall a, b :: a in st.open && b in st.open && st.open[a].token == st.open[b].token ==> a == b)
    && (forall s :: s in st.entries ==> st.entries[s].token in st.tokens)
    && (forall id :: id in st.open && st.open[id].scope in st.entries
                     && st.entries[st.open[id].scope].token == st.open[id].token ==>
                       st.entries[st.open[id].scope].fingerprint == st.open[id].fingerprint)
  }

  function Step(cfg: Config, st: State, e: Event): State
    requires Memory.Sound(st.entries) && (e.Finish? ==> e.id in st.open)
  {
    if e.Arrive? then ArriveStep(cfg, st, e).0 else FinishStep(cfg, st, e)
  }

  lemma {:induction false} InvStep(cfg: Config, st: State, e: Event)
    requires Inv(st) && Allowed(st, e)
    ensures Inv(Step(cfg, st, e))
  {
  }

  /** A run that starts with nothing stored, with the state before each event and after the last. */
  datatype Trace = Trace(states: seq<State>, events: seq<Event>) {
    ghost predicate Valid(cfg: Config) {
      && |states| == |events| + 1 && states[0] == State(map[], map[], {}, {})
      && (forall i, j :: 0 <= i <= j < |events| ==> events[i].now <= events[j].now)
      && (forall k :: 0 <= k < |events| ==> Follows(cfg, k))
    }

    ghost predicate Follows(cfg: Config, k: nat)
      requires k < |events| < |states|
    {
      && Memory.Sound(states[k].entries) && Allowed(states[k], events[k])
      && states[k + 1] == Step(cfg, states[k], events[k])
    }

    /** Request number `i` runs its handler. */
    ghost predicate Starts(cfg: Config, i: nat)
      requires Valid(cfg) && i < |events| && events[i].Arrive?
    {
      assert Follows(cfg, i);
      ArriveStep(cfg, states[i], events[i]).1 == RunHandler
    }
  }

  /** The run in which nothing has happened, and any run with one more event that may happen next. */
  lemma {:induction false} Extends(cfg: Config, tr: Trace, e: Event)
    requires tr.Valid(cfg) && Allowed(tr.states[|tr.events|], e) && Memory.Sound(tr.states[|tr.events|].entries)
    requires |tr.events| > 0 ==> tr.events[|tr.events| - 1].now <= e.now
    ensures Trace([State(map[], map[], {}, {})], []).Valid(cfg)
    ensures Trace(tr.states + [Step(cfg, tr.states[|tr.events|], e)], tr.events + [e]).Valid(cfg)
  {
    var all := Trace(tr.states + [Step(cfg, tr.states[|tr.events|], e)], tr.events + [e]);
    forall k | 0 <= k < |all.events|
      ensures all.Follows(cfg, k)
    {
      if k < |tr.events| {
        assert tr.Follows(cfg, k);
        assert all.states[k] == tr.states[k] && all.states[k + 1] == tr.states[k + 1] && all.events[k] == tr.events[k];
      }
    }
  }

  lemma {:induction false} InvAt(cfg: Config, tr: Trace, k: nat)
    requires tr.Valid(cfg) && k <= |tr.events|
    ensures Inv(tr.states[k])
  {
    if k > 0 {
      InvAt(cfg, tr, k - 1);
      assert tr.Follows(cfg, k - 1);
      InvStep(cfg, tr.states[k - 1], tr.events[k - 1]);
    }
  }

  // ---- What the backend sees ----

  function CallOf(st: State, e: Event): (c: Call)
    requires e.Finish? ==> e.id in st.open
    ensures c.now == e.now
  {
    match e
    case Arrive(_, s, fp, token, now) => Begin(s, fp, token, now)
    case Finish(id, result, now) =>
      if Stores(result) then Complete(st.open[id], result.response, 0, now) else Fail(st.open[id], now)
  }

  /** The calls are the events as the backend sees them. */
  ghost predicate Seen(cfg: Config, tr: Trace, calls: seq<Call>)
    requires tr.Valid(cfg)
  {
    |calls| == |tr.events| && forall k :: 0 <= k < |calls| ==> SeenAt(cfg, tr, calls, k)
  }

  ghost predicate SeenAt(cfg: Config, tr: Trace, calls: seq<Call>, k: nat)
    requires tr.Valid(cfg) && k < |calls| == |tr.events|
  {
    assert tr.Follows(cfg, k);
    calls[k] == CallOf(tr.states[k], tr.events[k])
  }

  lemma {:induction false} Calls(cfg: Config, tr: Trace) returns (calls: seq<Call>)
    requires tr.Valid(cfg)
    ensures Seen(cfg, tr, calls) && Chronological(calls)
  {
    forall k | 0 <= k < |tr.events|
      ensures tr.events[k].Finish? ==> tr.events[k].id in tr.states[k].open
    {
      assert tr.Follows(cfg, k);
    }
    calls := seq(|tr.events|, k requires 0 <= k < |tr.events| => CallOf(tr.states[k], tr.events[k]));
    assert forall k :: 0 <= k < |calls| ==> calls[k].now == tr.events[k].now;
  }

  /** The backend's entries are those of its own run on the calls it sees. */
  lemma {:induction false} SameEntries(cfg: Config, tr: Trace, calls: seq<Call>, k: nat)
    requires tr.Valid(cfg) && Seen(cfg, tr, calls) && k <= |calls|
    ensures tr.states[k].entries == Memory.Before(cfg, calls, k)
  {
    if k > 0 {
      SameEntries(cfg, tr, calls, k - 1);
      assert tr.Follows(cfg, k - 1) && SeenAt(cfg, tr, calls, k - 1);
    }
  }

  /** As long as its handler runs, a request keeps its guard. */
  lemma {:induction false} GuardKept(cfg: Config, tr: Trace, i: nat, k: nat)
    requires tr.Valid(cfg) && i < k <= |tr.events| && tr.events[i].Arrive? && tr.Starts(cfg, i)
    requires forall m :: i < m < k ==> !(tr.events[m].Finish? && tr.events[m].id == tr.events[i].id)
    ensures var id := tr.events[i].id; id in tr.states[k].open && tr.states[k].open[id].token == tr.events[i].token
  {
    assert tr.Follows(cfg, k - 1);
    if k > i + 1 {
      GuardKept(cfg, tr, i, k - 1);
      InvAt(cfg, tr, k - 1);
    }
  }

  /** A guard once consumed is gone for good: nobody holds its token again. */
  lemma {:induction false} TokenRetired(cfg: Config, tr: Trace, i: nat, k: nat, token: Token)
    requires tr.Valid(cfg) && i < k <= |tr.events| && tr.events[i].Finish?
    requires tr.events[i].id in tr.states[i].open && token == tr.states[i].open[tr.events[i].id].token
    ensures token in tr.states[k].tokens
    ensures forall id :: id in tr.states[k].open ==> tr.states[k].open[id].token != token
  {
    assert tr.Follows(cfg, k - 1);
    InvAt(cfg, tr, k - 1);
    if k > i + 1 {
      TokenRetired(cfg, tr, i, k - 1, token);
    }
  }

  // ---- What clients can rely on ----

  /** Two handlers for one scope start at least `lockTtl` apart unless the first finished in between. */
  lemma {:induction false} HandlersApart(cfg: Config, tr: Trace, i: nat, j: nat)
    requires tr.Valid(cfg) && i < j < |tr.events|
    requires tr.events[i].Arrive? && tr.events[j].Arrive? && tr.events[i].scope == tr.events[j].scope
    requires tr.Starts(cfg, i) && tr.Starts(cfg, j)
    requires forall k :: i < k < j ==> !(tr.events[k].Finish? && tr.events[k].id == tr.events[i].id)
    ensures tr.events[j].now - tr.events[i].now >= cfg.lockTtl
  {
    var calls := Calls(cfg, tr);
    var s := tr.events[i].scope;
    assert SeenAt(cfg, tr, calls, i) && SeenAt(cfg, tr, calls, j);
    SameEntries(cfg, tr, calls, i);
    SameEntries(cfg, tr, calls, j);
    forall k | i < k < j
      ensures !calls[k].Resolves(s, calls[i].token)
    {
      assert SeenAt(cfg, tr, calls, k) && tr.Follows(cfg, k);
      GuardKept(cfg, tr, i, k);
      InvAt(cfg, tr, k);
    }
    Memory.LeaseSpacing(cfg, calls, i, j, s);
  }

  /** Event `i` is the end of a handler whose execution is still the current one of its scope. */
  ghost predicate EndsCurrent(tr: Trace, i: nat, g: Guard)
    requires i < |tr.events| && i < |tr.states|
  {
    && tr.events[i].Finish? && tr.events[i].id in tr.states[i].open && g == tr.states[i].open[tr.events[i].id]
    && g.scope in tr.states[i].entries && tr.states[i].entries[g.scope].token == g.token
  }

  /** A stored response is replayed to every later request with the same fingerprint until it expires,
      and a request with another fingerprint is refused. */
  lemma {:induction false} StoredResponseIsReplayed(cfg: Config, tr: Trace, i: nat, n: nat, g: Guard)
    requires tr.Valid(cfg) && i < n < |tr.events|
    requires EndsCurrent(tr, i, g) && tr.events[i].result.Answered? && tr.events[i].result.response.status < 500
    requires tr.events[n].Arrive? && tr.events[n].scope == g.scope && tr.events[n].now < tr.events[i].now + cfg.entryTtl
    ensures Memory.Sound(tr.states[n].entries)
    ensures ArriveStep(cfg, tr.states[n], tr.events[n]).1
         == if tr.events[n].fingerprint == g.fingerprint then Replayed(tr.events[i].result.response) else KeyReused
  {
    var calls := Calls(cfg, tr);
    assert SeenAt(cfg, tr, calls, i) && SeenAt(cfg, tr, calls, n) && tr.Follows(cfg, n);
    SameEntries(cfg, tr, calls, i);
    SameEntries(cfg, tr, calls, n);
    InvAt(cfg, tr, i);
    forall k | i < k < n
      ensures !calls[k].Resolves(g.scope, g.token)
    {
      assert SeenAt(cfg, tr, calls, k) && tr.Follows(cfg, k);
      TokenRetired(cfg, tr, i, k, g.token);
    }
    Memory.ReplayUntilExpiry(cfg, calls, i, n, g.scope);
  }

  /** A server error by the current holder frees the key: the next request for it runs its handler. */
  lemma {:induction false} FailureFreesKey(cfg: Config, tr: Trace, i: nat, n: nat, g: Guard)
    requires tr.Valid(cfg) && i < n <= |tr.events| && EndsCurrent(tr, i, g)
    requires tr.events[i].result.BodyError? || tr.events[i].result.response.status >= 500
    requires forall k :: i < k < n ==> !(tr.events[k].Arrive? && tr.events[k].scope == g.scope)
    ensures g.scope !in tr.states[n].entries
    ensures n < |tr.events| && tr.events[n].Arrive? && tr.events[n].scope == g.scope ==> tr.Starts(cfg, n)
  {
    assert tr.Follows(cfg, n - 1);
    if n > i + 1 {
      FailureFreesKey(cfg, tr, i, n - 1, g);
    }
  }
}
