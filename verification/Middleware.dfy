/** What the middleware makes of the service's answers and of the handlers' responses. */
module Outcomes {
  import opened Idempotency

  type Id = nat

  /** What became of a handler: its response could not be read, or it answered. */
  datatype Result = BodyError | Answered(response: Response)

  /** What an arriving request is told. */
  datatype Reaction =
    | RunHandler
    | Replayed(response: Response)
    | KeyReused
    | KeyLocked(retryAfterSecs: nat)
    | Unguarded

  function React(d: Decision): Reaction {
    match d
    case Proceed(_) => RunHandler
    case Replay(r) => Replayed(r)
    case Mismatch => KeyReused
    case Conflict(secs) => KeyLocked(secs)
    case Error => Unguarded
  }

  /** A genuinely completed outcome is stored; a server error or an unreadable one frees the key. */
  predicate Stores(r: Result) { r.Answered? && r.response.status < 500 }

  /** The guard of a request that is told to proceed. */
  function Opened(open: map<Id, Guard>, id: Id, s: Scope, fp: Fingerprint, d: Decision): map<Id, Guard> {
    if d.Proceed? then open[id := Guard(s, fp, d.token)] else open
  }
}

/** The Idempotency-Key middleware in front of the handlers, over the service. Arriving requests and finishing
    handlers interleave freely, and Redis may answer any of their calls and fail any others. */
module Middleware {
  import opened Prelude
  import opened Idempotency
  import opened Outcomes
  import Redis = RedisBackend
  import Service = IdempotencyService
  import ServiceRuns

  datatype Event =
    | Arrive(id: Id, scope: Scope, fingerprint: Fingerprint, token: Token, now: int, up: bool)
    | Finish(id: Id, result: Result, gzipLen: nat, now: int, up: bool)

  /** `open` are the guards of the handlers that are still running; `ids` and `tokens` are those seen so far. */
  datatype State = State(stores: Service.Stores, open: map<Id, Guard>, ids: set<Id>, tokens: set<Token>)

  function ArriveStep(cfg: Config, st: State, e: Event): (State, Reaction)
    requires e.Arrive?
  {
    var (stores, d) := Service.BeginStep(st.stores, cfg, e.scope, e.fingerprint, e.token, e.now, e.up);
    (State(stores, Opened(st.open, e.id, e.scope, e.fingerprint, d), st.ids + {e.id}, st.tokens + {e.token}), React(d))
  }

  /** The guard is consumed, whatever the outcome. */
  function FinishStep(cfg: Config, st: State, e: Event): State
    requires e.Finish? && e.id in st.open
  {
    var g := st.open[e.id];
    var stores :=
      if Stores(e.result) then Service.CompleteStep(st.stores, cfg, g, e.result.response, e.gzipLen, e.now, e.up)
      else Service.FailStep(st.stores, g, e.now, e.up);
    st.(stores := stores, open := st.open - {e.id})
  }

  class Middleware {
    const service: Service.IdempotencyService
    var open: map<Id, Guard>

    constructor (service: Service.IdempotencyService)
      ensures this.service == service && open == map[]
    {
      this.service := service;
      open := map[];
    }

    /** `up` tells whether Redis answers. */
    method Arrive(cfg: Config, id: Id, scope: Scope, fp: Fingerprint, token: Token, now: int, up: bool)
      returns (r: Reaction)
      modifies this, service.redis, service.pg
      ensures var st := State(old(service.Contents()), old(open), {}, {});
              var (next, reaction) := ArriveStep(cfg, st, Event.Arrive(id, scope, fp, token, now, up));
              service.Contents() == next.stores && open == next.open && r == reaction
    {
      var d := service.Begin(cfg, scope, fp, token, now, up);
      match d
      case Proceed(drawn) =>
        open := open[id := Guard(scope, fp, drawn)];
        r := RunHandler;
      case Replay(response) => r := Replayed(response);
      case Mismatch => r := KeyReused;
      case Conflict(secs) => r := KeyLocked(secs);
      case Error => r := Unguarded;
    }

    method Finish(cfg: Config, id: Id, result: Result, gzipLen: nat, now: int, up: bool)
      requires id in open
      modifies this, service.redis, service.pg
      ensures var st := State(old(service.Contents()), old(open), {}, {});
              var next := FinishStep(cfg, st, Event.Finish(id, result, gzipLen, now, up));
              service.Contents() == next.stores && open == next.open
    {
      var guard := open[id];
      open := open - {id};
      match result
      case BodyError => service.Fail(guard, now, up);
      case Answered(response) =>
        if response.status < 500 {
          service.Complete(cfg, guard, response, gzipLen, now, up);
        } else {
          service.Fail(guard, now, up);
        }
    }
  }

  // ---- Runs ----

  /** Requests and tokens are new, and only running handlers finish. */
  ghost predicate Allowed(st: State, e: Event) {
    match e
    case Arrive(id, _, _, token, _, _) => id !in st.ids && token !in st.tokens
    case Finish(id, _, _, _, _) => id in st.open
  }

  ghost predicate Inv(st: State) {
    && st.open.Keys <= st.ids
    && (forall id :: id in st.open ==> st.open[id].token in st.tokens)
    && (forall a, b :: a in st.open && b in st.open && st.open[a].token == st.open[b].token ==> a == b)
  }

  function Step(cfg: Config, st: State, e: Event): State
    requires e.Finish? ==> e.id in st.open
  {
    if e.Arrive? then ArriveStep(cfg, st, e).0 else FinishStep(cfg, st, e)
  }

  lemma {:induction false} InvStep(cfg: Config, st: State, e: Event)
    requires Inv(st) && Allowed(st, e)
    ensures Inv(Step(cfg, st, e))
  {
  }

  /** A run that starts with nothing stored, with the state before each event and after the last. */
  datatype Trace = Trace(states: seq<State>, events: seq<Event>) {
    ghost predicate Valid(cfg: Config) {
      && |states| == |events| + 1 && states[0] == State(Service.EMPTY, map[], {}, {})
      && (forall i, j :: 0 <= i <= j < |events| ==> events[i].now <= events[j].now)
      && (forall k :: 0 <= k < |events| ==> Follows(cfg, k))
    }

    ghost predicate Follows(cfg: Config, k: nat)
      requires k < |events| < |states|
    {
      Allowed(states[k], events[k]) && states[k + 1] == Step(cfg, states[k], events[k])
    }

    /** Request number `i` runs its handler under a guard that Redis gave out. */
    ghost predicate StartsOnRedis(cfg: Config, i: nat)
      requires i < |events| && i < |states| && events[i].Arrive?
    {
      events[i].up && ArriveStep(cfg, states[i], events[i]).1 == RunHandler
    }
  }

  /** The run in which nothing has happened, and any run with one more event that may happen next. */
  lemma {:induction false} Extends(cfg: Config, tr: Trace, e: Event)
    requires tr.Valid(cfg) && Allowed(tr.states[|tr.events|], e)
    requires |tr.events| > 0 ==> tr.events[|tr.events| - 1].now <= e.now
    ensures Trace([State(Service.EMPTY, map[], {}, {})], []).Valid(cfg)
    ensures Trace(tr.states + [Step(cfg, tr.states[|tr.events|], e)], tr.events + [e]).Valid(cfg)
  {
    var all := Trace(tr.states + [Step(cfg, tr.states[|tr.events|], e)], tr.events + [e]);
    forall k | 0 <= k < |all.events|
      ensures all.Follows(cfg, k)
    {
      if k < |tr.events| {
        assert tr.Follows(cfg, k);
        assert all.states[k] == tr.states[k] && all.states[k + 1] == tr.states[k + 1] && all.events[k] == tr.events[k];
      }
    }
  }

  lemma {:induction false} InvAt(cfg: Config, tr: Trace, k: nat)
    requires tr.Valid(cfg) && k <= |tr.events|
    ensures Inv(tr.states[k])
  {
    if k > 0 {
      InvAt(cfg, tr, k - 1);
      assert tr.Follows(cfg, k - 1);
      InvStep(cfg, tr.states[k - 1], tr.events[k - 1]);
    }
  }

  // ---- What the service sees ----

  function CallOf(st: State, e: Event): (c: Call)
    requires e.Finish? ==> e.id in st.open
    ensures c.now == e.now
  {
    match e
    case Arrive(_, s, fp, token, now, _) => Begin(s, fp, token, now)
    case Finish(id, result, gzipLen, now, _) =>
      if Stores(result) then Complete(st.open[id], result.response, gzipLen, now) else Fail(st.open[id], now)
  }

  /** The calls are the events as the service sees them, and `up` tells which of them Redis answers. */
  ghost predicate Seen(cfg: Config, tr: Trace, calls: seq<Call>, up: seq<bool>)
    requires tr.Valid(cfg)
  {
    |calls| == |up| == |tr.events| && forall k :: 0 <= k < |calls| ==> SeenAt(cfg, tr, calls, up, k)
  }

  ghost predicate SeenAt(cfg: Config, tr: Trace, calls: seq<Call>, up: seq<bool>, k: nat)
    requires tr.Valid(cfg) && k < |calls| == |up| == |tr.events|
  {
    assert tr.Follows(cfg, k);
    calls[k] == CallOf(tr.states[k], tr.events[k]) && up[k] == tr.events[k].up
  }

  lemma {:induction false} Calls(cfg: Config, tr: Trace) returns (calls: seq<Call>, up: seq<bool>)
    requires tr.Valid(cfg)
    ensures Seen(cfg, tr, calls, up) && Chronological(calls)
  {
    forall k | 0 <= k < |tr.events|
      ensures tr.events[k].Finish? ==> tr.events[k].id in tr.states[k].open
    {
      assert tr.Follows(cfg, k);
    }
    calls := seq(|tr.events|, k requires 0 <= k < |tr.events| => CallOf(tr.states[k], tr.events[k]));
    up := seq(|tr.events|, k requires 0 <= k < |tr.events| => tr.events[k].up);
    assert forall k :: 0 <= k < |calls| ==> calls[k].now == tr.events[k].now;
  }

  /** The stores are those of the service's own run on the calls it sees. */
  lemma {:induction false} SameStores(cfg: Config, tr: Trace, calls: seq<Call>, up: seq<bool>, k: nat)
    requires tr.Valid(cfg) && Seen(cfg, tr, calls, up) && k <= |calls|
    ensures tr.states[k].stores == Service.Before(cfg, calls, up, k)
  {
    if k > 0 {
      SameStores(cfg, tr, calls, up, k - 1);
      assert tr.Follows(cfg, k - 1) && SeenAt(cfg, tr, calls, up, k - 1);
    }
  }

  /** As long as its handler runs, a request keeps its guard. */
  lemma {:induction false} GuardKept(cfg: Config, tr: Trace, i: nat, k: nat)
    requires tr.Valid(cfg) && i < k <= |tr.events| && tr.events[i].Arrive?
    requires ArriveStep(cfg, tr.states[i], tr.events[i]).1 == RunHandler
    requires forall m :: i < m < k ==> !(tr.events[m].Finish? && tr.events[m].id == tr.events[i].id)
    ensures var id := tr.events[i].id; id in tr.states[k].open && tr.states[k].open[id].token == tr.events[i].token
  {
    assert tr.Follows(cfg, k - 1);
    if k > i + 1 {
      GuardKept(cfg, tr, i, k - 1);
      InvAt(cfg, tr, k - 1);
    }
  }

  /** A guard once consumed is gone for good: nobody holds its token again. */
  lemma {:induction false} TokenRetired(cfg: Config, tr: Trace, i: nat, k: nat, token: Token)
    requires tr.Valid(cfg) && i < k <= |tr.events| && tr.events[i].Finish?
    requires tr.events[i].id in tr.states[i].open && token == tr.states[i].open[tr.events[i].id].token
    ensures token in tr.states[k].tokens
    ensures forall id :: id in tr.states[k].open ==> tr.states[k].open[id].token != token
  {
    assert tr.Follows(cfg, k - 1);
    InvAt(cfg, tr, k - 1);
    if k > i + 1 {
      TokenRetired(cfg, tr, i, k - 1, token);
    }
  }

  // ---- What clients can rely on ----

  /** Until its handler finishes, a request's guard is not resolved. */
  lemma {:induction false} Unresolved(cfg: Config, tr: Trace, calls: seq<Call>, up: seq<bool>, i: nat, n: nat)
    requires tr.Valid(cfg) && Seen(cfg, tr, calls, up) && i < n <= |tr.events| && tr.events[i].Arrive?
    requires ArriveStep(cfg, tr.states[i], tr.events[i]).1 == RunHandler
    requires forall k :: i < k < n ==> !(tr.events[k].Finish? && tr.events[k].id == tr.events[i].id)
    ensures calls[i].Begin? && calls[i].token == tr.events[i].token
    ensures forall k :: i < k < n ==> !calls[k].Resolves(tr.events[i].scope, tr.events[i].token)
  {
    assert SeenAt(cfg, tr, calls, up, i);
    forall k | i < k < n
      ensures !calls[k].Resolves(tr.events[i].scope, tr.events[i].token)
    {
      assert SeenAt(cfg, tr, calls, up, k) && tr.Follows(cfg, k);
      GuardKept(cfg, tr, i, k);
      InvAt(cfg, tr, k);
    }
  }

  /** Whatever the outages, two handlers for one scope whose guards Redis gave out start at least `lockTtl`
      apart unless the first finished in between. */
  lemma {:induction false} HandlersApart(cfg: Config, tr: Trace, i: nat, j: nat)
    requires tr.Valid(cfg) && cfg.lockTtl > 0 && i < j < |tr.events|
    requires tr.events[i].Arrive? && tr.events[j].Arrive? && tr.events[i].scope == tr.events[j].scope
    requires tr.StartsOnRedis(cfg, i) && tr.StartsOnRedis(cfg, j)
    requires forall k :: i < k < j ==> !(tr.events[k].Finish? && tr.events[k].id == tr.events[i].id)
    ensures tr.events[j].now - tr.events[i].now >= cfg.lockTtl
  {
    var calls, up := Calls(cfg, tr);
    var s := tr.events[i].scope;
    assert SeenAt(cfg, tr, calls, up, i) && SeenAt(cfg, tr, calls, up, j);
    SameStores(cfg, tr, calls, up, i);
    SameStores(cfg, tr, calls, up, j);
    Unresolved(cfg, tr, calls, up, i, j);
    ServiceRuns.RedisStartsApart(cfg, calls, up, i, j, s);
  }

  /** Event `i` is the end of a handler for `s` whose response Redis stores. */
  ghost predicate StoredAt(cfg: Config, tr: Trace, i: nat, s: Scope)
    requires i < |tr.events| && i < |tr.states|
  {
    var e := tr.events[i];
    && e.Finish? && e.up && e.result.Answered? && e.result.response.status < 500
    && e.gzipLen <= cfg.maxBody && cfg.entryTtl >= 1000
    && e.id in tr.states[i].open && tr.states[i].open[e.id].scope == s
  }

  lemma {:induction false} StoredIsKept(cfg: Config, tr: Trace, calls: seq<Call>, up: seq<bool>, k: nat, s: Scope)
    requires tr.Valid(cfg) && Seen(cfg, tr, calls, up) && k < |calls|
    ensures StoredAt(cfg, tr, k, s) <==> up[k] && ServiceRuns.Keeps(cfg, calls[k], s)
  {
    assert SeenAt(cfg, tr, calls, up, k) && tr.Follows(cfg, k);
  }

  /** The last response stored for a scope is replayed to every request with the same fingerprint that Redis
      answers until it expires, and a request with another fingerprint is refused. */
  lemma {:induction false} StoredResponseIsReplayed(cfg: Config, tr: Trace, i: nat, n: nat, s: Scope)
    requires tr.Valid(cfg) && i < n < |tr.events| && StoredAt(cfg, tr, i, s)
    requires forall k :: i < k < n ==> !StoredAt(cfg, tr, k, s)
    requires tr.events[n].Arrive? && tr.events[n].up && tr.events[n].scope == s
    requires tr.events[n].now < tr.events[i].now + cfg.entryTtl - cfg.entryTtl % 1000
    ensures var g := tr.states[i].open[tr.events[i].id];
            ArriveStep(cfg, tr.states[n], tr.events[n]).1
            == if tr.events[n].fingerprint == g.fingerprint then Replayed(tr.events[i].result.response) else KeyReused
  {
    var calls, up := Calls(cfg, tr);
    SameStores(cfg, tr, calls, up, n);
    forall k | i <= k < n
      ensures StoredAt(cfg, tr, k, s) <==> up[k] && ServiceRuns.Keeps(cfg, calls[k], s)
    {
      StoredIsKept(cfg, tr, calls, up, k, s);
    }
    var last := ServiceRuns.RecordAfter(cfg, calls, up, n, s);
    assert last == Some(i);
    assert SeenAt(cfg, tr, calls, up, i);
  }

  /** The request's handler ends without a response to store while its lock is still its own. */
  ghost predicate FreesAt(tr: Trace, i: nat, s: Scope)
    requires i < |tr.events| && i < |tr.states|
  {
    var e, st := tr.events[i], tr.states[i];
    && e.Finish? && e.up && (e.result.BodyError? || e.result.response.status >= 500)
    && e.id in st.open && st.open[e.id].scope == s
    && Redis.Locked(st.stores.keys, s, e.now) && st.stores.keys.locks[s].token == st.open[e.id].token
  }

  /** A server error frees the key: the next request that asks Redis for it runs its handler, unless a response
      is on record. */
  lemma {:induction false} FailureFreesKey(cfg: Config, tr: Trace, i: nat, n: nat, s: Scope)
    requires tr.Valid(cfg) && cfg.lockTtl > 0 && i < n <= |tr.events| && FreesAt(tr, i, s)
    requires forall k :: i < k < n ==> !(tr.events[k].Arrive? && tr.events[k].scope == s)
    ensures s !in tr.states[n].stores.keys.locks
    ensures n < |tr.events| && tr.events[n].Arrive? && tr.events[n].up && tr.events[n].scope == s ==>
              (tr.StartsOnRedis(cfg, n) <==> !Redis.Recorded(tr.states[n].stores.keys, s, tr.events[n].now))
  {
    assert tr.Follows(cfg, n - 1);
    if n > i + 1 {
      FailureFreesKey(cfg, tr, i, n - 1, s);
    }
  }
}
