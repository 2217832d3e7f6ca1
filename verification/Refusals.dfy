/** Which requests the middleware refuses because their key is locked, and which it lets through unguarded. */
module Refusals {
  import opened Prelude
  import opened Idempotency
  import opened Outcomes
  import opened Middleware
  import Redis = RedisBackend
  import ServiceRuns

  /** A request for a key whose lock stands is refused, with the whole seconds that the lock has left. */
  lemma {:induction false} LockedIsRefused(cfg: Config, st: State, e: Event)
    requires e.Arrive? && e.up && cfg.lockTtl > 0
    requires e.scope in st.stores.keys.done ==> st.stores.keys.done[e.scope].deadline <= e.now
    requires e.scope in st.stores.keys.locks && e.now < st.stores.keys.locks[e.scope].deadline
    ensures ArriveStep(cfg, st, e).1 == KeyLocked(Max((st.stores.keys.locks[e.scope].deadline - e.now) / 1000, 1))
    ensures ArriveStep(cfg, st, e).0 == st.(ids := st.ids + {e.id}, tokens := st.tokens + {e.token})
  {
  }

  /** During an outage a request for a key whose row is in flight, and neither expired nor past its lease, is
      refused with the whole seconds of the lease. */
  lemma {:induction false} RowIsRefused(cfg: Config, st: State, e: Event)
    requires e.Arrive? && !e.up && e.scope in st.stores.rows
    requires var row := st.stores.rows[e.scope];
             row.inFlight && e.now < row.expiresAt && e.now <= row.createdAt + cfg.lockTtl
    ensures ArriveStep(cfg, st, e).1 == KeyLocked(Max(cfg.lockTtl / 1000, 1))
    ensures ArriveStep(cfg, st, e).0 == st.(ids := st.ids + {e.id}, tokens := st.tokens + {e.token})
  {
  }

  /** Between events `i` and `n` Redis stores no response for the scope. */
  ghost predicate NothingStored(cfg: Config, tr: Trace, i: nat, n: nat, s: Scope)
    requires n <= |tr.events| && n <= |tr.states|
  {
    forall k :: i < k < n ==> !StoredAt(cfg, tr, k, s)
  }

  /** Between events `i` and `n` the handler of request `id` does not finish. */
  ghost predicate StillRuns(tr: Trace, i: nat, n: nat, id: Id)
    requires n <= |tr.events|
  {
    forall k :: i < k < n ==> !(tr.events[k].Finish? && tr.events[k].id == id)
  }

  /** No record is visible when a handler starts, and none becomes visible before a response is stored. */
  lemma {:induction false} NoRecordYet(cfg: Config, tr: Trace, i: nat, n: nat)
    requires tr.Valid(cfg) && i < n < |tr.events| && tr.events[i].Arrive? && tr.StartsOnRedis(cfg, i)
    requires cfg.lockTtl > 0 && NothingStored(cfg, tr, i, n, tr.events[i].scope)
    ensures !Redis.Recorded(tr.states[n].stores.keys, tr.events[i].scope, tr.events[n].now)
  {
    var calls, up := Calls(cfg, tr);
    var s := tr.events[i].scope;
    SameStores(cfg, tr, calls, up, i);
    SameStores(cfg, tr, calls, up, n);
    ServiceRuns.RecordedIff(cfg, calls, up, i, s);
    ServiceRuns.RecordedIff(cfg, calls, up, n, s);
    assert SeenAt(cfg, tr, calls, up, i) && SeenAt(cfg, tr, calls, up, n);
    forall k: nat | ServiceRuns.RecordStands(cfg, calls, up, k, n, s)
      ensures false
    {
      StoredIsKept(cfg, tr, calls, up, k, s);
      if k < i {
        assert ServiceRuns.RecordStands(cfg, calls, up, k, i, s);
      }
    }
  }

  /** Until a handler whose guard Redis gave out has finished or its lease is over, and as long as no response is
      stored for its key, every other request for the key that Redis answers is told to come back after the
      whole seconds that the lease has left. */
  lemma {:induction false} SecondIsLocked(cfg: Config, tr: Trace, i: nat, n: nat)
    requires tr.Valid(cfg) && i < n < |tr.events| && tr.events[i].Arrive? && tr.StartsOnRedis(cfg, i)
    requires StillRuns(tr, i, n, tr.events[i].id) && NothingStored(cfg, tr, i, n, tr.events[i].scope)
    requires tr.events[n].Arrive? && tr.events[n].up && tr.events[n].scope == tr.events[i].scope
    requires tr.events[n].now < tr.events[i].now + cfg.lockTtl && cfg.lockTtl > 0
    ensures ArriveStep(cfg, tr.states[n], tr.events[n]).1
         == KeyLocked(Max((tr.events[i].now + cfg.lockTtl - tr.events[n].now) / 1000, 1))
  {
    var calls, up := Calls(cfg, tr);
    var s := tr.events[i].scope;
    assert SeenAt(cfg, tr, calls, up, i) && SeenAt(cfg, tr, calls, up, n);
    SameStores(cfg, tr, calls, up, i);
    SameStores(cfg, tr, calls, up, n);
    Unresolved(cfg, tr, calls, up, i, n);
    ServiceRuns.LockKept(cfg, calls, up, i, n, s);
    assert calls[n - 1].now <= calls[n].now;
    NoRecordYet(cfg, tr, i, n);
    LockedIsRefused(cfg, tr.states[n], tr.events[n]);
  }

  /** A handler starts without a guard only when Redis refuses a lock or does not answer, and the row in
      Postgres is done without a body, for the same request. */
  lemma {:induction false} UnguardedIff(cfg: Config, st: State, e: Event)
    requires e.Arrive?
    ensures ArriveStep(cfg, st, e).1 == Unguarded
       <==> && (!e.up || (cfg.lockTtl == 0 && !Redis.Recorded(st.stores.keys, e.scope, e.now)))
            && e.scope in st.stores.rows
            && var row := st.stores.rows[e.scope];
            e.now < row.expiresAt && !row.inFlight && row.fingerprint == e.fingerprint && row.response.None?
  {
  }
}
