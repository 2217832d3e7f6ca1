/** The three layers together: reads fall through and fill the layers above, writes go to all three. */
module MultiLayerCache {
  import opened Prelude
  import opened CachePolicies
  import opened CacheLayers

  /** Policies and default times to live of the three layers. */
  datatype Setup = Setup(p1: Policy, d1: nat, p2: Policy, d2: nat, p3: Policy, d3: nat)

  datatype Layers = Layers(l1: Store, l2: Store, l3: Store)

  /** A call that reads the clock once; a `Get` carries the payload that it returned. */
  datatype Op =
    | Get(key: string, found: Option<string>, now: int)
    | Set(key: string, payload: string, ttl: nat, now: int)
    | Invalidate(pattern: string, now: int)
    | InvalidateL1(pattern: string, now: int)

  ghost predicate Gets(cfg: Setup, c: Layers, key: string, found: Option<string>, now: int, next: Layers) {
    var (s1, r1) := GetStep(c.l1, key, now);
    if r1.Some? then next == c.(l1 := s1) && found == r1 else
    var (s2, r2) := GetStep(c.l2, key, now);
    if r2.Some? then
      found == r2 && next.l2 == s2 && next.l3 == c.l3 && Sets(s1, cfg.p1, key, r2.value, cfg.d1, now, next.l1)
    else
      var (s3, r3) := GetStep(c.l3, key, now);
      if r3.Some? then
        && found == r3 && next.l3 == s3
        && Sets(s2, cfg.p2, key, r3.value, cfg.d2, now, next.l2)
        && Sets(s1, cfg.p1, key, r3.value, cfg.d1, now, next.l1)
      else found == None && next == Layers(s1, s2, s3)
  }

  ghost predicate SetsAll(cfg: Setup, c: Layers, key: string, payload: string, ttl: nat, now: int, next: Layers) {
    && Sets(c.l1, cfg.p1, key, payload, ttl, now, next.l1)
    && Sets(c.l2, cfg.p2, key, payload, ttl, now, next.l2)
    && Sets(c.l3, cfg.p3, key, payload, ttl, now, next.l3)
  }

  /** One call may lead from `c` to `next`. Which of several equal entries a full layer evicts is open. */
  ghost predicate Step(cfg: Setup, c: Layers, op: Op, next: Layers) {
    match op
    case Get(key, found, now) => Gets(cfg, c, key, found, now, next)
    case Set(key, payload, ttl, now) => SetsAll(cfg, c, key, payload, ttl, now, next)
    case Invalidate(pattern, _) =>
      next == Layers(DeleteStep(c.l1, pattern), DeleteStep(c.l2, pattern), DeleteStep(c.l3, pattern))
    case InvalidateL1(pattern, _) => next == c.(l1 := DeleteStep(c.l1, pattern))
  }

  class MultiLayerCache {
    const l1: SharedLayer
    const l2: SharedLayer
    const l3: SharedLayer

    ghost predicate Valid() { l1 != l2 && l1 != l3 && l2 != l3 }

    ghost function Content(): Layers
      reads l1, l2, l3
    {
      Layers(l1.store, l2.store, l3.store)
    }

    ghost function Setting(): Setup {
      Setup(l1.policy, l1.defaultTtl, l2.policy, l2.defaultTtl, l3.policy, l3.defaultTtl)
    }

    constructor (l1: SharedLayer, l2: SharedLayer, l3: SharedLayer)
      requires l1 != l2 && l1 != l3 && l2 != l3
      ensures Valid() && this.l1 == l1 && this.l2 == l2 && this.l3 == l3
    {
      this.l1, this.l2, this.l3 := l1, l2, l3;
    }

    method Get(key: string, now: int) returns (found: Option<string>)
      requires Valid()
      modifies l1, l2, l3
      ensures Step(Setting(), old(Content()), Op.Get(key, found, now), Content())
    {
      var raw := l1.Get(key, now);
      if raw.Some? {
        return raw;
      }
      raw := l2.Get(key, now);
      if raw.Some? {
        l1.SetWithTtl(key, raw.value, l1.defaultTtl, now);
        return raw;
      }
      raw := l3.Get(key, now);
      if raw.Some? {
        l2.SetWithTtl(key, raw.value, l2.defaultTtl, now);
        l1.SetWithTtl(key, raw.value, l1.defaultTtl, now);
        return raw;
      }
      return None;
    }

    method Set(key: string, payload: string, ttl: nat, now: int)
      requires Valid()
      modifies l1, l2, l3
      ensures Step(Setting(), old(Content()), Op.Set(key, payload, ttl, now), Content())
    {
      l1.SetWithTtl(key, payload, ttl, now);
      l2.SetWithTtl(key, payload, ttl, now);
      l3.SetWithTtl(key, payload, ttl, now);
    }

    method InvalidatePattern(pattern: string, now: int)
      requires Valid()
      modifies l1, l2, l3
      ensures Step(Setting(), old(Content()), Op.Invalidate(pattern, now), Content())
    {
      var _ := l1.DeletePattern(pattern);
      var _ := l2.DeletePattern(pattern);
      var _ := l3.DeletePattern(pattern);
    }

    method InvalidateL1Pattern(pattern: string, now: int)
      requires Valid()
      modifies l1
      ensures Step(Setting(), old(Content()), Op.InvalidateL1(pattern, now), Content())
    {
      var _ := l1.DeletePattern(pattern);
    }
  }

  // ---- Runs, and the plain map that they refine ----

  datatype Trace = Trace(states: seq<Layers>, ops: seq<Op>) {
    ghost predicate Valid(cfg: Setup) {
      && |states| == |ops| + 1 && states[0] == Layers(map[], map[], map[])
      && forall n :: 0 <= n < |ops| ==> Follows(cfg, n)
    }

    ghost predicate Follows(cfg: Setup, n: nat)
      requires n < |ops| < |states|
    {
      Step(cfg, states[n], ops[n], states[n + 1])
    }
  }

  /** The last value set for a key, when, and for how long. */
  datatype Origin = Origin(payload: string, at: int, ttl: nat)

  /** A plain map: the last `set` of each key since the last full invalidation that matched it. */
  function LastSet(ops: seq<Op>, n: nat): map<string, Origin>
    requires n <= |ops|
  {
    if n == 0 then map[] else LastSetStep(LastSet(ops, n - 1), ops[n - 1])
  }

  function LastSetStep(before: map<string, Origin>, op: Op): map<string, Origin> {
    match op
    case Set(key, payload, ttl, now) => before[key := Origin(payload, now, ttl)]
    case Invalidate(pattern, _) => map k | k in before && !WildcardMatch(pattern, k) :: before[k]
    case _ => before
  }

  /** The entry holds the last value set, and its deadline is at most `slack` past what that `set` asked for. */
  ghost predicate Backed(store: Store, last: map<string, Origin>, slack: nat) {
    forall k :: k in store ==>
                  k in last && store[k].payload == last[k].payload
                  && store[k].Deadline() <= last[k].at + last[k].ttl + slack
  }

  /** Each fill from below may restart the clock once, so the slack grows from layer to layer. */
  ghost predicate Coherent(cfg: Setup, c: Layers, last: map<string, Origin>) {
    Backed(c.l3, last, 0) && Backed(c.l2, last, cfg.d2) && Backed(c.l1, last, cfg.d2 + cfg.d1)
  }

  lemma {:induction false} BackedSet(store: Store, policy: Policy, key: string, payload: string, ttl: int, now: int,
                                     next: Store, last: map<string, Origin>, after: map<string, Origin>,
                                     slack: nat)
    requires Backed(store, last, slack) && Sets(store, policy, key, payload, ttl, now, next)
    requires key in after && after[key].payload == payload && now + ttl <= after[key].at + after[key].ttl + slack
    requires forall k :: k != key && k in last ==> k in after && after[k] == last[k]
    ensures Backed(next, after, slack)
  {
    var gone := SetShape(store, policy, key, payload, ttl, now, next);
  }

  lemma {:induction false} BackedGet(store: Store, key: string, now: int, last: map<string, Origin>, slack: nat)
    requires Backed(store, last, slack)
    ensures var (next, found) := GetStep(store, key, now);
            && Backed(next, last, slack)
            && (found.Some? ==> key in last && found.value == last[key].payload
                                && now <= last[key].at + last[key].ttl + slack)
  {
  }

  lemma {:induction false} CoherentGet(cfg: Setup, c: Layers, key: string, found: Option<string>, now: int,
                                       next: Layers, last: map<string, Origin>)
    requires Coherent(cfg, c, last) && Gets(cfg, c, key, found, now, next)
    ensures Coherent(cfg, next, last)
    ensures found.Some? ==>
              key in last && found.value == last[key].payload && now <= last[key].at + last[key].ttl + cfg.d2 + cfg.d1
  {
    BackedGet(c.l1, key, now, last, cfg.d2 + cfg.d1);
    BackedGet(c.l2, key, now, last, cfg.d2);
    BackedGet(c.l3, key, now, last, 0);
    var (s1, r1) := GetStep(c.l1, key, now);
    var (s2, r2) := GetStep(c.l2, key, now);
    var (s3, r3) := GetStep(c.l3, key, now);
    if r1.None? {
      if r2.Some? {
        BackedSet(s1, cfg.p1, key, r2.value, cfg.d1, now, next.l1, last, last, cfg.d2 + cfg.d1);
      } else if r3.Some? {
        BackedSet(s2, cfg.p2, key, r3.value, cfg.d2, now, next.l2, last, last, cfg.d2);
        BackedSet(s1, cfg.p1, key, r3.value, cfg.d1, now, next.l1, last, last, cfg.d2 + cfg.d1);
      }
    }
  }

  lemma {:induction false} CoherentSet(cfg: Setup, c: Layers, key: string, payload: string, ttl: nat, now: int,
                                       next: Layers, last: map<string, Origin>)
    requires Coherent(cfg, c, last) && SetsAll(cfg, c, key, payload, ttl, now, next)
    ensures Coherent(cfg, next, last[key := Origin(payload, now, ttl)])
  {
    var after := last[key := Origin(payload, now, ttl)];
    BackedSet(c.l1, cfg.p1, key, payload, ttl, now, next.l1, last, after, cfg.d2 + cfg.d1);
    BackedSet(c.l2, cfg.p2, key, payload, ttl, now, next.l2, last, after, cfg.d2);
    BackedSet(c.l3, cfg.p3, key, payload, ttl, now, next.l3, last, after, 0);
  }

  lemma {:induction false} CoherentStep(cfg: Setup, c: Layers, op: Op, next: Layers, last: map<string, Origin>)
    requires Coherent(cfg, c, last) && Step(cfg, c, op, next)
    ensures Coherent(cfg, next, LastSetStep(last, op))
  {
    match op
    case Get(key, found, now) => CoherentGet(cfg, c, key, found, now, next, last);
    case Set(key, payload, ttl, now) => CoherentSet(cfg, c, key, payload, ttl, now, next, last);
    case Invalidate(pattern, now) =>
    case InvalidateL1(pattern, now) =>
  }

  lemma {:induction false} CoherentAt(cfg: Setup, tr: Trace, n: nat)
    requires tr.Valid(cfg) && n <= |tr.ops|
    ensures Coherent(cfg, tr.states[n], LastSet(tr.ops, n))
  {
    if n > 0 {
      CoherentAt(cfg, tr, n - 1);
      assert tr.Follows(cfg, n - 1);
      CoherentStep(cfg, tr.states[n - 1], tr.ops[n - 1], tr.states[n], LastSet(tr.ops, n - 1));
    }
  }

  /** In every run a read returns nothing, or the last value set for the key since the last matching full
      invalidation, and that at most the two upper default times to live after the value's own. */
  lemma {:induction false} GetIsFresh(cfg: Setup, tr: Trace, n: nat)
    requires tr.Valid(cfg) && n < |tr.ops| && tr.ops[n].Get? && tr.ops[n].found.Some?
    ensures var last, op := LastSet(tr.ops, n), tr.ops[n];
            && op.key in last && op.found.value == last[op.key].payload
            && op.now - last[op.key].at <= last[op.key].ttl + cfg.d2 + cfg.d1
  {
    CoherentAt(cfg, tr, n);
    assert tr.Follows(cfg, n);
    CoherentGet(cfg, tr.states[n], tr.ops[n].key, tr.ops[n].found, tr.ops[n].now, tr.states[n + 1], LastSet(tr.ops, n));
  }

  /** In every run each layer stays within its capacity. */
  ghost predicate Fits(cfg: Setup, c: Layers) {
    |c.l1| <= Max(1, cfg.p1.maxEntries) && |c.l2| <= Max(1, cfg.p2.maxEntries) && |c.l3| <= Max(1, cfg.p3.maxEntries)
  }

  lemma {:induction false} SetFits(store: Store, policy: Policy, key: string, payload: string, ttl: int, now: int,
                                   next: Store)
    ensures Sets(store, policy, key, payload, ttl, now, next) && |store| <= Max(1, policy.maxEntries)
            ==> |next| <= Max(1, policy.maxEntries)
  {
    if Sets(store, policy, key, payload, ttl, now, next) && |store| <= Max(1, policy.maxEntries) {
      SetKeepsCapacity(store, policy, key, payload, ttl, now, next);
    }
  }

  lemma {:induction false} GetShrinks(store: Store, key: string, now: int)
    ensures |GetStep(store, key, now).0| <= |store|
  {
    SubsetSize(GetStep(store, key, now).0.Keys, store.Keys);
  }

  lemma {:induction false} DeleteShrinks(store: Store, pattern: string)
    ensures |DeleteStep(store, pattern)| <= |store|
  {
    SubsetSize(DeleteStep(store, pattern).Keys, store.Keys);
  }

  lemma {:induction false} CapacityAt(cfg: Setup, tr: Trace, n: nat)
    requires tr.Valid(cfg) && n <= |tr.ops|
    ensures Fits(cfg, tr.states[n])
  {
    if n > 0 {
      CapacityAt(cfg, tr, n - 1);
      assert tr.Follows(cfg, n - 1);
      var c, next := tr.states[n - 1], tr.states[n];
      match tr.ops[n - 1]
      case Get(key, found, now) =>
        GetFits(cfg, c, key, found, now, next);
      case Set(key, payload, ttl, now) =>
        SetFits(c.l1, cfg.p1, key, payload, ttl, now, next.l1);
        SetFits(c.l2, cfg.p2, key, payload, ttl, now, next.l2);
        SetFits(c.l3, cfg.p3, key, payload, ttl, now, next.l3);
      case Invalidate(pattern, now) =>
        DeleteShrinks(c.l1, pattern);
        DeleteShrinks(c.l2, pattern);
        DeleteShrinks(c.l3, pattern);
      case InvalidateL1(pattern, now) =>
        DeleteShrinks(c.l1, pattern);
    }
  }

  lemma {:induction false} GetFits(cfg: Setup, c: Layers, key: string, found: Option<string>, now: int, next: Layers)
    requires Fits(cfg, c) && Gets(cfg, c, key, found, now, next)
    ensures Fits(cfg, next)
  {
    GetShrinks(c.l1, key, now);
    GetShrinks(c.l2, key, now);
    GetShrinks(c.l3, key, now);
    var (s1, r1) := GetStep(c.l1, key, now);
    var (s2, r2) := GetStep(c.l2, key, now);
    if found.Some? {
      SetFits(s1, cfg.p1, key, found.value, cfg.d1, now, next.l1);
      SetFits(s2, cfg.p2, key, found.value, cfg.d2, now, next.l2);
    }
  }

  /** A read right after a write finds what was written, as long as the value's own time has not run out. */
  lemma {:induction false} ReadYourWrite(cfg: Setup, c: Layers, key: string, payload: string, ttl: nat, at: int,
                                         next: Layers, found: Option<string>, now: int, last: Layers)
    requires SetsAll(cfg, c, key, payload, ttl, at, next) && Gets(cfg, next, key, found, now, last)
    ensures now <= at + ttl ==> found == Some(payload)
  {
    var gone := SetShape(c.l1, cfg.p1, key, payload, ttl, at, next.l1);
  }

  // ---- One call ----

  /** The layer still serves the key. */
  predicate Serves(store: Store, key: string, now: int) { key in store && now <= store[key].createdAt + store[key].ttl }

  /** A read gives the payload of the first layer that still serves the key, and nothing if none does. */
  lemma {:induction false} FirstLayerAnswers(cfg: Setup, c: Layers, key: string, found: Option<string>, now: int,
                                             next: Layers)
    requires Gets(cfg, c, key, found, now, next)
    ensures found == if Serves(c.l1, key, now) then Some(c.l1[key].payload)
                     else if Serves(c.l2, key, now) then Some(c.l2[key].payload)
                     else if Serves(c.l3, key, now) then Some(c.l3[key].payload)
                     else None
  {
  }

  lemma {:induction false} WriteHolds(store: Store, policy: Policy, key: string, payload: string, ttl: int, now: int,
                                      next: Store)
    requires Sets(store, policy, key, payload, ttl, now, next)
    ensures Holds(next, key, payload, now + ttl)
  {
    var gone := SetShape(store, policy, key, payload, ttl, now, next);
  }

  /** A hit below leaves the payload in every layer above, for that layer's own default time from now on; what is
      below the hit is not touched. */
  lemma {:induction false} ReadFillsAbove(cfg: Setup, c: Layers, key: string, found: Option<string>, now: int,
                                          next: Layers)
    requires Gets(cfg, c, key, found, now, next) && found.Some?
    ensures Serves(c.l1, key, now) ==> next.l2 == c.l2 && next.l3 == c.l3
    ensures !Serves(c.l1, key, now) ==> Holds(next.l1, key, found.value, now + cfg.d1)
    ensures !Serves(c.l1, key, now) && Serves(c.l2, key, now) ==> next.l3 == c.l3
    ensures !Serves(c.l1, key, now) && !Serves(c.l2, key, now) ==> Holds(next.l2, key, found.value, now + cfg.d2)
  {
    var (s1, r1) := GetStep(c.l1, key, now);
    var (s2, r2) := GetStep(c.l2, key, now);
    if r1.None? {
      WriteHolds(s1, cfg.p1, key, found.value, cfg.d1, now, next.l1);
      if r2.None? {
        WriteHolds(s2, cfg.p2, key, found.value, cfg.d2, now, next.l2);
      }
    }
  }

  predicate Holds(store: Store, key: string, payload: string, until: int) {
    key in store && store[key].payload == payload && store[key].createdAt + store[key].ttl == until
  }

  /** A write is in all three layers, for its own time to live. */
  lemma {:induction false} WriteReachesAll(cfg: Setup, c: Layers, key: string, payload: string, ttl: nat, now: int,
                                           next: Layers)
    requires SetsAll(cfg, c, key, payload, ttl, now, next)
    ensures Holds(next.l1, key, payload, now + ttl) && Holds(next.l2, key, payload, now + ttl)
    ensures Holds(next.l3, key, payload, now + ttl)
  {
    WriteHolds(c.l1, cfg.p1, key, payload, ttl, now, next.l1);
    WriteHolds(c.l2, cfg.p2, key, payload, ttl, now, next.l2);
    WriteHolds(c.l3, cfg.p3, key, payload, ttl, now, next.l3);
  }

  /** After a full invalidation a read of an instance of the pattern finds nothing; any key that does not match
      is read as before. After one of the first layer alone the lower layers still answer. */
  lemma {:induction false} InvalidatedIsGone(cfg: Setup, c: Layers, pattern: string, key: string,
                                             found: Option<string>, now: int, after: Layers, next: Layers)
    requires Step(cfg, c, Invalidate(pattern, now), after) && Gets(cfg, after, key, found, now, next)
    ensures GlobMatch(pattern, key) ==> found == None
    ensures |key| + 1 >= |pattern| && !GlobMatch(pattern, key) ==>
              found == if Serves(c.l1, key, now) then Some(c.l1[key].payload)
              else if Serves(c.l2, key, now) then Some(c.l2[key].payload)
              else if Serves(c.l3, key, now) then Some(c.l3[key].payload)
              else None
  {
    WildcardIsGlobIff(pattern, key);
    FirstLayerAnswers(cfg, after, key, found, now, next);
  }

  lemma {:induction false} TopInvalidatedIsRead(cfg: Setup, c: Layers, pattern: string, key: string,
                                                found: Option<string>, now: int, after: Layers, next: Layers)
    requires Step(cfg, c, InvalidateL1(pattern, now), after) && Gets(cfg, after, key, found, now, next)
    requires GlobMatch(pattern, key)
    ensures found == if Serves(c.l2, key, now) then Some(c.l2[key].payload)
                     else if Serves(c.l3, key, now) then Some(c.l3[key].payload)
                     else None
  {
    WildcardIsGlobIff(pattern, key);
    FirstLayerAnswers(cfg, after, key, found, now, next);
  }

  lemma {:induction false} ForgottenUntilSet(ops: seq<Op>, i: nat, n: nat, key: string)
    requires i < n <= |ops| && ops[i].Invalidate? && GlobMatch(ops[i].pattern, key)
    requires forall k :: i < k < n && ops[k].Set? ==> ops[k].key != key
    ensures key !in LastSet(ops, n)
  {
    WildcardIsGlobIff(ops[i].pattern, key);
    if n > i + 1 {
      ForgottenUntilSet(ops, i, n - 1, key);
    }
  }

  /** In every run, after a full invalidation no read finds an instance of its pattern until it is set again:
      no layer brings it back. */
  lemma {:induction false} InvalidatedStaysGone(cfg: Setup, tr: Trace, i: nat, n: nat)
    requires tr.Valid(cfg) && i < n < |tr.ops| && tr.ops[i].Invalidate? && tr.ops[n].Get?
    requires GlobMatch(tr.ops[i].pattern, tr.ops[n].key)
    requires forall k :: i < k < n && tr.ops[k].Set? ==> tr.ops[k].key != tr.ops[n].key
    ensures tr.ops[n].found == None
  {
    ForgottenUntilSet(tr.ops, i, n, tr.ops[n].key);
    if tr.ops[n].found.Some? {
      GetIsFresh(cfg, tr, n);
    }
  }

  // ---- The bound is reached ----

  lemma {:induction false} SomeListing(store: Store) returns (order: seq<string>)
    ensures Listing(order, store)
    decreases |store|
  {
    if store.Keys == {} {
      order := [];
    } else {
      var k :| k in store.Keys;
      var rest := SomeListing(store - {k});
      order := [k] + rest;
    }
  }

  /** A write is always possible. */
  lemma {:induction false} SetsSome(store: Store, policy: Policy, key: string, payload: string, ttl: int, now: int)
    returns (next: Store)
    ensures Sets(store, policy, key, payload, ttl, now, next)
    ensures key in next && next[key] == StoredValue(payload, now, now, 1, ttl)
    ensures store == map[] ==> next == map[key := StoredValue(payload, now, now, 1, ttl)]
  {
    var order := SomeListing(store);
    next := SetStep(store, policy, order, key, payload, ttl, now);
  }

  lemma {:induction false} SetsWithRoom(store: Store, policy: Policy, key: string, payload: string, ttl: int, now: int)
    requires |store| < policy.maxEntries
    ensures Sets(store, policy, key, payload, ttl, now, store[key := StoredValue(payload, now, now, 1, ttl)])
  {
    var order := SomeListing(store);
    assert SetStep(store, policy, order, key, payload, ttl, now)
        == store[key := StoredValue(payload, now, now, 1, ttl)];
  }

  lemma {:induction false} TiesKeepOrder(s: Strategy, entries: seq<CacheEntry>)
    requires forall i, j :: 0 <= i < |entries| && 0 <= j < |entries| ==> AtMost(s, entries[i], entries[j])
    ensures StableSort(s, entries) == entries
  {
    if |entries| > 0 {
      TiesKeepOrder(s, entries[1..]);
      assert entries == [entries[0]] + entries[1..];
    }
  }

  ghost predicate Alike(store: Store, v: StoredValue) { forall k :: k in store ==> store[k] == v }

  lemma {:induction false} ListedFirst(store: Store, first: string) returns (order: seq<string>)
    requires first in store
    ensures Listing(order, store) && |order| > 0 && order[0] == first
  {
    var rest := SomeListing(store - {first});
    order := [first] + rest;
    forall i, j | 0 <= i < j < |order|
      ensures order[i] != order[j]
    {
      assert order[j] in rest;
    }
    assert forall k :: k in order <==> k == first || k in rest;
  }

  /** Among entries that differ in nothing but their keys, a full layer may give up any. */
  lemma {:induction false} SetsEvicting(store: Store, policy: Policy, v: StoredValue, gone: string,
                                        key: string, payload: string, ttl: int, now: int)
    requires Alike(store, v) && gone in store && |store| >= policy.maxEntries
    ensures Sets(store, policy, key, payload, ttl, now, (store - {gone})[key := StoredValue(payload, now, now, 1, ttl)])
  {
    var order := ListedFirst(store, gone);
    var entries := Snapshot(store, order);
    TiesKeepOrder(policy.strategy, entries);
    assert Victims(policy.strategy, entries, 1) == [gone];
    assert EvictStep(store, policy, order) == store - {gone};
    assert SetStep(store, policy, order, key, payload, ttl, now)
        == (store - {gone})[key := StoredValue(payload, now, now, 1, ttl)];
  }

  function End(tr: Trace): Layers
    requires |tr.states| == |tr.ops| + 1
  {
    tr.states[|tr.ops|]
  }

  function LastTime(ops: seq<Op>): int { if |ops| == 0 then 0 else ops[|ops| - 1].now }

  ghost predicate Chronological(ops: seq<Op>) { forall i, j :: 0 <= i <= j < |ops| ==> ops[i].now <= ops[j].now }

  lemma {:induction false} LastSetOfPrefix(ops: seq<Op>, op: Op, n: nat)
    requires n <= |ops|
    ensures LastSet(ops + [op], n) == LastSet(ops, n)
  {
    if n > 0 {
      LastSetOfPrefix(ops, op, n - 1);
    }
  }

  lemma {:induction false} Snoc(cfg: Setup, tr: Trace, op: Op, next: Layers) returns (all: Trace)
    requires tr.Valid(cfg) && Chronological(tr.ops) && LastTime(tr.ops) <= op.now && Step(cfg, End(tr), op, next)
    ensures all == Trace(tr.states + [next], tr.ops + [op])
    ensures all.Valid(cfg) && Chronological(all.ops) && LastTime(all.ops) == op.now && End(all) == next
    ensures LastSet(all.ops, |tr.ops|) == LastSet(tr.ops, |tr.ops|)
    ensures op.Get? || op.InvalidateL1? ==> LastSet(all.ops, |all.ops|) == LastSet(tr.ops, |tr.ops|)
    ensures op.Set? ==>
              LastSet(all.ops, |all.ops|) == LastSet(tr.ops, |tr.ops|)[op.key := Origin(op.payload, op.now, op.ttl)]
  {
    all := Trace(tr.states + [next], tr.ops + [op]);
    LastSetOfPrefix(tr.ops, op, |tr.ops|);
    SnocIsValid(cfg, tr, op, next);
  }

  lemma {:induction false} SnocIsValid(cfg: Setup, tr: Trace, op: Op, next: Layers)
    requires tr.Valid(cfg) && Step(cfg, End(tr), op, next)
    ensures Trace(tr.states + [next], tr.ops + [op]).Valid(cfg)
  {
    var all := Trace(tr.states + [next], tr.ops + [op]);
    forall n | 0 <= n < |all.ops|
      ensures all.Follows(cfg, n)
    {
      if n < |tr.ops| {
        assert tr.Follows(cfg, n);
        assert all.states[n] == tr.states[n] && all.states[n + 1] == tr.states[n + 1] && all.ops[n] == tr.ops[n];
      }
    }
  }

  function Fresh(at: int, life: int): StoredValue { StoredValue("x", at, at, 1, life) }

  /** Keys other than "a", all different. */
  function Other(i: nat): string { seq(i + 2, _ => 'b') }

  /** Everything was written at time 0 alike, "a" among the first and still in the bottom layer; the keys
      from `Other(i)` on are unused. */
  ghost predicate Filling(cfg: Setup, tr: Trace, ttl: nat, i: nat) {
    && tr.Valid(cfg) && Chronological(tr.ops) && LastTime(tr.ops) == 0
    && var c, last := End(tr), LastSet(tr.ops, |tr.ops|);
    && "a" in last && last["a"] == Origin("x", 0, ttl)
    && Alike(c.l2, Fresh(0, ttl)) && Alike(c.l3, Fresh(0, ttl)) && "a" in c.l3
    && forall j: nat :: j >= i ==> Other(j) !in c.l2 && Other(j) !in c.l3
  }

  lemma {:induction false} OthersDiffer(i: nat, j: nat)
    requires i != j
    ensures Other(i) != Other(j) && Other(i) != "a"
  {
    assert |Other(i)| == i + 2 && |Other(j)| == j + 2;
  }

  lemma {:induction false} FillFirst(cfg: Setup, ttl: nat) returns (tr: Trace)
    ensures Filling(cfg, tr, ttl, 0)
  {
    var empty: Store := map[];
    tr := Trace([Layers(empty, empty, empty)], []);
    var n1 := SetsSome(empty, cfg.p1, "a", "x", ttl, 0);
    var n2 := SetsSome(empty, cfg.p2, "a", "x", ttl, 0);
    var n3 := SetsSome(empty, cfg.p3, "a", "x", ttl, 0);
    tr := Snoc(cfg, tr, Set("a", "x", ttl, 0), Layers(n1, n2, n3));
    forall j: nat
      ensures Other(j) != "a"
    {
      OthersDiffer(j, j + 1);
    }
  }

  /** The bottom layer may keep "a" when another key is written. */
  lemma {:induction false} BottomKeeps(store: Store, policy: Policy, ttl: nat, key: string) returns (next: Store)
    requires policy.maxEntries >= 2 && Alike(store, Fresh(0, ttl)) && "a" in store && key != "a"
    ensures Sets(store, policy, key, "x", ttl, 0, next)
    ensures Alike(next, Fresh(0, ttl)) && "a" in next && next.Keys <= store.Keys + {key}
  {
    if |store| < policy.maxEntries {
      SetsWithRoom(store, policy, key, "x", ttl, 0);
      next := store[key := Fresh(0, ttl)];
    } else {
      var others := store.Keys - {"a"};
      assert |others| == |store.Keys| - 1;
      var gone :| gone in others;
      SetsEvicting(store, policy, Fresh(0, ttl), gone, key, "x", ttl, 0);
      next := (store - {gone})[key := Fresh(0, ttl)];
    }
  }

  /** The middle layer grows, or may give up "a". */
  lemma {:induction false} MiddleFills(store: Store, policy: Policy, ttl: nat, key: string) returns (next: Store)
    requires Alike(store, Fresh(0, ttl)) && "a" in store && key !in store
    ensures Sets(store, policy, key, "x", ttl, 0, next)
    ensures Alike(next, Fresh(0, ttl)) && next.Keys <= store.Keys + {key}
    ensures "a" !in next || |store| < |next| <= policy.maxEntries
  {
    if |store| < policy.maxEntries {
      SetsWithRoom(store, policy, key, "x", ttl, 0);
      next := store[key := Fresh(0, ttl)];
      assert next.Keys == store.Keys + {key};
    } else {
      SetsEvicting(store, policy, Fresh(0, ttl), "a", key, "x", ttl, 0);
      next := (store - {"a"})[key := Fresh(0, ttl)];
    }
  }

  lemma {:induction false} FillOne(cfg: Setup, tr: Trace, ttl: nat, i: nat) returns (all: Trace)
    requires cfg.p3.maxEntries >= 2 && Filling(cfg, tr, ttl, i) && "a" in End(tr).l2
    ensures Filling(cfg, all, ttl, i + 1)
    ensures "a" !in End(all).l2 || |End(tr).l2| < |End(all).l2| <= cfg.p2.maxEntries
  {
    var c, key := End(tr), Other(i);
    forall j: nat | j > i
      ensures Other(j) != key && key != "a"
    {
      OthersDiffer(i, j);
    }
    assert key != "a" by {
      OthersDiffer(i, i + 1);
    }
    var n1 := SetsSome(c.l1, cfg.p1, key, "x", ttl, 0);
    var n2 := MiddleFills(c.l2, cfg.p2, ttl, key);
    var n3 := BottomKeeps(c.l3, cfg.p3, ttl, key);
    all := Snoc(cfg, tr, Set(key, "x", ttl, 0), Layers(n1, n2, n3));
  }

  lemma {:induction false} FillUntilOut(cfg: Setup, tr: Trace, ttl: nat, i: nat) returns (all: Trace, n: nat)
    requires cfg.p3.maxEntries >= 2 && Filling(cfg, tr, ttl, i)
    ensures Filling(cfg, all, ttl, n) && "a" !in End(all).l2
    decreases if "a" in End(tr).l2 then cfg.p2.maxEntries + 1 - Min(|End(tr).l2|, cfg.p2.maxEntries) else 0
  {
    if "a" in End(tr).l2 {
      all := FillOne(cfg, tr, ttl, i);
      all, n := FillUntilOut(cfg, all, ttl, i + 1);
    } else {
      all, n := tr, i;
    }
  }

  lemma {:induction false} ClearsTop(cfg: Setup, tr: Trace) returns (all: Trace)
    requires tr.Valid(cfg) && Chronological(tr.ops)
    ensures all.Valid(cfg) && Chronological(all.ops) && LastTime(all.ops) == LastTime(tr.ops)
    ensures End(all) == End(tr).(l1 := map[])
    ensures LastSet(all.ops, |all.ops|) == LastSet(tr.ops, |tr.ops|)
  {
    assert DeleteStep(End(tr).l1, "*") == map[];
    all := Snoc(cfg, tr, InvalidateL1("*", LastTime(tr.ops)), End(tr).(l1 := map[]));
  }

  /** The value is missed by both upper layers and fills them at its last moment below. */
  lemma {:induction false} FillsBoth(cfg: Setup, c: Layers, ttl: nat) returns (next: Layers)
    requires "a" !in c.l1 && "a" !in c.l2 && "a" in c.l3 && c.l3["a"] == Fresh(0, ttl)
    ensures Gets(cfg, c, "a", Some("x"), ttl, next)
    ensures "a" in next.l2 && next.l2["a"] == Fresh(ttl, cfg.d2)
  {
    var n2 := SetsSome(c.l2, cfg.p2, "a", "x", cfg.d2, ttl);
    var n1 := SetsSome(c.l1, cfg.p1, "a", "x", cfg.d1, ttl);
    next := Layers(n1, n2, GetStep(c.l3, "a", ttl).0);
  }

  /** The value is missed by the top layer and fills it at its last moment in the middle. */
  lemma {:induction false} FillsTop(cfg: Setup, c: Layers, now: int) returns (next: Layers)
    requires "a" !in c.l1 && "a" in c.l2 && c.l2["a"].payload == "x" && c.l2["a"].Deadline() == now
    ensures Gets(cfg, c, "a", Some("x"), now, next)
    ensures "a" in next.l1 && next.l1["a"] == Fresh(now, cfg.d1)
  {
    var n1 := SetsSome(c.l1, cfg.p1, "a", "x", cfg.d1, now);
    next := c.(l1 := n1, l2 := GetStep(c.l2, "a", now).0);
  }

  /** Call `n` of a run on one clock reads a value with time to live `ttl` as late as `GetIsFresh` allows. */
  ghost predicate Latest(cfg: Setup, tr: Trace, n: nat, ttl: nat) {
    && tr.Valid(cfg) && Chronological(tr.ops) && n < |tr.ops| && tr.ops[n].Get? && tr.ops[n].found.Some?
    && var last, op := LastSet(tr.ops, n), tr.ops[n];
    op.key in last && last[op.key].ttl == ttl && op.now - last[op.key].at == ttl + cfg.d2 + cfg.d1
  }

  /** A run after which the middle layer has just been filled with "a" at its last moment in the bottom one. */
  lemma {:induction false} LateInMiddle(cfg: Setup, ttl: nat) returns (tr: Trace)
    requires cfg.p3.maxEntries >= 2
    ensures tr.Valid(cfg) && Chronological(tr.ops) && LastTime(tr.ops) == ttl
    ensures "a" in LastSet(tr.ops, |tr.ops|) && LastSet(tr.ops, |tr.ops|)["a"] == Origin("x", 0, ttl)
    ensures "a" in End(tr).l2 && End(tr).l2["a"] == Fresh(ttl, cfg.d2)
  {
    var i;
    tr := FillFirst(cfg, ttl);
    tr, i := FillUntilOut(cfg, tr, ttl, 0);
    tr := ClearsTop(cfg, tr);
    var next := FillsBoth(cfg, End(tr), ttl);
    tr := Snoc(cfg, tr, Get("a", Some("x"), ttl), next);
  }

  /** As soon as the bottom layer can hold two entries, the bound of `GetIsFresh` is reached, whatever the
      other capacities, the strategies and the times to live: other keys push the first out of the middle
      layer, which is then filled again at the last moment from below, and fills the top layer at its own
      last moment. */
  lemma {:induction false} FreshnessBoundIsTight(cfg: Setup, ttl: nat) returns (tr: Trace, n: nat)
    requires cfg.p3.maxEntries >= 2
    ensures Latest(cfg, tr, n, ttl)
  {
    var refill, now := ttl + cfg.d2, ttl + cfg.d2 + cfg.d1;
    tr := LateInMiddle(cfg, ttl);
    tr := ClearsTop(cfg, tr);
    var next := FillsTop(cfg, End(tr), refill);
    tr := Snoc(cfg, tr, Get("a", Some("x"), refill), next);
    n := |tr.ops|;
    tr := Snoc(cfg, tr, Get("a", Some("x"), now), End(tr).(l1 := GetStep(End(tr).l1, "a", now).0));
  }

  // ---- When the bottom layer holds one entry only ----

  /** The one entry of the bottom layer is in the middle layer too, and expires there at the same time, so
      nothing is ever filled from below and only the top layer's fills restart the clock. */
  ghost predicate Paired(cfg: Setup, c: Layers, last: map<string, Origin>) {
    && |c.l3| <= 1 && Backed(c.l3, last, 0) && Backed(c.l2, last, 0) && Backed(c.l1, last, cfg.d1)
    && forall k :: k in c.l3 ==> k in c.l2 && c.l2[k].Deadline() == c.l3[k].Deadline()
  }

  lemma {:induction false} OnlyEntry(store: Store, policy: Policy, key: string, payload: string, ttl: int, now: int,
                                     next: Store)
    requires policy.maxEntries <= 1 && |store| <= 1 && Sets(store, policy, key, payload, ttl, now, next)
    ensures next.Keys == {key}
  {
    var gone := SetShape(store, policy, key, payload, ttl, now, next);
    assert |gone| == |store| by {
      assert |store| == 0 || |store| == 1;
    }
    AllGone(store, gone);
    KeysAfterWrite(store, gone, key, StoredValue(payload, now, now, 1, ttl));
  }

  lemma {:induction false} KeysAfterWrite(store: Store, gone: set<string>, key: string, v: StoredValue)
    ensures (store - gone)[key := v].Keys == (store.Keys - gone) + {key}
  {
  }

  lemma {:induction false} AllGone(store: Store, gone: set<string>)
    requires gone <= store.Keys && |gone| == |store|
    ensures store.Keys - gone == {}
  {
    assert |store.Keys - gone| == |store.Keys| - |gone|;
  }

  /** What the middle layer misses the bottom layer misses too. */
  lemma {:induction false} MissedTogether(cfg: Setup, c: Layers, key: string, now: int, last: map<string, Origin>)
    requires Paired(cfg, c, last) && GetStep(c.l2, key, now).1.None?
    ensures GetStep(c.l3, key, now).1.None?
    ensures Paired(cfg, Layers(c.l1, GetStep(c.l2, key, now).0, GetStep(c.l3, key, now).0), last)
  {
    GetShrinks(c.l3, key, now);
  }

  lemma {:induction false} PairedHit(cfg: Setup, c: Layers, key: string, now: int, l1: Store, last: map<string, Origin>)
    requires Paired(cfg, c, last) && GetStep(c.l2, key, now).1.Some? && Backed(l1, last, cfg.d1)
    ensures Paired(cfg, Layers(l1, GetStep(c.l2, key, now).0, c.l3), last)
  {
  }

  lemma {:induction false} PairedGet(cfg: Setup, c: Layers, key: string, found: Option<string>, now: int, next: Layers,
                                     last: map<string, Origin>)
    requires Paired(cfg, c, last) && Gets(cfg, c, key, found, now, next)
    ensures Paired(cfg, next, last)
    ensures found.Some? ==> key in last && now <= last[key].at + last[key].ttl + cfg.d1
  {
    BackedGet(c.l1, key, now, last, cfg.d1);
    BackedGet(c.l2, key, now, last, 0);
    var (s1, r1) := GetStep(c.l1, key, now);
    var (s2, r2) := GetStep(c.l2, key, now);
    if r1.None? {
      if r2.Some? {
        BackedSet(s1, cfg.p1, key, r2.value, cfg.d1, now, next.l1, last, last, cfg.d1);
        PairedHit(cfg, c, key, now, next.l1, last);
      } else {
        MissedTogether(cfg, c, key, now, last);
      }
    }
  }

  lemma {:induction false} PairedStep(cfg: Setup, c: Layers, op: Op, next: Layers, last: map<string, Origin>)
    requires cfg.p3.maxEntries <= 1 && Paired(cfg, c, last) && Step(cfg, c, op, next)
    ensures Paired(cfg, next, LastSetStep(last, op))
  {
    match op
    case Get(key, found, now) =>
      PairedGet(cfg, c, key, found, now, next, last);
    case Set(key, payload, ttl, now) =>
      var after := LastSetStep(last, op);
      BackedSet(c.l1, cfg.p1, key, payload, ttl, now, next.l1, last, after, cfg.d1);
      BackedSet(c.l2, cfg.p2, key, payload, ttl, now, next.l2, last, after, 0);
      BackedSet(c.l3, cfg.p3, key, payload, ttl, now, next.l3, last, after, 0);
      PairedSet(cfg, c, key, payload, ttl, now, next);
    case Invalidate(pattern, now) =>
      DeleteShrinks(c.l3, pattern);
    case InvalidateL1(pattern, now) =>
  }

  lemma {:induction false} PairedAt(cfg: Setup, tr: Trace, n: nat)
    requires cfg.p3.maxEntries <= 1 && tr.Valid(cfg) && n <= |tr.ops|
    ensures Paired(cfg, tr.states[n], LastSet(tr.ops, n))
  {
    if n > 0 {
      PairedAt(cfg, tr, n - 1);
      assert tr.Follows(cfg, n - 1);
      PairedStep(cfg, tr.states[n - 1], tr.ops[n - 1], tr.states[n], LastSet(tr.ops, n - 1));
    }
  }

  lemma {:induction false} PairedSet(cfg: Setup, c: Layers, key: string, payload: string, ttl: nat, now: int,
                                     next: Layers)
    requires cfg.p3.maxEntries <= 1 && |c.l3| <= 1 && SetsAll(cfg, c, key, payload, ttl, now, next)
    ensures |next.l3| <= 1
    ensures forall k :: k in next.l3 ==> k in next.l2 && next.l2[k].Deadline() == next.l3[k].Deadline()
  {
    OnlyEntry(c.l3, cfg.p3, key, payload, ttl, now, next.l3);
    assert |next.l3| == |next.l3.Keys|;
    var g2 := SetShape(c.l2, cfg.p2, key, payload, ttl, now, next.l2);
    var g3 := SetShape(c.l3, cfg.p3, key, payload, ttl, now, next.l3);
  }

  /** With a bottom layer for one entry, a value is read at most the top layer's default time after its own. */
  lemma {:induction false} FresherWithOneEntry(cfg: Setup, tr: Trace, n: nat)
    requires cfg.p3.maxEntries <= 1
    requires tr.Valid(cfg) && n < |tr.ops| && tr.ops[n].Get? && tr.ops[n].found.Some?
    ensures var last, op := LastSet(tr.ops, n), tr.ops[n];
            op.key in last && op.now - last[op.key].at <= last[op.key].ttl + cfg.d1
  {
    PairedAt(cfg, tr, n);
    assert tr.Follows(cfg, n);
    var op := tr.ops[n];
    PairedGet(cfg, tr.states[n], op.key, op.found, op.now, tr.states[n + 1], LastSet(tr.ops, n));
  }

  /** With any default time to live in the middle layer, some run reads a value as late as `GetIsFresh`
      allows exactly when the bottom layer can hold two entries. */
  lemma {:induction false} FreshnessBoundReachedIff(cfg: Setup, ttl: nat)
    requires cfg.d2 > 0
    ensures (exists tr, n: nat :: Latest(cfg, tr, n, ttl)) <==> cfg.p3.maxEntries >= 2
  {
    if cfg.p3.maxEntries >= 2 {
      var tr, n := FreshnessBoundIsTight(cfg, ttl);
    } else {
      forall tr, n: nat | Latest(cfg, tr, n, ttl)
        ensures false
      {
        FresherWithOneEntry(cfg, tr, n);
      }
    }
  }
}
