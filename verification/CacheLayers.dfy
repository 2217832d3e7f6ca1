/** One layer of the cache: a hash map whose entries carry a time to live, with eviction when full. */
module CacheLayers {
  import opened Prelude
  import opened CachePolicies

  const U64_MAX := 0xFFFF_FFFF_FFFF_FFFF

  datatype StoredValue = StoredValue(payload: string, createdAt: int, lastAccessed: int, accessCount: nat, ttl: int) {
    predicate Expired(now: int) { createdAt + ttl < now }

    /** The last moment at which the entry is still served. */
    function Deadline(): int { createdAt + ttl }
  }

  type Store = map<string, StoredValue>

  function GetStep(store: Store, key: string, now: int): (Store, Option<string>) {
    if key !in store then (store, None)
    else if store[key].Expired(now) then (store - {key}, None)
    else
      var v := store[key];
      (store[key := v.(lastAccessed := now, accessCount := Min(v.accessCount + 1, U64_MAX))], Some(v.payload))
  }

  /** One of the orders in which a hash map may list its keys. */
  ghost predicate Listing(order: seq<string>, store: Store) {
    && (forall i, j :: 0 <= i < j < |order| ==> order[i] != order[j])
    && (forall k :: k in order <==> k in store)
  }

  function EntryOf(store: Store, k: string): CacheEntry
    requires k in store
  {
    var v := store[k];
    CacheEntry(k, v.createdAt, v.lastAccessed, v.accessCount, v.ttl, |v.payload|)
  }

  function Snapshot(store: Store, order: seq<string>): seq<CacheEntry>
    requires forall k :: k in order ==> k in store
  {
    seq(|order|, i requires 0 <= i < |order| => EntryOf(store, order[i]))
  }

  /** A full layer gives up one entry, whichever key is being written. */
  function EvictStep(store: Store, policy: Policy, order: seq<string>): Store
    requires forall k :: k in order ==> k in store
  {
    if |store| < policy.maxEntries then store
    else store - (set k | k in Victims(policy.strategy, Snapshot(store, order), 1))
  }

  function SetStep(store: Store, policy: Policy, order: seq<string>, key: string, payload: string, ttl: int,
                   now: int): Store
    requires forall k :: k in order ==> k in store
  {
    EvictStep(store, policy, order)[key := StoredValue(payload, now, now, 1, ttl)]
  }

  function DeleteStep(store: Store, pattern: string): Store {
    map k | k in store && !WildcardMatch(pattern, k) :: store[k]
  }

  /** `store` may become `next` when `key` is written. */
  ghost predicate Sets(store: Store, policy: Policy, key: string, payload: string, ttl: int, now: int, next: Store) {
    exists order :: Listing(order, store) && next == SetStep(store, policy, order, key, payload, ttl, now)
  }

  class SharedLayer {
    var store: Store
    const defaultTtl: nat
    const policy: Policy

    constructor (defaultTtl: nat, policy: Policy)
      ensures store == map[] && this.defaultTtl == defaultTtl && this.policy == policy
    {
      store := map[];
      this.defaultTtl := defaultTtl;
      this.policy := policy;
    }

    method Get(key: string, now: int) returns (payload: Option<string>)
      modifies this
      ensures (store, payload) == GetStep(old(store), key, now)
    {
      if key in store {
        var entry := store[key];
        var expired := entry.createdAt + entry.ttl < now;
        if expired {
          store := store - {key};
          return None;
        }
        entry := entry.(lastAccessed := now);
        entry := entry.(accessCount := Min(entry.accessCount + 1, U64_MAX));
        store := store[key := entry];
        return Some(entry.payload);
      }
      return None;
    }

    /** The keys in some order. */
    method ListKeys() returns (order: seq<string>)
      ensures Listing(order, store)
    {
      order := [];
      var rest := store.Keys;
      while rest != {}
        invariant forall i, j :: 0 <= i < j < |order| ==> order[i] != order[j]
        invariant forall k :: k in order <==> k in store && k !in rest
        invariant rest <= store.Keys
        decreases rest
      {
        var k :| k in rest;
        order := order + [k];
        rest := rest - {k};
      }
    }

    method SetWithTtl(key: string, payload: string, ttl: int, now: int)
      modifies this
      ensures Sets(old(store), policy, key, payload, ttl, now, store)
    {
      var order := ListKeys();
      if |store| >= policy.maxEntries {
        var entries := Snapshot(store, order);
        var victims := SelectVictims(policy, entries, 1);
        var i := 0;
        while i < |victims|
          invariant 0 <= i <= |victims|
          invariant store == old(store) - (set k | k in victims[..i])
        {
          store := store - {victims[i]};
          i := i + 1;
        }
        assert victims[..i] == victims;
      }
      store := store[key := StoredValue(payload, now, now, 1, ttl)];
      assert store == SetStep(old(store), policy, order, key, payload, ttl, now);
    }

    method DeletePattern(pattern: string) returns (removed: nat)
      modifies this
      ensures store == DeleteStep(old(store), pattern)
      ensures removed == |set k | k in old(store) && WildcardMatch(pattern, k)|
    {
      var matching := set k | k in store && WildcardMatch(pattern, k);
      removed := |matching|;
      store := store - matching;
    }
  }

  // ---- Capacity ----

  /** A layer that is not full gives up nothing; a full one exactly one entry, if it has any. */
  lemma {:induction false} Evicted(store: Store, policy: Policy, order: seq<string>) returns (gone: set<string>)
    requires Listing(order, store)
    ensures EvictStep(store, policy, order) == store - gone && gone <= store.Keys
    ensures |gone| == if |store| < policy.maxEntries then 0 else Min(1, |store|)
  {
    gone := {};
    if |store| >= policy.maxEntries {
      var entries := Snapshot(store, order);
      assert Keys(entries) == order;
      ListingSize(order, store);
      VictimsAreStored(policy.strategy, entries, 1);
      var v := Victims(policy.strategy, entries, 1);
      gone := set k | k in v;
      if |v| == 1 {
        assert v == [v[0]] && gone == {v[0]};
      } else {
        assert v == [] && gone == {};
      }
    } else {
      assert store - {} == store;
    }
  }

  /** Writing evicts at most one entry and only when full, and leaves the other entries as they were. */
  lemma {:induction false} SetShape(store: Store, policy: Policy, key: string, payload: string, ttl: int, now: int,
                                    next: Store)
    returns (gone: set<string>)
    requires Sets(store, policy, key, payload, ttl, now, next)
    ensures next == (store - gone)[key := StoredValue(payload, now, now, 1, ttl)] && gone <= store.Keys
    ensures |gone| == if |store| < policy.maxEntries then 0 else Min(1, |store|)
  {
    var order :| Listing(order, store) && next == SetStep(store, policy, order, key, payload, ttl, now);
    gone := Evicted(store, policy, order);
  }

  /** Writing keeps a layer within its capacity. */
  lemma {:induction false} SetKeepsCapacity(store: Store, policy: Policy, key: string, payload: string, ttl: int,
                                            now: int, next: Store)
    requires Sets(store, policy, key, payload, ttl, now, next) && |store| <= Max(1, policy.maxEntries)
    ensures |next| <= Max(1, policy.maxEntries)
  {
    var gone := SetShape(store, policy, key, payload, ttl, now, next);
    SizeAfter(store, gone, key, StoredValue(payload, now, now, 1, ttl));
  }

  lemma {:induction false} SizeAfter(store: Store, gone: set<string>, key: string, v: StoredValue)
    requires gone <= store.Keys
    ensures |(store - gone)[key := v]| <= |store| - |gone| + 1
  {
    var kept := store.Keys - gone;
    assert (store - gone).Keys == kept;
    assert store.Keys == kept + gone;
    assert (store - gone)[key := v].Keys == kept + {key};
    assert |kept + {key}| <= |kept| + 1;
  }

  lemma {:induction false} ListingSize(order: seq<string>, store: Store)
    requires Listing(order, store)
    ensures |order| == |store|
  {
    if |order| == 0 {
      assert store.Keys == {};
    } else {
      var n := |order| - 1;
      var rest := store - {order[n]};
      assert order == order[..n] + [order[n]];
      assert Listing(order[..n], rest);
      ListingSize(order[..n], rest);
      assert store.Keys == rest.Keys + {order[n]};
    }
  }

  /** Whatever is evicted for the new entry would be ordered no later than everything that stays. */
  lemma {:induction false} EvictsTheLeast(store: Store, policy: Policy, order: seq<string>, gone: string, kept: string)
    requires Listing(order, store) && gone in store && kept in store
    requires gone !in EvictStep(store, policy, order) && kept in EvictStep(store, policy, order)
    ensures AtMost(policy.strategy, EntryOf(store, gone), EntryOf(store, kept))
  {
    var entries := Snapshot(store, order);
    var i :| 0 <= i < |order| && order[i] == gone;
    var j :| 0 <= j < |order| && order[j] == kept;
    assert entries[i] in entries && entries[j] in entries;
    VictimsAreLeast(policy.strategy, entries, 1, entries[i], entries[j]);
  }

  // ---- What eviction sees of a read ----

  /** An entry is served up to and including its deadline; the read is recorded as the last, counted up to the
      largest count, and changes nothing else. After the deadline the entry is removed. */
  lemma {:induction false} ReadIsRecorded(store: Store, key: string, now: int)
    ensures var (next, found) := GetStep(store, key, now);
            && (found.Some? <==> key in store && now <= store[key].createdAt + store[key].ttl)
            && (found.Some? ==>
                  && found.value == store[key].payload && next.Keys == store.Keys
                  && next[key].lastAccessed == now
                  && (store[key].accessCount < 18_446_744_073_709_551_615 ==>
                        next[key].accessCount == store[key].accessCount + 1)
                  && next[key].payload == store[key].payload && next[key].Deadline() == store[key].Deadline()
                  && next[key].createdAt == store[key].createdAt)
            && (found.None? ==> next.Keys == store.Keys - {key})
            && forall k :: k != key && k in store ==> k in next && next[k] == store[k]
  {
  }

  /** What a full layer gives up, on the fields of its entries. */
  lemma {:induction false} EvictsOnFields(store: Store, policy: Policy, order: seq<string>, gone: string, kept: string)
    requires Listing(order, store) && gone in store && kept in store
    requires gone !in EvictStep(store, policy, order) && kept in EvictStep(store, policy, order)
    ensures var g, k := store[gone], store[kept];
            match policy.strategy
            case LRU => g.lastAccessed <= k.lastAccessed
            case LFU => g.accessCount <= k.accessCount
            case TTL => g.createdAt + g.ttl <= k.createdAt + k.ttl
            case Adaptive =>
              && g.accessCount <= k.accessCount
              && (g.accessCount == k.accessCount ==> g.lastAccessed <= k.lastAccessed)
              && (g.accessCount == k.accessCount && g.lastAccessed == k.lastAccessed ==> |g.payload| >= |k.payload|)
  {
    var entries := Snapshot(store, order);
    var i :| 0 <= i < |order| && order[i] == gone;
    var j :| 0 <= j < |order| && order[j] == kept;
    assert entries[i] in entries && entries[j] in entries;
    VictimsOnFields(policy.strategy, entries, 1, entries[i], entries[j]);
  }

  /** A write that pushes `gone` out keeps every other entry. */
  lemma {:induction false} OneIsEvicted(store: Store, policy: Policy, order: seq<string>, gone: string, kept: string)
    requires Listing(order, store) && gone in store && kept in store && gone != kept
    requires gone !in EvictStep(store, policy, order)
    ensures kept in EvictStep(store, policy, order)
  {
    var out := Evicted(store, policy, order);
    if kept in out {
      SubsetSize({gone, kept}, out);
    }
  }

  /** In a layer that evicts the least recently used entry, the key used strictly last survives the next write,
      if there is another one. */
  lemma {:induction false} LastUsedSurvives(store: Store, policy: Policy, used: string, other: string,
                                            key: string, payload: string, ttl: int, now: int, next: Store)
    requires policy.strategy.LRU? && used in store && other in store && used != other
    requires forall k :: k in store && k != used ==> store[k].lastAccessed < store[used].lastAccessed
    requires Sets(store, policy, key, payload, ttl, now, next)
    ensures used in next
  {
    var order :| Listing(order, store) && next == SetStep(store, policy, order, key, payload, ttl, now);
    if used !in EvictStep(store, policy, order) {
      OneIsEvicted(store, policy, order, used, other);
      EvictsOnFields(store, policy, order, used, other);
    }
  }

  /** So a read keeps its key from the next write's eviction, if all other keys were used before it. */
  lemma {:induction false} ReadSurvivesWrite(store: Store, policy: Policy, used: string, other: string, at: int,
                                             key: string, payload: string, ttl: int, now: int, next: Store)
    requires policy.strategy.LRU? && GetStep(store, used, at).1.Some? && other in store && used != other
    requires forall k :: k in store && k != used ==> store[k].lastAccessed < at
    requires Sets(GetStep(store, used, at).0, policy, key, payload, ttl, now, next)
    ensures used in next
  {
    LastUsedSurvives(GetStep(store, used, at).0, policy, used, other, key, payload, ttl, now, next);
  }

  // ---- Patterns ----

  function StarAt(pattern: string): (i: nat)
    ensures i <= |pattern|
    ensures i < |pattern| ==> pattern[i] == '*'
    ensures forall j :: 0 <= j < i ==> pattern[j] != '*'
  {
    if |pattern| == 0 || pattern[0] == '*' then 0 else 1 + StarAt(pattern[1..])
  }

  predicate EndsWith(s: string, suffix: string) { |suffix| <= |s| && s[|s| - |suffix|..] == suffix }

  /** Only the first star is a wildcard; the text after it is taken literally. */
  predicate WildcardMatch(pattern: string, input: string) {
    if pattern == "*" then true else
    var i := StarAt(pattern);
    if i < |pattern| then pattern[..i] <= input && EndsWith(input, pattern[i + 1..])
    else pattern == input
  }

  /** What the first star stands for: any text in its place. */
  ghost predicate GlobMatch(pattern: string, input: string) {
    var i := StarAt(pattern);
    if i < |pattern| then exists middle: string :: input == pattern[..i] + middle + pattern[i + 1..]
    else pattern == input
  }

  /** The match is the glob exactly as long as the input has room for both sides of the star. */
  lemma {:induction false} WildcardIsGlobIff(pattern: string, input: string)
    ensures GlobMatch(pattern, input) <==> WildcardMatch(pattern, input) && |input| + 1 >= |pattern|
  {
    var i := StarAt(pattern);
    if i < |pattern| {
      var prefix, suffix := pattern[..i], pattern[i + 1..];
      if WildcardMatch(pattern, input) && |input| + 1 >= |pattern| {
        var middle := input[i..|input| - |suffix|];
        if pattern == "*" {
          assert prefix == "" && suffix == "";
        }
        assert input == prefix + middle + suffix;
      }
      if GlobMatch(pattern, input) {
        var middle :| input == prefix + middle + suffix;
        assert input[..i] == prefix;
        assert input[|input| - |suffix|..] == suffix;
      }
    }
  }

  /** Without that room both sides may overlap: `ab*ba` matches `aba`, which is no instance of it. */
  lemma {:induction false} SidesMayOverlap()
    ensures WildcardMatch("ab*ba", "aba") && !GlobMatch("ab*ba", "aba")
  {
    assert StarAt("ab*ba") == 2;
    WildcardIsGlobIff("ab*ba", "aba");
    assert "aba"[1..] == "ba";
  }

  /** An invalidation removes every instance of its pattern, keeps every entry that does not match as it was, and
      removes nothing that its prefix and suffix do not fit. */
  lemma {:induction false} DeletesOnlyMatches(store: Store, pattern: string, k: string)
    requires k in store
    ensures GlobMatch(pattern, k) ==> k !in DeleteStep(store, pattern)
    ensures |k| + 1 >= |pattern| && !GlobMatch(pattern, k) ==> k in DeleteStep(store, pattern)
    ensures k !in DeleteStep(store, pattern) && '*' in pattern ==>
              exists i :: 0 <= i < |pattern| && pattern[i] == '*' && pattern[..i] <= k && EndsWith(k, pattern[i + 1..])
    ensures k in DeleteStep(store, pattern) ==> DeleteStep(store, pattern)[k] == store[k]
    ensures DeleteStep(store, pattern).Keys <= store.Keys
  {
    WildcardIsGlobIff(pattern, k);
    var i := StarAt(pattern);
    if pattern == "*" {
      assert pattern[..0] <= k && EndsWith(k, pattern[1..]);
    }
  }
}
