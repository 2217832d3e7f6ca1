/** Which entries a full layer gives up. */
module CachePolicies {
  import opened Prelude

  datatype CacheEntry = CacheEntry(key: string, createdAt: int, lastAccessed: int, accessCount: nat, ttl: int,
                                   sizeBytes: nat)

  datatype Strategy = LRU | LFU | TTL | Adaptive

  datatype Policy = Policy(strategy: Strategy, maxEntries: nat)

  /** The sort key of `a` is no greater than that of `b`. Adaptive compares access count, then last
      access, then size, larger sizes first. */
  predicate AtMost(s: Strategy, a: CacheEntry, b: CacheEntry) {
    match s
    case LRU => a.lastAccessed <= b.lastAccessed
    case LFU => a.accessCount <= b.accessCount
    case TTL => a.createdAt + a.ttl <= b.createdAt + b.ttl
    case Adaptive =>
      a.accessCount < b.accessCount ||
      (a.accessCount == b.accessCount &&
       (a.lastAccessed < b.lastAccessed || (a.lastAccessed == b.lastAccessed && a.sizeBytes >= b.sizeBytes)))
  }

  /** In front of the first entry that it does not exceed, so that equal entries keep their order. */
  function InsertSorted(s: Strategy, e: CacheEntry, sorted: seq<CacheEntry>): seq<CacheEntry> {
    if |sorted| == 0 || AtMost(s, e, sorted[0]) then [e] + sorted
    else [sorted[0]] + InsertSorted(s, e, sorted[1..])
  }

  function StableSort(s: Strategy, entries: seq<CacheEntry>): seq<CacheEntry> {
    if |entries| == 0 then [] else InsertSorted(s, entries[0], StableSort(s, entries[1..]))
  }

  function Keys(entries: seq<CacheEntry>): seq<string> {
    seq(|entries|, i requires 0 <= i < |entries| => entries[i].key)
  }

  function Victims(s: Strategy, entries: seq<CacheEntry>, count: nat): seq<string> {
    Keys(StableSort(s, entries)[..Min(count, |StableSort(s, entries)|)])
  }

  method SelectVictims(policy: Policy, entries: seq<CacheEntry>, count: nat) returns (victims: seq<string>)
    ensures victims == Victims(policy.strategy, entries, count)
  {
    var ordered := [];
    var i := |entries|;
    while i > 0
      invariant 0 <= i <= |entries|
      invariant ordered == StableSort(policy.strategy, entries[i..])
    {
      i := i - 1;
      assert entries[i..][0] == entries[i] && entries[i..][1..] == entries[i + 1..];
      ordered := InsertSorted(policy.strategy, entries[i], ordered);
    }
    victims := [];
    var taken := 0;
    while taken < count && taken < |ordered|
      invariant taken <= count && taken <= |ordered|
      invariant victims == Keys(ordered[..taken])
    {
      victims := victims + [ordered[taken].key];
      taken := taken + 1;
    }
    assert entries[0..] == entries;
  }

  ghost predicate Sorted(s: Strategy, entries: seq<CacheEntry>) {
    forall i, j :: 0 <= i <= j < |entries| ==> AtMost(s, entries[i], entries[j])
  }

  lemma {:induction false} InsertSortedAdds(s: Strategy, e: CacheEntry, sorted: seq<CacheEntry>)
    ensures multiset(InsertSorted(s, e, sorted)) == multiset(sorted) + multiset{e}
  {
    if |sorted| > 0 && !AtMost(s, e, sorted[0]) {
      InsertSortedAdds(s, e, sorted[1..]);
      assert sorted == [sorted[0]] + sorted[1..];
    }
  }

  lemma {:induction false} InsertSortedKeeps(s: Strategy, e: CacheEntry, sorted: seq<CacheEntry>)
    requires Sorted(s, sorted)
    ensures Sorted(s, InsertSorted(s, e, sorted))
  {
    if |sorted| > 0 && !AtMost(s, e, sorted[0]) {
      var rest := InsertSorted(s, e, sorted[1..]);
      InsertSortedKeeps(s, e, sorted[1..]);
      InsertSortedAdds(s, e, sorted[1..]);
      forall j | 0 <= j < |rest|
        ensures AtMost(s, sorted[0], rest[j])
      {
        assert rest[j] in multiset(rest);
        assert rest[j] == e || rest[j] in sorted[1..];
      }
    }
  }

  lemma {:induction false} StableSortSorts(s: Strategy, entries: seq<CacheEntry>)
    ensures Sorted(s, StableSort(s, entries))
    ensures multiset(StableSort(s, entries)) == multiset(entries)
    ensures |StableSort(s, entries)| == |entries|
  {
    if |entries| > 0 {
      StableSortSorts(s, entries[1..]);
      InsertSortedKeeps(s, entries[0], StableSort(s, entries[1..]));
      InsertSortedAdds(s, entries[0], StableSort(s, entries[1..]));
      assert entries == [entries[0]] + entries[1..];
    }
    assert |multiset(StableSort(s, entries))| == |multiset(entries)|;
  }

  ghost predicate DistinctKeys(entries: seq<CacheEntry>) {
    forall i, j :: 0 <= i < j < |entries| ==> entries[i].key != entries[j].key
  }

  lemma {:induction false} DistinctKeysPermute(a: seq<CacheEntry>, b: seq<CacheEntry>)
    requires DistinctKeys(a) && multiset(a) == multiset(b)
    ensures DistinctKeys(b)
  {
    forall i, j | 0 <= i < j < |b|
      ensures b[i].key != b[j].key
    {
      if b[i].key == b[j].key {
        SameKeySameEntry(a, b, i, j);
        MultiplicityOne(a, b[i]);
        CountedTwice(b, i, j);
        assert false;
      }
    }
  }

  lemma {:induction false} SameKeySameEntry(a: seq<CacheEntry>, b: seq<CacheEntry>, i: nat, j: nat)
    requires DistinctKeys(a) && multiset(a) == multiset(b) && i < |b| && j < |b| && b[i].key == b[j].key
    ensures b[i] == b[j]
  {
    assert b[i] in multiset(b) && b[j] in multiset(b);
    assert b[i] in a && b[j] in a;
  }

  lemma {:induction false} CountedTwice<T>(b: seq<T>, i: nat, j: nat)
    requires i < j < |b| && b[i] == b[j]
    ensures multiset(b)[b[i]] >= 2
  {
    assert b == b[..i] + [b[i]] + b[i + 1..j] + [b[j]] + b[j + 1..];
  }

  lemma {:induction false} MultiplicityOne(a: seq<CacheEntry>, e: CacheEntry)
    requires DistinctKeys(a)
    ensures multiset(a)[e] <= 1
  {
    if |a| > 0 {
      var n := |a| - 1;
      MultiplicityOne(a[..n], e);
      assert a == a[..n] + [a[n]];
      if a[n] == e {
        assert e !in a[..n];
      }
    }
  }

  lemma {:induction false} PrefixIsLeast(s: Strategy, ordered: seq<CacheEntry>, n: nat, a: CacheEntry, b: CacheEntry)
    requires n <= |ordered| && Sorted(s, ordered) && DistinctKeys(ordered)
    requires a in ordered && b in ordered && a.key in Keys(ordered[..n]) && b.key !in Keys(ordered[..n])
    ensures AtMost(s, a, b)
  {
    var i :| 0 <= i < |ordered| && ordered[i] == a;
    var j :| 0 <= j < |ordered| && ordered[j] == b;
    var x :| 0 <= x < n && Keys(ordered[..n])[x] == a.key;
    assert x == i;
    forall m | 0 <= m < n
      ensures ordered[m].key in Keys(ordered[..n])
    {
      assert Keys(ordered[..n])[m] == ordered[m].key;
    }
  }

  lemma {:induction false} SameMembers(a: seq<CacheEntry>, b: seq<CacheEntry>, e: CacheEntry)
    requires multiset(a) == multiset(b)
    ensures e in a <==> e in b
  {
    assert e in a <==> e in multiset(a);
  }

  /** For distinct keys and any count, the victims are that many distinct stored keys, or all of them. */
  lemma {:induction false} VictimsAreStored(s: Strategy, entries: seq<CacheEntry>, count: nat)
    requires DistinctKeys(entries)
    ensures var v := Victims(s, entries, count);
            && |v| == Min(count, |entries|)
            && (forall i, j :: 0 <= i < j < |v| ==> v[i] != v[j])
            && (forall k :: k in v ==> k in Keys(entries))
  {
    var ordered, v := StableSort(s, entries), Victims(s, entries, count);
    StableSortSorts(s, entries);
    DistinctKeysPermute(entries, ordered);
    forall k | k in v
      ensures k in Keys(entries)
    {
      var i :| 0 <= i < |v| && v[i] == k;
      SameMembers(entries, ordered, ordered[i]);
      var j :| 0 <= j < |entries| && entries[j] == ordered[i];
      assert Keys(entries)[j] == k;
    }
  }

  /** For any of the strategies, no survivor is ordered strictly before a victim. */
  lemma {:induction false} VictimsAreLeast(s: Strategy, entries: seq<CacheEntry>, count: nat, victim: CacheEntry,
                                           survivor: CacheEntry)
    requires DistinctKeys(entries) && victim in entries && survivor in entries
    requires victim.key in Victims(s, entries, count) && survivor.key !in Victims(s, entries, count)
    ensures AtMost(s, victim, survivor)
  {
    var ordered := StableSort(s, entries);
    StableSortSorts(s, entries);
    DistinctKeysPermute(entries, ordered);
    SameMembers(entries, ordered, victim);
    SameMembers(entries, ordered, survivor);
    PrefixIsLeast(s, ordered, Min(count, |ordered|), victim, survivor);
  }

  /** The same on the fields. Least recently used: no survivor was last used before a victim. Least frequently
      used: none was used less often. By time to live: none expires earlier. Adaptive: none was used less
      often; of those used as often none earlier; and of those used last at the same time none is larger. */
  lemma {:induction false} VictimsOnFields(s: Strategy, entries: seq<CacheEntry>, count: nat,
                                           victim: CacheEntry, survivor: CacheEntry)
    requires DistinctKeys(entries) && victim in entries && survivor in entries
    requires victim.key in Victims(s, entries, count) && survivor.key !in Victims(s, entries, count)
    ensures s.LRU? ==> victim.lastAccessed <= survivor.lastAccessed
    ensures s.LFU? ==> victim.accessCount <= survivor.accessCount
    ensures s.TTL? ==> victim.createdAt + victim.ttl <= survivor.createdAt + survivor.ttl
    ensures s.Adaptive? ==> victim.accessCount <= survivor.accessCount
    ensures s.Adaptive? && victim.accessCount == survivor.accessCount ==> victim.lastAccessed <= survivor.lastAccessed
    ensures s.Adaptive? && victim.accessCount == survivor.accessCount
            && victim.lastAccessed == survivor.lastAccessed ==>
              victim.sizeBytes >= survivor.sizeBytes
  {
    VictimsAreLeast(s, entries, count, victim, survivor);
  }

  /** Among entries that tie, those listed earlier go first. */
  lemma {:induction false} EarlierTiesGoFirst(s: Strategy, entries: seq<CacheEntry>, e: CacheEntry)
    requires forall i :: 0 <= i < |entries| ==> AtMost(s, e, entries[i])
    ensures StableSort(s, [e] + entries) == [e] + StableSort(s, entries)
  {
    var sorted := StableSort(s, entries);
    StableSortSorts(s, entries);
    assert ([e] + entries)[1..] == entries;
    if |sorted| > 0 {
      SameMembers(entries, sorted, sorted[0]);
    }
  }
}
