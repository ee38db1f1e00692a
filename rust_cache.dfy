/** The two stores of rust/src/cache.rs. `TimedCache` is a capacity-bounded
    LRU map (the `lru` crate's `LruCache`, modelled by its observable
    behaviour) whose entries all share one TTL; `GroupHistoryCache` keeps a
    bounded first-in-first-out log per group. */
module RustCache {
  import opened Wrappers
  import opened Machine
  import opened Clock

  // ---------------------------------------------------------------------------
  // The LRU map behind TimedCache

  datatype TimedEntry = TimedEntry(value: string, insertedAt: Instant)

  /** An `LruCache<String, CacheEntry>`: the entries, and their keys from least
      to most recently used. */
  datatype LruState = LruState(entries: map<string, TimedEntry>, order: seq<string>)

  predicate Distinct(s: seq<string>)
  {
    forall i, j :: 0 <= i < j < |s| ==> s[i] != s[j]
  }

  /** The recency order lists every stored key exactly once. */
  ghost predicate Coherent(st: LruState)
  {
    && Distinct(st.order)
    && (forall k :: k in st.entries <==> k in st.order)
  }

  /** The invariant every `LruCache` of capacity `cap` keeps. */
  ghost predicate Wf(st: LruState, cap: nat)
  {
    Coherent(st) && |st.entries| <= cap
  }

  /** `s` with `k` taken out, the others keeping their relative order. */
  function Without(s: seq<string>, k: string): (r: seq<string>)
    ensures forall x :: x in r <==> x in s && x != k
    ensures Distinct(s) ==> Distinct(r)
    ensures k !in s ==> r == s
    ensures |r| <= |s|
  {
    if s == [] then []
    else if s[0] == k then Without(s[1..], k)
    else
      var rest := Without(s[1..], k);
      assert Distinct(s) ==> s[0] !in s[1..];
      [s[0]] + rest
  }

  lemma {:induction false} WithoutAppended(s: seq<string>, k: string)
    ensures Without(s + [k], k) == Without(s, k)
  {
    if s == [] {
      assert [k][1..] == [];
    } else {
      assert (s + [k])[1..] == s[1..] + [k];
      WithoutAppended(s[1..], k);
    }
  }

  /** In a duplicate-free order, taking out the key at index `i` removes that
      one position: every other key keeps its relative order. */
  lemma {:induction false} WithoutRemovesOne(s: seq<string>, k: string, i: nat)
    requires Distinct(s) && i < |s| && s[i] == k
    ensures Without(s, k) == s[..i] + s[i + 1..]
  {
    if i == 0 {
      assert k !in s[1..];
      assert s[..0] + s[1..] == s[1..];
    } else {
      assert s[0] != k;
      var tail := s[1..];
      assert Distinct(tail) by {
        forall p, q | 0 <= p < q < |tail|
          ensures tail[p] != tail[q]
        {
          assert tail[p] == s[p + 1] && tail[q] == s[q + 1];
        }
      }
      WithoutRemovesOne(tail, k, i - 1);
      assert tail[..i - 1] == s[1..i] && tail[i..] == s[i + 1..];
      assert [s[0]] + (s[1..i] + s[i + 1..]) == s[..i] + s[i + 1..];
    }
  }

  /** `WithoutRemovesOne` at whatever index the key sits. */
  lemma WithoutRemovesAt(s: seq<string>, k: string)
    requires Distinct(s)
    ensures forall i :: 0 <= i < |s| && s[i] == k ==> Without(s, k) == s[..i] + s[i + 1..]
  {
    forall i | 0 <= i < |s| && s[i] == k
      ensures Without(s, k) == s[..i] + s[i + 1..]
    {
      WithoutRemovesOne(s, k, i);
    }
  }

  lemma {:induction false} WithoutTwice(s: seq<string>, k: string)
    ensures Without(Without(s, k), k) == Without(s, k)
  {
    var once := Without(s, k);
    assert k !in once;
  }

  /** `LruCache::get` on a present key: it becomes the most recently used. */
  function Promote(st: LruState, key: string): (r: LruState)
    requires key in st.entries
    ensures r.entries == st.entries
    ensures Coherent(st) ==> Coherent(r)
    ensures |r.order| > 0 && r.order[|r.order| - 1] == key
  {
    LruState(st.entries, Without(st.order, key) + [key])
  }

  /** Promotion moves the key from its place to the most recent end; every
      other key keeps its relative order. */
  lemma PromoteOrder(st: LruState, key: string, i: nat)
    requires key in st.entries && Distinct(st.order) && i < |st.order| && st.order[i] == key
    ensures Promote(st, key).order == st.order[..i] + st.order[i + 1..] + [key]
  {
    WithoutRemovesOne(st.order, key, i);
  }

  /** `LruCache::pop`: the key leaves both the map and the recency order. */
  function Pop(st: LruState, key: string): (r: LruState)
    ensures r.entries == st.entries - {key}
    ensures Coherent(st) ==> Coherent(r)
    ensures forall cap: nat :: Wf(st, cap) ==> Wf(r, cap)
    ensures key !in st.order ==> r.order == st.order
  {
    LruState(st.entries - {key}, Without(st.order, key))
  }

  /** Popping takes the key out of its place; every other key keeps its
      relative order. */
  lemma PopOrder(st: LruState, key: string, i: nat)
    requires Distinct(st.order) && i < |st.order| && st.order[i] == key
    ensures Pop(st, key).order == st.order[..i] + st.order[i + 1..]
  {
    WithoutRemovesOne(st.order, key, i);
  }

  /** `LruCache::put`: a present key is overwritten and promoted; a new key
      is added as most recently used, after evicting the least recently used
      key when the cache is full. */
  function Put(st: LruState, cap: nat, key: string, e: TimedEntry): (r: LruState)
    requires Wf(st, cap) && cap >= 1
    ensures Wf(r, cap)
    ensures key in r.entries && r.entries[key] == e
    ensures |r.order| > 0 && r.order[|r.order| - 1] == key
    ensures forall k :: k in r.entries && k != key ==> k in st.entries && r.entries[k] == st.entries[k]
  {
    if key in st.entries then
      LruState(st.entries[key := e], Without(st.order, key) + [key])
    else if |st.entries| < cap then
      AppendFreshKeepsCoherent(st, key, e);
      LruState(st.entries[key := e], st.order + [key])
    else
      EvictKeepsWf(st, cap, key, e);
      LruState((st.entries - {st.order[0]})[key := e], st.order[1..] + [key])
  }

  /** Adding a new key at the most recent end keeps the order coherent. */
  lemma AppendFreshKeepsCoherent(st: LruState, key: string, e: TimedEntry)
    requires Coherent(st) && key !in st.entries
    ensures Coherent(LruState(st.entries[key := e], st.order + [key]))
    ensures |st.entries[key := e]| == |st.entries| + 1
  {
    assert key !in st.order;
  }

  /** Evicting the least recently used key of a full cache to admit a new key
      keeps the capacity invariant. */
  lemma EvictKeepsWf(st: LruState, cap: nat, key: string, e: TimedEntry)
    requires Wf(st, cap) && cap >= 1 && key !in st.entries && |st.entries| >= cap
    ensures |st.order| > 0 && st.order[0] in st.entries
    ensures Wf(LruState((st.entries - {st.order[0]})[key := e], st.order[1..] + [key]), cap)
  {
    assert st.entries.Keys != {};
    var k0 :| k0 in st.entries;
    assert k0 in st.order;
    var oldest := st.order[0];
    var rest := st.order[1..];
    var entries := (st.entries - {oldest})[key := e];
    var order := rest + [key];
    assert oldest !in rest;
    assert key !in st.order;
    assert Distinct(order);
    forall k
      ensures k in entries <==> k in order
    {
      assert k in st.order <==> k == oldest || k in rest;
    }
    assert |st.entries - {oldest}| == |st.entries| - 1;
  }

  /** The order after `put`: a present key moves from its place to the most
      recent end; a new key joins at that end, and at a full cache the least
      recently used key leaves the front. The other keys keep their relative
      order. */
  lemma PutOrder(st: LruState, cap: nat, key: string, e: TimedEntry)
    requires Wf(st, cap) && cap >= 1
    ensures key in st.entries ==>
              forall i :: 0 <= i < |st.order| && st.order[i] == key ==>
                Put(st, cap, key, e).order == st.order[..i] + st.order[i + 1..] + [key]
    ensures key !in st.entries && |st.entries| < cap ==> Put(st, cap, key, e).order == st.order + [key]
    ensures key !in st.entries && |st.entries| >= cap ==> Put(st, cap, key, e).order == st.order[1..] + [key]
  {
    if key in st.entries {
      WithoutRemovesAt(st.order, key);
    }
  }

  /** `put` loses a key only when a new key arrives at a full cache, and then
      it loses exactly one: the least recently used. */
  lemma PutEvictsOnlyLeastRecent(st: LruState, cap: nat, key: string, e: TimedEntry)
    requires Wf(st, cap) && cap >= 1
    ensures var r := Put(st, cap, key, e);
            if key !in st.entries && |st.entries| == cap
            then r.entries.Keys == st.entries.Keys - {st.order[0]} + {key}
            else r.entries.Keys == st.entries.Keys + {key}
  {
  }

  // ---------------------------------------------------------------------------
  // Recency: the order sorts keys by the time they were last used

  /** `order` lists its keys by strictly increasing time of last use. */
  predicate ByLastUse(order: seq<string>, lastUse: map<string, nat>)
  {
    && (forall i :: 0 <= i < |order| ==> order[i] in lastUse)
    && (forall i, j :: 0 <= i < j < |order| && order[i] in lastUse && order[j] in lastUse ==>
          lastUse[order[i]] < lastUse[order[j]])
  }

  /** Every recorded use happened before `now`. */
  predicate UsedBefore(lastUse: map<string, nat>, now: nat)
  {
    forall k :: k in lastUse ==> lastUse[k] < now
  }

  lemma ByLastUseDistinct(order: seq<string>, lastUse: map<string, nat>)
    requires ByLastUse(order, lastUse)
    ensures Distinct(order)
  {
  }

  /** Dropping one position keeps the others sorted by last use. */
  lemma ByLastUseRemove(s: seq<string>, lastUse: map<string, nat>, i: nat)
    requires ByLastUse(s, lastUse) && i < |s|
    ensures ByLastUse(s[..i] + s[i + 1..], lastUse)
  {
    var r := s[..i] + s[i + 1..];
    forall p | 0 <= p < |r|
      ensures r[p] == (if p < i then s[p] else s[p + 1])
    {
    }
  }

  /** A key used at `now`, later than every recorded use, goes last. */
  lemma ByLastUseTouch(s: seq<string>, lastUse: map<string, nat>, key: string, now: nat)
    requires ByLastUse(s, lastUse) && key !in s && UsedBefore(lastUse, now)
    ensures ByLastUse(s + [key], lastUse[key := now])
  {
  }

  /** `LruCache::get` keeps the order sorted once the key's use is recorded. */
  lemma PromoteByLastUse(st: LruState, key: string, lastUse: map<string, nat>, now: nat)
    requires key in st.entries && ByLastUse(st.order, lastUse) && UsedBefore(lastUse, now)
    ensures ByLastUse(Promote(st, key).order, lastUse[key := now])
  {
    ByLastUseDistinct(st.order, lastUse);
    var rest := Without(st.order, key);
    if i :| 0 <= i < |st.order| && st.order[i] == key {
      WithoutRemovesOne(st.order, key, i);
      ByLastUseRemove(st.order, lastUse, i);
    }
    ByLastUseTouch(rest, lastUse, key, now);
  }

  /** `LruCache::pop` keeps the order sorted. */
  lemma PopByLastUse(st: LruState, key: string, lastUse: map<string, nat>)
    requires ByLastUse(st.order, lastUse)
    ensures ByLastUse(Pop(st, key).order, lastUse)
  {
    ByLastUseDistinct(st.order, lastUse);
    if i :| 0 <= i < |st.order| && st.order[i] == key {
      WithoutRemovesOne(st.order, key, i);
      ByLastUseRemove(st.order, lastUse, i);
    }
  }

  /** `LruCache::put` keeps the order sorted once the key's use is recorded. */
  lemma PutByLastUse(st: LruState, cap: nat, key: string, e: TimedEntry, lastUse: map<string, nat>, now: nat)
    requires Wf(st, cap) && cap >= 1
    requires ByLastUse(st.order, lastUse) && UsedBefore(lastUse, now)
    ensures ByLastUse(Put(st, cap, key, e).order, lastUse[key := now])
  {
    var r := Put(st, cap, key, e);
    if key in st.entries {
      assert r.order == Promote(st, key).order;
      PromoteByLastUse(st, key, lastUse, now);
    } else if |st.entries| < cap {
      assert key !in st.order;
      ByLastUseTouch(st.order, lastUse, key, now);
    } else {
      EvictKeepsWf(st, cap, key, e);
      var rest := st.order[1..];
      assert r.order == rest + [key];
      ByLastUseRemove(st.order, lastUse, 0);
      assert st.order[..0] + rest == rest;
      assert key !in rest;
      ByLastUseTouch(rest, lastUse, key, now);
    }
  }

  /** LRU eviction: the one key `put` evicts is the key whose last use is
      older than that of every other stored key. */
  lemma PutEvictsLeastRecentlyUsed(st: LruState, cap: nat, key: string, e: TimedEntry,
                                   lastUse: map<string, nat>, evicted: string, other: string)
    requires Wf(st, cap) && cap >= 1 && ByLastUse(st.order, lastUse)
    requires evicted in st.entries && evicted !in Put(st, cap, key, e).entries
    requires other in st.entries && other != evicted
    ensures evicted in lastUse && other in lastUse && lastUse[evicted] < lastUse[other]
  {
    PutEvictsOnlyLeastRecent(st, cap, key, e);
    assert evicted == st.order[0];
    var j :| 0 <= j < |st.order| && st.order[j] == other;
    assert j != 0;
  }

  // ---------------------------------------------------------------------------
  // TimedCache

  /** An entry may be returned while strictly less than the TTL has elapsed
      since it was inserted. */
  predicate Fresh(e: TimedEntry, now: Instant, ttl: nat)
  {
    Elapsed(e.insertedAt, now) < ttl
  }

  /** What `TimedCache::get` returns. */
  function TimedLookup(st: LruState, key: string, now: Instant, ttl: nat): Option<string>
  {
    if key in st.entries && Fresh(st.entries[key], now, ttl) then Some(st.entries[key].value) else None
  }

  /** The cache after `TimedCache::get`: `LruCache::get` promotes a hit, and a
      hit that is too old is then popped. */
  function AfterTimedLookup(st: LruState, key: string, now: Instant, ttl: nat): LruState
  {
    if key !in st.entries then st
    else if Fresh(st.entries[key], now, ttl) then Promote(st, key)
    else Pop(Promote(st, key), key)
  }

  /** A miss changes nothing; a fresh hit only promotes the key; a stale hit
      removes the key exactly as `pop` would from the original cache, so the
      promotion leaves no trace on the order of the others. */
  lemma {:induction false} TimedLookupEffect(st: LruState, key: string, now: Instant, ttl: nat)
    ensures key !in st.entries ==> AfterTimedLookup(st, key, now, ttl) == st && TimedLookup(st, key, now, ttl).None?
    ensures key in st.entries && Fresh(st.entries[key], now, ttl) ==>
              AfterTimedLookup(st, key, now, ttl) == Promote(st, key) &&
              TimedLookup(st, key, now, ttl) == Some(st.entries[key].value)
    ensures key in st.entries && !Fresh(st.entries[key], now, ttl) ==>
              AfterTimedLookup(st, key, now, ttl) == Pop(st, key) && TimedLookup(st, key, now, ttl).None?
  {
    if key in st.entries && !Fresh(st.entries[key], now, ttl) {
      WithoutAppended(Without(st.order, key), key);
      WithoutTwice(st.order, key);
    }
  }

  /** A hit, fresh or stale, keeps the capacity bound and the order sorted by
      last use once the key's use is recorded. */
  lemma TimedLookupByLastUse(st: LruState, cap: nat, key: string, now: Instant, ttl: nat,
                             lastUse: map<string, nat>, uses: nat)
    requires Wf(st, cap) && ByLastUse(st.order, lastUse) && UsedBefore(lastUse, uses)
    requires key in st.entries
    ensures var after := AfterTimedLookup(st, key, now, ttl);
            Wf(after, cap) && ByLastUse(after.order, lastUse[key := uses])
    ensures UsedBefore(lastUse[key := uses], uses + 1)
  {
    PromoteKeepsBounds(st, cap, key, lastUse, uses);
    if !Fresh(st.entries[key], now, ttl) {
      PopKeepsBounds(Promote(st, key), cap, key, lastUse[key := uses]);
    }
  }

  lemma PromoteKeepsBounds(st: LruState, cap: nat, key: string, lastUse: map<string, nat>, uses: nat)
    requires Wf(st, cap) && ByLastUse(st.order, lastUse) && UsedBefore(lastUse, uses)
    requires key in st.entries
    ensures Wf(Promote(st, key), cap) && ByLastUse(Promote(st, key).order, lastUse[key := uses])
    ensures UsedBefore(lastUse[key := uses], uses + 1)
  {
    PromoteByLastUse(st, key, lastUse, uses);
  }

  lemma PopKeepsBounds(st: LruState, cap: nat, key: string, lastUse: map<string, nat>)
    requires Wf(st, cap) && ByLastUse(st.order, lastUse)
    ensures Wf(Pop(st, key), cap) && ByLastUse(Pop(st, key).order, lastUse)
  {
    PopByLastUse(st, key, lastUse);
  }

  /** With a TTL of zero seconds nothing is ever returned. */
  lemma ZeroTtlAlwaysMisses(st: LruState, key: string, now: Instant)
    ensures TimedLookup(st, key, now, 0 * NANOS_PER_SEC).None?
  {
  }

  /** `TimedCache::new`: a capacity of zero becomes 100. */
  function EffectiveCapacity(capacity: u32): (cap: nat)
    ensures cap >= 1
    ensures capacity == 0 ==> cap == 100
    ensures capacity != 0 ==> cap == capacity as nat
    ensures cap < U32_MODULUS
  {
    if capacity == 0 then 100 else capacity as nat
  }

  /** The eviction order of a capacity-2 cache: after `set a`, `set b`,
      `get a` and `set c`, the key `b` has been evicted and `a` and `c` remain. */
  lemma EvictionOrderExample(va: string, vb: string, vc: string, t: Instant, ttl: nat)
    requires 0 < ttl
    ensures var s0 := LruState(map[], []);
            var s1 := Put(s0, 2, "a", TimedEntry(va, t));
            var s2 := Put(s1, 2, "b", TimedEntry(vb, t));
            var s3 := AfterTimedLookup(s2, "a", t, ttl);
            Wf(s3, 2) &&
            var s4 := Put(s3, 2, "c", TimedEntry(vc, t));
            "b" !in s4.entries && "a" in s4.entries && "c" in s4.entries
  {
    var ea, eb, ec := TimedEntry(va, t), TimedEntry(vb, t), TimedEntry(vc, t);
    ExampleFill(ea, eb);
    var s2 := LruState(map["a" := ea, "b" := eb], ["a", "b"]);
    assert Fresh(s2.entries["a"], t, ttl);
    assert AfterTimedLookup(s2, "a", t, ttl) == Promote(s2, "a");
    ExampleTouch(ea, eb);
    ExampleEvict(ea, eb, ec);
  }

  lemma ExampleFill(ea: TimedEntry, eb: TimedEntry)
    ensures Wf(LruState(map[], []), 2)
    ensures Put(Put(LruState(map[], []), 2, "a", ea), 2, "b", eb) == LruState(map["a" := ea, "b" := eb], ["a", "b"])
  {
    var s1 := Put(LruState(map[], []), 2, "a", ea);
    assert s1.order == ["a"];
    assert s1 == LruState(map["a" := ea], ["a"]);
    var s2 := Put(s1, 2, "b", eb);
    assert s2.order == ["a"] + ["b"];
  }

  lemma ExampleTouch(ea: TimedEntry, eb: TimedEntry)
    ensures var s3 := Promote(LruState(map["a" := ea, "b" := eb], ["a", "b"]), "a");
            s3 == LruState(map["a" := ea, "b" := eb], ["b", "a"]) && Wf(s3, 2)
  {
    var s2 := LruState(map["a" := ea, "b" := eb], ["a", "b"]);
    assert Distinct(s2.order) && s2.order[0] == "a";
    PromoteOrder(s2, "a", 0);
    assert s2.order[1..] == ["b"];
    assert |map["a" := ea, "b" := eb]| == 2;
  }

  lemma ExampleEvict(ea: TimedEntry, eb: TimedEntry, ec: TimedEntry)
    ensures var s3 := LruState(map["a" := ea, "b" := eb], ["b", "a"]);
            Wf(s3, 2) && Put(s3, 2, "c", ec).entries == map["a" := ea, "c" := ec]
  {
    var s3 := LruState(map["a" := ea, "b" := eb], ["b", "a"]);
    assert |s3.entries| == 2 && s3.order[0] == "b";
    assert (s3.entries - {"b"})["c" := ec] == map["a" := ea, "c" := ec];
  }

  /** The TTL-gated LRU store. */
  class TimedCache {
    var inner: LruState
    const capacity: nat
    const ttl: nat
    /** When each key was last used (read or written), counted in calls. */
    ghost var lastUse: map<string, nat>
    /** The number of uses so far: the next use is recorded at this count. */
    ghost var uses: nat

    /** The capacity bound, and the recency order sorted by last use. */
    ghost predicate Valid()
      reads this
    {
      && Wf(inner, capacity) && 1 <= capacity < U32_MODULUS
      && ByLastUse(inner.order, lastUse) && UsedBefore(lastUse, uses)
    }

    /** `TimedCache::new(capacity, ttl_seconds)`. */
    constructor (capacity: u32, ttlSeconds: u32)
      ensures Valid()
      ensures inner == LruState(map[], [])
      ensures this.capacity == EffectiveCapacity(capacity)
      ensures ttl == ttlSeconds as nat * NANOS_PER_SEC
    {
      inner := LruState(map[], []);
      this.capacity := EffectiveCapacity(capacity);
      ttl := ttlSeconds as nat * NANOS_PER_SEC;
      lastUse := map[];
      uses := 0;
    }

    /** `get`: the value while fresh (promoting the key); a stale entry is popped.
        A hit, fresh or stale, counts as a use of the key. */
    method Get(key: string, now: Instant) returns (r: Option<string>)
      requires Valid()
      modifies this
      ensures Valid()
      ensures r == TimedLookup(old(inner), key, now, ttl)
      ensures inner == AfterTimedLookup(old(inner), key, now, ttl)
      ensures key in old(inner.entries) ==> lastUse == old(lastUse)[key := old(uses)] && uses == old(uses) + 1
      ensures key !in old(inner.entries) ==> lastUse == old(lastUse) && uses == old(uses)
    {
      if key in inner.entries {
        ghost var before, stamps := inner, lastUse[key := uses];
        TimedLookupByLastUse(before, capacity, key, now, ttl, lastUse, uses);
        var promoted := Promote(inner, key);
        var entry := promoted.entries[key];
        if Elapsed(entry.insertedAt, now) < ttl {
          assert promoted == AfterTimedLookup(before, key, now, ttl);
          inner, lastUse, uses := promoted, stamps, uses + 1;
          return Some(entry.value);
        }
        var popped := Pop(promoted, key);
        assert popped == AfterTimedLookup(before, key, now, ttl);
        inner, lastUse, uses := popped, stamps, uses + 1;
      }
      return None;
    }

    /** `set`: stores the value stamped `now` as the most recently used key.
        A key it evicts is one used less recently than every other stored key. */
    method Set(key: string, value: string, now: Instant)
      requires Valid()
      modifies this
      ensures Valid()
      ensures inner == Put(old(inner), capacity, key, TimedEntry(value, now))
      ensures lastUse == old(lastUse)[key := old(uses)] && uses == old(uses) + 1
      ensures forall k, k' :: k in old(inner.entries) && k !in inner.entries && k' in old(inner.entries) && k' != k ==>
                k in old(lastUse) && k' in old(lastUse) && old(lastUse)[k] < old(lastUse)[k']
    {
      var e := TimedEntry(value, now);
      forall k, k' | k in inner.entries && k !in Put(inner, capacity, key, e).entries && k' in inner.entries && k' != k
        ensures k in lastUse && k' in lastUse && lastUse[k] < lastUse[k']
      {
        PutEvictsLeastRecentlyUsed(inner, capacity, key, e, lastUse, k, k');
      }
      PutByLastUse(inner, capacity, key, e, lastUse, uses);
      inner := Put(inner, capacity, key, e);
      lastUse := lastUse[key := uses];
      uses := uses + 1;
    }

    /** `len`: entries held (stale ones not yet read included), never above capacity. */
    method Len() returns (n: nat)
      requires Valid()
      ensures n == |inner.entries|
      ensures n <= capacity
    {
      n := AsU32(|inner.entries|);
    }

    /** `clear`. */
    method Clear()
      requires Valid()
      modifies this
      ensures Valid()
      ensures inner == LruState(map[], [])
      ensures lastUse == old(lastUse) && uses == old(uses)
    {
      inner := LruState(map[], []);
    }
  }

  // ---------------------------------------------------------------------------
  // GroupHistoryCache

  datatype HistoryEntry = HistoryEntry(timestamp: u32, content: string)

  /** One `add` on a group's log: push at the tail, then drop index 0 if the
      log is longer than `max`. */
  function Appended(h: seq<HistoryEntry>, e: HistoryEntry, max: nat): seq<HistoryEntry>
  {
    var pushed := h + [e];
    if |pushed| > max then pushed[1..] else pushed
  }

  /** The last `max` elements of `s` (all of `s` if it is no longer). */
  function LastN(s: seq<HistoryEntry>, max: nat): (r: seq<HistoryEntry>)
    ensures |r| <= max && |r| <= |s|
    ensures r == s[|s| - |r|..]
  {
    if |s| <= max then s else s[|s| - max..]
  }

  /** The log built by adding `es` one at a time to an absent group. */
  function AddAll(es: seq<HistoryEntry>, max: nat): seq<HistoryEntry>
  {
    if es == [] then [] else Appended(AddAll(es[..|es| - 1], max), es[|es| - 1], max)
  }

  /** One `add` on a log already within the bound keeps it the last `max`
      arrivals: a log of length at most `max` keeps its bound, loses at most its
      oldest entry, and never reorders. */
  lemma AppendedKeepsLastN(arrived: seq<HistoryEntry>, e: HistoryEntry, max: nat)
    ensures Appended(LastN(arrived, max), e, max) == LastN(arrived + [e], max)
  {
    var s := arrived + [e];
    if |arrived| <= max {
      assert LastN(arrived, max) == arrived;
      if |s| > max {
        assert |arrived| == max;
        assert LastN(s, max) == s[1..];
      } else {
        assert LastN(s, max) == s;
      }
    } else {
      var kept := arrived[|arrived| - max..];
      assert LastN(arrived, max) == kept;
      assert LastN(s, max) == s[|s| - max..];
      if max == 0 {
        assert kept == [] && s[|s|..] == [];
      } else {
        assert s[|s| - max..] == arrived[|arrived| + 1 - max..] + [e];
        assert (kept + [e])[1..] == arrived[|arrived| + 1 - max..] + [e];
      }
    }
  }

  /** Whatever the arrivals, a group's log is exactly its last `max` arrivals
      in arrival order (timestamps play no part). */
  lemma {:induction false} AddAllIsLastN(es: seq<HistoryEntry>, max: nat)
    ensures AddAll(es, max) == LastN(es, max)
  {
    if es != [] {
      var init := es[..|es| - 1];
      var last := es[|es| - 1];
      assert init + [last] == es;
      calc {
        AddAll(es, max);
        Appended(AddAll(init, max), last, max);
        { AddAllIsLastN(init, max); }
        Appended(LastN(init, max), last, max);
        { AppendedKeepsLastN(init, last, max); }
        LastN(init + [last], max);
      }
    }
  }

  /** With a bound of 3, adding E1..E4 leaves [E2, E3, E4]. */
  lemma FourIntoThree(e1: HistoryEntry, e2: HistoryEntry, e3: HistoryEntry, e4: HistoryEntry)
    ensures AddAll([e1, e2, e3, e4], 3) == [e2, e3, e4]
  {
    AddAllIsLastN([e1, e2, e3, e4], 3);
  }

  /** The per-group logs. */
  class GroupHistoryCache {
    var groups: map<string, seq<HistoryEntry>>
    const maxEntriesPerGroup: nat

    ghost predicate Valid()
      reads this
    {
      forall g :: g in groups ==> |groups[g]| <= maxEntriesPerGroup
    }

    /** The log of `group`, empty when the group is unknown. */
    function History(group: string): seq<HistoryEntry>
      reads this
    {
      if group in groups then groups[group] else []
    }

    /** `GroupHistoryCache::new(max_entries)`. */
    constructor (maxEntries: u32)
      ensures Valid()
      ensures groups == map[]
      ensures maxEntriesPerGroup == maxEntries as nat
    {
      groups := map[];
      maxEntriesPerGroup := maxEntries as nat;
    }

    /** `add`: appends to the group's log (creating it), then drops the
        oldest entry if the log is over the bound; other groups are untouched. */
    method Add(group: string, entry: HistoryEntry)
      requires Valid()
      modifies this
      ensures Valid()
      ensures groups == old(groups)[group := Appended(old(History(group)), entry, maxEntriesPerGroup)]
    {
      var history := if group in groups then groups[group] else [];
      history := history + [entry];
      if |history| > maxEntriesPerGroup {
        history := history[1..];
      }
      groups := groups[group := history];
    }

    /** `get`: a copy of the group's log, empty for an unknown group. */
    method Get(group: string) returns (h: seq<HistoryEntry>)
      ensures group !in groups ==> h == []
      ensures group in groups ==> h == groups[group]
    {
      h := if group in groups then groups[group] else [];
    }

    /** `clear_group`: drops that one group, if present. */
    method ClearGroup(group: string)
      requires Valid()
      modifies this
      ensures Valid()
      ensures groups == old(groups) - {group}
    {
      groups := groups - {group};
    }
  }
}
