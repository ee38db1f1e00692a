/** The TTL-only store of openclaw-rs (`Cache` in openclaw-rs/src/cache.rs):
    an unbounded string map whose entries each carry an optional expiry
    instant, a mutable default TTL, lazy eviction on read and an explicit
    sweep. */
module TtlCache {
  import opened Wrappers
  import opened Machine
  import opened Clock

  /** What the store keeps per key. */
  datatype CacheEntry = CacheEntry(value: string, expiresAt: Option<Instant>)

  type Store = map<string, CacheEntry>

  /** An entry may be returned at `now` unless `now` is strictly past its expiry. */
  predicate Live(e: CacheEntry, now: Instant)
  {
    e.expiresAt.None? || now <= e.expiresAt.value
  }

  /** The expiry `set` records: the call's own TTL if given, else the default
      TTL if one is set, else none; a TTL counts from `now`. */
  function ExpiryFor(ttlMs: Option<u64>, defaultTtl: Option<u64>, now: Instant): (r: Option<Instant>)
    ensures ttlMs.Some? ==> r == Some(now + ttlMs.value as nat * NANOS_PER_MILLI)
    ensures ttlMs.None? && defaultTtl.Some? ==> r == Some(now + defaultTtl.value as nat * NANOS_PER_MILLI)
    ensures r.None? <==> ttlMs.None? && defaultTtl.None?
  {
    var chosen := if ttlMs.Some? then ttlMs else defaultTtl;
    match chosen
    case None => None
    case Some(ms) => Some(now + ms as nat * NANOS_PER_MILLI)
  }

  /** What `get` returns. */
  function Lookup(store: Store, key: string, now: Instant): Option<string>
  {
    if key in store && Live(store[key], now) then Some(store[key].value) else None
  }

  /** The store after `get`: an expired entry under `key` is dropped. */
  function AfterLookup(store: Store, key: string, now: Instant): Store
  {
    if key in store && !Live(store[key], now) then store - {key} else store
  }

  /** The store after `cleanup_expired`: the entries that are still live. */
  function Sweep(store: Store, now: Instant): Store
  {
    map k | k in store && Live(store[k], now) :: store[k]
  }

  /** Lazy eviction: `get` returns the value exactly when the key holds a live
      entry, and otherwise leaves no expired entry behind under that key;
      every other key is untouched. */
  lemma LookupSemantics(store: Store, key: string, now: Instant)
    ensures Lookup(store, key, now).Some? <==> key in store && Live(store[key], now)
    ensures Lookup(store, key, now).Some? ==> Lookup(store, key, now).value == store[key].value
    ensures key in AfterLookup(store, key, now) <==> Lookup(store, key, now).Some?
    ensures forall k :: k != key ==> (k in AfterLookup(store, key, now) <==> k in store)
    ensures forall k :: k in AfterLookup(store, key, now) ==> AfterLookup(store, key, now)[k] == store[k]
  {
  }

  /** Once an entry has expired it stays expired: time never revives it. */
  lemma ExpiredStaysExpired(e: CacheEntry, t: Instant, t': Instant)
    requires t <= t' && !Live(e, t)
    ensures !Live(e, t')
  {
  }

  /** TTL correctness: a value stored with an effective TTL of `ms` milliseconds
      at `t` is returned at `t'` exactly while `t'` is at most `ms` after `t`
      (the boundary instant itself still returns it); with no effective TTL it
      is always returned. */
  lemma SetThenLookup(store: Store, key: string, value: string, ttlMs: Option<u64>,
                      defaultTtl: Option<u64>, t: Instant, t': Instant)
    ensures var s := store[key := CacheEntry(value, ExpiryFor(ttlMs, defaultTtl, t))];
            var chosen := if ttlMs.Some? then ttlMs else defaultTtl;
            Lookup(s, key, t') == (if chosen.None? || t' <= t + chosen.value as nat * NANOS_PER_MILLI
                                   then Some(value) else None)
  {
  }

  /** The sweep keeps exactly the live entries, unchanged. */
  lemma SweepKeepsExactlyLive(store: Store, now: Instant)
    ensures forall k :: k in Sweep(store, now) <==> k in store && Live(store[k], now)
    ensures forall k :: k in Sweep(store, now) ==> Sweep(store, now)[k] == store[k]
  {
  }

  /** The keys left by a sweep are exactly those `get` would return a value for. */
  lemma SweptKeysAreReadable(store: Store, now: Instant)
    ensures forall k :: k in Sweep(store, now) <==> Lookup(store, k, now).Some?
  {
  }

  /** Sweeping twice at the same instant is sweeping once. */
  lemma SweepIdempotent(store: Store, now: Instant)
    ensures Sweep(Sweep(store, now), now) == Sweep(store, now)
  {
    var once := Sweep(store, now);
    assert Sweep(once, now).Keys == once.Keys;
  }

  /** A sweep is invisible to `get`: every key reads the same before and after. */
  lemma SweepPreservesLookup(store: Store, key: string, now: Instant)
    ensures Lookup(Sweep(store, now), key, now) == Lookup(store, key, now)
  {
  }

  /** The in-place store. Locking is not modelled: each method is one atomic
      transition of the map. */
  class Cache {
    var store: Store
    var defaultTtl: Option<u64>

    /** `Cache::new`: empty, with no default TTL. */
    constructor ()
      ensures store == map[] && defaultTtl == None
    {
      store := map[];
      defaultTtl := None;
    }

    /** `set_default_ttl`: replaces the default; stored expiries are untouched. */
    method SetDefaultTtl(ttlMs: Option<u64>)
      modifies this
      ensures defaultTtl == ttlMs
      ensures store == old(store)
    {
      defaultTtl := ttlMs;
    }

    /** `set`: inserts or wholly replaces the entry under `key`. */
    method Set(key: string, value: string, ttlMs: Option<u64>, now: Instant)
      modifies this
      ensures store == old(store)[key := CacheEntry(value, ExpiryFor(ttlMs, old(defaultTtl), now))]
      ensures defaultTtl == old(defaultTtl)
    {
      var expiresAt := ExpiryFor(ttlMs, defaultTtl, now);
      store := store[key := CacheEntry(value, expiresAt)];
    }

    /** `get`: the value if the entry is live; an expired entry is removed. */
    method Get(key: string, now: Instant) returns (r: Option<string>)
      modifies this
      ensures r == Lookup(old(store), key, now)
      ensures store == AfterLookup(old(store), key, now)
      ensures defaultTtl == old(defaultTtl)
    {
      if key in store {
        var entry := store[key];
        if entry.expiresAt.Some? && now > entry.expiresAt.value {
          store := store - {key};
          return None;
        }
        return Some(entry.value);
      }
      return None;
    }

    /** `delete`: reports whether the key was present; afterwards it is not. */
    method Delete(key: string) returns (removed: bool)
      modifies this
      ensures removed <==> key in old(store)
      ensures store == old(store) - {key}
      ensures defaultTtl == old(defaultTtl)
    {
      removed := key in store;
      store := store - {key};
    }

    /** `has`: `get(key).is_some()`, eviction included. */
    method Has(key: string, now: Instant) returns (present: bool)
      modifies this
      ensures present <==> Lookup(old(store), key, now).Some?
      ensures store == AfterLookup(old(store), key, now)
      ensures defaultTtl == old(defaultTtl)
    {
      var r := Get(key, now);
      present := r.Some?;
    }

    /** `keys`: sweeps, then lists every remaining key once, in no particular order. */
    method Keys(now: Instant) returns (ks: seq<string>)
      modifies this
      ensures store == Sweep(old(store), now)
      ensures forall k :: k in ks <==> k in store
      ensures forall i, j :: 0 <= i < j < |ks| ==> ks[i] != ks[j]
      ensures defaultTtl == old(defaultTtl)
    {
      CleanupExpired(now);
      ks := [];
      var rest := store.Keys;
      while rest != {}
        invariant forall k :: k in store <==> k in rest || k in ks
        invariant forall k :: k in ks ==> k !in rest
        invariant forall i, j :: 0 <= i < j < |ks| ==> ks[i] != ks[j]
        decreases rest
      {
        var k :| k in rest;
        ks := ks + [k];
        rest := rest - {k};
      }
    }

    /** `clear`. */
    method Clear()
      modifies this
      ensures store == map[]
      ensures defaultTtl == old(defaultTtl)
    {
      store := map[];
    }

    /** `size`: entries physically held (expired ones included), as a `u32`. */
    method Size() returns (n: nat)
      ensures n == AsU32(|store|)
      ensures |store| < U32_MODULUS ==> n == |store|
    {
      n := AsU32(|store|);
    }

    /** `cleanup_expired`: removes exactly the expired entries. */
    method CleanupExpired(now: Instant)
      modifies this
      ensures store == Sweep(old(store), now)
      ensures defaultTtl == old(defaultTtl)
    {
      store := Sweep(store, now);
    }
  }
}
