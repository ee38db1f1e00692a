# openbr_assistant native core, modelled in Dafny

This project models the in-process stores and byte routines of the
openbr_assistant native layer and proves their contracts:

- **TTL store** (`Cache` in openclaw-rs/src/cache.rs, module `TtlCache`): a
  string map whose entries carry an optional expiry instant, a mutable
  default TTL, lazy eviction by `get`/`has` and an explicit sweep
  (`cleanup_expired`, also run by `keys`).
- **TTL-gated LRU store** (`TimedCache` in rust/src/cache.rs, module
  `RustCache`): the `lru` crate's `LruCache` as a map plus a recency order
  (`LruState`), with one uniform TTL; a capacity of 0 becomes 100.
- **Per-group history** (`GroupHistoryCache` in rust/src/cache.rs, module
  `RustCache`): a bounded log per group that appends at the tail and drops
  index 0 when over the bound.
- **Buffer operations** (native/buffer-ops.cc, module `BufferOps`, with the
  C library's `memcmp` in module `Memory`): range-checked slice,
  length-first compare, prefix copy in place, allocation.
- **SIMD operations** (native/simd-ops.cc, module `SimdOps`): byte sum in
  each build (no SIMD, ARM64 NEON, x86 AVX2), first-occurrence search,
  byte-wise AND with a vector loop and a scalar tail.
- **JSON path lookup** (`json_get` in openclaw-rs/src/json.rs, module
  `Json`): `.`-separated segments walked over a parsed value, with its four
  failure modes, and the `json_validate_schema` placeholder.

Time is an explicit `now` parameter counted in nanoseconds (module `Clock`);
`Instant::elapsed` saturates at zero as Rust's does. Stores that the source
updates in place are classes whose methods tie the new state to
specification functions; lemmas prove what those functions promise.

Boundary behaviour of the code that the model keeps:

- The TTL store's `get` still returns the value at exactly `expires_at`,
  because it expires an entry only when `now > expires_at`
  (openclaw-rs/src/cache.rs:57; `TtlCache.SetThenLookup`).
- `GroupHistoryCache::new` accepts a bound of 0, and every group's log then
  stays empty (rust/src/cache.rs:88-106).
- `TimedCache::new` accepts a TTL of 0 seconds, and every `get` then misses,
  because `elapsed() < 0` never holds (rust/src/cache.rs:28-37;
  `RustCache.ZeroTtlAlwaysMisses`).
- Entries record no creation time. The TTL store keeps only the expiry
  instant, and `TimedCache` only the insertion instant.

The recency order of `TimedCache` is proved to be an LRU order over any
sequence of calls. The class records, as ghost state, the call count at
which each key was last read or written. Its invariant says the order
lists keys by strictly increasing last use. `put` on a full cache evicts
the key at the front, so it evicts the key used least recently.

## Model

| member | source | states |
|---|---|---|
| `Clock.Elapsed` | rust/src/cache.rs:37 | time elapsed since an instant; zero if the instant lies in the future |
| `TtlCache.ExpiryFor` | openclaw-rs/src/cache.rs:39-43 | an explicit TTL gives `now + ttl`; with none the default TTL is used; with neither the entry never expires |
| `TtlCache.LookupSemantics` | openclaw-rs/src/cache.rs:51-66 | `get` returns the stored value iff the key is present and unexpired (`now <= expires_at`); an expired key is removed; every other key is untouched |
| `TtlCache.ExpiredStaysExpired` | openclaw-rs/src/cache.rs:56-57 | an entry expired at `t` is expired at every later instant |
| `TtlCache.SetThenLookup` | openclaw-rs/src/cache.rs:39-66 | a value set with effective TTL `ms` at `t` is returned at `t'` iff `t' <= t + ms`; with no TTL it is always returned |
| `TtlCache.SweepKeepsExactlyLive` | openclaw-rs/src/cache.rs:102-110 | the sweep keeps exactly the entries with no expiry or `now <= expires_at`, unchanged |
| `TtlCache.SweptKeysAreReadable` | openclaw-rs/src/cache.rs:83-110 | after a sweep the remaining keys are exactly those `get` would return a value for |
| `TtlCache.SweepIdempotent` | openclaw-rs/src/cache.rs:102-110 | sweeping twice at one instant equals sweeping once |
| `TtlCache.SweepPreservesLookup` | openclaw-rs/src/cache.rs:102-110 | a sweep changes no key's `get` result |
| `TtlCache.Cache.constructor` | openclaw-rs/src/cache.rs:24-29 | a new store is empty and has no default TTL |
| `TtlCache.Cache.SetDefaultTtl` | openclaw-rs/src/cache.rs:33-35 | only the default TTL changes; stored entries and their expiries are untouched |
| `TtlCache.Cache.Set` | openclaw-rs/src/cache.rs:39-47 | the key's entry is replaced wholesale, expiry included; all other keys and the default are unchanged |
| `TtlCache.Cache.Get` | openclaw-rs/src/cache.rs:51-67 | returns the `get` result above and leaves the store without that key if it had expired |
| `TtlCache.Cache.Delete` | openclaw-rs/src/cache.rs:71-73 | returns true iff the key was present; afterwards it is absent and the rest is unchanged |
| `TtlCache.Cache.Has` | openclaw-rs/src/cache.rs:77-79 | equals `get(key).is_some()`, including its removal of an expired entry |
| `TtlCache.Cache.Keys` | openclaw-rs/src/cache.rs:83-86 | sweeps, then returns each unexpired key exactly once |
| `TtlCache.Cache.Clear` | openclaw-rs/src/cache.rs:90-92 | the store is empty afterwards; on an empty store nothing changes |
| `TtlCache.Cache.Size` | openclaw-rs/src/cache.rs:96-98 | the number of stored entries, expired ones included, truncated to `u32` |
| `TtlCache.Cache.CleanupExpired` | openclaw-rs/src/cache.rs:102-110 | the store becomes exactly its sweep at `now` |
| `RustCache.WithoutRemovesOne` | rust/src/cache.rs:36-41 | taking a key out of a duplicate-free recency order removes its one position and keeps every other key's relative order |
| `RustCache.Promote` | rust/src/cache.rs:36 | `LruCache::get` on a present key makes it most recently used and keeps every entry and the order's coherence |
| `RustCache.PromoteOrder` | rust/src/cache.rs:36 | promotion moves the key from its place to the most recent end; the other keys keep their relative order |
| `RustCache.Pop` | rust/src/cache.rs:41 | `pop` removes the key from the map and the order, keeping the capacity invariant |
| `RustCache.PopOrder` | rust/src/cache.rs:41 | `pop` takes the key out of its place; the other keys keep their relative order |
| `RustCache.Put` | rust/src/cache.rs:49-55 | `put` stores the entry as most recently used, keeps `len <= capacity`, and keeps every other surviving entry unchanged |
| `RustCache.PutOrder` | rust/src/cache.rs:49-55 | `put` moves a present key to the most recent end; a new key joins at that end, and at a full cache the front key leaves; the other keys keep their relative order |
| `RustCache.PutEvictsOnlyLeastRecent` | rust/src/cache.rs:49-55 | a new key in a full cache evicts exactly the key at the front of the order; otherwise no key is lost |
| `RustCache.ByLastUseRemove` | rust/src/cache.rs:41 | removing one key keeps an order sorted by last use sorted |
| `RustCache.ByLastUseTouch` | rust/src/cache.rs:36-55 | a key used now, later than all recorded uses, goes to the most recent end of an order sorted by last use |
| `RustCache.PromoteByLastUse` | rust/src/cache.rs:36 | after `LruCache::get`, with the key's use recorded, the order is still sorted by last use |
| `RustCache.PopByLastUse` | rust/src/cache.rs:41 | after `pop` the order is still sorted by last use |
| `RustCache.PutByLastUse` | rust/src/cache.rs:49-55 | after `put`, with the key's use recorded, the order is still sorted by last use |
| `RustCache.PutEvictsLeastRecentlyUsed` | rust/src/cache.rs:49-55 | on an order sorted by last use, the key `put` evicts was used before every other stored key |
| `RustCache.TimedLookupByLastUse` | rust/src/cache.rs:33-44 | a hit, fresh or stale, keeps the capacity bound and the order sorted by last use |
| `RustCache.TimedLookupEffect` | rust/src/cache.rs:33-44 | a miss changes nothing; a hit with `elapsed < ttl` returns the value and promotes the key; an older hit returns None and removes the key exactly as `pop` would |
| `RustCache.ZeroTtlAlwaysMisses` | rust/src/cache.rs:28-37 | with `ttl_seconds == 0` every `get` returns None |
| `RustCache.EffectiveCapacity` | rust/src/cache.rs:25 | a capacity of 0 becomes exactly 100; any other capacity is kept |
| `RustCache.EvictionOrderExample` | rust/src/cache.rs:33-56 | capacity 2: `set a, set b, get a, set c` evicts `b` and keeps `a` and `c` |
| `RustCache.TimedCache.constructor` | rust/src/cache.rs:24-30 | a new cache is empty, with the effective capacity and `ttl_seconds` as nanoseconds |
| `RustCache.TimedCache.Get` | rust/src/cache.rs:33-44 | returns and updates the cache as `TimedLookupEffect` describes; a hit records a use of the key; `len <= capacity` and the last-use order are kept |
| `RustCache.TimedCache.Set` | rust/src/cache.rs:47-56 | performs `put` of the value stamped `now` and records a use of the key; a key it evicts was used less recently than every other stored key; `len <= capacity` and the last-use order are kept |
| `RustCache.TimedCache.Len` | rust/src/cache.rs:59-62 | the number of entries, never above the capacity |
| `RustCache.TimedCache.Clear` | rust/src/cache.rs:65-68 | the cache is empty afterwards |
| `RustCache.AppendedKeepsLastN` | rust/src/cache.rs:96-106 | one `add` turns the last `max` arrivals into the last `max` arrivals including the new one |
| `RustCache.AddAllIsLastN` | rust/src/cache.rs:96-106 | any sequence of adds leaves exactly the last `max` entries in arrival order, whatever their timestamps |
| `RustCache.FourIntoThree` | rust/src/cache.rs:96-106 | with bound 3, adding E1..E4 leaves `[E2, E3, E4]` |
| `RustCache.GroupHistoryCache.constructor` | rust/src/cache.rs:88-93 | no groups, with the given bound |
| `RustCache.GroupHistoryCache.Add` | rust/src/cache.rs:96-106 | appends to the group (created if absent), drops index 0 if over the bound, leaves other groups unchanged, keeps every log within the bound |
| `RustCache.GroupHistoryCache.Get` | rust/src/cache.rs:109-112 | the stored log of a known group, the empty sequence for an unknown one; nothing changes |
| `RustCache.GroupHistoryCache.ClearGroup` | rust/src/cache.rs:115-118 | removes only that group; no-op if absent |
| `Memory.Memcmp` | native/buffer-ops.cc:85 | `memcmp`'s sign on equally long buffers is 0 iff they are byte-identical |
| `Memory.MemcmpFollowsFirstDifference` | native/buffer-ops.cc:85 | the sign is that of the first differing byte compared as unsigned values |
| `Memory.MemcmpTransitive` | native/buffer-ops.cc:85 | `memcmp` orders equally long buffers transitively |
| `BufferOps.Slice` | native/buffer-ops.cc:58-67 | range error iff `start > len`, `end > len` or `start > end`; otherwise a copy of `buf[start..end]` of length `end - start` |
| `BufferOps.Compare` | native/buffer-ops.cc:81-86 | a shorter first buffer gives -1 and a longer one 1 regardless of content; equal lengths give 0 iff identical |
| `BufferOps.CompareAntisymmetric` | native/buffer-ops.cc:81-86 | swapping the operands negates the result |
| `BufferOps.CompareTransitive` | native/buffer-ops.cc:81-86 | the order `compare` defines is transitive |
| `BufferOps.CopiedPrefix` | native/buffer-ops.cc:100-103 | the target's first `min` bytes come from the source and the rest stay, length unchanged |
| `BufferOps.BulkCopy` | native/buffer-ops.cc:100-105 | returns `min(len(src), len(tgt))`, overwrites exactly that prefix of the target and leaves the source unchanged |
| `BufferOps.Allocate` | native/buffer-ops.cc:116-121 | a new buffer of the requested length |
| `SimdOps.AddRemaining` | native/simd-ops.cc:91-94 | the scalar loop adds every byte from its start index to the total |
| `SimdOps.SumUint8Portable` | native/simd-ops.cc:64-96 | without vector instructions the result is the sum of all bytes |
| `SimdOps.QuadIsSum` | native/simd-ops.cc:79-82 | the two widening pairwise adds yield the sum of four consecutive bytes |
| `SimdOps.LanesStep` | native/simd-ops.cc:77-84 | each NEON block keeps the four 32-bit lanes' total congruent modulo 2^32 to the bytes summed so far |
| `SimdOps.LanesTotal` | native/simd-ops.cc:86-88 | the 32-bit addition of the four lanes is their total modulo 2^32 |
| `SimdOps.SumUint8Neon` | native/simd-ops.cc:75-96 | the ARM64 build returns the block sum modulo 2^32 plus the tail sum |
| `SimdOps.NeonSumExactBelowWrap` | native/simd-ops.cc:77-94 | below 16843010 bytes the ARM64 build returns the true sum |
| `SimdOps.NeonSumWrapsExample` | native/simd-ops.cc:86-88 | 16843024 bytes of 0xFF sum to 4294971120 but the ARM64 build returns 3824 |
| `SimdOps.SumUint8Avx2` | native/simd-ops.cc:67-74 | the AVX2 build returns only the sum of the bytes after the last 32-byte block |
| `SimdOps.Avx2SumSkipsExample` | native/simd-ops.cc:70-74 | 32 bytes of value 1 sum to 32 but the AVX2 build returns 0 |
| `SimdOps.SumUint8` | native/simd-ops.cc:64-96 | blocks reduced with widening adds into the 64-bit total, then the tail: the sum of all bytes |
| `SimdOps.FindPattern` | native/simd-ops.cc:117-127 | -1 iff the needle occurs nowhere (always when longer than the haystack); otherwise the smallest match position; an empty needle gives 0 |
| `SimdOps.AndBuffers` | native/simd-ops.cc:141-174 | a new buffer of length `min(len(a), len(b))` with `r[i] == a[i] & b[i]` at every index, for each build's vector width |
| `Json.Split` | openclaw-rs/src/json.rs:52 | `split('.')` yields at least one segment and no segment contains `.` |
| `Json.JoinSplit` | openclaw-rs/src/json.rs:52 | joining the segments with `.` gives the path back |
| `Json.SplitJoin` | openclaw-rs/src/json.rs:52 | splitting a join of `.`-free keys gives the keys back |
| `Json.ParseIndex` | openclaw-rs/src/json.rs:60 | a parsed array index never exceeds `usize::MAX` |
| `Json.ParseShowIndex` | openclaw-rs/src/json.rs:60-65 | every `usize` value parses back from its decimal text |
| `Json.NonDigitIsNoIndex` | openclaw-rs/src/json.rs:60-65 | a segment with a non-digit other than one leading `+` is an invalid index |
| `Json.WalkAppend` | openclaw-rs/src/json.rs:51-80 | walking `p + q` is walking `p` and then `q` from where `p` ended, failing at the first failing step |
| `Json.WalkNest` | openclaw-rs/src/json.rs:53-57 | object steps along the keys of nested objects reach the innermost value |
| `Json.ArrayIndexStep` | openclaw-rs/src/json.rs:59-71 | an in-range index written in decimal selects that array element |
| `Json.JsonGet` | openclaw-rs/src/json.rs:47-83 | the cursor loop returns exactly the walk of the split path: one step per segment, the first failure's error, else the value reached |
| `Json.JsonGetNestedPath` | openclaw-rs/src/json.rs:51-57 | a dotted path of `.`-free keys reaches the value stored under those keys |
| `Json.EmptyPath` | openclaw-rs/src/json.rs:52-57 | the empty path is the single segment `""` |
| `Json.JsonValidateSchema` | openclaw-rs/src/json.rs:93-96 | always `Ok(true)` |

## Left out

- Locking (`RwLock`, `Mutex`) and concurrency. Each method is one atomic transition. The TTL store's `get` drops its read lock before taking the write lock, so a `set` made in between could be removed; this race is not modelled.
- Real clocks: `Instant::now()` is the `now` parameter. Overflow of `Instant + Duration` is ignored.
- TtlCache.ExpiryFor: does not model overflow of `Instant + Duration`, which would panic in Rust.
- The `lru` crate's internals: only its observable map-plus-recency behaviour is modelled.
- RustCache.TimedCache: last use is counted in calls to `get` and `set`, as ghost state. The source keeps no such count. A `get` that misses does not count as a use.
- N-API plumbing: argument type checks, thrown type errors, `Init`/`DefineClass` and the module entry points. It also covers the JavaScript-number-to-`uint32` conversion of `slice`'s bounds and `allocate`'s size; these arrive as `nat`.
- BufferOps.Compare: returns only the sign of `memcmp`, whose magnitude C leaves unspecified.
- BufferOps.Allocate: does not state the buffer's contents, which the source leaves uninitialised.
- SimdOps.SumUint8: the 64-bit total is not wrapped; a buffer would need more than 2^56 bytes to reach it.
- JSON parsing and printing (`serde_json`): the lookup takes the parsed value and returns the value reached rather than its text. A parse error is therefore not a case of `Json.JsonGet`.
- `json_parse`, `json_stringify`, `json_prettify`, `json_validate`, and the JSON, crypto, compression, media and image modules: these are calls into foreign libraries.
- The empty `LruCache` placeholder struct in openclaw-rs/src/cache.rs: it has no behaviour.
- Node.js `Buffer` views that share memory at different offsets: Dafny arrays are either the same or disjoint, so `BulkCopy` covers aliasing only when source and target are the same buffer.

## Findings

| source | as written | input that shows it | evidently intended | confidence | as-written member | corrected member |
|---|---|---|---|---|---|---|
| native/simd-ops.cc:77-88 | the ARM64 build adds the four 32-bit lanes in 32-bit arithmetic, and each lane wraps, so the block part of the sum is taken modulo 2^32 | 16843024 bytes of 0xFF: sum 4294971120, returned 3824 (`SimdOps.NeonSumWrapsExample`) | the sum of all bytes in the 64-bit total | high; not executed | `SimdOps.SumUint8Neon` | `SimdOps.SumUint8` |
| native/simd-ops.cc:67-74 | the AVX2 build's block loop loads each 32-byte block and adds nothing, so those bytes are skipped | 32 bytes of value 1: sum 32, returned 0 (`SimdOps.Avx2SumSkipsExample`) | the sum of all bytes | high; not executed | `SimdOps.SumUint8Avx2` | `SimdOps.SumUint8` |
