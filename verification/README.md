# scache engine in Dafny

A model of the `scache` cache engine (`cache.go`): an in-process
string-to-string store that combines least-recently-used eviction with
time-to-live expiry.

The engine's state is a key index (a Go map from key to list element) and a
doubly-linked recency list, most recently used at the front. Here the state is
the immutable datatype `SCache.Cache`. It holds the recency order as a
`seq<Entry>` (front first), the index as a `map<string, Entry>`, and the
capacity. An `Entry` is a key with its `CacheItem` (value and absolute expiry
time), as in the source's `entry` and `CacheItem` structs. The representation
invariant `Wf` says that keys are unique in the order and that the index holds
exactly the entries of the order, each under its own key. `Inv` adds the
capacity bound `|order| <= Room(capacity)`, where `Room` is `max(capacity, 1)`.

Every operation is a pure function of the state. Wall-clock time becomes an
integer parameter `now`, and a TTL becomes an integer `ttl`. An entry is
`Expired` only when `now` is strictly later than its expiry, because the code
tests with `time.Now().After(expiry)`. So an entry is still live at
`now == expiry`; a `>=` test would expire it one instant earlier.

Files:
- `filters.dfy` (module `Filters`): order-preserving `Filter` over sequences and
  its lemmas. Every removal in the engine is a filter of the recency order.
- `scache.dfy` (module `SCache`): the data model and the operations `New`,
  `Set`, `Get`, `Contains`, `Flush`, `EvictLRU` and the expiry sweep. The sweep
  appears twice: `Sweep` is the functional effect, and `EvictExpiredItems` is
  the loop over map keys in an arbitrary order.
- `scache_props.dfy` (module `SCacheProps`): the exact effect of each operation
  on the recency order, the Set/Get round trip, the capacity bound over any
  sequence of operations, and two worked scenarios.

With a capacity of 0 or less, the code does not refuse inserts. `Set` still
evicts the single remaining entry (when there is one) and then inserts, so
such a cache holds exactly the most recently set key. `Room` and
`SetKeepsInv` state this bound.

## Model

| member | source | states |
|---|---|---|
| SCache.New | cache.go:32-38 | a new cache has an empty index and order that agree, keeps the given capacity, and every `Get` on it is NotFound with no change of state |
| SCache.ExpiryBoundary | cache.go:71 | an entry is live at its expiry instant and stale from the next instant on, and once stale it stays stale |
| SCache.IndexKeys | cache.go:24-29 | in a well-formed cache the index holds exactly the key set of the recency order, one index entry per list element |
| SCache.IndexDetermined | cache.go:24-29 | in two well-formed caches with the same recency order the indexes are equal: the list determines the map |
| SCache.Remove | cache.go:46-49 | unlinking a key deletes it from the index and drops its entry from the order, keeping the two structures in agreement |
| SCache.PushFront | cache.go:60-61 | the new entry becomes the front, the old order follows unchanged behind it, the new key is indexed to it, exactly its key is added, and the structures still agree |
| SCache.EvictLRU | cache.go:98-105 | on a non-empty cache exactly the back entry is removed from both structures; on an empty cache nothing changes |
| SCache.Set | cache.go:41-64 | afterwards the new entry `(key, value, now + ttl)` is at the front and indexed, every other entry was already stored under another key, and the structures still agree |
| SCache.Get | cache.go:67-82 | the answer is the stored value exactly when the key's entry in the order is not expired at `now`, NotFound otherwise; an absent key leaves the state unchanged; the structures still agree |
| SCache.Promote | cache.go:79-81 | moving an entry to the front puts the key's entry first, keeps the same entries and length, leaves the index unchanged, and keeps the structures in agreement |
| SCache.PromoteAt | cache.go:80 | promoting the entry at position `i` yields that entry followed by the order without position `i` |
| SCache.Contains | cache.go:85-88 | true exactly when `Get` succeeds, i.e. when the key has an unexpired entry, with the same effect on state as `Get` |
| SCache.Flush | cache.go:91-95 | the result is a fresh cache of the same capacity, and `Contains` is false for every key at every time |
| SCache.Sweep | cache.go:118-128 | an entry survives the sweep exactly when it was stored and is not expired at `now`; a key stays indexed exactly when its entry is not expired; the structures still agree |
| SCache.EvictExpiredItems | cache.go:118-128 | visiting the indexed keys in any order and unlinking each expired one yields the same state as `Sweep`, so the result does not depend on map iteration order |
| SCache.SweepVisit | cache.go:121-126 | one visited key is unlinked exactly when its entry is stale, and afterwards the state is the sweep with that key no longer pending |
| SCache.RemoveAt | cache.go:46-49 | removing the key at position `i` unlinks exactly that position and its index entry, nothing else |
| SCacheProps.GetLive | cache.go:79-81 | a Get on a live key returns its value and moves its entry to the front; the others keep their relative order; the index is unchanged |
| SCacheProps.GetExpired | cache.go:70-78 | a Get on an expired key returns NotFound and removes exactly that entry from the order and the index |
| SCacheProps.GetKeepsInv | cache.go:67-82 | Get never grows the cache, so it keeps agreement and the capacity bound |
| SCacheProps.SetFresh | cache.go:51-61 | a new key on a cache below capacity (or empty) is pushed onto the front; nothing is evicted |
| SCacheProps.SetEvictsBack | cache.go:51-54 | a new key on a cache at capacity evicts exactly the back entry, then becomes the front |
| SCacheProps.SetForgetsOld | cache.go:45-49 | setting a present key behaves as setting it after its old entry has been removed |
| SCacheProps.SetOverwrite | cache.go:45-54 | overwriting a present key replaces its entry by the new one at the front and evicts no other key, even on a full cache |
| SCacheProps.SetAfterUnlink | cache.go:45-61 | once the old entry of the key is unlinked there is room, so the new entry goes to the front and no other entry is evicted |
| SCacheProps.SetKeepsInv | cache.go:45-61 | Set keeps the structures in agreement and the size at most `max(capacity, 1)` |
| SCacheProps.SetThenGet | cache.go:56-61 | a Get of the key just set, at any time no later than `now + ttl`, returns the new value and leaves the state as Set left it |
| SCacheProps.SetThenGetLate | cache.go:71-77 | a Get of the key just set, at a time after `now + ttl`, returns NotFound and removes that entry |
| SCacheProps.SweepKeepsOrder | cache.go:122-127 | any two survivors of the sweep appear in the same relative order as before |
| SCacheProps.SweepIdempotent | cache.go:118-128 | sweeping twice at the same `now` gives the same state as sweeping once |
| SCacheProps.SweepKeepsInv | cache.go:118-128 | the sweep keeps agreement and the capacity bound |
| SCacheProps.ApplyKeepsInv | cache.go:41-95 | each public operation (Set, Get, Contains, Flush, sweep) keeps agreement and the capacity bound |
| SCacheProps.RunKeepsInv | cache.go:41-95 | any sequence of operations from a state satisfying the invariant keeps it |
| SCacheProps.CapacityBound | cache.go:51-54 | from `New(capacity)`, after any sequence of operations, keys are unique, index and order agree, and at most `max(capacity, 1)` entries are stored |
| SCacheProps.ThirdKeyEvictsFirst | cache_test.go:109-125 | with capacity 2, setting three distinct keys evicts the first one |
| SCacheProps.ReadBack | cache.go:79-81 | reading the back entry of a full two-entry cache returns its value and swaps the two entries |
| SCacheProps.InsertEvictsBack | cache.go:51-61 | inserting a third key into a full two-entry cache evicts the back entry and puts the new one in front |
| SCacheProps.ReadProtectsFromEviction | cache.go:79-81 | with capacity 2, after setting a then b and reading a, setting c evicts b, the key never re-read, and keeps a |

## Left out

- Locking: the `sync.RWMutex` and the concurrency test are not modelled. Each operation is treated as atomic. `Flush` takes no lock in the source (cache.go:91-95), so it races with the other operations; a sequential model cannot express that race.
- `StartEvictionTicker` (a goroutine driven by a `time.Ticker`) is not modelled. Only the sweep it calls is modelled, as `Sweep` and `EvictExpiredItems`.
- Time: `time.Now()`, `time.Time` and `time.Duration` are replaced by unbounded integers `now` and `ttl`. The overflow behaviour of `time.Time.Add` for extreme durations, and the monotonic clock reading, are not modelled.
- `container/list` internals (element pointers, links) are not modelled. The list is a sequence, and the index maps each key to its entry rather than to a list element.
- Errors: the `"key not found"` error value is the `NotFound` variant of `Lookup`. `Set` and `Flush` always return a nil error, so the model returns only the new state.
- `Get` returning a copy of the value (no aliasing) holds trivially for immutable values and is not stated separately.
