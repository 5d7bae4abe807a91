/**
 The cache engine: a string-to-string store that combines LRU eviction with
 TTL expiry. The state is a recency order of entries (most recently used at
 the front) and an index from key to entry; every operation is a pure
 function of the state and of the current time `now`.
 */
module SCache {
  import opened Filters

  /** A stored value and the absolute time after which it is stale. */
  datatype CacheItem = CacheItem(value: string, expiry: int)

  /** One element of the recency order: an item together with its key. */
  datatype Entry = Entry(key: string, item: CacheItem)

  /** The answer of a lookup: the value, or the one error kind, "not found". */
  datatype Lookup = Hit(value: string) | NotFound

  /** The engine state: the recency order (front = most recently used),
      the index from key to entry, and the configured capacity. */
  datatype Cache = Cache(order: seq<Entry>, index: map<string, Entry>, capacity: int)

  /** An entry is stale only once `now` is strictly after its expiry. */
  predicate Expired(e: Entry, now: int)
  {
    now > e.item.expiry
  }

  /** An entry is still live at its expiry instant, stale from the next instant on,
      and once stale it stays stale. */
  lemma ExpiryBoundary(e: Entry, now: int, later: int)
    ensures !Expired(e, e.item.expiry) && Expired(e, e.item.expiry + 1)
    ensures Expired(e, now) && now <= later ==> Expired(e, later)
  {
  }

  /** No key occurs twice in the recency order. */
  ghost predicate UniqueKeys(order: seq<Entry>)
  {
    forall i, j :: 0 <= i < j < |order| ==> order[i].key != order[j].key
  }

  /** The index holds exactly the entries of the recency order, each under its own key. */
  ghost predicate IndexAgrees(c: Cache)
  {
    && (forall i :: 0 <= i < |c.order| ==> c.order[i].key in c.index && c.index[c.order[i].key] == c.order[i])
    && (forall k :: k in c.index ==> c.index[k].key == k && c.index[k] in c.order)
  }

  /** The representation invariant: the two structures agree and keys are unique. */
  ghost predicate Wf(c: Cache)
  {
    UniqueKeys(c.order) && IndexAgrees(c)
  }

  /** Two well-formed caches with the same recency order have the same index. */
  lemma IndexDetermined(a: Cache, b: Cache)
    requires Wf(a) && Wf(b) && a.order == b.order
    ensures a.index == b.index
  {
    forall k | k in a.index
      ensures k in b.index && b.index[k] == a.index[k]
    {
      var i :| 0 <= i < |a.order| && a.order[i] == a.index[k];
    }
    forall k | k in b.index
      ensures k in a.index
    {
      var i :| 0 <= i < |b.order| && b.order[i] == b.index[k];
    }
  }

  /** The most entries a cache of this capacity ever holds: a capacity below one
      still admits the entry being inserted. */
  function Room(capacity: int): nat
  {
    if capacity < 1 then 1 else capacity
  }

  ghost predicate Bounded(c: Cache)
  {
    |c.order| <= Room(c.capacity)
  }

  /** What every state reachable from `New` satisfies. */
  ghost predicate Inv(c: Cache)
  {
    Wf(c) && Bounded(c)
  }

  /** The keys present in a recency order. */
  ghost function Keys(order: seq<Entry>): set<string>
  {
    set e | e in order :: e.key
  }

  // Predicates on entries, named so that the same predicate is the same value everywhere.

  function KeyIsNot(key: string): Entry -> bool
  {
    (e: Entry) => e.key != key
  }

  function Fresh(now: int): Entry -> bool
  {
    (e: Entry) => !Expired(e, now)
  }

  /** The survivors of a sweep that still has the keys `todo` to visit. */
  function Survives(todo: set<string>, now: int): Entry -> bool
  {
    (e: Entry) => e.key in todo || !Expired(e, now)
  }

  /** A well-formed cache indexes exactly the keys of its recency order. */
  lemma IndexKeys(c: Cache)
    requires Wf(c)
    ensures c.index.Keys == Keys(c.order)
    ensures |c.index| == |c.order|
  {
    var i := 0;
    var seen: set<string> := {};
    while i < |c.order|
      invariant 0 <= i <= |c.order|
      invariant seen == set j | 0 <= j < i :: c.order[j].key
      invariant |seen| == i
    {
      assert c.order[i].key !in seen;
      seen := seen + {c.order[i].key};
      i := i + 1;
    }
    assert seen == c.index.Keys;
  }

  /** Keeps, in both structures, only the entries that satisfy `keep`. */
  function Retain(c: Cache, keep: Entry -> bool): (r: Cache)
    requires Wf(c)
    ensures Wf(r) && r.capacity == c.capacity
    ensures forall e :: e in r.order <==> e in c.order && keep(e)
    ensures forall k :: k in r.index <==> k in c.index && keep(c.index[k])
  {
    var order := Filter(c.order, keep);
    var index := map k | k in c.index && keep(c.index[k]) :: c.index[k];
    assert UniqueKeys(order) by {
      forall i, j | 0 <= i < j < |order|
        ensures order[i].key != order[j].key
      {
        FilterKeepsOrder(c.order, keep, i, j);
      }
    }
    assert forall i :: 0 <= i < |order| ==> order[i].key in index && index[order[i].key] == order[i] by {
      forall i | 0 <= i < |order|
        ensures order[i].key in index && index[order[i].key] == order[i]
      {
        assert order[i] in c.order;
        var p :| 0 <= p < |c.order| && c.order[p] == order[i];
      }
    }
    Cache(order, index, c.capacity)
  }

  /** The cache a fresh `New(capacity)` returns: nothing stored yet. */
  function New(capacity: int): (c: Cache)
    ensures Inv(c) && c.capacity == capacity
    ensures c.order == [] && c.index == map[]
    ensures forall key, now :: Get(c, key, now) == (c, NotFound)
  {
    Cache([], map[], capacity)
  }

  /** Unlinks the entry for `key` from the recency order and deletes it from the index. */
  function Remove(c: Cache, key: string): (r: Cache)
    requires Wf(c)
    ensures Wf(r) && r.capacity == c.capacity
    ensures r.index == c.index - {key}
    ensures forall e :: e in r.order <==> e in c.order && e.key != key
  {
    RemoveIsRetain(c, key);
    Cache(Filter(c.order, KeyIsNot(key)), c.index - {key}, c.capacity)
  }

  /** Removing a key is retaining the entries under every other key. */
  lemma RemoveIsRetain(c: Cache, key: string)
    requires Wf(c)
    ensures Cache(Filter(c.order, KeyIsNot(key)), c.index - {key}, c.capacity) == Retain(c, KeyIsNot(key))
  {
    assert c.index - {key} == Retain(c, KeyIsNot(key)).index;
  }

  /** In a well-formed cache, dropping the key found at position `i` removes exactly that position. */
  lemma WithoutAt(c: Cache, i: int)
    requires Wf(c) && 0 <= i < |c.order|
    ensures Filter(c.order, KeyIsNot(c.order[i].key)) == c.order[..i] + c.order[i + 1..]
  {
    FilterDropsOne(c.order, KeyIsNot(c.order[i].key), i);
  }

  /** Removing the key found at position `i` unlinks exactly that position. */
  lemma RemoveAt(c: Cache, i: int)
    requires Wf(c) && 0 <= i < |c.order|
    ensures Remove(c, c.order[i].key) == Cache(c.order[..i] + c.order[i + 1..], c.index - {c.order[i].key}, c.capacity)
  {
    WithoutAt(c, i);
  }

  /** Links `e` in at the front of the recency order and indexes it. */
  function PushFront(c: Cache, e: Entry): (r: Cache)
    requires Wf(c) && e.key !in c.index
    ensures Wf(r) && r.capacity == c.capacity
    ensures |r.order| == |c.order| + 1 && r.order[0] == e && r.order[1..] == c.order
    ensures r.index[e.key] == e && r.index.Keys == c.index.Keys + {e.key}
  {
    PushFrontWf(c, e);
    var r := Cache([e] + c.order, c.index[e.key := e], c.capacity);
    assert r.order[1..] == c.order;
    r
  }

  /** Linking a new key in at the front keeps the structures in agreement. */
  lemma PushFrontWf(c: Cache, e: Entry)
    requires Wf(c) && e.key !in c.index
    ensures Wf(Cache([e] + c.order, c.index[e.key := e], c.capacity))
  {
    var r := Cache([e] + c.order, c.index[e.key := e], c.capacity);
    assert forall i :: 1 <= i < |r.order| ==> r.order[i] == c.order[i - 1] && r.order[i].key != e.key;
    assert UniqueKeys(r.order) by {
      forall i, j | 0 <= i < j < |r.order|
        ensures r.order[i].key != r.order[j].key
      {
        if i > 0 {
          assert r.order[i] == c.order[i - 1] && r.order[j] == c.order[j - 1];
        }
      }
    }
    assert IndexAgrees(r) by {
      forall k | k in r.index
        ensures r.index[k].key == k && r.index[k] in r.order
      {
        if k != e.key {
          assert c.index[k] in c.order;
        }
      }
    }
  }

  /** Removes the least recently used entry, the back of the order; nothing on an empty cache. */
  function EvictLRU(c: Cache): (r: Cache)
    requires Wf(c)
    ensures Wf(r) && r.capacity == c.capacity
    ensures c.order == [] ==> r == c
    ensures c.order != [] ==>
      var back := c.order[|c.order| - 1];
      && r.order + [back] == c.order
      && r.index.Keys == c.index.Keys - {back.key}
    ensures forall e :: e in r.order ==> e in c.order
  {
    if c.order == [] then c
    else
      var n := |c.order| - 1;
      DropBackWf(c);
      var r := Cache(c.order[..n], c.index - {c.order[n].key}, c.capacity);
      assert r.order + [c.order[n]] == c.order;
      r
  }

  /** Unlinking the back entry keeps the structures in agreement, and every remaining entry was stored. */
  lemma DropBackWf(c: Cache)
    requires Wf(c) && c.order != []
    ensures var n := |c.order| - 1;
      var r := Cache(c.order[..n], c.index - {c.order[n].key}, c.capacity);
      && Wf(r)
      && forall e :: e in r.order ==> e in c.order
  {
    var n := |c.order| - 1;
    var back := c.order[n];
    var r := Cache(c.order[..n], c.index - {back.key}, c.capacity);
    forall e | e in r.order
      ensures e in c.order && e.key != back.key
    {
      var i :| 0 <= i < n && r.order[i] == e;
      assert c.order[i] == e;
    }
    assert IndexAgrees(r) by {
      forall k | k in r.index
        ensures r.index[k] in r.order
      {
        var i :| 0 <= i < |c.order| && c.order[i] == c.index[k];
        assert i != n;
        assert r.order[i] == c.order[i];
      }
    }
  }

  /** Stores `key -> value`, valid until `now + ttl`, as the most recently used
      entry: an old entry for `key` goes first, and then, if the cache is still
      at capacity, the least recently used entry. */
  function Set(c: Cache, key: string, value: string, ttl: int, now: int): (r: Cache)
    requires Wf(c)
    ensures Wf(r) && r.capacity == c.capacity
    ensures r.order != [] && r.order[0] == Entry(key, CacheItem(value, now + ttl))
    ensures r.index[key] == Entry(key, CacheItem(value, now + ttl))
    ensures forall e :: e in r.order[1..] ==> e in c.order && e.key != key
  {
    var c1 := if key in c.index then Remove(c, key) else c;
    assert forall e :: e in c1.order ==> e in c.order && e.key != key by {
      if key !in c.index {
        forall e | e in c1.order
          ensures e in c.order && e.key != key
        {
          var i :| 0 <= i < |c.order| && c.order[i] == e;
        }
      }
    }
    var c2 := if |c1.order| >= c1.capacity then EvictLRU(c1) else c1;
    assert forall e :: e in c2.order ==> e in c1.order;
    var r := PushFront(c2, Entry(key, CacheItem(value, now + ttl)));
    assert r.order[1..] == c2.order;
    r
  }

  /** Looks `key` up at time `now`. A live entry is returned and promoted to the
      front; a stale one is deleted on the spot and reported as not found. */
  function Get(c: Cache, key: string, now: int): (r: (Cache, Lookup))
    requires Wf(c)
    ensures Wf(r.0) && r.0.capacity == c.capacity
    ensures forall e :: e in c.order && e.key == key ==>
      r.1 == (if Expired(e, now) then NotFound else Hit(e.item.value))
    ensures (forall e :: e in c.order ==> e.key != key) ==> r == (c, NotFound)
  {
    if key !in c.index || Expired(c.index[key], now) then
      (if key in c.index then Remove(c, key) else c, NotFound)
    else
      (Promote(c, key), Hit(c.index[key].item.value))
  }

  /** Moves the entry for `key` to the front of the recency order: unlink it and
      push it back onto the front. The index is left as it was. */
  function Promote(c: Cache, key: string): (r: Cache)
    requires Wf(c) && key in c.index
    ensures Wf(r) && r.capacity == c.capacity
    ensures r.index == c.index
    ensures r.order[0] == c.index[key]
    ensures forall e :: e in r.order <==> e in c.order
    ensures |r.order| == |c.order|
  {
    var e := c.index[key];
    PromoteKeepsIndex(c, key);
    PromoteKeepsEntries(c, key);
    PushFront(Remove(c, key), e)
  }

  /** Re-inserting a removed key is the same as updating it in place. */
  lemma RemoveThenUpdate<K, V>(m: map<K, V>, k: K, v: V)
    ensures (m - {k})[k := v] == m[k := v]
  {
  }

  lemma PromoteKeepsIndex(c: Cache, key: string)
    requires Wf(c) && key in c.index
    ensures PushFront(Remove(c, key), c.index[key]).index == c.index
  {
    var e := c.index[key];
    assert Remove(c, key).index == c.index - {key};
    RemoveThenUpdate(c.index, key, e);
    assert c.index[key := e] == c.index;
  }

  lemma PromoteKeepsEntries(c: Cache, key: string)
    requires Wf(c) && key in c.index
    ensures var r := PushFront(Remove(c, key), c.index[key]);
      && |r.order| == |c.order|
      && forall x :: x in r.order <==> x in c.order
  {
    var i :| 0 <= i < |c.order| && c.order[i] == c.index[key];
    PromoteAt(c, i);
    MoveToFrontKeepsElements(c.order, i);
  }

  /** Promoting the entry at position `i` moves exactly that position to the front. */
  lemma PromoteAt(c: Cache, i: int)
    requires Wf(c) && 0 <= i < |c.order|
    ensures PushFront(Remove(c, c.order[i].key), c.order[i]).order == [c.order[i]] + c.order[..i] + c.order[i + 1..]
  {
    RemoveAt(c, i);
  }

  /** Whether `key` is live at `now`; it has every effect of `Get`, promotion and lazy expiry included. */
  function Contains(c: Cache, key: string, now: int): (r: (Cache, bool))
    requires Wf(c)
    ensures r.1 <==> Get(c, key, now).1.Hit?
    ensures r.0 == Get(c, key, now).0
    ensures r.1 <==> exists e :: e in c.order && e.key == key && !Expired(e, now)
  {
    var (c', res) := Get(c, key, now);
    (c', res.Hit?)
  }

  /** Discards every entry; the capacity is kept. */
  function Flush(c: Cache): (r: Cache)
    ensures Inv(r) && r == New(c.capacity)
    ensures forall key, now :: !Contains(r, key, now).1
  {
    Cache([], map[], c.capacity)
  }

  /** The effect of one sweep at `now`: every stale entry is dropped, the rest stay in order. */
  function Sweep(c: Cache, now: int): (r: Cache)
    requires Wf(c)
    ensures Wf(r) && r.capacity == c.capacity
    ensures forall e :: e in r.order <==> e in c.order && !Expired(e, now)
    ensures forall k :: k in r.index <==> k in c.index && !Expired(c.index[k], now)
  {
    Retain(c, Fresh(now))
  }

  /** The sweep as the engine runs it: visit the indexed keys in an arbitrary
      order and unlink each one whose entry is stale. Whatever order is chosen,
      the outcome is `Sweep(c, now)`. */
  method EvictExpiredItems(c: Cache, now: int) returns (r: Cache)
    requires Wf(c)
    ensures r == Sweep(c, now)
  {
    RetainKeepsAll(c, Survives(c.index.Keys, now));
    r := c;
    var todo := c.index.Keys;
    while todo != {}
      invariant todo <= c.index.Keys
      invariant r == Retain(c, Survives(todo, now))
      decreases todo
    {
      var k :| k in todo;
      SweepVisit(c, todo, k, now);
      if Expired(r.index[k], now) {
        r := Remove(r, k);
      }
      todo := todo - {k};
    }
    RetainCongruent(c, Survives({}, now), Fresh(now));
  }

  /** One step of the sweep: visiting key `k` unlinks it exactly when its entry is
      stale, and either way the survivors no longer depend on `k` being unvisited. */
  lemma SweepVisit(c: Cache, todo: set<string>, k: string, now: int)
    requires Wf(c) && k in todo && k in c.index
    ensures var r := Retain(c, Survives(todo, now));
      var next := Retain(c, Survives(todo - {k}, now));
      && k in r.index && r.index[k] == c.index[k]
      && (Expired(c.index[k], now) ==> Remove(r, k) == next)
      && (!Expired(c.index[k], now) ==> r == next)
  {
    var r := Retain(c, Survives(todo, now));
    var rest := todo - {k};
    assert k in r.index;
    var j :| 0 <= j < |c.order| && c.order[j] == r.index[k];
    assert r.index[k] == c.index[k];
    if Expired(c.index[k], now) {
      RetainTwice(c, Survives(todo, now), KeyIsNot(k), Survives(rest, now));
      RemoveIsRetain(r, k);
    } else {
      RetainCongruent(c, Survives(todo, now), Survives(rest, now));
    }
  }

  /** Retaining with a predicate every entry passes changes nothing. */
  lemma RetainKeepsAll(c: Cache, keep: Entry -> bool)
    requires Wf(c)
    requires forall e :: e in c.order ==> keep(e)
    ensures Retain(c, keep) == c
  {
    FilterKeepsAll(c.order, keep);
    IndexDetermined(Retain(c, keep), c);
  }

  /** Predicates that agree on the stored entries retain alike. */
  lemma RetainCongruent(c: Cache, p: Entry -> bool, q: Entry -> bool)
    requires Wf(c)
    requires forall e :: e in c.order ==> p(e) == q(e)
    ensures Retain(c, p) == Retain(c, q)
  {
    FilterCongruent(c.order, p, q);
    IndexDetermined(Retain(c, p), Retain(c, q));
  }

  /** Retaining by `p` and then by `q` is retaining by their conjunction `pq`. */
  lemma RetainTwice(c: Cache, p: Entry -> bool, q: Entry -> bool, pq: Entry -> bool)
    requires Wf(c)
    requires forall e :: e in c.order ==> pq(e) == (p(e) && q(e))
    ensures Retain(Retain(c, p), q) == Retain(c, pq)
  {
    FilterTwice(c.order, p, q);
    FilterCongruent(c.order, Both(p, q), pq);
    IndexDetermined(Retain(Retain(c, p), q), Retain(c, pq));
  }
}
