/**
 What the cache operations promise, stated against the recency order:
 the exact effect of each operation, the capacity bound over any sequence
 of operations, the Set/Get round trip, and the sweep as a filter.
 */
module SCacheProps {
  import opened Filters
  import opened SCache

  // ----- Get and Contains -----

  /** A hit moves the entry to the front and leaves every other entry where it was. */
  lemma GetLive(c: Cache, now: int, i: int)
    requires Wf(c) && 0 <= i < |c.order| && !Expired(c.order[i], now)
    ensures Get(c, c.order[i].key, now)
      == (Cache([c.order[i]] + c.order[..i] + c.order[i + 1..], c.index, c.capacity), Hit(c.order[i].item.value))
  {
    var key := c.order[i].key;
    var e := c.order[i];
    assert key in c.index && c.index[key] == e;
    var p := Promote(c, key);
    assert p.order == [e] + c.order[..i] + c.order[i + 1..] by {
      PromoteAt(c, i);
    }
    assert Get(c, key, now) == (p, Hit(e.item.value));
  }

  /** A stale entry is unlinked from both structures, and nothing else changes. */
  lemma GetExpired(c: Cache, now: int, i: int)
    requires Wf(c) && 0 <= i < |c.order| && Expired(c.order[i], now)
    ensures Get(c, c.order[i].key, now)
      == (Cache(c.order[..i] + c.order[i + 1..], c.index - {c.order[i].key}, c.capacity), NotFound)
  {
    var key := c.order[i].key;
    assert c.index[key] == c.order[i];
    WithoutAt(c, i);
    assert Remove(c, key).order == c.order[..i] + c.order[i + 1..];
  }

  /** Get never grows the cache, so it keeps the capacity bound. */
  lemma GetKeepsInv(c: Cache, key: string, now: int)
    requires Inv(c)
    ensures Inv(Get(c, key, now).0)
    ensures |Get(c, key, now).0.order| <= |c.order|
  {
    if e :| e in c.order && e.key == key {
      var i :| 0 <= i < |c.order| && c.order[i] == e;
      if Expired(e, now) {
        GetExpired(c, now, i);
      } else {
        GetLive(c, now, i);
      }
    }
  }

  // ----- Set -----

  /** Below capacity, a new key is simply pushed onto the front. */
  lemma SetFresh(c: Cache, key: string, value: string, ttl: int, now: int)
    requires Wf(c) && key !in c.index
    requires |c.order| < c.capacity || c.order == []
    ensures Set(c, key, value, ttl, now).order == [Entry(key, CacheItem(value, now + ttl))] + c.order
    ensures Set(c, key, value, ttl, now).index == c.index[key := Entry(key, CacheItem(value, now + ttl))]
  {
  }

  /** At capacity, a new key evicts exactly one entry, the least recently used one. */
  lemma SetEvictsBack(c: Cache, key: string, value: string, ttl: int, now: int)
    requires Wf(c) && key !in c.index
    requires |c.order| >= c.capacity && c.order != []
    ensures var back := c.order[|c.order| - 1];
      && Set(c, key, value, ttl, now).order == [Entry(key, CacheItem(value, now + ttl))] + c.order[..|c.order| - 1]
      && Set(c, key, value, ttl, now).index == (c.index - {back.key})[key := Entry(key, CacheItem(value, now + ttl))]
  {
    var n := |c.order| - 1;
    var e := Entry(key, CacheItem(value, now + ttl));
    var r := Set(c, key, value, ttl, now);
    var v := EvictLRU(c);
    assert v.order == c.order[..n] by {
      assert v.order + [c.order[n]] == c.order;
    }
    var want := Cache([e] + c.order[..n], (c.index - {c.order[n].key})[key := e], c.capacity);
    assert r.order == want.order;
    assert Wf(want) by {
      assert forall j :: 0 <= j < n ==> want.order[j + 1] == c.order[j];
      assert IndexAgrees(want);
    }
    IndexDetermined(r, want);
  }

  /** Overwriting a key replaces its entry and evicts nothing else, even on a full cache. */
  lemma SetOverwrite(c: Cache, key: string, value: string, ttl: int, now: int, i: int)
    requires Inv(c) && 0 <= i < |c.order| && c.order[i].key == key
    ensures Set(c, key, value, ttl, now).order == [Entry(key, CacheItem(value, now + ttl))] + c.order[..i] + c.order[i + 1..]
    ensures Set(c, key, value, ttl, now).index == c.index[key := Entry(key, CacheItem(value, now + ttl))]
  {
    SetForgetsOld(c, key, value, ttl, now);
    SetAfterUnlink(c, key, value, ttl, now, i);
  }

  /** Once the old entry at position `i` is unlinked there is room, so the new entry is just pushed. */
  lemma SetAfterUnlink(c: Cache, key: string, value: string, ttl: int, now: int, i: int)
    requires Inv(c) && 0 <= i < |c.order| && c.order[i].key == key
    ensures var r := Set(Remove(c, key), key, value, ttl, now);
      && r.order == [Entry(key, CacheItem(value, now + ttl))] + c.order[..i] + c.order[i + 1..]
      && r.index == c.index[key := Entry(key, CacheItem(value, now + ttl))]
  {
    var e := Entry(key, CacheItem(value, now + ttl));
    var rest := c.order[..i] + c.order[i + 1..];
    var c1 := Remove(c, key);
    assert c1 == Cache(rest, c.index - {key}, c.capacity) by {
      RemoveAt(c, i);
    }
    assert |rest| < c.capacity || rest == [] by {
      assert |rest| == |c.order| - 1;
    }
    SetFresh(c1, key, value, ttl, now);
    RemoveThenUpdate(c.index, key, e);
    assert [e] + rest == [e] + c.order[..i] + c.order[i + 1..];
  }

  /** Setting a present key is setting it on the cache with its old entry already gone. */
  lemma SetForgetsOld(c: Cache, key: string, value: string, ttl: int, now: int)
    requires Wf(c) && key in c.index
    ensures Set(c, key, value, ttl, now) == Set(Remove(c, key), key, value, ttl, now)
  {
  }

  /** Set keeps the capacity bound: afterwards the cache holds at most `Room(capacity)` entries. */
  lemma SetKeepsInv(c: Cache, key: string, value: string, ttl: int, now: int)
    requires Inv(c)
    ensures Inv(Set(c, key, value, ttl, now))
  {
    if key in c.index {
      var i :| 0 <= i < |c.order| && c.order[i] == c.index[key];
      SetOverwrite(c, key, value, ttl, now, i);
    } else if |c.order| < c.capacity || c.order == [] {
      SetFresh(c, key, value, ttl, now);
    } else {
      SetEvictsBack(c, key, value, ttl, now);
    }
  }

  /** A Get no later than the expiry returns the value just set, and leaves the state as Set left it. */
  lemma SetThenGet(c: Cache, key: string, value: string, ttl: int, now: int, t: int)
    requires Wf(c) && t <= now + ttl
    ensures Get(Set(c, key, value, ttl, now), key, t) == (Set(c, key, value, ttl, now), Hit(value))
  {
    var r := Set(c, key, value, ttl, now);
    GetLive(r, t, 0);
    assert [r.order[0]] + r.order[..0] + r.order[1..] == r.order;
  }

  /** A Get after the expiry reports NotFound and deletes the entry just set. */
  lemma SetThenGetLate(c: Cache, key: string, value: string, ttl: int, now: int, t: int)
    requires Wf(c) && t > now + ttl
    ensures var r := Set(c, key, value, ttl, now);
      Get(r, key, t) == (Cache(r.order[1..], r.index - {key}, c.capacity), NotFound)
  {
    var r := Set(c, key, value, ttl, now);
    GetExpired(r, t, 0);
    assert r.order[..0] + r.order[1..] == r.order[1..];
  }

  // ----- Flush and the sweep -----

  /** The sweep keeps the survivors in their original relative order. */
  lemma SweepKeepsOrder(c: Cache, now: int, i: int, j: int)
    requires Wf(c) && 0 <= i < j < |Sweep(c, now).order|
    ensures InOrder(c.order, Sweep(c, now).order[i], Sweep(c, now).order[j])
  {
    FilterKeepsOrder(c.order, Fresh(now), i, j);
  }

  /** Sweeping twice at the same time is sweeping once. */
  lemma SweepIdempotent(c: Cache, now: int)
    requires Wf(c)
    ensures Sweep(Sweep(c, now), now) == Sweep(c, now)
  {
    RetainTwice(c, Fresh(now), Fresh(now), Fresh(now));
  }

  /** The sweep never grows the cache, so it keeps the capacity bound. */
  lemma SweepKeepsInv(c: Cache, now: int)
    requires Inv(c)
    ensures Inv(Sweep(c, now))
  {
  }

  // ----- Any sequence of operations -----

  /** A public operation of the cache, as a caller issues it. */
  datatype Op =
    | SetOp(key: string, value: string, ttl: int)
    | GetOp(key: string)
    | ContainsOp(key: string)
    | FlushOp
    | SweepOp

  /** An operation together with the time at which it runs. */
  datatype Step = Step(op: Op, now: int)

  function Apply(c: Cache, s: Step): (r: Cache)
    requires Wf(c)
    ensures Wf(r) && r.capacity == c.capacity
  {
    match s.op
    case SetOp(k, v, ttl) => Set(c, k, v, ttl, s.now)
    case GetOp(k) => Get(c, k, s.now).0
    case ContainsOp(k) => Contains(c, k, s.now).0
    case FlushOp => Flush(c)
    case SweepOp => Sweep(c, s.now)
  }

  function Run(c: Cache, steps: seq<Step>): (r: Cache)
    requires Wf(c)
    ensures Wf(r) && r.capacity == c.capacity
    decreases |steps|
  {
    if steps == [] then c else Run(Apply(c, steps[0]), steps[1..])
  }

  /** Every operation keeps both the index/order agreement and the capacity bound. */
  lemma ApplyKeepsInv(c: Cache, s: Step)
    requires Inv(c)
    ensures Inv(Apply(c, s))
  {
    match s.op
    case SetOp(k, v, ttl) => SetKeepsInv(c, k, v, ttl, s.now);
    case GetOp(k) => GetKeepsInv(c, k, s.now);
    case ContainsOp(k) => GetKeepsInv(c, k, s.now);
    case FlushOp =>
    case SweepOp => SweepKeepsInv(c, s.now);
  }

  /** From a fresh cache, any sequence of operations keeps unique keys, an index
      that agrees with the order, and at most `Room(capacity)` entries. */
  lemma {:induction false} RunKeepsInv(c: Cache, steps: seq<Step>)
    requires Inv(c)
    ensures Inv(Run(c, steps))
    decreases |steps|
  {
    if steps != [] {
      ApplyKeepsInv(c, steps[0]);
      RunKeepsInv(Apply(c, steps[0]), steps[1..]);
    }
  }

  lemma CapacityBound(capacity: int, steps: seq<Step>)
    ensures Inv(Run(New(capacity), steps))
    ensures |Run(New(capacity), steps).order| <= Room(capacity)
  {
    RunKeepsInv(New(capacity), steps);
  }

  // ----- Worked scenarios -----

  /** Capacity 2: two distinct keys set one after the other, the later one in front. */
  lemma TwoKeys(a: string, b: string, v: string, ttl: int, now: int)
    requires a != b
    ensures var ea := Entry(a, CacheItem(v, now + ttl));
      var eb := Entry(b, CacheItem(v, now + ttl));
      Set(Set(New(2), a, v, ttl, now), b, v, ttl, now) == Cache([eb, ea], map[a := ea, b := eb], 2)
  {
    var ea := Entry(a, CacheItem(v, now + ttl));
    var s0 := Set(New(2), a, v, ttl, now);
    SetFresh(New(2), a, v, ttl, now);
    assert s0 == Cache([ea], map[a := ea], 2);
    SetFresh(s0, b, v, ttl, now);
  }

  /** Capacity 2: inserting three distinct keys evicts the first one. */
  lemma ThirdKeyEvictsFirst(k1: string, k2: string, k3: string, v: string, ttl: int, now: int, t: int)
    requires k1 != k2 && k2 != k3 && k1 != k3
    ensures var c := Set(Set(Set(New(2), k1, v, ttl, now), k2, v, ttl, now), k3, v, ttl, now);
      Get(c, k1, t).1 == NotFound
  {
    var e2 := Entry(k2, CacheItem(v, now + ttl));
    var c2 := Set(Set(New(2), k1, v, ttl, now), k2, v, ttl, now);
    TwoKeys(k1, k2, v, ttl, now);
    SetEvictsBack(c2, k3, v, ttl, now);
    var c3 := Set(c2, k3, v, ttl, now);
    assert c3.order == [Entry(k3, CacheItem(v, now + ttl)), e2];
  }

  /** Capacity 2: reading the back entry of a full two-entry cache swaps the two. */
  lemma ReadBack(ea: Entry, eb: Entry, now: int)
    requires ea.key != eb.key && !Expired(ea, now)
    ensures var m := map[ea.key := ea, eb.key := eb];
      Get(Cache([eb, ea], m, 2), ea.key, now) == (Cache([ea, eb], m, 2), Hit(ea.item.value))
  {
    var s := Cache([eb, ea], map[ea.key := ea, eb.key := eb], 2);
    assert Wf(s);
    GetLive(s, now, 1);
    assert [s.order[1]] + s.order[..1] + s.order[2..] == [ea, eb];
  }

  /** Capacity 2: inserting a third key into a full two-entry cache evicts its back entry. */
  lemma InsertEvictsBack(ea: Entry, eb: Entry, key: string, value: string, ttl: int, now: int)
    requires ea.key != eb.key && key != ea.key && key != eb.key
    ensures var e := Entry(key, CacheItem(value, now + ttl));
      Set(Cache([ea, eb], map[ea.key := ea, eb.key := eb], 2), key, value, ttl, now)
        == Cache([e, ea], map[ea.key := ea, key := e], 2)
  {
    var s := Cache([ea, eb], map[ea.key := ea, eb.key := eb], 2);
    var e := Entry(key, CacheItem(value, now + ttl));
    assert Wf(s);
    SetEvictsBack(s, key, value, ttl, now);
    assert (s.index - {eb.key})[key := e] == map[ea.key := ea, key := e];
  }

  /** Capacity 2: after a, b and a read of a, inserting c evicts b, the one never re-read. */
  lemma ReadProtectsFromEviction(a: string, b: string, c: string, v: string, ttl: int, now: int)
    requires a != b && b != c && a != c && ttl >= 0
    ensures var s1 := Set(Set(New(2), a, v, ttl, now), b, v, ttl, now);
      var s2 := Get(s1, a, now).0;
      var s3 := Set(s2, c, v, ttl, now);
      && Get(s1, a, now).1 == Hit(v)
      && s3.order == [Entry(c, CacheItem(v, now + ttl)), Entry(a, CacheItem(v, now + ttl))]
      && b !in s3.index
  {
    var ea := Entry(a, CacheItem(v, now + ttl));
    var eb := Entry(b, CacheItem(v, now + ttl));
    var ec := Entry(c, CacheItem(v, now + ttl));
    var m := map[a := ea, b := eb];
    var s1 := Set(Set(New(2), a, v, ttl, now), b, v, ttl, now);
    assert s1 == Cache([eb, ea], m, 2) by {
      TwoKeys(a, b, v, ttl, now);
    }
    var s2 := Cache([ea, eb], m, 2);
    assert Get(s1, a, now) == (s2, Hit(v)) by {
      ReadBack(ea, eb, now);
    }
    assert Set(s2, c, v, ttl, now) == Cache([ec, ea], map[a := ea, c := ec], 2) by {
      InsertEvictsBack(ea, eb, c, v, ttl, now);
    }
  }
}
