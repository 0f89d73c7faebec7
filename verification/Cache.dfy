/** The block cache: cache/lru.go, cache/operations.go and the cached read of
    sstable/sstable.go.  The list is a sequence with its front first. */
module Caches {
  import opened Bytes
  import opened Decimal

  // ------------------------------------------------------------- the order

  predicate Distinct<K(==)>(order: seq<K>) {
    forall i, j | 0 <= i < j < |order| :: order[i] != order[j]
  }

  function Remove<K(==)>(order: seq<K>, k: K): (r: seq<K>)
    ensures |r| <= |order|
  {
    if order == [] then [] else if order[0] == k then order[1..] else [order[0]] + Remove(order[1..], k)
  }

  function MoveToFront<K(==)>(order: seq<K>, k: K): seq<K> { [k] + Remove(order, k) }

  /** Capacity zero means unbounded, a negative one that nothing stays. */
  function Bound<K>(order: seq<K>, capacity: int): seq<K> {
    if capacity != 0 && |order| > capacity then order[..if capacity < 0 then 0 else capacity] else order
  }

  lemma {:induction false} RemoveMembers<K>(order: seq<K>, k: K)
    requires Distinct(order)
    ensures Distinct(Remove(order, k))
    ensures forall x :: x in Remove(order, k) <==> x in order && x != k
    ensures |Remove(order, k)| == if k in order then |order| - 1 else |order|
    ensures k !in order ==> Remove(order, k) == order
  {
    if order != [] {
      RemoveMembers(order[1..], k);
      assert forall x :: x in order <==> x == order[0] || x in order[1..];
      var rest := Remove(order[1..], k);
      if order[0] != k {
        assert forall j | 0 <= j < |rest| :: rest[j] in rest;
      }
    }
  }

  /** A bounded prefix does not see what happens behind it. */
  lemma {:induction false} RemovePrefix<K>(order: seq<K>, k: K, c: nat)
    requires Distinct(order) && c <= |order|
    ensures k in order[..c] ==> c - 1 <= |Remove(order, k)| && Remove(order[..c], k) == Remove(order, k)[..c - 1]
    ensures k !in order[..c] ==> c - 1 <= |Remove(order, k)| && (c > 0 ==> Remove(order, k)[..c - 1] == order[..c - 1])
    ensures k !in order[..c] ==> Remove(order[..c], k) == order[..c]
  {
    if c > 0 {
      var tail := order[1..];
      RemovePrefix(tail, k, c - 1);
      assert order[..c][1..] == tail[..c - 1];
      assert order[..c] == [order[0]] + tail[..c - 1];
      RemoveMembers(order, k);
      if order[0] != k && c > 1 {
        assert order[..c - 1] == [order[0]] + tail[..c - 2];
      }
    }
  }

  /** One access, on a bounded list or on the whole list and then bounded. */
  lemma TouchBounded<K>(order: seq<K>, k: K, capacity: int)
    requires Distinct(order)
    ensures Bound(MoveToFront(Bound(order, capacity), k), capacity) == Bound(MoveToFront(order, k), capacity)
  {
    if 0 < capacity < |order| {
      var top := order[..capacity];
      RemovePrefix(order, k, capacity);
      RemoveMembers(order, k);
      var rest := Remove(order, k);
      assert Bound([k] + rest, capacity) == [k] + rest[..capacity - 1];
      assert Bound([k] + top, capacity) == [k] + top[..capacity - 1];
    }
  }

  /** The distinct keys of an access sequence, most recent first. */
  function Recent<K(==)>(trace: seq<K>): seq<K> {
    if trace == [] then [] else MoveToFront(Recent(trace[..|trace| - 1]), trace[|trace| - 1])
  }

  lemma {:induction false} RecentMembers<K>(trace: seq<K>)
    ensures Distinct(Recent(trace))
    ensures forall x :: x in Recent(trace) <==> x in trace
  {
    if trace != [] {
      var last := |trace| - 1;
      RecentMembers(trace[..last]);
      RemoveMembers(Recent(trace[..last]), trace[last]);
      assert trace == trace[..last] + [trace[last]];
      assert forall j | 0 <= j < |Remove(Recent(trace[..last]), trace[last])| ::
          Remove(Recent(trace[..last]), trace[last])[j] in Remove(Recent(trace[..last]), trace[last]);
    }
  }

  /** The list of a cache that starts empty and sees these accesses. */
  function Order<K(==)>(trace: seq<K>, capacity: int): seq<K> {
    if trace == [] then []
    else Bound(MoveToFront(Order(trace[..|trace| - 1], capacity), trace[|trace| - 1]), capacity)
  }

  /** Truly least-recently-used: after any accesses the cache holds exactly the
      most recently accessed distinct keys, as many as its capacity. */
  lemma {:induction false} HoldsMostRecent<K>(trace: seq<K>, capacity: int)
    ensures Order(trace, capacity) == Bound(Recent(trace), capacity)
  {
    if trace != [] {
      var last := |trace| - 1;
      HoldsMostRecent(trace[..last], capacity);
      RecentMembers(trace[..last]);
      TouchBounded(Recent(trace[..last]), trace[last], capacity);
    }
  }

  // ------------------------------------------------- which keys are held

  ghost function Keys<K>(trace: seq<K>): set<K> { set k | k in trace }

  /** The last access to k is at i. */
  ghost predicate LastAt<K>(trace: seq<K>, i: nat, k: K) {
    i < |trace| && trace[i] == k && k !in trace[i + 1..]
  }

  /** Removing another key moves the key at p by one place or not at all. */
  lemma {:induction false} RemoveMoves<K>(order: seq<K>, k: K, p: nat)
    requires Distinct(order) && p < |order| && order[p] != k
    ensures var q := if k in order[..p] then p - 1 else p;
            && 0 <= q < |Remove(order, k)| && Remove(order, k)[q] == order[p]
            && Keys(Remove(order, k)[..q]) == Keys(order[..p]) - {k}
  {
    if order[0] == k {
      var tail := order[1..];
      var cut := tail[..p - 1];
      assert order[..p] == [k] + cut;
      KeysCons(k, cut);
      assert forall j | 0 <= j < |cut| :: cut[j] != k;
    } else if p > 0 {
      RemoveMoves(order[1..], k, p - 1);
      var q := if k in order[..p] then p - 1 else p;
      assert order[..p] == [order[0]] + order[1..][..p - 1];
      assert Remove(order, k)[..q] == [order[0]] + Remove(order[1..], k)[..q - 1];
      KeysCons(order[0], order[1..][..p - 1]);
      KeysCons(order[0], Remove(order[1..], k)[..q - 1]);
    }
  }

  lemma KeysCons<K>(k: K, rest: seq<K>)
    ensures Keys([k] + rest) == {k} + Keys(rest)
  {
  }

  /** A key stands behind exactly those that were accessed after it. */
  lemma {:induction false} RecentPosition<K>(trace: seq<K>, i: nat, k: K)
    requires LastAt(trace, i, k)
    ensures var later := Keys(trace[i + 1..]);
            |later| < |Recent(trace)| && Recent(trace)[|later|] == k && Keys(Recent(trace)[..|later|]) == later
    decreases |trace|
  {
    var last := |trace| - 1;
    var x, before := trace[last], trace[..last];
    if i == last {
      assert Keys(trace[i + 1..]) == {} && Keys(Recent(trace)[..0]) == {};
    } else {
      assert trace[i + 1..] == before[i + 1..] + [x];
      assert x in trace[i + 1..];
      RecentPosition(before, i, k);
      RecentMembers(before);
      FrontPosition(Recent(before), x, k, Keys(before[i + 1..]));
      assert Keys(trace[i + 1..]) == Keys(before[i + 1..]) + {x};
    }
  }

  lemma FrontPosition<K>(order: seq<K>, x: K, k: K, was: set<K>)
    requires Distinct(order) && |was| < |order| && order[|was|] == k && Keys(order[..|was|]) == was && x != k
    ensures var front, now := MoveToFront(order, x), was + {x};
            |now| < |front| && front[|now|] == k && Keys(front[..|now|]) == now
  {
    assert x in order[..|was|] <==> x in was;
    RemoveMoves(order, x, |was|);
    var q := if x in was then |was| - 1 else |was|;
    OneMore(was, x);
    ConsPosition(x, Remove(order, x), q, was);
  }

  lemma OneMore<K>(was: set<K>, x: K)
    ensures |was + {x}| == if x in was then |was| else |was| + 1
    ensures {x} + (was - {x}) == was + {x}
  {
    if x in was { assert was + {x} == was; }
  }

  lemma ConsPosition<K>(x: K, rest: seq<K>, q: nat, was: set<K>)
    requires q < |rest| && Keys(rest[..q]) == was - {x}
    ensures ([x] + rest)[q + 1] == rest[q] && Keys(([x] + rest)[..q + 1]) == {x} + (was - {x})
  {
    assert ([x] + rest)[..q + 1] == [x] + rest[..q];
    KeysCons(x, rest[..q]);
  }

  lemma {:induction false} LastAccess<K>(trace: seq<K>, k: K) returns (i: nat)
    requires k in trace
    ensures LastAt(trace, i, k)
  {
    var last := |trace| - 1;
    if trace[last] == k {
      i := last;
    } else {
      assert trace == trace[..last] + [trace[last]];
      i := LastAccess(trace[..last], k);
      assert trace[i + 1..] == trace[..last][i + 1..] + [trace[last]];
    }
  }

  /** k was accessed, and fewer than n other keys were accessed after it. */
  ghost predicate AmongLast<K>(trace: seq<K>, n: int, k: K) {
    exists i: nat :: LastAt(trace, i, k) && |Keys(trace[i + 1..])| < n
  }

  /** After any accesses a cache that can hold some keys holds exactly those. */
  lemma HeldIff<K>(trace: seq<K>, capacity: int, k: K)
    ensures capacity > 0 ==> (k in Order(trace, capacity) <==> AmongLast(trace, capacity, k))
    ensures capacity == 0 ==> (k in Order(trace, capacity) <==> k in trace)
    ensures capacity < 0 ==> Order(trace, capacity) == []
    ensures capacity > 0 ==> |Order(trace, capacity)| <= capacity
  {
    HoldsMostRecent(trace, capacity);
    RecentMembers(trace);
    if k in trace {
      var i := LastAccess(trace, k);
      RecentPosition(trace, i, k);
      HeldAt(Recent(trace), capacity, k, |Keys(trace[i + 1..])|);
      forall j: nat | LastAt(trace, j, k)
        ensures j == i
      {
        LastIsOne(trace, i, j, k);
      }
    }
  }

  lemma HeldAll<K(!new)>(trace: seq<K>, capacity: int)
    ensures capacity > 0 ==> forall k: K :: k in Order(trace, capacity) <==> AmongLast(trace, capacity, k)
  {
    forall k: K
      ensures capacity > 0 ==> (k in Order(trace, capacity) <==> AmongLast(trace, capacity, k))
    {
      HeldIff(trace, capacity, k);
    }
  }

  lemma LastIsOne<K>(trace: seq<K>, i: nat, j: nat, k: K)
    requires LastAt(trace, i, k) && LastAt(trace, j, k)
    ensures i == j
  {
  }

  lemma HeldAt<K>(order: seq<K>, capacity: int, k: K, p: nat)
    requires Distinct(order) && p < |order| && order[p] == k
    ensures capacity > 0 ==> (k in Bound(order, capacity) <==> p < capacity)
  {
    if capacity > 0 && p < capacity { assert Bound(order, capacity)[p] == k; }
  }

  lemma BoundKeeps<K>(order: seq<K>, k: K, capacity: int)
    ensures capacity > 0 ==>
              |Bound(MoveToFront(order, k), capacity)| <= capacity && k in Bound(MoveToFront(order, k), capacity)
  {
    if capacity > 0 { assert Bound(MoveToFront(order, k), capacity)[0] == k; }
  }

  // ------------------------------------------------------------- the cache

  class LRU<V> {
    const capacity: int
    var order: seq<bytes>
    var items: map<bytes, V>

    /** List and map hold the same keys, within capacity. */
    ghost predicate Valid()
      reads this
    {
      && Distinct(order) && Bound(order, capacity) == order
      && forall k :: k in order <==> k in items
    }

    constructor (capacity: int)
      ensures Valid() && this.capacity == capacity && order == [] && items == map[]
    {
      this.capacity := capacity;
      order, items := [], map[];
    }

    method Get(k: bytes) returns (r: Option<V>)
      requires Valid()
      modifies this
      ensures Valid() && items == old(items)
      ensures r == if k in items then Some(items[k]) else None
      ensures order == if k in items then MoveToFront(old(order), k) else old(order)
    {
      if k !in items { return None; }
      FrontValid(order, k);
      order := MoveToFront(order, k);
      return Some(items[k]);
    }

    method EvictOldest()
      requires Distinct(order) && forall k :: k in order <==> k in items
      modifies this
      ensures Distinct(order) && forall k :: k in order <==> k in items
      ensures order == if old(order) == [] then [] else old(order)[..|old(order)| - 1]
      ensures forall k | k in items :: k in old(items) && items[k] == old(items)[k]
    {
      if order == [] { return; }
      var oldest := order[|order| - 1];
      assert order == order[..|order| - 1] + [oldest];
      order := order[..|order| - 1];
      items := items - {oldest};
    }

    method Put(k: bytes, v: V)
      requires Valid()
      modifies this
      ensures Valid() && order == Bound(MoveToFront(old(order), k), capacity)
      ensures capacity > 0 ==> |order| <= capacity && k in items
      ensures forall x | x in items :: if x == k then items[x] == v else x in old(items) && items[x] == old(items)[x]
    {
      FrontValid(order, k);
      if k in items {
        items := items[k := v];
        order := MoveToFront(order, k);
      } else {
        order := [k] + order;
        items := items[k := v];
      }
      if capacity != 0 && |order| > capacity {
        EvictOldest();
      }
      BoundKeeps(old(order), k, capacity);
    }
  }

  lemma FrontValid<K>(order: seq<K>, k: K)
    requires Distinct(order)
    ensures Distinct(MoveToFront(order, k))
    ensures forall x :: x in MoveToFront(order, k) <==> x == k || x in order
    ensures |MoveToFront(order, k)| == if k in order then |order| else |order| + 1
    ensures k !in order ==> MoveToFront(order, k) == [k] + order
  {
    RemoveMembers(order, k);
    var rest := Remove(order, k);
    assert forall j | 0 <= j < |rest| :: rest[j] in rest;
  }

  // -------------------------------------------------------- the cached read

  const COLON: byte := 58

  function CacheKey(path: bytes, offset: nat): bytes { path + [COLON] + PrintNat(offset) }

  /** The last colon of a key separates the path from the offset. */
  lemma KeyShape(p: bytes, a: nat)
    ensures |p| < |CacheKey(p, a)| && CacheKey(p, a)[|p|] == COLON
    ensures CacheKey(p, a)[..|p|] == p && CacheKey(p, a)[|p| + 1..] == PrintNat(a)
    ensures forall i | |p| < i < |CacheKey(p, a)| :: CacheKey(p, a)[i] != COLON
  {
    var k, digits := CacheKey(p, a), PrintNat(a);
    forall i | |p| < i < |k|
      ensures k[i] != COLON
    {
      assert k[i] == digits[i - |p| - 1];
    }
  }

  /** The key names one block: no other file and offset print the same. */
  lemma CacheKeyInjective(p: bytes, a: nat, q: bytes, b: nat)
    requires CacheKey(p, a) == CacheKey(q, b)
    ensures p == q && a == b
  {
    KeyShape(p, a);
    KeyShape(q, b);
    assert |p| == |q|;
    PrintNatBack(a);
    PrintNatBack(b);
  }

  /** Every cached block is what reading and decoding it would give. */
  ghost predicate Coherent<V>(cache: LRU<V>, load: (bytes, nat) -> Option<V>)
    reads cache
  {
    forall p: bytes, o: nat :: CacheKey(p, o) in cache.items ==> load(p, o) == Some(cache.items[CacheKey(p, o)])
  }

  /** The cache is transparent, failures included, and every successful read is
      an access to its block. */
  method ReadBlock<V>(cache: LRU?<V>, load: (bytes, nat) -> Option<V>, path: bytes, offset: nat)
    returns (r: Option<V>)
    requires cache != null ==> cache.Valid() && Coherent(cache, load)
    modifies cache
    ensures r == load(path, offset)
    ensures cache != null ==>
              && cache.Valid() && Coherent(cache, load)
              && cache.order == if r.None? then old(cache.order)
                                else Bound(MoveToFront(old(cache.order), CacheKey(path, offset)), cache.capacity)
  {
    var key := CacheKey(path, offset);
    if cache != null {
      var hit := cache.Get(key);
      if hit.Some? {
        FrontValid(old(cache.order), key);
        return hit;
      }
    }
    r := load(path, offset);
    if cache != null && r.Some? {
      cache.Put(key, r.value);
      forall p: bytes, o: nat | CacheKey(p, o) in cache.items
        ensures load(p, o) == Some(cache.items[CacheKey(p, o)])
      {
        if CacheKey(p, o) == key { CacheKeyInjective(p, o, path, offset); }
      }
    }
  }

  /** The keys of the reads that succeed, in order. */
  function Accesses<V>(load: (bytes, nat) -> Option<V>, trace: seq<(bytes, nat)>): seq<bytes> {
    if trace == [] then [] else
      var before, (path, offset) := Accesses(load, trace[..|trace| - 1]), trace[|trace| - 1];
      if load(path, offset).Some? then before + [CacheKey(path, offset)] else before
  }

  method ReadTrace<V>(cache: LRU<V>, load: (bytes, nat) -> Option<V>, trace: seq<(bytes, nat)>)
    returns (r: seq<Option<V>>)
    requires cache.Valid() && Coherent(cache, load) && cache.order == []
    modifies cache
    ensures |r| == |trace| && forall i | 0 <= i < |trace| :: r[i] == load(trace[i].0, trace[i].1)
    ensures cache.Valid() && cache.order == Order(Accesses(load, trace), cache.capacity)
  {
    r := [];
    for i := 0 to |trace|
      invariant cache.Valid() && Coherent(cache, load)
      invariant cache.order == Order(Accesses(load, trace[..i]), cache.capacity)
      invariant |r| == i && forall j | 0 <= j < i :: r[j] == load(trace[j].0, trace[j].1)
    {
      assert trace[..i + 1][..i] == trace[..i];
      OrderSnoc(Accesses(load, trace[..i]), CacheKey(trace[i].0, trace[i].1), cache.capacity);
      var v := ReadBlock(cache, load, trace[i].0, trace[i].1);
      r := r + [v];
    }
    assert trace[..|trace|] == trace;
  }

  /** A run of reads: the cache ends with the most recently read blocks. */
  method ReadBlocks<V>(cache: LRU<V>, load: (bytes, nat) -> Option<V>, trace: seq<(bytes, nat)>)
    returns (r: seq<Option<V>>)
    requires cache.Valid() && Coherent(cache, load) && cache.order == []
    modifies cache
    ensures |r| == |trace| && forall i | 0 <= i < |trace| :: r[i] == load(trace[i].0, trace[i].1)
    ensures cache.order == Bound(Recent(Accesses(load, trace)), cache.capacity)
    ensures cache.capacity > 0 ==>
              forall k :: k in cache.items <==> AmongLast(Accesses(load, trace), cache.capacity, k)
  {
    r := ReadTrace(cache, load, trace);
    HoldsMostRecent(Accesses(load, trace), cache.capacity);
    HeldAll(Accesses(load, trace), cache.capacity);
  }

  lemma OrderSnoc<K>(trace: seq<K>, k: K, capacity: int)
    ensures Order(trace + [k], capacity) == Bound(MoveToFront(Order(trace, capacity), k), capacity)
  {
    assert (trace + [k])[..|trace|] == trace;
  }
}
