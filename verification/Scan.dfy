/** The merging scan: db/iterator.go.

    A source is what it has still to yield.  The heap is a priority queue kept
    in order, so that its first item is the least one. */
module Scans {
  import opened Bytes
  import opened InternalKeys
  import opened Versions
  import opened MemTables

  datatype Item = Item(rest: Level, priority: nat)

  /** Internal key order; priority decides between copies of one version. */
  predicate ItemLess(a: Item, b: Item)
    requires a.rest != [] && b.rest != []
  {
    var c := InternalCompare(a.rest[0].key, b.rest[0].key);
    if c != 0 then c < 0 else a.priority < b.priority
  }

  // -------------------------------------------------------------- the queue

  ghost predicate ItemOk(item: Item) { item.rest != [] && Sorted(item.rest) }

  ghost predicate QueueOk(h: seq<Item>) {
    && (forall i | 0 <= i < |h| :: ItemOk(h[i]))
    && (forall i, j | 0 <= i < j < |h| :: KeyLeq(h[i].rest[0].key, h[j].rest[0].key))
  }

  ghost function Pending(h: seq<Item>): set<Entry> {
    set i, e | 0 <= i < |h| && e in h[i].rest :: e
  }

  function Count(h: seq<Item>): nat {
    if h == [] then 0 else |h[0].rest| + Count(h[1..])
  }

  lemma PendingCons(item: Item, h: seq<Item>)
    ensures Pending([item] + h) == Elems(item.rest) + Pending(h)
  {
    var all := [item] + h;
    assert all[0] == item && forall i | 0 <= i < |h| :: all[i + 1] == h[i];
    forall e | e in Pending(h)
      ensures e in Pending(all)
    {
      var i :| 0 <= i < |h| && e in h[i].rest;
      assert e in all[i + 1].rest;
    }
    forall e | e in Elems(item.rest)
      ensures e in Pending(all)
    {
      assert e in all[0].rest;
    }
  }

  function Enqueue(h: seq<Item>, item: Item): (r: seq<Item>)
    requires item.rest != [] && forall i | 0 <= i < |h| :: h[i].rest != []
    ensures |r| == |h| + 1
  {
    if h == [] || ItemLess(item, h[0]) then [item] + h else [h[0]] + Enqueue(h[1..], item)
  }

  lemma {:induction false} EnqueuePending(h: seq<Item>, item: Item)
    requires item.rest != [] && forall i | 0 <= i < |h| :: h[i].rest != []
    ensures Pending(Enqueue(h, item)) == Pending(h) + Elems(item.rest)
    ensures Count(Enqueue(h, item)) == Count(h) + |item.rest|
  {
    if h == [] || ItemLess(item, h[0]) {
      PendingCons(item, h);
      assert ([item] + h)[1..] == h;
    } else {
      EnqueuePending(h[1..], item);
      PendingCons(h[0], h[1..]);
      PendingCons(h[0], Enqueue(h[1..], item));
      assert h == [h[0]] + h[1..];
      assert Enqueue(h, item)[1..] == Enqueue(h[1..], item);
    }
  }

  lemma QueueCons(item: Item, h: seq<Item>)
    requires QueueOk(h) && ItemOk(item)
    requires forall i | 0 <= i < |h| :: KeyLeq(item.rest[0].key, h[i].rest[0].key)
    ensures QueueOk([item] + h)
  {
  }

  lemma {:induction false} EnqueueOk(h: seq<Item>, item: Item)
    requires QueueOk(h) && ItemOk(item)
    ensures QueueOk(Enqueue(h, item))
  {
    if h == [] {
    } else if ItemLess(item, h[0]) {
      forall j | 0 <= j < |h|
        ensures KeyLeq(item.rest[0].key, h[j].rest[0].key)
      {
        if 0 < j { KeyOrderTransitive(item.rest[0].key, h[0].rest[0].key, h[j].rest[0].key); }
      }
      QueueCons(item, h);
    } else {
      KeyOrderTotal(item.rest[0].key, h[0].rest[0].key);
      EnqueueOk(h[1..], item);
      HeadsStay(h[1..], item, h[0].rest[0].key);
      QueueCons(h[0], Enqueue(h[1..], item));
    }
  }

  /** Whatever is below all heads and the new one is below all heads after. */
  lemma {:induction false} HeadsStay(h: seq<Item>, item: Item, low: InternalKey)
    requires item.rest != [] && forall i | 0 <= i < |h| :: h[i].rest != [] && KeyLeq(low, h[i].rest[0].key)
    requires KeyLeq(low, item.rest[0].key)
    ensures forall i | 0 <= i < |Enqueue(h, item)| ::
              Enqueue(h, item)[i].rest != [] && KeyLeq(low, Enqueue(h, item)[i].rest[0].key)
  {
    if h != [] && !ItemLess(item, h[0]) { HeadsStay(h[1..], item, low); }
  }

  // ---------------------------------------------------- skipping a user key

  function DropUser(rest: Level, u: bytes): (r: Level)
    ensures |r| <= |rest|
  {
    if rest == [] || rest[0].key.user != u then rest else DropUser(rest[1..], u)
  }

  /** In a sorted source that starts at or after user key u, dropping u's
      versions from the front drops all of them. */
  lemma {:induction false} DropUserMeaning(rest: Level, u: bytes, x: Entry)
    requires Sorted(rest) && (rest != [] ==> Compare(u, rest[0].key.user) <= 0)
    ensures Sorted(DropUser(rest, u))
    ensures x in DropUser(rest, u) <==> x in rest && x.key.user != u
  {
    if rest == [] {
    } else if rest[0].key.user != u {
      if x in rest {
        var i :| 0 <= i < |rest| && rest[i] == x;
        assert KeyLeq(rest[0].key, rest[i].key) by { if i == 0 { KeyOrderTotal(rest[0].key, rest[0].key); } }
        CompareTransitive(u, rest[0].key.user, x.key.user);
      }
    } else {
      assert x in rest <==> x == rest[0] || x in rest[1..];
      if |rest| > 1 {
        assert KeyLeq(rest[0].key, rest[1].key);
      }
      DropUserMeaning(rest[1..], u, x);
    }
  }

  /** Advances a popped source past user key u and puts it back if anything is
      left of it. */
  method SkipPast(u: bytes, item: Item, h: seq<Item>) returns (r: seq<Item>)
    requires QueueOk(h) && ItemOk(item) && item.rest[0].key.user == u
    requires forall e | e in Pending(h) :: Compare(u, e.key.user) <= 0
    ensures QueueOk(r) && Count(r) < Count(h) + |item.rest|
    ensures forall x :: x in Pending(r) <==> x in Pending(h) || (x in item.rest && x.key.user != u)
  {
    var rest := item.rest[1..];
    while rest != [] && rest[0].key.user == u
      invariant |rest| < |item.rest| && DropUser(rest, u) == DropUser(item.rest, u)
    {
      rest := rest[1..];
    }
    assert rest == DropUser(item.rest, u);
    forall x
      ensures x in rest <==> x in item.rest && x.key.user != u
      ensures Sorted(rest)
    {
      DropUserMeaning(item.rest, u, x);
    }
    if rest != [] {
      EnqueueOk(h, Item(rest, item.priority));
      EnqueuePending(h, Item(rest, item.priority));
      r := Enqueue(h, Item(rest, item.priority));
    } else {
      r := h;
    }
  }

  // ----------------------------------------------------------- what is shown

  /** The newest version of k in S is a value v, not a tombstone. */
  ghost predicate Shows(S: set<Entry>, k: bytes, v: bytes) {
    exists e :: Newest(S, k, SEQ_NUM_MAX, Some(e)) && e.key.kind != KIND_DELETE && e.value == v
  }

  ghost function Above(S: set<Entry>, low: Option<bytes>): set<Entry> {
    set e | e in S && (low.None? || Before(low.value, e.key.user))
  }

  /** Versions of other user keys do not matter. */
  lemma ShowsAbove(S: set<Entry>, low: Option<bytes>, k: bytes, v: bytes)
    requires low.None? || Before(low.value, k)
    ensures Shows(Above(S, low), k, v) <==> Shows(S, k, v)
  {
    forall e
      ensures Newest(Above(S, low), k, SEQ_NUM_MAX, Some(e)) <==> Newest(S, k, SEQ_NUM_MAX, Some(e))
    {
    }
  }

  /** The first item of the queue starts with the newest version of the least key. */
  lemma LeastIsNewest(h: seq<Item>)
    requires QueueOk(h) && h != []
    ensures var e := h[0].rest[0];
            && Newest(Pending(h), e.key.user, SEQ_NUM_MAX, Some(e))
            && forall x | x in Pending(h) :: Compare(e.key.user, x.key.user) <= 0
  {
    var e := h[0].rest[0];
    assert e in Pending(h) by { assert e in h[0].rest; }
    forall x | x in Pending(h)
      ensures KeyLeq(e.key, x.key)
    {
      var i :| 0 <= i < |h| && x in h[i].rest;
      var j :| 0 <= j < |h[i].rest| && h[i].rest[j] == x;
      KeyOrderTotal(e.key, e.key);
      KeyOrderTotal(x.key, x.key);
      assert ItemOk(h[i]);
      KeyOrderTransitive(e.key, h[i].rest[0].key, x.key);
    }
  }

  lemma ShownValue(S: set<Entry>, e: Entry, v: bytes)
    requires Agree(S) && Newest(S, e.key.user, SEQ_NUM_MAX, Some(e))
    ensures Shows(S, e.key.user, v) <==> e.key.kind != KIND_DELETE && e.value == v
  {
    forall x | Newest(S, e.key.user, SEQ_NUM_MAX, Some(x))
      ensures x == e
    {
      NewestIsUnique(S, e.key.user, SEQ_NUM_MAX, Some(x), Some(e));
    }
  }

  // ----------------------------------------------------------- the iterator

  /** Pops every item that starts with user key u. */
  method SkipAll(u: bytes, h: seq<Item>) returns (r: seq<Item>)
    requires QueueOk(h) && forall e | e in Pending(h) :: Compare(u, e.key.user) <= 0
    ensures QueueOk(r) && Count(r) <= Count(h)
    ensures forall x :: x in Pending(r) <==> x in Pending(h) && x.key.user != u
  {
    r := h;
    while r != [] && r[0].rest[0].key.user == u
      invariant QueueOk(r) && Count(r) <= Count(h)
      invariant forall x | x in Pending(r) :: x in Pending(h)
      invariant forall x | x in Pending(h) && x.key.user != u :: x in Pending(r)
      decreases Count(r)
    {
      var top, left := r[0], r[1..];
      PopPending(r);
      r := SkipPast(u, top, left);
    }
    NoneLeft(u, r);
  }

  lemma PopPending(h: seq<Item>)
    requires QueueOk(h) && h != []
    ensures QueueOk(h[1..]) && ItemOk(h[0]) && Count(h) == |h[0].rest| + Count(h[1..])
    ensures forall x :: x in Pending(h) <==> x in h[0].rest || x in Pending(h[1..])
  {
    PendingCons(h[0], h[1..]);
    assert h == [h[0]] + h[1..];
  }

  lemma NoneLeft(u: bytes, h: seq<Item>)
    requires QueueOk(h) && (forall e | e in Pending(h) :: Compare(u, e.key.user) <= 0)
    requires h != [] ==> h[0].rest[0].key.user != u
    ensures forall e | e in Pending(h) :: e.key.user != u
  {
    if h != [] {
      LeastIsNewest(h);
      var e := h[0].rest[0];
      assert e in Pending(h);
      forall x | x in Pending(h)
        ensures x.key.user != u
      {
        CompareTransitive(u, e.key.user, x.key.user);
      }
    }
  }

  class MergeIterator {
    var h: seq<Item>
    const upper: Option<bytes>
    var key: bytes
    var val: bytes
    var valid: bool

    ghost predicate Valid()
      reads this
    {
      QueueOk(h) && Agree(Pending(h))
    }

    constructor (h: seq<Item>, upper: Option<bytes>)
      requires QueueOk(h) && Agree(Pending(h))
      ensures Valid() && this.h == h && this.upper == upper && !valid
    {
      this.h, this.upper := h, upper;
      key, val, valid := [], [], false;
    }

    /** Moves to the next key that is shown, skipping deleted ones; false when
        there is none up to the upper bound. */
    method NextKey() returns (more: bool)
      requires Valid()
      modifies this
      ensures Valid() && more == valid
      ensures more ==> Within(key, upper) && Shows(old(Pending(h)), key, val)
      ensures more ==> forall k: bytes, v: bytes | Before(k, key) :: !Shows(old(Pending(h)), k, v)
      ensures more ==> Pending(h) == Above(old(Pending(h)), Some(key)) && Count(h) < old(Count(h))
      ensures !more ==> forall k: bytes, v: bytes | Within(k, upper) :: !Shows(old(Pending(h)), k, v)
    {
      ghost var all, low := Pending(h), None;
      assert Above(all, None) == all;
      while h != []
        invariant QueueOk(h) && Count(h) <= old(Count(h)) && Pending(h) == Above(all, low)
        invariant low.Some? ==> forall k: bytes, v: bytes | Compare(k, low.value) <= 0 :: !Shows(all, k, v)
        decreases Count(h)
      {
        ghost var before := h;
        LeastIsNewest(h);
        PopPending(h);
        var top, left := h[0], h[1..];
        var e := top.rest[0];
        var rest := SkipPast(e.key.user, top, left);
        h := SkipAll(e.key.user, rest);
        Stepped(all, low, before, h, e);
        if !Within(e.key.user, upper) {
          valid := false;
          BeyondUpper(all, low, e.key.user, upper);
          return false;
        }
        if e.key.kind != KIND_DELETE {
          key, val, valid := e.key.user, e.value, true;
          return true;
        }
        low := Some(e.key.user);
      }
      valid := false;
      NothingAbove(all, low);
      return false;
    }
  }

  /** One round of the loop: the least key is consumed, and its newest version
      decides what is shown for it. */
  lemma Stepped(all: set<Entry>, low: Option<bytes>, before: seq<Item>, after: seq<Item>, e: Entry)
    requires Agree(all) && Pending(before) == Above(all, low)
    requires Newest(Pending(before), e.key.user, SEQ_NUM_MAX, Some(e))
    requires forall x | x in Pending(before) :: Compare(e.key.user, x.key.user) <= 0
    requires forall x :: x in Pending(after) <==> x in Pending(before) && x.key.user != e.key.user
    requires low.Some? ==> forall k: bytes, v: bytes | Compare(k, low.value) <= 0 :: !Shows(all, k, v)
    ensures Pending(after) == Above(all, Some(e.key.user))
    ensures forall k: bytes, v: bytes | Before(k, e.key.user) :: !Shows(all, k, v)
    ensures forall v :: Shows(all, e.key.user, v) <==> e.key.kind != KIND_DELETE && e.value == v
  {
    var u := e.key.user;
    forall k: bytes, v: bytes | Before(k, u)
      ensures !Shows(all, k, v)
    {
      if low.None? || Before(low.value, k) {
        ShowsAbove(all, low, k, v);
        if Shows(Above(all, low), k, v) {
          var x :| Newest(Above(all, low), k, SEQ_NUM_MAX, Some(x));
          CompareFlips(k, u);
        }
      } else {
        CompareFlips(k, low.value);
      }
    }
    forall v
      ensures Shows(all, u, v) <==> e.key.kind != KIND_DELETE && e.value == v
    {
      ShowsAbove(all, low, u, v);
      ShownValue(Above(all, low), e, v);
    }
    forall x
      ensures x in Pending(after) <==> x in Above(all, Some(u))
    {
      if x in all && Before(u, x.key.user) && low.Some? { CompareTransitive(low.value, u, x.key.user); }
    }
  }

  lemma BeyondUpper(all: set<Entry>, low: Option<bytes>, u: bytes, upper: Option<bytes>)
    requires !Within(u, upper)
    requires forall k: bytes, v: bytes | Before(k, u) :: !Shows(all, k, v)
    ensures forall k: bytes, v: bytes | Within(k, upper) :: !Shows(all, k, v)
  {
    forall k: bytes | Within(k, upper)
      ensures Before(k, u)
    {
      CompareFlips(u, upper.value);
      CompareTransitive(k, upper.value, u);
    }
  }

  lemma NothingAbove(all: set<Entry>, low: Option<bytes>)
    requires Above(all, low) == {}
    requires low.Some? ==> forall k: bytes, v: bytes | Compare(k, low.value) <= 0 :: !Shows(all, k, v)
    ensures forall k: bytes, v: bytes :: !Shows(all, k, v)
  {
    forall k: bytes, v: bytes
      ensures !Shows(all, k, v)
    {
      if low.None? || Before(low.value, k) {
        ShowsAbove(all, low, k, v);
      } else {
        CompareFlips(k, low.value);
      }
    }
  }
}
