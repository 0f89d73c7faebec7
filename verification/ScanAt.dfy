/** A whole scan: db/iterator.go (ScanAt and a caller that drains it), over the
    memtable and every table. */
module ScanAts {
  import opened Bytes
  import opened InternalKeys
  import opened Versions
  import opened Seeking
  import opened MemTables
  import opened Bloom
  import opened Tables
  import opened Scans

  // ---------------------------------------------------------------- draining

  lemma ShownOnce(S: set<Entry>, k: bytes, v: bytes, w: bytes)
    requires Agree(S) && Shows(S, k, v) && Shows(S, k, w)
    ensures v == w
  {
    var a :| Newest(S, k, SEQ_NUM_MAX, Some(a)) && a.key.kind != KIND_DELETE && a.value == v;
    var b :| Newest(S, k, SEQ_NUM_MAX, Some(b)) && b.key.kind != KIND_DELETE && b.value == w;
    NewestIsUnique(S, k, SEQ_NUM_MAX, Some(a), Some(b));
  }

  ghost predicate AscendingKeys(out: seq<(bytes, bytes)>) {
    forall i, j | 0 <= i < j < |out| :: Before(out[i].0, out[j].0)
  }

  /** Keys in strictly ascending lexicographic order. */
  ghost predicate InKeyOrder(out: seq<(bytes, bytes)>) {
    forall i, j | 0 <= i < j < |out| :: LexLess(out[i].0, out[j].0)
  }

  /** From lower to upper, both included, in lexicographic order. */
  ghost predicate InRange(k: bytes, lower: bytes, upper: Option<bytes>) {
    !LexLess(k, lower) && (upper.Some? ==> !LexLess(upper.value, k))
  }

  lemma RangeIs(k: bytes, lower: bytes, upper: Option<bytes>)
    ensures InRange(k, lower, upper) <==> Compare(lower, k) <= 0 && Within(k, upper)
  {
    CompareIsLexicographic(k, lower);
    CompareFlips(k, lower);
    if upper.Some? {
      CompareIsLexicographic(upper.value, k);
      CompareFlips(upper.value, k);
    }
  }

  lemma OrderIs(out: seq<(bytes, bytes)>)
    requires AscendingKeys(out)
    ensures InKeyOrder(out)
  {
    forall i, j | 0 <= i < j < |out|
      ensures LexLess(out[i].0, out[j].0)
    {
      CompareIsLexicographic(out[i].0, out[j].0);
    }
  }

  /** What has been yielded once the scan has passed `low`. */
  ghost predicate Yielded(out: seq<(bytes, bytes)>, all: set<Entry>, upper: Option<bytes>, low: Option<bytes>) {
    forall k: bytes, v: bytes ::
      (k, v) in out <==> Shows(all, k, v) && Within(k, upper) && low.Some? && Compare(k, low.value) <= 0
  }

  lemma YieldNext(out: seq<(bytes, bytes)>, all: set<Entry>, upper: Option<bytes>, low: Option<bytes>,
                  key: bytes, val: bytes)
    requires Agree(all) && Yielded(out, all, upper, low)
    requires Within(key, upper) && Shows(Above(all, low), key, val)
    requires forall k: bytes, v: bytes | Before(k, key) :: !Shows(Above(all, low), k, v)
    ensures low.Some? ==> Before(low.value, key)
    ensures Yielded(out + [(key, val)], all, upper, Some(key))
    ensures Above(Above(all, low), Some(key)) == Above(all, Some(key))
  {
    var e :| Newest(Above(all, low), key, SEQ_NUM_MAX, Some(e));
    assert low.Some? ==> Before(low.value, key);
    ShowsAbove(all, low, key, val);
    forall k: bytes, v: bytes
      ensures (k, v) in out + [(key, val)] <==> Shows(all, k, v) && Within(k, upper) && Compare(k, key) <= 0
    {
      if low.Some? {
        CompareFlips(k, low.value);
        CompareFlips(low.value, key);
        if Compare(k, low.value) <= 0 { CompareTransitive(k, low.value, key); }
      }
      if low.None? || Before(low.value, k) { ShowsAbove(all, low, k, v); }
      if k == key && Shows(all, k, v) { ShownOnce(all, k, v, val); }
    }
    forall x | x in all && Before(key, x.key.user)
      ensures low.None? || Before(low.value, x.key.user)
    {
      if low.Some? { CompareTransitive(low.value, key, x.key.user); }
    }
  }

  lemma YieldEnd(out: seq<(bytes, bytes)>, all: set<Entry>, upper: Option<bytes>, low: Option<bytes>)
    requires Yielded(out, all, upper, low)
    requires forall k: bytes, v: bytes | Within(k, upper) :: !Shows(Above(all, low), k, v)
    ensures forall k: bytes, v: bytes :: (k, v) in out <==> Shows(all, k, v) && Within(k, upper)
  {
    forall k: bytes, v: bytes
      ensures (k, v) in out <==> Shows(all, k, v) && Within(k, upper)
    {
      if low.None? || Before(low.value, k) { ShowsAbove(all, low, k, v); } else { CompareFlips(k, low.value); }
    }
  }

  lemma AscendingSnoc(out: seq<(bytes, bytes)>, all: set<Entry>, upper: Option<bytes>, low: Option<bytes>,
                      key: bytes, val: bytes)
    requires AscendingKeys(out) && Yielded(out, all, upper, low) && (low.Some? ==> Before(low.value, key))
    ensures AscendingKeys(out + [(key, val)])
  {
    forall i | 0 <= i < |out|
      ensures Before(out[i].0, key)
    {
      assert (out[i].0, out[i].1) in out;
      CompareTransitive(out[i].0, low.value, key);
    }
  }

  /** Calls NextKey until it says no: every key that is shown up to the upper
      bound, in strictly ascending order, with its value. */
  method Drain(it: MergeIterator) returns (out: seq<(bytes, bytes)>)
    requires it.Valid()
    modifies it
    ensures AscendingKeys(out)
    ensures forall k: bytes, v: bytes ::
              (k, v) in out <==> Shows(old(Pending(it.h)), k, v) && Within(k, it.upper)
  {
    out := [];
    ghost var all, low := Pending(it.h), None;
    assert Above(all, None) == all;
    var more := it.NextKey();
    while more
      invariant it.Valid() && AscendingKeys(out) && Yielded(out, all, it.upper, low)
      invariant more ==> Within(it.key, it.upper) && Shows(Above(all, low), it.key, it.val)
      invariant more ==> forall k: bytes, v: bytes | Before(k, it.key) :: !Shows(Above(all, low), k, v)
      invariant more ==> Pending(it.h) == Above(Above(all, low), Some(it.key))
      invariant !more ==> forall k: bytes, v: bytes | Within(k, it.upper) :: !Shows(Above(all, low), k, v)
      decreases more, Count(it.h)
    {
      YieldNext(out, all, it.upper, low, it.key, it.val);
      AscendingSnoc(out, all, it.upper, low, it.key, it.val);
      out := out + [(it.key, it.val)];
      low := Some(it.key);
      more := it.NextKey();
    }
    YieldEnd(out, all, it.upper, low);
  }

  // ----------------------------------------------------------------- sources

  /** What a table's iterator yields, from its seek to its end. */
  method Yield(h: Hashes, t: Table, lower: bytes, s: SeqNum) returns (rest: Level)
    requires WellFormed(h, t)
    ensures Seeks(Flat(t), SearchKeyAt(lower, s), s, rest)
  {
    var it := new Iterator(t.blocks, s);
    it.SeekTo(lower);
    rest := it.TakeAll();
  }

  /** Copies that a seek passes over are still represented. */
  lemma SeeksMembers(flat: Level, lower: bytes, s: SeqNum, rest: Level, x: Entry)
    requires Sorted(flat) && ValidKinds(flat) && Agree(Elems(flat)) && Seeks(flat, SearchKeyAt(lower, s), s, rest)
    ensures x in rest <==> x in flat && x.key.Visible(s) && Compare(lower, x.key.user) <= 0
  {
    var key := SearchKeyAt(lower, s);
    var all := VisibleOnly(From(flat, key), s);
    var n: nat :| SeeksPast(all, key, rest, n);
    SeekMembers(flat, lower, s, x);
    if x in all {
      var i :| 0 <= i < |all| && all[i] == x;
      if i < n {
        assert all[n] in all && all[n] == rest[0];
        SeekMembers(flat, lower, s, all[n]);
        assert all[n] in Elems(flat) && x in Elems(flat);
      } else {
        assert rest[i - n] == x;
      }
    }
  }

  lemma SeeksSorted(flat: Level, key: InternalKey, s: SeqNum, rest: Level)
    requires Sorted(flat) && Seeks(flat, key, s, rest)
    ensures Sorted(rest)
  {
    FromSorted(flat, key);
    VisibleOnlySorted(From(flat, key), s);
  }

  ghost function Levels(mem: Level, tables: seq<Table>): (r: seq<Level>)
    ensures |r| == |tables| + 1 && r[0] == mem && forall i | 0 <= i < |tables| :: r[i + 1] == Flat(tables[i])
  {
    [mem] + seq(|tables|, i requires 0 <= i < |tables| => Flat(tables[i]))
  }

  /** x is offered to the merge by the memtable or one of the first n tables. */
  ghost predicate Offered(mem: Level, tables: seq<Table>, n: nat, lower: bytes, upper: Option<bytes>,
                          s: SeqNum, x: Entry)
    requires n <= |tables|
  {
    && x.key.Visible(s) && Compare(lower, x.key.user) <= 0
    && ((x in mem && Within(x.key.user, upper)) || exists i :: 0 <= i < n && x in Flat(tables[i]))
  }

  ghost predicate AllWellFormed(h: Hashes, tables: seq<Table>) {
    forall i | 0 <= i < |tables| :: WellFormed(h, tables[i])
  }

  lemma MemOffers(tree: Level, lower: bytes, upper: Option<bytes>, s: SeqNum, x: Entry)
    requires Sorted(tree) && ValidKinds(tree)
    ensures x in Range(From(tree, SearchKeyAt(lower, s)), upper, s)
       <==> x in tree && x.key.Visible(s) && Compare(lower, x.key.user) <= 0 && Within(x.key.user, upper)
  {
    var from := From(tree, SearchKeyAt(lower, s));
    FromSorted(tree, SearchKeyAt(lower, s));
    RangeMembers(from, upper, s, x);
    SeekMembers(tree, lower, s, x);
    VisibleOnlyMembers(from, s, x);
  }

  lemma OfferedAgree(mem: Level, tables: seq<Table>, lower: bytes, upper: Option<bytes>, s: SeqNum, S: set<Entry>)
    requires Agree(All(Levels(mem, tables)))
    requires forall x | x in S :: Offered(mem, tables, |tables|, lower, upper, s, x)
    ensures Agree(S)
  {
    var levels := Levels(mem, tables);
    forall x | x in S
      ensures x in All(levels)
    {
      if x in mem {
        assert x in levels[0] && levels[0] in levels;
      } else {
        var i :| 0 <= i < |tables| && x in Flat(tables[i]);
        assert x in levels[i + 1] && levels[i + 1] in levels;
      }
    }
  }

  /** A source joins the queue if it has anything to yield. */
  method Push(queue: seq<Item>, rest: Level, priority: nat) returns (r: seq<Item>)
    requires QueueOk(queue) && Sorted(rest)
    ensures QueueOk(r) && Pending(r) == Pending(queue) + Elems(rest)
  {
    if rest == [] { return queue; }
    EnqueueOk(queue, Item(rest, priority));
    EnqueuePending(queue, Item(rest, priority));
    r := Enqueue(queue, Item(rest, priority));
  }

  /** Opens the scan: the memtable's range and every table's seek. */
  method ScanAt(h: Hashes, mem: MemTable, tables: seq<Table>, lower: bytes, upper: Option<bytes>, s: SeqNum)
    returns (it: MergeIterator)
    requires mem.Valid() && ValidKinds(mem.tree) && AllWellFormed(h, tables) && Agree(All(Levels(mem.tree, tables)))
    ensures fresh(it) && it.Valid() && it.upper == upper
    ensures forall x :: x in Pending(it.h) <==> Offered(mem.tree, tables, |tables|, lower, upper, s, x)
  {
    StrictIsSorted(mem.tree);
    FromSorted(mem.tree, SearchKeyAt(lower, s));
    RangeSorted(From(mem.tree, SearchKeyAt(lower, s)), upper, s);
    var range := mem.Collect(lower, upper, s);
    var queue := Push([], range, 0);
    forall x ensures x in Pending(queue) <==> Offered(mem.tree, tables, 0, lower, upper, s, x) {
      MemOffers(mem.tree, lower, upper, s, x);
    }
    for i := 0 to |tables|
      invariant QueueOk(queue)
      invariant forall x :: x in Pending(queue) <==> Offered(mem.tree, tables, i, lower, upper, s, x)
    {
      var rest := Yield(h, tables[i], lower, s);
      SeeksSorted(Flat(tables[i]), SearchKeyAt(lower, s), s, rest);
      ghost var before := Pending(queue);
      queue := Push(queue, rest, i + 1);
      forall x ensures x in before || x in rest <==> Offered(mem.tree, tables, i + 1, lower, upper, s, x) {
        SeeksMembers(Flat(tables[i]), lower, s, rest, x);
        OfferedMore(mem.tree, tables, i, lower, upper, s, x);
      }
    }
    OfferedAgree(mem.tree, tables, lower, upper, s, Pending(queue));
    it := new MergeIterator(queue, upper);
  }

  lemma OfferedMore(mem: Level, tables: seq<Table>, i: nat, lower: bytes, upper: Option<bytes>, s: SeqNum, x: Entry)
    requires i < |tables|
    ensures Offered(mem, tables, i + 1, lower, upper, s, x) <==>
              Offered(mem, tables, i, lower, upper, s, x)
              || (x in Flat(tables[i]) && x.key.Visible(s) && Compare(lower, x.key.user) <= 0)
  {
  }

  // -------------------------------------------------------------- the result

  /** The newest version of k visible at s over all levels is the value v. */
  ghost predicate ShowsAt(S: set<Entry>, k: bytes, s: SeqNum, v: bytes) {
    exists e :: Newest(S, k, s, Some(e)) && e.key.kind != KIND_DELETE && e.value == v
  }

  lemma OfferedShows(mem: Level, tables: seq<Table>, lower: bytes, upper: Option<bytes>, s: SeqNum, S: set<Entry>,
                     k: bytes, v: bytes)
    requires forall x :: x in S <==> Offered(mem, tables, |tables|, lower, upper, s, x)
    requires Within(k, upper)
    ensures Shows(S, k, v) <==> Compare(lower, k) <= 0 && ShowsAt(All(Levels(mem, tables)), k, s, v)
  {
    var levels := Levels(mem, tables);
    forall x: Entry | x.key.user == k
      ensures x in S <==> Compare(lower, k) <= 0 && x.key.Visible(s) && x in All(levels)
    {
      if x in mem { assert x in levels[0] && levels[0] in levels; }
      if exists i :: 0 <= i < |tables| && x in Flat(tables[i]) {
        var i :| 0 <= i < |tables| && x in Flat(tables[i]);
        assert x in levels[i + 1] && levels[i + 1] in levels;
      }
      if x in All(levels) {
        var j :| 0 <= j < |levels| && x in levels[j];
        if j > 0 { assert x in Flat(tables[j - 1]); }
      }
    }
    if Compare(lower, k) <= 0 {
      forall e: Entry
        ensures Newest(S, k, SEQ_NUM_MAX, Some(e)) <==> Newest(All(levels), k, s, Some(e))
      {
      }
    }
  }

  /** A scan yields strictly ascending user keys, exactly those from lower to
      upper whose newest visible version over all levels is a value, each with
      that value; the order of the tables does not matter. */
  method Scan(h: Hashes, mem: MemTable, tables: seq<Table>, lower: bytes, upper: Option<bytes>, s: SeqNum)
    returns (out: seq<(bytes, bytes)>)
    requires mem.Valid() && ValidKinds(mem.tree) && AllWellFormed(h, tables) && Agree(All(Levels(mem.tree, tables)))
    ensures InKeyOrder(out)
    ensures forall k: bytes, v: bytes ::
              (k, v) in out <==> InRange(k, lower, upper) && ShowsAt(All(Levels(mem.tree, tables)), k, s, v)
  {
    var it := ScanAt(h, mem, tables, lower, upper, s);
    ghost var offered := Pending(it.h);
    out := Drain(it);
    OrderIs(out);
    forall k: bytes, v: bytes
      ensures Shows(offered, k, v) && Within(k, upper)
         <==> InRange(k, lower, upper) && ShowsAt(All(Levels(mem.tree, tables)), k, s, v)
    {
      RangeIs(k, lower, upper);
      if Within(k, upper) { OfferedShows(mem.tree, tables, lower, upper, s, offered, k, v); }
    }
  }

  /** Under the level invariant the scan and the point lookup agree on every key. */
  lemma ScanAgreesWithGet(levels: seq<Level>, k: bytes, s: SeqNum, v: bytes)
    requires AllNewestFirst(levels) && Shadowed(levels) && Agree(All(levels))
    ensures ShowsAt(All(levels), k, s, v) <==> Answer(FirstHit(levels, k, s)) == Some(v)
  {
    FirstHitIsNewest(levels, k, s);
    var o := FirstHit(levels, k, s);
    forall e | Newest(All(levels), k, s, Some(e))
      ensures o == Some(e)
    {
      NewestIsUnique(All(levels), k, s, o, Some(e));
    }
  }
}
