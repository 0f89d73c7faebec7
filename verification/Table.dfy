/** Immutable sorted tables: block partition, sparse index, iterator and point
    lookup (sstable/write_from_entries.go, sstable/index.go,
    sstable/iterator.go, sstable/sstable.go). */
module Tables {
  import opened Bytes
  import opened InternalKeys
  import opened Versions
  import opened Merging
  import opened Seeking
  import opened Bloom

  const BLOCK_SIZE := 4096

  datatype Table = Table(blocks: seq<Level>, bloom: Filter)

  function Flat(t: Table): Level { Concat(t.blocks) }

  ghost predicate NonEmptyBlocks(blocks: seq<Level>) {
    forall b | 0 <= b < |blocks| :: blocks[b] != []
  }

  /** What the writers guarantee and the readers rely on. */
  ghost predicate WellFormed(h: Hashes, t: Table) {
    && NonEmptyBlocks(t.blocks) && Sorted(Flat(t)) && ValidKinds(Flat(t)) && Agree(Elems(Flat(t)))
    && |t.bloom.bits| > 0 && forall e | e in Flat(t) :: MightContain(h, t.bloom, e.key.user)
  }

  // --------------------------------------------------------------- writing

  /** What an entry adds to the size estimate of a block. */
  function EntrySize(e: Entry): nat { e.key.Size() + |e.value| + 8 }

  /** The blocks of a table: a block ends once its estimate reaches the limit. */
  function Split(entries: seq<Entry>, open: Level, size: nat): seq<Level>
    decreases |entries|
  {
    if entries == [] then (if open == [] then [] else [open])
    else
      var grown, total := open + [entries[0]], size + EntrySize(entries[0]);
      if total >= BLOCK_SIZE then [grown] + Split(entries[1..], [], 0)
      else Split(entries[1..], grown, total)
  }

  /** Blocks partition the input in order, and none is empty. */
  lemma {:induction false} SplitPartitions(entries: seq<Entry>, open: Level, size: nat)
    ensures Concat(Split(entries, open, size)) == open + entries
    ensures NonEmptyBlocks(Split(entries, open, size))
    decreases |entries|
  {
    if entries == [] {
      assert open + entries == open;
    } else {
      var grown, total := open + [entries[0]], size + EntrySize(entries[0]);
      assert open + entries == grown + entries[1..];
      if total >= BLOCK_SIZE {
        SplitPartitions(entries[1..], [], 0);
        assert [] + entries[1..] == entries[1..];
      } else {
        SplitPartitions(entries[1..], grown, total);
      }
    }
  }

  function UserKeys(entries: seq<Entry>): (r: seq<bytes>)
    ensures |r| == |entries|
  {
    seq(|entries|, i requires 0 <= i < |entries| => entries[i].key.user)
  }

  function WriteTable(h: Hashes, empty: Filter, entries: seq<Entry>): Table
    requires |empty.bits| > 0
  {
    Table(Split(entries, [], 0), AddAll(h, empty, UserKeys(entries)))
  }

  /** A written table holds the entries it was given and can be read. */
  lemma WriteTableWellFormed(h: Hashes, empty: Filter, entries: seq<Entry>)
    requires |empty.bits| > 0 && Sorted(entries) && ValidKinds(entries) && Agree(Elems(entries))
    ensures Flat(WriteTable(h, empty, entries)) == entries
    ensures WellFormed(h, WriteTable(h, empty, entries))
  {
    SplitPartitions(entries, [], 0);
    assert [] + entries == entries;
    forall e | e in entries
      ensures MightContain(h, AddAll(h, empty, UserKeys(entries)), e.key.user)
    {
      var i :| 0 <= i < |entries| && entries[i] == e;
      assert UserKeys(entries)[i] == e.key.user;
      NoFalseNegatives(h, empty, UserKeys(entries), e.key.user);
    }
  }

  // ------------------------------------------------------- the sparse index

  function FirstKeys(blocks: seq<Level>): (r: seq<InternalKey>)
    requires NonEmptyBlocks(blocks)
    ensures |r| == |blocks|
  {
    seq(|blocks|, i requires 0 <= i < |blocks| => blocks[i][0].key)
  }

  ghost predicate SortedKeys(keys: seq<InternalKey>) {
    forall i, j | 0 <= i < j < |keys| :: KeyLeq(keys[i], keys[j])
  }

  /** The last key at or before the target, or -1. */
  method SearchIndex(keys: seq<InternalKey>, target: InternalKey) returns (result: int)
    requires SortedKeys(keys)
    ensures -1 <= result < |keys|
    ensures forall i | 0 <= i <= result :: KeyLeq(keys[i], target)
    ensures forall i | result < i < |keys| :: KeyLess(target, keys[i])
  {
    var lo, hi := 0, |keys| - 1;
    result := -1;
    while lo <= hi
      invariant 0 <= lo <= |keys| && -1 <= hi < |keys| && result == lo - 1 && lo <= hi + 1
      invariant forall i | 0 <= i < lo :: KeyLeq(keys[i], target)
      invariant forall i | hi < i < |keys| :: KeyLess(target, keys[i])
    {
      var mid := (lo + hi) / 2;
      if KeyLeq(keys[mid], target) {
        forall i | 0 <= i <= mid ensures KeyLeq(keys[i], target) {
          if i < mid { KeyOrderTransitive(keys[i], keys[mid], target); }
        }
        result := mid;
        lo := mid + 1;
      } else {
        KeyOrderTotal(keys[mid], target);
        forall i | mid <= i < |keys| ensures KeyLess(target, keys[i]) {
          if mid < i { KeyOrderTransitive(target, keys[mid], keys[i]); }
        }
        hi := mid - 1;
      }
    }
  }

  lemma FirstKeysSorted(blocks: seq<Level>)
    requires NonEmptyBlocks(blocks) && Sorted(Concat(blocks))
    ensures SortedKeys(FirstKeys(blocks))
  {
    forall i, j | 0 <= i < j < |blocks|
      ensures KeyLeq(FirstKeys(blocks)[i], FirstKeys(blocks)[j])
    {
      ConcatAt(blocks, i, 0);
      ConcatAt(blocks, j, 0);
      OffsetGrows(blocks, i, j);
    }
  }

  // ------------------------------------------------------ where a seek lands

  lemma {:induction false} ConcatDrop<T>(parts: seq<seq<T>>, b: nat)
    requires b <= |parts|
    ensures Offset(parts, b) <= |Concat(parts)|
    ensures Concat(parts[b..]) == Concat(parts)[Offset(parts, b)..]
  {
    if b == 0 {
      assert parts[0..] == parts;
    } else {
      ConcatDrop(parts[1..], b - 1);
      assert parts[1..][b - 1..] == parts[b..];
    }
  }

  /** The position at which a seek to the key lands. */
  ghost function Landing(level: Level, key: InternalKey): (c: nat)
    requires Sorted(level)
    ensures c <= |level| && From(level, key) == level[c..]
  {
    FromCuts(level, key);
    |level| - |From(level, key)|
  }

  ghost predicate CutsAt(level: Level, key: InternalKey, c: nat) {
    && c <= |level| && (forall i | 0 <= i < c :: KeyLess(level[i].key, key))
    && forall i | c <= i < |level| :: KeyLeq(key, level[i].key)
  }

  lemma CutIsOne(level: Level, key: InternalKey, a: nat, b: nat)
    requires CutsAt(level, key, a) && CutsAt(level, key, b)
    ensures a == b
  {
    if a < b { KeyOrderTotal(key, level[a].key); }
    if b < a { KeyOrderTotal(key, level[b].key); }
  }

  lemma LandingCuts(level: Level, key: InternalKey)
    requires Sorted(level)
    ensures CutsAt(level, key, Landing(level, key))
  {
    FromCuts(level, key);
  }

  lemma TailCuts(level: Level, key: InternalKey, n: nat, c: nat)
    requires CutsAt(level, key, c) && n <= |level|
    ensures CutsAt(level[n..], key, if c < n then 0 else c - n)
  {
    var tail := level[n..];
    assert forall i | 0 <= i < |tail| :: tail[i] == level[n + i];
  }

  lemma OnlyCopies(level: Level, key: InternalKey, n: nat, c: nat)
    requires CutsAt(level, key, c) && n <= |level| && forall i | 0 <= i < n :: KeyLeq(level[i].key, key)
    ensures forall i | c <= i < n :: level[i].key == key
  {
    forall i | c <= i < n
      ensures level[i].key == key
    {
      KeyOrderTotal(key, level[i].key);
    }
  }

  /** Starting after a front of entries that are at or before the key changes
      nothing, but that the front may take copies of the key along. */
  lemma FromDrop(level: Level, key: InternalKey, n: nat)
    requires Sorted(level) && n <= |level|
    requires forall i | 0 <= i < n :: KeyLeq(level[i].key, key)
    ensures From(level[n..], key) == level[if Landing(level, key) < n then n else Landing(level, key)..]
    ensures forall i | Landing(level, key) <= i < n :: level[i].key == key
  {
    var c, tail := Landing(level, key), level[n..];
    var m := if c < n then n else c;
    LandingCuts(level, key);
    LandingCuts(tail, key);
    TailCuts(level, key, n, c);
    CutIsOne(tail, key, Landing(tail, key), m - n);
    OnlyCopies(level, key, n, c);
    assert tail[m - n..] == level[m..];
  }

  /** rest is what a seek to `key` yields of `flat`: everything visible from the
      key on, but for copies of the entry at the key itself. */
  ghost predicate Seeks(flat: Level, key: InternalKey, s: SeqNum, rest: Level) {
    var all := VisibleOnly(From(flat, key), s);
    exists n: nat :: SeeksPast(all, key, rest, n)
  }

  ghost predicate SeeksPast(all: Level, key: InternalKey, rest: Level, n: nat) {
    && n <= |all| && rest == all[n..]
    && (forall i | 0 <= i < n :: all[i].key == key)
    && (n > 0 ==> n < |all| && all[n].key == key)
  }

  /** Without equal keys a seek is exact. */
  lemma SeeksExactly(flat: Level, key: InternalKey, s: SeqNum, rest: Level)
    requires StrictlySorted(flat) && Seeks(flat, key, s, rest)
    ensures rest == VisibleOnly(From(flat, key), s)
  {
    var all := VisibleOnly(From(flat, key), s);
    var n: nat :| SeeksPast(all, key, rest, n);
    FromStrict(flat, key);
    VisibleOnlyStrict(From(flat, key), s);
    assert n > 0 ==> KeyLess(all[0].key, all[n].key);
  }

  lemma {:induction false} FromStrict(level: Level, key: InternalKey)
    requires StrictlySorted(level)
    ensures StrictlySorted(From(level, key))
  {
    if level != [] && !KeyLeq(key, level[0].key) { FromStrict(level[1..], key); }
  }

  lemma {:induction false} VisibleOnlyStrict(level: Level, s: SeqNum)
    requires StrictlySorted(level)
    ensures StrictlySorted(VisibleOnly(level, s))
  {
    if level != [] {
      VisibleOnlyStrict(level[1..], s);
      var rest := VisibleOnly(level[1..], s);
      forall j | 0 <= j < |rest|
        ensures KeyLess(level[0].key, rest[j].key)
      {
        VisibleOnlyMembers(level[1..], s, rest[j]);
        assert rest[j] in rest;
      }
    }
  }

  /** Starting at the block that the index search returns. */
  lemma StartBlock(blocks: seq<Level>, key: InternalKey, b: nat, s: SeqNum)
    requires NonEmptyBlocks(blocks) && Sorted(Concat(blocks)) && b <= |blocks|
    requires b < |blocks| ==> b == 0 || KeyLeq(blocks[b][0].key, key)
    requires b == |blocks| ==> b == 0
    ensures Seeks(Concat(blocks), key, s, VisibleOnly(From(Concat(blocks[b..]), key), s))
  {
    var flat, n := Concat(blocks), Offset(blocks, b);
    ConcatDrop(blocks, b);
    if b == 0 {
      assert blocks[0..] == blocks;
      assert SeeksPast(VisibleOnly(From(flat, key), s), key, VisibleOnly(From(flat, key), s), 0);
    } else {
      ConcatAt(blocks, b, 0);
      forall i | 0 <= i < n
        ensures KeyLeq(flat[i].key, key)
      {
        KeyOrderTransitive(flat[i].key, flat[n].key, key);
      }
      FromDrop(flat, key, n);
      var c := Landing(flat, key);
      if n <= c {
        assert SeeksPast(VisibleOnly(flat[c..], s), key, VisibleOnly(flat[c..], s), 0);
      } else {
        LandsOnKey(flat, key, n);
        DropCopies(flat, key, c, n, s);
      }
    }
  }

  lemma LandsOnKey(flat: Level, key: InternalKey, n: nat)
    requires Sorted(flat) && Landing(flat, key) <= n < |flat| && KeyLeq(flat[n].key, key)
    ensures flat[n].key == key
  {
    FromCuts(flat, key);
    KeyOrderTotal(flat[n].key, key);
  }

  lemma DropCopies(flat: Level, key: InternalKey, c: nat, n: nat, s: SeqNum)
    requires Sorted(flat) && c < n < |flat| && flat[n].key == key
    requires forall i | c <= i < n :: flat[i].key == key
    ensures exists m: nat :: SeeksPast(VisibleOnly(flat[c..], s), key, VisibleOnly(flat[n..], s), m)
  {
    var copies, rest := flat[c..n], flat[n..];
    assert copies + rest == flat[c..];
    CopiesSkipped(copies, rest, key, s);
  }

  lemma CopiesSkipped(copies: Level, rest: Level, key: InternalKey, s: SeqNum)
    requires copies != [] && rest != [] && rest[0].key == key
    requires forall i | 0 <= i < |copies| :: copies[i].key == key
    ensures SeeksPast(VisibleOnly(copies + rest, s), key, VisibleOnly(rest, s), if key.Visible(s) then |copies| else 0)
  {
    VisibleOnlyAppend(copies, rest, s);
    VisibleCopies(copies, key, s);
    var all := VisibleOnly(copies + rest, s);
    if key.Visible(s) {
      assert all == copies + VisibleOnly(rest, s);
      assert all[|copies|..] == VisibleOnly(rest, s);
      assert VisibleOnly(rest, s)[0] == rest[0];
    } else {
      assert all == [] + VisibleOnly(rest, s);
    }
  }

  lemma {:induction false} VisibleCopies(copies: Level, key: InternalKey, s: SeqNum)
    requires forall i | 0 <= i < |copies| :: copies[i].key == key
    ensures VisibleOnly(copies, s) == if key.Visible(s) then copies else []
  {
    if copies != [] {
      VisibleCopies(copies[1..], key, s);
      assert copies == [copies[0]] + copies[1..];
    }
  }

  // -------------------------------------------------------------- iterator

  lemma Regroup(a: Level, e: Entry, b: Level)
    ensures a + ([e] + b) == a + [e] + b
  {
  }

  class Iterator {
    const blocks: seq<Level>
    const snapshot: SeqNum
    var blockIdx: nat
    var entries: Level
    var pos: nat
    var valid: bool

    ghost predicate Valid()
      reads this
    {
      && NonEmptyBlocks(blocks)
      && (valid ==> blockIdx < |blocks| && entries == blocks[blockIdx] && pos < |entries|)
    }

    /** The entries from the current one on. */
    ghost function Rest(): Level
      requires Valid()
      reads this
    {
      if valid then entries[pos..] + Concat(blocks[blockIdx + 1..]) else []
    }

    /** What is still to come: the visible ones of them. */
    ghost function Remaining(): Level
      requires Valid()
      reads this
    {
      VisibleOnly(Rest(), snapshot)
    }

    lemma CurrentIsFirst()
      requires Valid() && valid
      ensures Rest() != [] && Rest()[0] == entries[pos]
      ensures Remaining() == Keep(entries[pos], snapshot) + VisibleOnly(Rest()[1..], snapshot)
    {
    }

    /** Positioned on a visible entry, or at the end. */
    ghost predicate Positioned()
      reads this
    {
      Valid() && (valid ==> entries[pos].key.Visible(snapshot))
    }

    /** Not yet positioned: no block loaded. */
    constructor (blocks: seq<Level>, snapshot: SeqNum)
      requires NonEmptyBlocks(blocks)
      ensures Valid() && !valid && this.blocks == blocks && this.snapshot == snapshot
    {
      this.blocks, this.snapshot := blocks, snapshot;
      blockIdx, entries, pos, valid := 0, [], 0, false;
    }

    method LoadBlock()
      requires NonEmptyBlocks(blocks)
      modifies this
      ensures Valid() && blockIdx == old(blockIdx)
      ensures Rest() == if blockIdx < |blocks| then Concat(blocks[blockIdx..]) else []
    {
      if blockIdx >= |blocks| {
        valid := false;
      } else {
        entries := blocks[blockIdx];
        pos := 0;
        valid := |entries| > 0;
        assert blocks[blockIdx..][1..] == blocks[blockIdx + 1..];
      }
    }

    method Advance() returns (more: bool)
      requires Valid() && valid
      modifies this
      ensures Valid() && Rest() == old(Rest())[1..] && more == valid
    {
      ghost var was, tail := Rest(), Concat(blocks[blockIdx + 1..]);
      assert was[1..] == entries[pos + 1..] + tail;
      pos := pos + 1;
      if pos < |entries| { return true; }
      assert entries[pos..] + tail == tail;
      assert blockIdx + 1 >= |blocks| ==> tail == [];
      blockIdx := blockIdx + 1;
      LoadBlock();
      more := valid;
    }

    method SkipInvisible()
      requires Valid()
      modifies this
      ensures Positioned() && Remaining() == old(Remaining())
    {
      while valid && !entries[pos].key.Visible(snapshot)
        invariant Valid() && Remaining() == old(Remaining())
        decreases |Rest()|
      {
        SkipOne();
      }
    }

    method SkipOne()
      requires Valid() && valid && !entries[pos].key.Visible(snapshot)
      modifies this
      ensures Valid() && Remaining() == old(Remaining()) && |Rest()| < |old(Rest())|
    {
      CurrentIsFirst();
      var more := Advance();
    }

    /** To the next visible entry. */
    method NextEntry()
      requires Positioned() && valid
      modifies this
      ensures Positioned() && Remaining() == old(Remaining())[1..]
    {
      CurrentIsFirst();
      var more := Advance();
      if more { SkipInvisible(); }
    }

    /** The current entry, and on to the next. */
    method Take() returns (e: Entry)
      requires Positioned() && valid
      modifies this
      ensures Positioned() && [e] + Remaining() == old(Remaining())
    {
      CurrentIsFirst();
      e := entries[pos];
      NextEntry();
    }

    /** Everything still to come, taken one by one. */
    method TakeAll() returns (rest: Level)
      requires Positioned()
      modifies this
      ensures rest == old(Remaining())
    {
      rest := [];
      while valid
        invariant Positioned() && rest + Remaining() == old(Remaining())
        decreases |Remaining()|
      {
        var e := Take();
        Regroup(rest, e, Remaining());
        rest := rest + [e];
      }
      assert rest + [] == rest;
    }

    /** The forward walk to the first entry at or after the key. */
    method WalkTo(key: InternalKey)
      requires Valid()
      modifies this
      ensures Valid() && Rest() == From(old(Rest()), key)
    {
      while valid && !KeyLeq(key, entries[pos].key)
        invariant Valid() && From(Rest(), key) == From(old(Rest()), key)
        decreases |Rest()|
      {
        assert Rest()[0] == entries[pos];
        var more := Advance();
      }
      assert valid ==> Rest()[0] == entries[pos];
    }

    /** To the first visible entry at or after user key `lower`. */
    method SeekTo(lower: bytes)
      requires NonEmptyBlocks(blocks) && Sorted(Concat(blocks))
      modifies this
      ensures Positioned() && Seeks(Concat(blocks), SearchKeyAt(lower, snapshot), snapshot, Remaining())
    {
      var key := SearchKeyAt(lower, snapshot);
      FirstKeysSorted(blocks);
      var b := SearchIndex(FirstKeys(blocks), key);
      assert b > 0 ==> KeyLeq(FirstKeys(blocks)[b], key);
      if b < 0 { b := 0; }
      blockIdx := b;
      StartBlock(blocks, key, b, snapshot);
      LoadBlock();
      assert Rest() == Concat(blocks[b..]);
      WalkTo(key);
      SkipInvisible();
    }
  }

  // ---------------------------------------------------------------- lookup

  /** What an iterator positioned at user key k is on. */
  lemma SeekLookup(flat: Level, k: bytes, s: SeqNum, rest: Level)
    requires Sorted(flat) && ValidKinds(flat) && Agree(Elems(flat)) && Seeks(flat, SearchKeyAt(k, s), s, rest)
    ensures FirstVisible(flat, k, s) == if rest != [] && rest[0].key.user == k then Some(rest[0]) else None
  {
    var key := SearchKeyAt(k, s);
    var all := VisibleOnly(From(flat, key), s);
    var n: nat :| SeeksPast(all, key, rest, n);
    SeekVisibleFindsFirstVisible(flat, k, s);
    if n > 0 {
      assert all[0] in all && all[n] in all;
      VisibleOnlyMembers(From(flat, key), s, all[0]);
      VisibleOnlyMembers(From(flat, key), s, all[n]);
      FromMembers(flat, key, all[0]);
      FromMembers(flat, key, all[n]);
      assert all[0] in Elems(flat) && all[n] in Elems(flat);
    }
  }

  /** A point lookup returns the newest visible version of the table, and the
      Bloom filter never changes the answer. */
  method LookupIn(h: Hashes, t: Table, k: bytes, s: SeqNum) returns (r: Lookup)
    requires WellFormed(h, t)
    ensures r == Status(FirstVisible(Flat(t), k, s))
  {
    if !MightContain(h, t.bloom, k) {
      assert forall e | e in Flat(t) :: e.key.user != k;
      return Absent;
    }
    var it := new Iterator(t.blocks, s);
    it.SeekTo(k);
    SeekLookup(Flat(t), k, s, it.Remaining());
    assert it.valid ==> it.Rest()[0] == it.entries[it.pos];
    if !it.valid { return Absent; }
    var e := it.entries[it.pos];
    if e.key.user != k { return Absent; }
    if e.key.kind == KIND_DELETE { return Deleted; }
    return Found(e.value);
  }
}
