/** The sorted in-memory table: memtable/memtable.go and memtable/iterator.go.
    The tree is an ordered sequence without equal keys. */
module MemTables {
  import opened Bytes
  import opened InternalKeys
  import opened Versions
  import opened Seeking

  const MEMTABLE_FLUSH_SIZE := 4 * 1024 * 1024

  /** ReplaceOrInsert of the tree. */
  function Insert(tree: Level, e: Entry): Level {
    if tree == [] || KeyLess(e.key, tree[0].key) then [e] + tree
    else if e.key == tree[0].key then [e] + tree[1..]
    else [tree[0]] + Insert(tree[1..], e)
  }

  lemma {:induction false} InsertMembers(tree: Level, e: Entry, x: Entry)
    requires StrictlySorted(tree)
    ensures x in Insert(tree, e) <==> x == e || (x in tree && x.key != e.key)
  {
    if tree != [] {
      assert x in tree <==> x == tree[0] || x in tree[1..];
      if KeyLess(e.key, tree[0].key) {
        forall i | 0 <= i < |tree|
          ensures tree[i].key != e.key
        {
          if 0 < i { KeyOrderTransitive(e.key, tree[0].key, tree[i].key); }
        }
      } else if e.key == tree[0].key {
        assert forall i | 0 < i < |tree| :: tree[i].key != e.key;
      } else {
        InsertMembers(tree[1..], e, x);
      }
    }
  }

  lemma {:induction false} InsertSorted(tree: Level, e: Entry)
    requires StrictlySorted(tree)
    ensures StrictlySorted(Insert(tree, e))
  {
    if tree == [] {
    } else if KeyLess(e.key, tree[0].key) {
      forall i | 0 <= i < |tree|
        ensures KeyLess(e.key, tree[i].key)
      {
        if 0 < i { KeyOrderTransitive(e.key, tree[0].key, tree[i].key); }
      }
    } else if e.key == tree[0].key {
    } else {
      KeyOrderTotal(e.key, tree[0].key);
      InsertSorted(tree[1..], e);
      var rest := Insert(tree[1..], e);
      forall j | 0 <= j < |rest|
        ensures KeyLess(tree[0].key, rest[j].key)
      {
        assert rest[j] in rest;
        InsertMembers(tree[1..], e, rest[j]);
      }
    }
  }

  /** The tree after inserting entries one by one. */
  function InsertAll(entries: seq<Entry>): Level {
    if entries == [] then []
    else Insert(InsertAll(entries[..|entries| - 1]), entries[|entries| - 1])
  }

  lemma {:induction false} InsertAllSorted(entries: seq<Entry>)
    ensures StrictlySorted(InsertAll(entries))
  {
    if entries != [] {
      InsertAllSorted(entries[..|entries| - 1]);
      InsertSorted(InsertAll(entries[..|entries| - 1]), entries[|entries| - 1]);
    }
  }

  ghost predicate DistinctKeys(entries: seq<Entry>) {
    forall i, j | 0 <= i < j < |entries| :: entries[i].key != entries[j].key
  }

  /** Entries with distinct keys are all there: versions accumulate. */
  lemma {:induction false} InsertAllMembers(entries: seq<Entry>, x: Entry)
    requires DistinctKeys(entries)
    ensures x in InsertAll(entries) <==> x in entries
  {
    if entries != [] {
      var last := |entries| - 1;
      InsertAllMembers(entries[..last], x);
      InsertAllSorted(entries[..last]);
      InsertMembers(InsertAll(entries[..last]), entries[last], x);
      assert x in entries <==> x in entries[..last] || x == entries[last];
    }
  }

  /** The memtable of a write sequence: sorted, and holding exactly those writes. */
  lemma InsertAllElems(entries: seq<Entry>)
    requires DistinctKeys(entries)
    ensures StrictlySorted(InsertAll(entries)) && Sorted(InsertAll(entries)) && NewestFirst(InsertAll(entries))
    ensures Elems(InsertAll(entries)) == Elems(entries)
  {
    InsertAllSorted(entries);
    SortedIsNewestFirst(InsertAll(entries));
    forall x
      ensures x in InsertAll(entries) <==> x in entries
    {
      InsertAllMembers(entries, x);
    }
  }

  predicate Within(k: bytes, upper: Option<bytes>) {
    upper.None? || Compare(k, upper.value) <= 0
  }

  /** Entries of a scan: visible at s, user keys up to `upper`, if there is one. */
  function Range(level: Level, upper: Option<bytes>, s: SeqNum): Level {
    if level == [] || !Within(level[0].key.user, upper) then []
    else (if level[0].key.Visible(s) then [level[0]] else []) + Range(level[1..], upper, s)
  }

  lemma {:induction false} RangeMembers(level: Level, upper: Option<bytes>, s: SeqNum, e: Entry)
    requires Sorted(level)
    ensures e in Range(level, upper, s) <==> e in level && Within(e.key.user, upper) && e.key.Visible(s)
  {
    if level == [] {
    } else if !Within(level[0].key.user, upper) {
      if e in level && Within(e.key.user, upper) {
        var i :| 0 <= i < |level| && level[i] == e;
        assert Compare(level[0].key.user, e.key.user) <= 0 by {
          if 0 < i { assert KeyLeq(level[0].key, level[i].key); }
        }
        CompareTransitive(level[0].key.user, e.key.user, upper.value);
      }
    } else {
      RangeMembers(level[1..], upper, s, e);
      assert e in level <==> e == level[0] || e in level[1..];
    }
  }

  lemma {:induction false} RangeSorted(level: Level, upper: Option<bytes>, s: SeqNum)
    requires Sorted(level)
    ensures Sorted(Range(level, upper, s))
  {
    if level != [] {
      RangeSorted(level[1..], upper, s);
      var rest := Range(level[1..], upper, s);
      forall j | 0 <= j < |rest|
        ensures KeyLeq(level[0].key, rest[j].key)
      {
        assert rest[j] in rest;
        RangeMembers(level[1..], upper, s, rest[j]);
      }
    }
  }

  /** Where a seek for k at s lands, if on a version of k. */
  function Sought(level: Level, k: bytes, s: SeqNum): Option<Entry> {
    var rest := From(level, SearchKeyAt(k, s));
    if rest != [] && rest[0].key.user == k then Some(rest[0]) else None
  }

  class MemTable {
    var tree: Level
    var size: nat

    ghost predicate Valid()
      reads this
    {
      StrictlySorted(tree)
    }

    constructor ()
      ensures Valid() && tree == [] && size == 0
    {
      tree, size := [], 0;
    }

    method Put(e: Entry)
      requires Valid()
      modifies this
      ensures Valid() && tree == Insert(old(tree), e)
      ensures size == old(size) + e.key.Size() + |e.value|
    {
      InsertSorted(tree, e);
      tree := Insert(tree, e);
      size := size + e.key.Size() + |e.value|;
    }

    method Seek(pivot: InternalKey) returns (i: nat)
      ensures i <= |tree| && tree[i..] == From(tree, pivot)
    {
      i := 0;
      while i < |tree| && !KeyLeq(pivot, tree[i].key)
        invariant i <= |tree|
        invariant From(tree[i..], pivot) == From(tree, pivot)
      {
        assert tree[i..][1..] == tree[i + 1..];
        i := i + 1;
      }
    }

    /** The entry at or after the search key, if it is of this user key; among
        keys of a valid kind it is the newest version visible at s.  A tombstone
        is not an absence. */
    method Get(k: bytes, s: SeqNum) returns (r: Lookup)
      requires Valid()
      ensures r == Status(Sought(tree, k, s))
      ensures ValidKinds(tree) ==> r == Status(FirstVisible(tree, k, s))
    {
      StrictIsSorted(tree);
      if ValidKinds(tree) { SeekFindsFirstVisible(tree, k, s); }
      var i := Seek(SearchKeyAt(k, s));
      if i == |tree| || tree[i].key.user != k {
        r := Absent;
      } else if tree[i].key.kind == KIND_DELETE {
        r := Deleted;
      } else {
        r := Found(tree[i].value);
      }
    }

    /** Entries from `lower` to `upper` visible at s, collected eagerly. */
    method Collect(lower: bytes, upper: Option<bytes>, s: SeqNum) returns (entries: Level)
      requires Valid()
      ensures entries == Range(From(tree, SearchKeyAt(lower, s)), upper, s)
    {
      var i := Seek(SearchKeyAt(lower, s));
      entries := Walk(tree[i..], upper, s);
    }
  }

  /** The callback of the scan, entry by entry. */
  method Walk(level: Level, upper: Option<bytes>, s: SeqNum) returns (entries: Level)
    ensures entries == Range(level, upper, s)
  {
    entries := [];
    var i := 0;
    while i < |level| && Within(level[i].key.user, upper)
      invariant i <= |level|
      invariant entries + Range(level[i..], upper, s) == Range(level, upper, s)
    {
      RangeStep(level, i, upper, s);
      if level[i].key.Visible(s) {
        entries := entries + [level[i]];
      }
      i := i + 1;
    }
  }

  lemma RangeStep(level: Level, i: nat, upper: Option<bytes>, s: SeqNum)
    requires i < |level| && Within(level[i].key.user, upper)
    ensures level[i].key.Visible(s) ==> Range(level[i..], upper, s) == [level[i]] + Range(level[i + 1..], upper, s)
    ensures !level[i].key.Visible(s) ==> Range(level[i..], upper, s) == Range(level[i + 1..], upper, s)
  {
    assert level[i..][1..] == level[i + 1..];
  }

  lemma StrictIsSorted(level: Level)
    requires StrictlySorted(level)
    ensures Sorted(level)
  {
  }
}
