/** Merging tables with floor-aware dropping: compaction/merge.go and
    sstable/sort_entries.go. */
module Merging {
  import opened Bytes
  import opened InternalKeys
  import opened Versions

  // ---------------------------------------------------------------- sorting

  function Place(e: Entry, sorted: Level): (r: Level)
    ensures multiset(r) == multiset(sorted) + multiset{e}
  {
    if sorted == [] || KeyLeq(e.key, sorted[0].key) then [e] + sorted
    else
      assert sorted == [sorted[0]] + sorted[1..];
      [sorted[0]] + Place(e, sorted[1..])
  }

  lemma {:induction false} PlaceSorted(e: Entry, sorted: Level)
    requires Sorted(sorted)
    ensures Sorted(Place(e, sorted))
  {
    if sorted == [] {
    } else if KeyLeq(e.key, sorted[0].key) {
      forall j | 0 <= j < |sorted|
        ensures KeyLeq(e.key, sorted[j].key)
      {
        if 0 < j { KeyOrderTransitive(e.key, sorted[0].key, sorted[j].key); }
      }
    } else {
      KeyOrderTotal(e.key, sorted[0].key);
      PlaceSorted(e, sorted[1..]);
      var tail := Place(e, sorted[1..]);
      forall x | x in tail
        ensures KeyLeq(sorted[0].key, x.key)
      {
        assert x in multiset(tail);
        assert x == e || x in sorted[1..];
      }
    }
  }

  function SortEntries(entries: seq<Entry>): (r: Level)
    ensures multiset(r) == multiset(entries)
  {
    if entries == [] then []
    else
      assert entries == [entries[0]] + entries[1..];
      Place(entries[0], SortEntries(entries[1..]))
  }

  lemma {:induction false} SortEntriesSorted(entries: seq<Entry>)
    ensures Sorted(SortEntries(entries))
    ensures forall e :: e in SortEntries(entries) <==> e in entries
  {
    if entries != [] {
      SortEntriesSorted(entries[1..]);
      PlaceSorted(entries[0], SortEntries(entries[1..]));
    }
    forall e
      ensures e in SortEntries(entries) <==> e in entries
    {
      assert e in SortEntries(entries) <==> e in multiset(SortEntries(entries));
    }
  }

  // -------------------------------------------------------------- dropping

  function Concat<T>(parts: seq<seq<T>>): seq<T> {
    if parts == [] then [] else parts[0] + Concat(parts[1..])
  }

  /** What the merge keeps of `entries`, read in order, when the keys in `done`
      already have a kept version at or below floor. */
  function Survivors(entries: seq<Entry>, floor: SeqNum, done: set<bytes>): Level {
    if entries == [] then []
    else if entries[0].key.user in done then Survivors(entries[1..], floor, done)
    else [entries[0]] + Survivors(entries[1..], floor, Mark(done, entries[0], floor))
  }

  function Mark(done: set<bytes>, e: Entry, floor: SeqNum): set<bytes> {
    if e.key.num <= floor then done + {e.key.user} else done
  }

  function Merge(tables: seq<Level>, floor: SeqNum): Level {
    SortEntries(Survivors(Concat(tables), floor, {}))
  }

  method MergeIterators(tables: seq<Level>, floor: SeqNum) returns (merged: Level)
    ensures merged == Merge(tables, floor)
  {
    var keptAtOrBelowFloor: set<bytes> := {};
    var result: Level := [];
    for i := 0 to |tables|
      invariant result + Survivors(Concat(tables[i..]), floor, keptAtOrBelowFloor)
             == Survivors(Concat(tables), floor, {})
    {
      var entries := tables[i];
      ghost var rest := Concat(tables[i + 1..]);
      assert Concat(tables[i..]) == entries + rest;
      for j := 0 to |entries|
        invariant result + Survivors(entries[j..] + rest, floor, keptAtOrBelowFloor)
               == Survivors(Concat(tables), floor, {})
      {
        var entry := entries[j];
        assert entries[j..] + rest == [entry] + (entries[j + 1..] + rest);
        if entry.key.user !in keptAtOrBelowFloor {
          result := result + [entry];
          if entry.key.num <= floor {
            keptAtOrBelowFloor := keptAtOrBelowFloor + {entry.key.user};
          }
        }
      }
      assert entries[|entries|..] + rest == rest;
    }
    assert tables[|tables|..] == [];
    assert result == Survivors(Concat(tables), floor, {});
    merged := SortEntries(result);
  }

  // ------------------------------------------- where a survivor comes from

  /** An earlier entry of the same key already satisfies every snapshot >= floor. */
  ghost predicate Shielded(entries: seq<Entry>, i: nat, floor: SeqNum)
    requires i < |entries|
  {
    exists j :: 0 <= j < i && entries[j].key.user == entries[i].key.user && entries[j].key.num <= floor
  }

  lemma {:induction false} SurvivorHasIndex(entries: seq<Entry>, floor: SeqNum, done: set<bytes>, e: Entry)
    returns (i: nat)
    requires e in Survivors(entries, floor, done)
    ensures i < |entries| && entries[i] == e && e.key.user !in done && !Shielded(entries, i, floor)
  {
    var tail := entries[1..];
    if entries[0].key.user in done {
      i := SurvivorHasIndex(tail, floor, done, e);
      i := i + 1;
    } else if e == entries[0] {
      i := 0;
    } else {
      i := SurvivorHasIndex(tail, floor, Mark(done, entries[0], floor), e);
      i := i + 1;
    }
    assert forall j :: 0 < j < i ==> entries[j] == tail[j - 1];
  }

  lemma {:induction false} UnshieldedSurvives(entries: seq<Entry>, floor: SeqNum, done: set<bytes>, i: nat)
    requires i < |entries| && entries[i].key.user !in done && !Shielded(entries, i, floor)
    ensures entries[i] in Survivors(entries, floor, done)
  {
    if 0 < i {
      var tail := entries[1..];
      assert entries[i] == tail[i - 1];
      assert forall j :: 0 <= j < i - 1 ==> tail[j] == entries[j + 1];
      if entries[0].key.user in done {
        UnshieldedSurvives(tail, floor, done, i - 1);
      } else {
        UnshieldedSurvives(tail, floor, Mark(done, entries[0], floor), i - 1);
      }
    }
  }

  /** Behind every shielded entry stands one that survives. */
  lemma FirstShield(entries: seq<Entry>, i: nat, floor: SeqNum) returns (j: nat)
    requires i < |entries| && Shielded(entries, i, floor)
    ensures j < i && entries[j].key.user == entries[i].key.user && entries[j].key.num <= floor
    ensures !Shielded(entries, j, floor)
  {
    j :| 0 <= j < i && entries[j].key.user == entries[i].key.user && entries[j].key.num <= floor;
    if Shielded(entries, j, floor) {
      j := FirstShield(entries, j, floor);
    }
  }

  // ------------------------------------------------ positions in a concat

  function Offset<T>(parts: seq<seq<T>>, a: nat): nat
    requires a <= |parts|
  {
    if a == 0 then 0 else |parts[0]| + Offset(parts[1..], a - 1)
  }

  lemma {:induction false} ConcatAt<T>(parts: seq<seq<T>>, a: nat, i: nat)
    requires a < |parts| && i < |parts[a]|
    ensures Offset(parts, a) + i < |Concat(parts)|
    ensures Concat(parts)[Offset(parts, a) + i] == parts[a][i]
  {
    if 0 < a { ConcatAt(parts[1..], a - 1, i); }
  }

  lemma {:induction false} ConcatLocate<T>(parts: seq<seq<T>>, x: nat) returns (a: nat, i: nat)
    requires x < |Concat(parts)|
    ensures a < |parts| && i < |parts[a]| && x == Offset(parts, a) + i
    ensures Concat(parts)[x] == parts[a][i]
  {
    if x < |parts[0]| {
      a, i := 0, x;
    } else {
      a, i := ConcatLocate(parts[1..], x - |parts[0]|);
      a := a + 1;
    }
  }

  lemma {:induction false} OffsetGrows<T>(parts: seq<seq<T>>, a: nat, b: nat)
    requires a < b <= |parts|
    ensures Offset(parts, a) + |parts[a]| <= Offset(parts, b)
  {
    if 0 < a { OffsetGrows(parts[1..], a - 1, b - 1); }
  }

  // ------------------------------------------------------ the merge is safe

  lemma MergeElems(tables: seq<Level>, floor: SeqNum)
    ensures Sorted(Merge(tables, floor)) && NewestFirst(Merge(tables, floor))
    ensures Elems(Merge(tables, floor)) == Elems(Survivors(Concat(tables), floor, {}))
    ensures Elems(Merge(tables, floor)) <= All(tables)
  {
    var kept := Survivors(Concat(tables), floor, {});
    SortEntriesSorted(kept);
    SortedIsNewestFirst(Merge(tables, floor));
    forall e | e in kept
      ensures e in All(tables)
    {
      var x := SurvivorHasIndex(Concat(tables), floor, {}, e);
      var a, i := ConcatLocate(tables, x);
      assert tables[a] in tables && tables[a][i] in tables[a];
    }
  }

  /** A stored version and its position in the concatenation. */
  lemma StoredAt(tables: seq<Level>, w: Entry, top: nat) returns (b: nat, y: nat)
    requires top <= |tables| && w in All(tables[..top])
    ensures b < top && Offset(tables, b) <= y < Offset(tables, b) + |tables[b]|
    ensures y < |Concat(tables)| && Concat(tables)[y] == w == tables[b][y - Offset(tables, b)]
  {
    var l :| l in tables[..top] && w in l;
    b :| 0 <= b < top && tables[b] == l;
    var j :| 0 <= j < |tables[b]| && tables[b][j] == w;
    ConcatAt(tables, b, j);
    y := Offset(tables, b) + j;
  }

  lemma SurvivesIff(tables: seq<Level>, floor: SeqNum, e: Entry)
    ensures e in Merge(tables, floor) <==> e in Survivors(Concat(tables), floor, {})
  {
    SortEntriesSorted(Survivors(Concat(tables), floor, {}));
  }

  /** Whatever is newer than a survivor, and not stored below it, survives too. */
  lemma NewerSurvives(tables: seq<Level>, floor: SeqNum, v: Entry, w: Entry)
    requires AllNewestFirst(tables)
    requires v in Merge(tables, floor) && Newer(w, v)
    requires forall a | 0 <= a < |tables| && v in tables[a] :: w in All(tables[..a + 1])
    ensures w in Merge(tables, floor)
  {
    SurvivesIff(tables, floor, v);
    SurvivesIff(tables, floor, w);
    var x := SurvivorHasIndex(Concat(tables), floor, {}, v);
    var a, i := ConcatLocate(tables, x);
    var b, y := StoredAt(tables, w, a + 1);
    NewerStandsBefore(tables, a, x, b, y);
    UnshieldedSurvives(Concat(tables), floor, {}, y);
  }

  lemma NewerStandsBefore(tables: seq<Level>, a: nat, x: nat, b: nat, y: nat)
    requires b <= a < |tables| && NewestFirst(tables[a])
    requires Offset(tables, a) <= x < Offset(tables, a) + |tables[a]|
    requires Offset(tables, b) <= y < Offset(tables, b) + |tables[b]|
    requires Newer(tables[b][y - Offset(tables, b)], tables[a][x - Offset(tables, a)])
    ensures y < x
  {
    if b < a { OffsetGrows(tables, b, a); }
  }

  lemma MergeDominates(tables: seq<Level>, floor: SeqNum, low: Level)
    requires AllNewestFirst(tables)
    requires forall a | 0 <= a < |tables| :: Dominates(Elems(tables[a]), tables[a], low)
    ensures Dominates(Elems(Merge(tables, floor)), Merge(tables, floor), low)
  {
    forall v, w | v in Merge(tables, floor) && w in low && Newer(w, v)
      ensures w in Merge(tables, floor)
    {
      forall a | 0 <= a < |tables| && v in tables[a]
        ensures w in All(tables[..a + 1])
      {
        assert w in Elems(tables[a]) && tables[..a + 1][a] == tables[a];
      }
      NewerSurvives(tables, floor, v, w);
    }
  }

  /** The merged table may stand in front of its own inputs. */
  lemma MergeDominatesInputs(tables: seq<Level>, floor: SeqNum, b: nat)
    requires AllNewestFirst(tables) && Pairwise(tables) && b < |tables|
    ensures Dominates(Elems(Merge(tables, floor)), Merge(tables, floor), tables[b])
  {
    forall v, w | v in Merge(tables, floor) && w in tables[b] && Newer(w, v)
      ensures w in Merge(tables, floor)
    {
      forall a | 0 <= a < |tables| && v in tables[a]
        ensures w in All(tables[..a + 1])
      {
        if a < b {
          assert Dominates(Elems(tables[a]), tables[a], tables[b]);
          assert tables[..a + 1][a] == tables[a];
        } else {
          assert tables[..a + 1][b] == tables[b];
        }
      }
      NewerSurvives(tables, floor, v, w);
    }
  }

  /** Merging preserves the newest version, tombstones included, for every key
      and every snapshot at or above floor. */
  lemma MergePreservesNewest(tables: seq<Level>, floor: SeqNum, k: bytes, s: SeqNum, o: Option<Entry>)
    requires AllNewestFirst(tables) && Pairwise(tables) && Agree(All(tables))
    requires floor <= s && Newest(All(tables), k, s, o)
    ensures Newest(Elems(Merge(tables, floor)), k, s, o)
  {
    MergeElems(tables, floor);
    if o.Some? && o.value !in Merge(tables, floor) {
      var w, c := o.value, Concat(tables);
      assert tables[..|tables|] == tables;
      var b, y := StoredAt(tables, w, |tables|);
      SurvivesIff(tables, floor, w);
      if !Shielded(c, y, floor) { UnshieldedSurvives(c, floor, {}, y); }
      var z := FirstShield(c, y, floor);
      UnshieldedSurvives(c, floor, {}, z);
      SurvivesIff(tables, floor, c[z]);
      assert c[z] in Elems(Merge(tables, floor)) && Sees(c[z], k, s);
      MergeDominatesInputs(tables, floor, b);
      assert Newer(w, c[z]) || w == c[z];
    }
  }

  /** Tables as writes leave them: numbers begin with 1. */
  ghost predicate Mergeable(tables: seq<Level>) {
    && AllNewestFirst(tables) && Pairwise(tables) && Agree(All(tables))
    && forall e | e in All(tables) :: e.key.num >= 1
  }

  /** Snapshot s survives every merge at floor. */
  ghost predicate SafeAt(floor: SeqNum, s: SeqNum) {
    forall tables: seq<Level>, k: bytes, o: Option<Entry> | Mergeable(tables) && Newest(All(tables), k, s, o) ::
      Newest(Elems(Merge(tables, floor)), k, s, o)
  }

  /** Below floor the merge is not safe, but for snapshot 0, which sees nothing. */
  lemma SafeAtIff(floor: SeqNum, s: SeqNum)
    ensures SafeAt(floor, s) <==> floor <= s || s == 0
  {
    if floor <= s || s == 0 {
      forall tables: seq<Level>, k: bytes, o: Option<Entry> | Mergeable(tables) && Newest(All(tables), k, s, o)
        ensures Newest(Elems(Merge(tables, floor)), k, s, o)
      {
        if floor <= s { MergePreservesNewest(tables, floor, k, s, o); } else { MergeElems(tables, floor); }
      }
    } else {
      var tables, older := DropsBelowFloor(floor, s);
      assert Newest(All(tables), [], s, Some(older));
    }
  }

  lemma DropsBelowFloor(floor: SeqNum, s: SeqNum) returns (tables: seq<Level>, older: Entry)
    requires 1 <= s < floor
    ensures Mergeable(tables)
    ensures Newest(All(tables), [], s, Some(older)) && older !in Elems(Merge(tables, floor))
  {
    var newer := Entry(InternalKey([], s + 1, KIND_SET), []);
    older := Entry(InternalKey([], s, KIND_SET), []);
    tables := [[newer], [older]];
    TwoTables(newer, older);
    SurvivesIff(tables, floor, older);
    TwoVersions(newer, older, floor);
  }

  lemma TwoTables(newer: Entry, older: Entry)
    requires newer.key.user == older.key.user && newer.key.num > older.key.num >= 1
    ensures Mergeable([[newer], [older]]) && All([[newer], [older]]) == {newer, older}
  {
    var tables := [[newer], [older]];
    assert tables[0] == [newer] && tables[1] == [older];
    assert newer in tables[0] && older in tables[1] && tables[0] in tables && tables[1] in tables;
    assert All(tables) == {newer, older};
  }

  lemma TwoVersions(newer: Entry, older: Entry, floor: SeqNum)
    requires newer.key.user == older.key.user && newer.key.num <= floor && newer != older
    ensures Survivors(Concat([[newer], [older]]), floor, {}) == [newer]
  {
    var both := [newer, older];
    assert [[newer], [older]][1..] == [[older]] && Concat([[older]]) == [older];
    assert Concat([[newer], [older]]) == both && both[1..] == [older] && [older][1..] == [];
    var done := Mark({}, newer, floor);
    assert older.key.user in done;
    assert Survivors([older], floor, done) == Survivors([], floor, done) == [];
    assert Survivors(both, floor, {}) == [newer] + Survivors([older], floor, done);
  }

  // -------------------------------- at most one version at or below floor

  function LowCount(level: Level, k: bytes, floor: SeqNum): nat {
    if level == [] then 0
    else (if Sees(level[0], k, floor) then 1 else 0) + LowCount(level[1..], k, floor)
  }

  lemma {:induction false} PlaceLowCount(e: Entry, sorted: Level, k: bytes, floor: SeqNum)
    ensures LowCount(Place(e, sorted), k, floor) == LowCount(sorted, k, floor) + LowCount([e], k, floor)
  {
    if sorted != [] && !KeyLeq(e.key, sorted[0].key) {
      PlaceLowCount(e, sorted[1..], k, floor);
    }
  }

  lemma {:induction false} SortLowCount(entries: seq<Entry>, k: bytes, floor: SeqNum)
    ensures LowCount(SortEntries(entries), k, floor) == LowCount(entries, k, floor)
  {
    if entries != [] {
      SortLowCount(entries[1..], k, floor);
      PlaceLowCount(entries[0], SortEntries(entries[1..]), k, floor);
    }
  }

  lemma {:induction false} SurvivorsLowCount(entries: seq<Entry>, floor: SeqNum, done: set<bytes>, k: bytes)
    ensures LowCount(Survivors(entries, floor, done), k, floor) <= if k in done then 0 else 1
  {
    if entries != [] {
      SurvivorsLowCount(entries[1..], floor, done, k);
      SurvivorsLowCount(entries[1..], floor, Mark(done, entries[0], floor), k);
    }
  }

  lemma MergeKeepsOneLow(tables: seq<Level>, floor: SeqNum, k: bytes)
    ensures LowCount(Merge(tables, floor), k, floor) <= 1
  {
    SurvivorsLowCount(Concat(tables), floor, {}, k);
    SortLowCount(Survivors(Concat(tables), floor, {}), k, floor);
  }
}
