/** The directory of the tables: its deletions in compaction/compact.go and its
    listing in sstable/reader.go (OpenAllInDir). */
module TableDirs {
  import opened Bytes
  import opened InternalKeys
  import opened Versions
  import opened Grouping
  import opened Compaction
  import opened Watermarks
  import opened Levels
  import opened Decimal
  import opened FileNames
  import opened Stores
  import opened Flushing
  import opened Tables
  import opened TableSets

  // ------------------------------------------------------------ the listing

  /** The name of a as text sorts before that of b. */
  predicate NameBefore(a: SSTable, b: SSTable) { Compare(FileName(a.name), FileName(b.name)) < 0 }

  /** Greatest name first, as text. */
  function Place(t: SSTable, sorted: seq<SSTable>): (r: seq<SSTable>)
    ensures multiset(r) == multiset(sorted) + multiset{t}
  {
    if sorted == [] || NameBefore(sorted[0], t) then [t] + sorted
    else
      assert sorted == [sorted[0]] + sorted[1..];
      [sorted[0]] + Place(t, sorted[1..])
  }

  function ByName(dir: seq<SSTable>): (r: seq<SSTable>)
    ensures multiset(r) == multiset(dir)
  {
    if dir == [] then []
    else
      assert dir == [dir[0]] + dir[1..];
      Place(dir[0], ByName(dir[1..]))
  }

  ghost predicate NamesDescend(tables: seq<SSTable>) {
    forall i, j | 0 <= i < j < |tables| :: !NameBefore(tables[i], tables[j])
  }

  lemma NamesTransitive(a: SSTable, b: SSTable, c: SSTable)
    requires NameBefore(b, a) && !NameBefore(b, c)
    ensures !NameBefore(a, c)
  {
    if NameBefore(a, c) { CompareTransitive(FileName(b.name), FileName(a.name), FileName(c.name)); }
  }

  lemma {:induction false} PlaceDescends(t: SSTable, sorted: seq<SSTable>)
    requires NamesDescend(sorted)
    ensures NamesDescend(Place(t, sorted))
  {
    if sorted == [] {
    } else if NameBefore(sorted[0], t) {
      forall j | 0 <= j < |sorted|
        ensures !NameBefore(t, sorted[j])
      {
        if j == 0 {
          CompareFlips(FileName(sorted[0].name), FileName(t.name));
        } else {
          NamesTransitive(t, sorted[0], sorted[j]);
        }
      }
    } else {
      PlaceDescends(t, sorted[1..]);
      var rest := Place(t, sorted[1..]);
      forall j | 0 <= j < |rest|
        ensures !NameBefore(sorted[0], rest[j])
      {
        assert rest[j] in multiset(rest);
        assert rest[j] == t || rest[j] in sorted[1..];
      }
    }
  }

  lemma {:induction false} ByNameDescends(dir: seq<SSTable>)
    ensures NamesDescend(ByName(dir))
  {
    if dir != [] {
      ByNameDescends(dir[1..]);
      PlaceDescends(dir[0], ByName(dir[1..]));
    }
  }

  /** Every name sorts before those in front of it. */
  ghost predicate SortsByAge(tables: seq<SSTable>) {
    forall i, j | 0 <= i < j < |tables| :: NameBefore(tables[j], tables[i])
  }

  /** Creation times that descend and have as many digits sort by age. */
  lemma TimesSortByAge(tables: seq<SSTable>)
    requires forall i, j | 0 <= i < j < |tables| :: tables[j].name < tables[i].name
    requires forall i, j | 0 <= i < j < |tables| :: |PrintNat(tables[i].name)| == |PrintNat(tables[j].name)|
    ensures SortsByAge(tables)
  {
    forall i, j | 0 <= i < j < |tables|
      ensures NameBefore(tables[j], tables[i])
    {
      NamesSortByTime(tables[j].name, tables[i].name);
    }
  }

  lemma {:induction false} SameOrder(a: seq<SSTable>, b: seq<SSTable>)
    requires multiset(a) == multiset(b) && NamesDescend(a) && SortsByAge(b)
    ensures a == b
  {
    assert |a| == |multiset(a)| == |b|;
    if a != [] {
      SameHead(a, b);
      TailMultiset(a);
      TailMultiset(b);
      SameOrder(a[1..], b[1..]);
      assert a == [a[0]] + a[1..] && b == [b[0]] + b[1..];
    }
  }

  lemma SameHead(a: seq<SSTable>, b: seq<SSTable>)
    requires a != [] && b != [] && multiset(a) == multiset(b) && NamesDescend(a) && SortsByAge(b)
    ensures a[0] == b[0]
  {
    assert a[0] in multiset(b) && b[0] in multiset(a);
    var i :| 0 <= i < |b| && b[i] == a[0];
    var j :| 0 <= j < |a| && a[j] == b[0];
    assert i > 0 ==> NameBefore(b[i], b[0]);
    assert j > 0 ==> !NameBefore(a[0], a[j]);
  }

  lemma TailMultiset(a: seq<SSTable>)
    requires a != []
    ensures multiset(a[1..]) == multiset(a) - multiset{a[0]}
  {
    assert a == [a[0]] + a[1..];
  }

  /** However the directory lists them, the files come back newest first. */
  lemma ByNameRestores(dir: seq<SSTable>, tables: seq<SSTable>)
    requires multiset(dir) == multiset(tables) && SortsByAge(tables)
    ensures ByName(dir) == tables
  {
    ByNameDescends(dir);
    SameOrder(ByName(dir), tables);
  }

  // ------------------------------------------------------------- compaction

  /** The files of the directory, newest name first, and the open tables. */
  ghost predicate Shelved(dir: seq<SSTable>, tables: seq<SSTable>, next: nat) {
    && Descends(dir) && NamesApart(tables)
    && (forall t | t in dir :: t.name < next) && (forall t | t in tables :: t in dir)
  }

  ghost predicate Descends(dir: seq<SSTable>) {
    forall i, j | 0 <= i < j < |dir| :: dir[j].name < dir[i].name
  }

  ghost predicate NamesApart(tables: seq<SSTable>) {
    forall i, j | 0 <= i < j < |tables| :: tables[i].name != tables[j].name
  }

  /** Tables that can be read and hold what was written. */
  ghost predicate Stocked(cfg: Config, tables: seq<SSTable>, history: seq<Entry>) {
    Readable(cfg.hashes, tables) && All(Content(tables)) <= Elems(history)
  }

  lemma StockedCons(cfg: Config, t: SSTable, tables: seq<SSTable>, history: seq<Entry>)
    requires Stocked(cfg, tables, history)
    requires Readable(cfg.hashes, [t]) && Elems(Flat(t.table)) <= Elems(history)
    ensures Stocked(cfg, [t] + tables, history) && FilesOf([t] + tables) == [FileOf(t)] + FilesOf(tables)
  {
    assert Content([t] + tables) == [Flat(t.table)] + Content(tables);
    AllCons(Flat(t.table), Content(tables));
    assert [t][0] == t;
  }

  lemma StockedSnoc(cfg: Config, tables: seq<SSTable>, t: SSTable, history: seq<Entry>)
    requires Stocked(cfg, tables, history)
    requires Readable(cfg.hashes, [t]) && Elems(Flat(t.table)) <= Elems(history)
    ensures Stocked(cfg, tables + [t], history) && FilesOf(tables + [t]) == FilesOf(tables) + [FileOf(t)]
  {
    AllSnoc(tables, t);
    assert [t][0] == t;
  }

  lemma StockedSubset(cfg: Config, some: seq<SSTable>, tables: seq<SSTable>, history: seq<Entry>)
    requires Stocked(cfg, tables, history) && forall t | t in some :: t in tables
    ensures Stocked(cfg, some, history)
  {
    forall i | 0 <= i < |some|
      ensures Readable(cfg.hashes, [some[i]]) && Elems(Flat(some[i].table)) <= Elems(history)
    {
      assert some[i] in some;
      var j :| 0 <= j < |tables| && tables[j] == some[i];
      MemberOfAll(Content(tables), j);
    }
    forall e | e in All(Content(some))
      ensures e in Elems(history)
    {
      var i :| 0 <= i < |some| && e in Content(some)[i];
    }
    assert forall i | 0 <= i < |some| :: [some[i]][0] == some[i];
  }

  ghost function FileOf(t: SSTable): File { File(t.name, Flat(t.table)) }

  // ---- the groups, merged one by one

  /** What the merges so far have put into the result. */
  ghost predicate Placed(tables: seq<SSTable>, groups: seq<seq<nat>>, result: seq<SSTable>, first: nat, next: nat)
    requires |result| <= |groups| && AllIndexes(groups, |tables|)
  {
    && (forall g | 0 <= g < |result| ::
          if |groups[g]| < 2 then result[g] == tables[HeadOf(groups[g], |tables|)] else first <= result[g].name < next)
    && (forall g, h | 0 <= g < h < |result| && |groups[g]| >= 2 && |groups[h]| >= 2 :: result[g].name < result[h].name)
  }

  ghost predicate MergedBefore(groups: seq<seq<nat>>, g: nat, i: nat) {
    exists h :: 0 <= h < g && h < |groups| && |groups[h]| >= 2 && i in groups[h]
  }

  /** The names of the tables merged so far, and no others. */
  ghost predicate Marks(tables: seq<SSTable>, groups: seq<seq<nat>>, g: nat, compacted: set<nat>) {
    && (forall i | 0 <= i < |tables| :: tables[i].name in compacted <==> MergedBefore(groups, g, i))
    && (forall n | n in compacted :: exists t :: t in tables && t.name == n)
  }

  function NamesOf(tables: seq<SSTable>, group: seq<nat>): (names: set<nat>)
    requires Indexes(group, |tables|)
  {
    set i | i in group :: tables[i].name
  }

  lemma MarkGroup(tables: seq<SSTable>, groups: seq<seq<nat>>, g: nat, compacted: set<nat>)
    requires NamesApart(tables) && AllIndexes(groups, |tables|) && g < |groups| && Marks(tables, groups, g, compacted)
    ensures Marks(tables, groups, g + 1, if |groups[g]| < 2 then compacted else compacted + NamesOf(tables, groups[g]))
  {
    var group := groups[g];
    forall i | 0 <= i < |tables|
      ensures MergedBefore(groups, g + 1, i) <==> MergedBefore(groups, g, i) || (|group| >= 2 && i in group)
      ensures tables[i].name in NamesOf(tables, group) <==> i in group
    {
      if tables[i].name in NamesOf(tables, group) {
        var j :| j in group && tables[j].name == tables[i].name;
        assert j == i;
      }
      if |group| >= 2 && i in group { assert MergedBefore(groups, g + 1, i); }
    }
    forall n | n in NamesOf(tables, group)
      ensures exists t :: t in tables && t.name == n
    {
      var j :| j in group && tables[j].name == n;
      assert tables[j] in tables;
    }
  }

  ghost predicate MergingAs(cur: Store, st: Store, groups: seq<seq<nat>>, floor: SeqNum,
                            result: seq<SSTable>, left: seq<SSTable>, next: nat)
  {
    && cur.phase == Phase.Merging(groups, floor, FilesOf(result))
    && cur.tables == st.tables && cur.history == st.history && cur.nextName == next && cur.disk == FilesOf(left)
  }

  /** Where the group loop stands after g groups. */
  ghost predicate Progress(cfg: Config, tables: seq<SSTable>, groups: seq<seq<nat>>, g: nat, first: nat,
                           past: seq<Entry>, result: seq<SSTable>, left: seq<SSTable>, next: nat, compacted: set<nat>)
    requires AllIndexes(groups, |tables|)
  {
    && |result| == g <= |groups| && Placed(tables, groups, result, first, next) && Marks(tables, groups, g, compacted)
    && Stocked(cfg, result, past) && Stocked(cfg, left, past)
    && Shelved(left, tables, next) && first <= next && forall t | t in result :: t in left
  }

  /** The group loop carries out the merge events one by one. */
  method MergeGroups(cfg: Config, tables: seq<SSTable>, dir: seq<SSTable>, groups: seq<seq<nat>>, floor: SeqNum,
                     first: nat, ghost st: Store)
    returns (result: seq<SSTable>, left: seq<SSTable>, next: nat, compacted: set<nat>)
    requires cfg.Valid() && Stocked(cfg, tables, st.history) && Stocked(cfg, dir, st.history)
    requires WellNumbered(st.history) && ValidKinds(st.history) && AllIndexes(groups, |tables|)
    requires st.tables == FilesOf(tables) && Shelved(dir, tables, first)
    requires MergingAs(st, st, groups, floor, [], dir, first)
    ensures MergingAs(MergeAll(st), st, groups, floor, result, left, next)
    ensures Progress(cfg, tables, groups, |groups|, first, st.history, result, left, next, compacted)
  {
    result, left, next, compacted := [], dir, first, {};
    ghost var cur := st;
    for g := 0 to |groups|
      invariant MergingAs(cur, st, groups, floor, result, left, next) && MergeAll(cur) == MergeAll(st)
      invariant Progress(cfg, tables, groups, g, first, st.history, result, left, next, compacted)
    {
      assert CanMerge(cur);
      var t, after := CompactGroup(cfg, tables, groups[g], floor, next, cur);
      assert [t][0] == t;
      ProgressNext(cfg, tables, groups, g, first, st.history, result, left, next, compacted, t, after);
      result, next := result + [t], after;
      if |groups[g]| >= 2 {
        left := [t] + left;
        compacted := compacted + NamesOf(tables, groups[g]);
      }
      cur := AfterMergeNext(cur);
    }
  }

  lemma ProgressNext(cfg: Config, tables: seq<SSTable>, groups: seq<seq<nat>>, g: nat, first: nat, past: seq<Entry>,
                     result: seq<SSTable>, left: seq<SSTable>, next: nat, compacted: set<nat>, t: SSTable, after: nat)
    requires AllIndexes(groups, |tables|) && g < |groups|
    requires Progress(cfg, tables, groups, g, first, past, result, left, next, compacted)
    requires Readable(cfg.hashes, [t]) && Elems(Flat(t.table)) <= Elems(past)
    requires if |groups[g]| < 2 then after == next && t == tables[HeadOf(groups[g], |tables|)]
             else after == next + 1 && t.name == next
    ensures FilesOf(result + [t]) == FilesOf(result) + [FileOf(t)]
    ensures FilesOf([t] + left) == [FileOf(t)] + FilesOf(left) && [] + FilesOf(left) == FilesOf(left)
    ensures var merges := |groups[g]| >= 2;
            Progress(cfg, tables, groups, g + 1, first, past, result + [t], if merges then [t] + left else left, after,
                     if merges then compacted + NamesOf(tables, groups[g]) else compacted)
  {
    MarkGroup(tables, groups, g, compacted);
    StockedSnoc(cfg, result, t, past);
    StockedCons(cfg, t, left, past);
    PlacedNext(tables, groups, result, first, next, t, after);
    if |groups[g]| >= 2 {
      ShelvedNew(left, tables, next, t);
    } else {
      assert tables[HeadOf(groups[g], |tables|)] in tables;
    }
  }

  lemma ShelvedNew(dir: seq<SSTable>, tables: seq<SSTable>, next: nat, t: SSTable)
    requires Shelved(dir, tables, next) && t.name == next
    ensures Shelved([t] + dir, tables, next + 1)
  {
    forall i, j | 0 <= i < j < |[t] + dir|
      ensures ([t] + dir)[j].name < ([t] + dir)[i].name
    {
      assert dir[j - 1] in dir;
    }
  }

  lemma ShelvedInstall(dir: seq<SSTable>, tables: seq<SSTable>, next: nat, t: SSTable)
    requires Shelved(dir, tables, next) && t.name == next
    ensures Shelved([t] + dir, [t] + tables, next + 1)
  {
    ShelvedNew(dir, tables, next, t);
    forall i, j | 0 <= i < j < |[t] + tables|
      ensures ([t] + tables)[i].name != ([t] + tables)[j].name
    {
      assert tables[j - 1] in tables;
    }
  }

  lemma PlacedNext(tables: seq<SSTable>, groups: seq<seq<nat>>, result: seq<SSTable>, first: nat, next: nat,
                   t: SSTable, after: nat)
    requires AllIndexes(groups, |tables|) && |result| < |groups| && Placed(tables, groups, result, first, next)
    requires first <= next && var group := groups[|result|];
             if |group| < 2 then after == next && t == tables[HeadOf(group, |tables|)]
             else after == next + 1 && t.name == next
    ensures Placed(tables, groups, result + [t], first, after)
  {
  }

  // ---- the old tables, deleted one by one

  function RemoveByName(dir: seq<SSTable>, name: nat): seq<SSTable> {
    if dir == [] then []
    else if dir[0].name == name then dir[1..]
    else [dir[0]] + RemoveByName(dir[1..], name)
  }

  lemma {:induction false} RemoveIsWithout(dir: seq<SSTable>, t: SSTable)
    requires Descends(dir) && t in dir
    ensures FilesOf(RemoveByName(dir, t.name)) == Without(FilesOf(dir), FileOf(t))
  {
    assert FilesOf(dir)[1..] == FilesOf(dir[1..]);
    if dir[0].name != t.name {
      RemoveIsWithout(dir[1..], t);
      var rest := RemoveByName(dir[1..], t.name);
      assert FilesOf([dir[0]] + rest) == [FileOf(dir[0])] + FilesOf(rest);
    } else {
      assert dir[0] == t;
    }
  }

  lemma {:induction false} RemovedMembers(dir: seq<SSTable>, name: nat)
    requires Descends(dir)
    ensures Descends(RemoveByName(dir, name))
    ensures forall t :: t in RemoveByName(dir, name) <==> t in dir && t.name != name
  {
    if dir != [] {
      RemovedMembers(dir[1..], name);
      var rest := RemoveByName(dir[1..], name);
      assert forall t :: t in dir <==> t == dir[0] || t in dir[1..];
      if dir[0].name != name {
        forall j | 0 <= j < |rest|
          ensures rest[j].name < dir[0].name
        {
          assert rest[j] in rest;
        }
      }
    }
  }

  /** What is left of a directory when i tables have been looked at. */
  ghost predicate Deleted(tables: seq<SSTable>, dir: seq<SSTable>, compacted: set<nat>, left: seq<SSTable>, i: nat)
    requires i <= |tables|
  {
    && Descends(left) && (forall t | t in left :: t in dir)
    && (forall t | t in dir && t.name !in compacted :: t in left)
    && (forall j | i <= j < |tables| :: tables[j] in left)
  }

  method DeleteMerged(tables: seq<SSTable>, dir: seq<SSTable>, compacted: set<nat>, ghost groups: seq<seq<nat>>,
                      ghost st: Store) returns (left: seq<SSTable>)
    requires Descends(dir) && NamesApart(tables) && (forall t | t in tables :: t in dir)
    requires Marks(tables, groups, |groups|, compacted) && st.disk == FilesOf(dir)
    requires st.phase == Deleting(Victims(FilesOf(tables), groups, 0))
    ensures FilesOf(left) == DeleteAll(st).disk && Deleted(tables, dir, compacted, left, |tables|)
  {
    left := dir;
    ghost var cur, files := st, FilesOf(tables);
    for i := 0 to |tables|
      invariant cur.phase == Deleting(Victims(files, groups, i)) && cur.disk == FilesOf(left)
      invariant DeleteAll(cur) == DeleteAll(st) && Deleted(tables, dir, compacted, left, i)
    {
      assert MergedBefore(groups, |groups|, i) <==> WasMerged(groups, i);
      if tables[i].name in compacted {
        assert Victims(files, groups, i) == [files[i]] + Victims(files, groups, i + 1);
        RemoveIsWithout(left, tables[i]);
        RemovedMembers(left, tables[i].name);
        left := RemoveByName(left, tables[i].name);
        cur := AfterDeleteNext(cur);
      } else {
        assert Victims(files, groups, i) == [] + Victims(files, groups, i + 1) == Victims(files, groups, i + 1);
      }
    }
  }

  // ---- both

  lemma NotMerged(groups: seq<seq<nat>>, n: nat, g: nat, x: nat)
    requires Partition(groups, n) && g < |groups| && |groups[g]| < 2 && x in groups[g]
    ensures !MergedBefore(groups, |groups|, x)
  {
    forall h | 0 <= h < |groups| && |groups[h]| >= 2
      ensures x !in groups[h]
    {
      assert h != g;
    }
  }

  /** The outcomes have names of their own, and none of them was deleted. */
  lemma ResultStays(tables: seq<SSTable>, groups: seq<seq<nat>>, result: seq<SSTable>, dir: seq<SSTable>,
                    first: nat, next: nat, compacted: set<nat>)
    requires AllIndexes(groups, |tables|) && Partition(groups, |tables|) && |result| == |groups|
    requires Placed(tables, groups, result, first, next) && Marks(tables, groups, |groups|, compacted)
    requires NamesApart(tables) && forall t | t in tables :: t.name < first
    ensures NamesApart(result) && forall t | t in result :: t.name !in compacted
  {
    forall g | 0 <= g < |result|
      ensures result[g].name !in compacted
    {
      if |groups[g]| < 2 { NotMerged(groups, |tables|, g, HeadOf(groups[g], |tables|)); }
    }
    forall g, h | 0 <= g < h < |result|
      ensures result[g].name != result[h].name
    {
      if |groups[g]| < 2 { assert tables[HeadOf(groups[g], |tables|)] in tables; }
      if |groups[h]| < 2 { assert tables[HeadOf(groups[h], |tables|)] in tables; }
      if |groups[g]| < 2 && |groups[h]| < 2 {
        assert HeadOf(groups[h], |tables|) !in groups[g];
      }
    }
  }

  /** Merges, then deletions: tables and directory end as the events say. */
  method CompactTables(cfg: Config, tables: seq<SSTable>, dir: seq<SSTable>, floor: SeqNum, nextName: nat,
                       ghost st: Store)
    returns (result: seq<SSTable>, left: seq<SSTable>, next: nat)
    requires cfg.Valid() && Stocked(cfg, tables, st.history) && Stocked(cfg, dir, st.history)
    requires WellNumbered(st.history) && ValidKinds(st.history) && Shelved(dir, tables, nextName)
    requires st.tables == FilesOf(tables) && st.disk == FilesOf(dir) && st.nextName == nextName
    requires floor == Floor(st.pins)
    ensures var now := AfterCompaction(st, Sizes(cfg, tables));
            FilesOf(result) == now.tables && FilesOf(left) == now.disk && next == now.nextName
    ensures Stocked(cfg, result, st.history) && Stocked(cfg, left, st.history) && Shelved(left, result, next)
  {
    if |tables| < COMPACTION_THRESHOLD { return tables, dir, nextName; }
    var groups := GroupBySimilarSize(Sizes(cfg, tables));
    GroupsIndex(Sizes(cfg, tables));
    ghost var started := AfterStart(st, Sizes(cfg, tables));
    assert FilesOf([]) == [];
    var compacted;
    result, left, next, compacted := MergeGroups(cfg, tables, dir, groups, floor, nextName, started);
    ResultStays(tables, groups, result, left, nextName, next, compacted);
    ghost var whole := left;
    left := DeleteMerged(tables, left, compacted, groups, AfterFinishMerging(MergeAll(started)));
    StockedSubset(cfg, left, whole, st.history);
  }
}
