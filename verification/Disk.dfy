/** What a compaction leaves on disk, and so what a reopen finds. */
module Disks {
  import opened InternalKeys
  import opened Versions
  import opened Grouping
  import opened Compaction
  import opened Watermarks
  import opened Stores
  import opened StoreInvariants
  import opened Flushing

  // ------------------------------------------------------------- new files

  /** The files that the groups so far were merged into, the last one first. */
  ghost function Fresh(groups: seq<seq<nat>>, done: seq<File>): seq<File>
    requires |done| <= |groups|
    decreases |done|
  {
    if done == [] then []
    else Fresh(groups[1..], done[1..]) + if |groups[0]| < 2 then [] else [done[0]]
  }

  lemma {:induction false} FreshSnoc(groups: seq<seq<nat>>, done: seq<File>, f: File)
    requires |done| < |groups|
    ensures Fresh(groups, done + [f]) == (if |groups[|done|]| < 2 then [] else [f]) + Fresh(groups, done)
    decreases |done|
  {
    if done == [] {
      assert Fresh(groups[1..], [f][1..]) == [];
      assert done + [f] == [f];
    } else {
      FreshSnoc(groups[1..], done[1..], f);
      assert (done + [f])[1..] == done[1..] + [f];
    }
  }

  lemma {:induction false} FreshLevels(tables: seq<Level>, groups: seq<seq<nat>>, done: seq<File>, floor: SeqNum)
    requires AllIndexes(groups, |tables|) && |done| == |groups|
    requires forall g | 0 <= g < |done| :: done[g].level == Outcome(tables, groups[g], floor)
    ensures LevelsOf(Fresh(groups, done)) == MergedByName(tables, groups, floor)
    decreases |done|
  {
    if done != [] { FreshLevels(tables, groups[1..], done[1..], floor); }
  }

  /** New files in front of the old ones, under newer names. */
  ghost predicate Growing(st: Store, base: nat)
    requires st.phase.Merging?
  {
    && |st.phase.done| <= |st.phase.groups| && base <= st.nextName
    && st.disk == Fresh(st.phase.groups, st.phase.done) + st.tables
    && forall f | f in Fresh(st.phase.groups, st.phase.done) :: base <= f.name
  }

  lemma {:induction false} MergeAllGrows(st: Store, base: nat)
    requires st.phase.Merging? && Growing(st, base)
    ensures Growing(MergeAll(st), base)
    decreases |st.phase.groups| - |st.phase.done|
  {
    if CanMerge(st) {
      var next := AfterMergeNext(st);
      FreshSnoc(st.phase.groups, st.phase.done, next.phase.done[|st.phase.done|]);
      assert next.phase.done == st.phase.done + [next.phase.done[|st.phase.done|]];
      MergeAllGrows(next, base);
    }
  }

  // ------------------------------------------------------------- old files

  ghost function RemoveAll(disk: seq<File>, victims: seq<File>): seq<File>
    decreases |victims|
  {
    if victims == [] then disk else RemoveAll(Without(disk, victims[0]), victims[1..])
  }

  lemma {:induction false} DeleteAllRemoves(st: Store)
    requires st.phase.Deleting?
    ensures DeleteAll(st).disk == RemoveAll(st.disk, st.phase.victims)
    decreases |st.phase.victims|
  {
    if st.phase.victims != [] { DeleteAllRemoves(AfterDeleteNext(st)); }
  }

  /** The tables from i on that no group merged. */
  ghost function Unmerged(tables: seq<File>, groups: seq<seq<nat>>, i: nat): seq<File>
    decreases |tables| - i
  {
    if |tables| <= i then []
    else (if WasMerged(groups, i) then [] else [tables[i]]) + Unmerged(tables, groups, i + 1)
  }

  lemma {:induction false} WithoutAt(front: seq<File>, f: File, back: seq<File>)
    requires f !in front
    ensures Without(front + [f] + back, f) == front + back
  {
    var all := front + [f] + back;
    if front == [] {
      assert all == [f] + back;
    } else {
      WithoutAt(front[1..], f, back);
      assert all[1..] == front[1..] + [f] + back;
      assert front + back == [front[0]] + (front[1..] + back);
    }
  }

  /** None of the old files from i on is in front of them. */
  ghost predicate Behind(front: seq<File>, tables: seq<File>, i: nat) {
    i <= |tables| && forall j | i <= j < |tables| :: tables[j] !in front
  }

  ghost predicate AllDiffer(tables: seq<File>) {
    forall j, k | 0 <= j < k < |tables| :: tables[j] != tables[k]
  }

  lemma {:induction false} VictimsGo(front: seq<File>, tables: seq<File>, groups: seq<seq<nat>>, i: nat)
    requires Behind(front, tables, i) && AllDiffer(tables)
    ensures RemoveAll(front + tables[i..], Victims(tables, groups, i)) == front + Unmerged(tables, groups, i)
    decreases |tables| - i
  {
    if i < |tables| {
      if WasMerged(groups, i) {
        VictimGoes(front, tables, groups, i);
        VictimsGo(front, tables, groups, i + 1);
      } else {
        OtherStays(front, tables, groups, i);
        VictimsGo(front + [tables[i]], tables, groups, i + 1);
      }
    }
  }

  lemma VictimGoes(front: seq<File>, tables: seq<File>, groups: seq<seq<nat>>, i: nat)
    requires i < |tables| && Behind(front, tables, i) && WasMerged(groups, i)
    ensures RemoveAll(front + tables[i..], Victims(tables, groups, i))
         == RemoveAll(front + tables[i + 1..], Victims(tables, groups, i + 1))
    ensures Unmerged(tables, groups, i) == Unmerged(tables, groups, i + 1) && Behind(front, tables, i + 1)
  {
    var rest := Victims(tables, groups, i + 1);
    assert ([tables[i]] + rest)[1..] == rest;
    WithoutAt(front, tables[i], tables[i + 1..]);
    ApartFromFirst(front, tables, i);
  }

  lemma ApartFromFirst(front: seq<File>, tables: seq<File>, i: nat)
    requires i < |tables|
    ensures front + tables[i..] == front + [tables[i]] + tables[i + 1..]
  {
  }

  lemma BehindOne(front: seq<File>, tables: seq<File>, i: nat)
    requires i < |tables| && Behind(front, tables, i) && AllDiffer(tables)
    ensures Behind(front + [tables[i]], tables, i + 1)
  {
  }

  lemma OtherStays(front: seq<File>, tables: seq<File>, groups: seq<seq<nat>>, i: nat)
    requires i < |tables| && Behind(front, tables, i) && AllDiffer(tables) && !WasMerged(groups, i)
    ensures RemoveAll(front + tables[i..], Victims(tables, groups, i))
         == RemoveAll(front + [tables[i]] + tables[i + 1..], Victims(tables, groups, i + 1))
    ensures front + Unmerged(tables, groups, i) == front + [tables[i]] + Unmerged(tables, groups, i + 1)
    ensures Behind(front + [tables[i]], tables, i + 1)
  {
    assert Victims(tables, groups, i) == Victims(tables, groups, i + 1);
    ApartFromFirst(front, tables, i);
    BehindOne(front, tables, i);
    var rest := Unmerged(tables, groups, i + 1);
    assert front + ([tables[i]] + rest) == front + [tables[i]] + rest;
  }

  // ------------------------------------------------------- in group order

  /** Groups are in the order of their first tables. */
  ghost predicate BySeeds(groups: seq<seq<nat>>, n: nat) {
    && AllIndexes(groups, n) && Partition(groups, n)
    && forall g, h | 0 <= g < h < |groups| :: groups[g][0] < groups[h][0]
  }

  lemma GroupsBySeeds(sizes: seq<nat>)
    ensures BySeeds(Groups(sizes), |sizes|)
  {
    GroupsIndex(sizes);
    GroupsAreGrouping(sizes);
    var groups := Groups(sizes);
    forall g, h | 0 <= g < h < |groups|
      ensures groups[g][0] < groups[h][0]
    {
      assert Rejects(groups[g], SimilarIn(sizes), groups[h][0]);
    }
  }

  /** A table that was not merged is a group of its own. */
  lemma OwnGroup(groups: seq<seq<nat>>, n: nat, i: nat) returns (g: nat)
    requires BySeeds(groups, n) && i < n && !WasMerged(groups, i)
    ensures g < |groups| && groups[g] == [i]
  {
    assert Covered(groups, i);
    g :| 0 <= g < |groups| && i in groups[g];
    assert |groups[g]| < 2;
  }

  /** From table i and group p on, the groups of one table are the tables that
      were not merged. */
  lemma {:induction false} SinglesInOrder(tables: seq<File>, groups: seq<seq<nat>>, floor: SeqNum, i: nat, p: nat)
    requires BySeeds(groups, |tables|) && i <= |tables| && p <= |groups|
    requires forall g | 0 <= g < |groups| :: groups[g][0] < i <==> g < p
    ensures KeptByName(LevelsOf(tables), groups[p..], floor) == LevelsOf(Unmerged(tables, groups, i))
    decreases |tables| - i
  {
    if i == |tables| {
      assert forall g | 0 <= g < |groups| :: groups[g][0] in groups[g];
    } else {
      UnmergedLevels(tables, groups, i);
      if p < |groups| && groups[p][0] == i {
        SeedTells(groups, |tables|, i, p);
        KeptStep(LevelsOf(tables), groups, floor, p);
        SinglesInOrder(tables, groups, floor, i + 1, p + 1);
      } else {
        MergedIfNoSeed(groups, |tables|, i, p);
        SinglesInOrder(tables, groups, floor, i + 1, p);
      }
    }
  }

  lemma UnmergedLevels(tables: seq<File>, groups: seq<seq<nat>>, i: nat)
    requires i < |tables|
    ensures LevelsOf(Unmerged(tables, groups, i))
         == (if WasMerged(groups, i) then [] else [tables[i].level]) + LevelsOf(Unmerged(tables, groups, i + 1))
  {
  }

  lemma KeptStep(tables: seq<Level>, groups: seq<seq<nat>>, floor: SeqNum, p: nat)
    requires AllIndexes(groups, |tables|) && p < |groups|
    ensures groups[p][0] < |tables|
    ensures KeptByName(tables, groups[p..], floor)
         == (if |groups[p]| < 2 then [tables[groups[p][0]]] else []) + KeptByName(tables, groups[p + 1..], floor)
  {
    assert groups[p..][1..] == groups[p + 1..] && groups[p][0] in groups[p];
  }

  /** A group's first table was merged exactly when the group has others. */
  lemma SeedTells(groups: seq<seq<nat>>, n: nat, i: nat, p: nat)
    requires BySeeds(groups, n) && p < |groups| && groups[p][0] == i
    ensures WasMerged(groups, i) <==> |groups[p]| >= 2
  {
    assert i in groups[p];
    if WasMerged(groups, i) { MergedSeed(groups, n, i, p); }
  }

  lemma MergedIfNoSeed(groups: seq<seq<nat>>, n: nat, i: nat, p: nat)
    requires BySeeds(groups, n) && i < n && p <= |groups| && (p < |groups| ==> groups[p][0] != i)
    requires forall g | 0 <= g < |groups| :: groups[g][0] < i <==> g < p
    ensures WasMerged(groups, i)
  {
    if !WasMerged(groups, i) { var g := OwnGroup(groups, n, i); }
  }

  lemma MergedSeed(groups: seq<seq<nat>>, n: nat, i: nat, p: nat)
    requires BySeeds(groups, n) && p < |groups| && i in groups[p] && WasMerged(groups, i)
    ensures |groups[p]| >= 2
  {
    var g :| 0 <= g < |groups| && |groups[g]| >= 2 && i in groups[g];
  }

  // ----------------------------------------------------------- the whole

  /** Whatever the groups, a compaction of all the tables on disk leaves there
      exactly what Reopened says, in that order. */
  lemma CompactionDisk(st: Store, sizes: seq<nat>)
    requires |sizes| == |st.tables| >= COMPACTION_THRESHOLD && st.disk == st.tables
    requires Descending(st.disk, st.nextName)
    ensures AllIndexes(Groups(sizes), |sizes|)
    ensures LevelsOf(AfterCompaction(st, sizes).disk) == Reopened(LevelsOf(st.tables), Groups(sizes), Floor(st.pins))
  {
    GroupsBySeeds(sizes);
    var groups, floor := Groups(sizes), Floor(st.pins);
    var done := LeftOnDisk(st, sizes);
    FreshLevels(LevelsOf(st.tables), groups, done, floor);
    SinglesInOrder(st.tables, groups, floor, 0, 0);
    assert groups[0..] == groups;
  }

  lemma LeftOnDisk(st: Store, sizes: seq<nat>) returns (done: seq<File>)
    requires |sizes| == |st.tables| >= COMPACTION_THRESHOLD && st.disk == st.tables
    requires Descending(st.disk, st.nextName) && AllIndexes(Groups(sizes), |sizes|)
    ensures |done| == |Groups(sizes)|
    ensures forall g | 0 <= g < |done| ::
              done[g].level == Outcome(LevelsOf(st.tables), Groups(sizes)[g], Floor(st.pins))
    ensures AfterCompaction(st, sizes).disk == Fresh(Groups(sizes), done) + Unmerged(st.tables, Groups(sizes), 0)
  {
    var started := AfterStart(st, sizes);
    MergeAllDone(started);
    MergeAllGrows(started, st.nextName);
    var merged := MergeAll(started);
    done := merged.phase.done;
    DeleteAllRemoves(AfterFinishMerging(merged));
    assert st.tables[0..] == st.tables;
    VictimsGo(Fresh(Groups(sizes), done), st.tables, Groups(sizes), 0);
  }
}
