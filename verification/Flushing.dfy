/** A flush that runs to its end: db/db.go (flushMemtableLocked) as the events
    it goes through. */
module Flushing {
  import opened Versions
  import opened Grouping
  import opened Compaction
  import opened Watermarks
  import opened Framing
  import opened Stores
  import opened StoreInvariants

  /** What no step of a flush or a compaction touches. */
  ghost predicate SameWrites(a: Store, b: Store) {
    && a.history == b.history && a.seqNum == b.seqNum && a.pins == b.pins && a.counter == b.counter
  }

  ghost predicate SameLog(a: Store, b: Store) {
    a.wal == b.wal && a.durable == b.durable && a.mem == b.mem
  }

  /** The merges that are left. */
  ghost function MergeAll(st: Store): (r: Store)
    requires st.phase.Merging?
    ensures r.phase.Merging? && r.phase.groups == st.phase.groups && !CanMerge(r)
    ensures SameWrites(st, r) && SameLog(st, r) && r.tables == st.tables && r.dropFloor == st.dropFloor
    decreases |st.phase.groups| - |st.phase.done|
  {
    if CanMerge(st) then MergeAll(AfterMergeNext(st)) else st
  }

  ghost function DeleteAll(st: Store): (r: Store)
    requires st.phase.Deleting?
    ensures r.phase == Deleting([]) && r.tables == st.tables && r.nextName == st.nextName
    ensures SameWrites(st, r) && SameLog(st, r) && r.dropFloor == st.dropFloor
    decreases |st.phase.victims|
  {
    if st.phase.victims == [] then st else DeleteAll(AfterDeleteNext(st))
  }

  ghost function AfterCompaction(st: Store, sizes: seq<nat>): (r: Store)
    ensures r.phase.Idle? && SameWrites(st, r) && SameLog(st, r)
  {
    var started := AfterStart(st, sizes);
    if started.phase.Idle? then started
    else DeleteAll(AfterFinishMerging(MergeAll(started))).(phase := Idle)
  }

  ghost function AfterFlush(st: Store, sizes: seq<nat>): (r: Store)
    ensures r.phase.Idle? && SameWrites(st, r) && r.wal == [] && r.durable == 0 && r.mem == []
  {
    AfterCompaction(AfterResetLog(AfterInstall(st)), sizes)
  }

  // ------------------------------------------------- what a compaction does

  /** The outcomes so far. */
  ghost predicate DoneSoFar(st: Store)
    requires st.phase.Merging?
  {
    && AllIndexes(st.phase.groups, |st.tables|) && |st.phase.done| <= |st.phase.groups|
    && forall g | 0 <= g < |st.phase.done| ::
         st.phase.done[g].level == Outcome(LevelsOf(st.tables), st.phase.groups[g], st.phase.floor)
  }

  lemma {:induction false} MergeAllDone(st: Store)
    requires st.phase.Merging? && DoneSoFar(st)
    ensures DoneSoFar(MergeAll(st)) && MergeAll(st).phase.floor == st.phase.floor
    ensures |MergeAll(st).phase.done| == |st.phase.groups|
    decreases |st.phase.groups| - |st.phase.done|
  {
    if CanMerge(st) {
      var group := st.phase.groups[|st.phase.done|];
      assert group[0] in group;
      assert |group| < 2 ==> Gather(LevelsOf(st.tables), group)[0] == st.tables[group[0]].level;
      MergeAllDone(AfterMergeNext(st));
    }
  }

  /** Whatever the groups, the events of a compaction end in its outcomes. */
  lemma CompactionLevels(st: Store, sizes: seq<nat>)
    requires |sizes| == |st.tables|
    ensures LevelsOf(AfterCompaction(st, sizes).tables) == Compact(LevelsOf(st.tables), sizes, Floor(st.pins))
    ensures AfterCompaction(st, sizes).dropFloor
         == if |sizes| < COMPACTION_THRESHOLD then st.dropFloor
            else Max(st.dropFloor, Min(Floor(st.pins), st.seqNum))
  {
    if |sizes| >= COMPACTION_THRESHOLD {
      GroupsIndex(sizes);
      var started := AfterStart(st, sizes);
      MergeAllDone(started);
      var merged := MergeAll(started);
      assert LevelsOf(merged.phase.done) == Outcomes(LevelsOf(st.tables), Groups(sizes), Floor(st.pins));
    }
  }

  // ----------------------------------------------------- what a flush keeps

  lemma {:induction false} MergeAllInv(fmt: Format<Entry>, crashes: bool, st: Store)
    requires Inv(fmt, crashes, st) && st.phase.Merging?
    ensures Inv(fmt, crashes, MergeAll(st))
    ensures |MergeAll(st).phase.done| == |st.phase.groups|
    decreases |st.phase.groups| - |st.phase.done|
  {
    assert MergingOk(st);
    if CanMerge(st) {
      MergeNextInv(fmt, crashes, st);
      MergeAllInv(fmt, crashes, AfterMergeNext(st));
    }
  }

  lemma {:induction false} DeleteAllInv(fmt: Format<Entry>, crashes: bool, st: Store)
    requires Inv(fmt, crashes, st) && st.phase.Deleting?
    ensures Inv(fmt, crashes, DeleteAll(st))
    decreases |st.phase.victims|
  {
    if st.phase.victims != [] {
      DeleteNextInv(fmt, crashes, st);
      DeleteAllInv(fmt, crashes, AfterDeleteNext(st));
    }
  }

  lemma CompactionInv(fmt: Format<Entry>, crashes: bool, st: Store, sizes: seq<nat>)
    requires Inv(fmt, crashes, st) && Enabled(fmt, crashes, st, StartCompaction(sizes))
    ensures Inv(fmt, crashes, AfterCompaction(st, sizes))
  {
    var started := AfterStart(st, sizes);
    StartInv(fmt, crashes, st, sizes);
    if !started.phase.Idle? {
      MergeAllInv(fmt, crashes, started);
      var merged := MergeAll(started);
      FinishMergingInv(fmt, crashes, merged);
      DeleteAllInv(fmt, crashes, AfterFinishMerging(merged));
      FinishDeletingInv(fmt, crashes, DeleteAll(AfterFinishMerging(merged)));
    }
  }

  /** A whole flush keeps the invariant, and with it every answer. */
  lemma FlushInv(fmt: Format<Entry>, crashes: bool, st: Store, sizes: seq<nat>)
    requires Inv(fmt, crashes, st) && st.phase.Idle? && |sizes| == |st.tables| + 1 && Orderly(crashes, sizes)
    ensures Inv(fmt, crashes, AfterFlush(st, sizes))
  {
    InstallInv(fmt, crashes, st);
    ResetLogInv(fmt, crashes, AfterInstall(st));
    CompactionInv(fmt, crashes, AfterResetLog(AfterInstall(st)), sizes);
  }
}
