/** The invariant of the store and its proof, event by event. */
module StoreInvariants {
  import opened Bytes
  import opened InternalKeys
  import opened Versions
  import opened Compaction
  import opened Watermarks
  import opened MemTables
  import opened Framing
  import opened Levels
  import opened GroupOrder
  import opened Stores

  // ---------------------------------------------------------- the invariant

  /** Write n has number n, the counter is the last number given out, and no
      pin or later snapshot is below what compaction may have dropped. */
  ghost predicate Numbered(st: Store) {
    && WellNumbered(st.history) && st.seqNum == |st.history| < SEQ_NUM_MAX
    && st.dropFloor <= st.flushed <= |st.history|
    && forall p | p in st.pins :: p <= |st.history| && (st.dropFloor <= p || p == 0)
  }

  ghost predicate Ascends(entries: seq<Entry>) {
    forall i, j | 0 <= i < j < |entries| :: entries[i].key.num < entries[j].key.num
  }

  /** The log is the encoding of writes of the history, in order. */
  ghost predicate LogOk(fmt: Format<Entry>, st: Store) {
    && st.wal == EncodeAll(fmt, st.logged) && AllFit(fmt, st.logged)
    && st.dup <= |st.logged| && st.synced <= |st.logged|
    && st.durable == |EncodeAll(fmt, st.logged[..st.synced])|
    && |st.logged| - st.synced <= st.counter < SYNC_THRESHOLD
    && Ascends(st.logged) && Elems(st.logged) <= Elems(st.history)
  }

  /** The records that are not durable are the last writes of the history, all of
      them above what compaction may have dropped. */
  ghost predicate EndsUnsynced(logged: seq<Entry>, synced: nat, history: seq<Entry>, dropFloor: nat) {
    && synced <= |logged| && dropFloor + (|logged| - synced) <= |history|
    && logged[synced..] == history[|history| - (|logged| - synced)..]
  }

  /** Between flushes the log ends with the writes that are in no table, the
      rest of it being durable, and the memtable is what the log replays to. */
  ghost predicate PhaseOk(st: Store) {
    if st.phase.Idle? then
      && st.dup <= |st.logged| && st.flushed <= |st.history|
      && st.logged[st.dup..] == st.history[st.flushed..] && st.dup <= st.synced
      && st.mem == InsertAll(st.logged)
    else
      && st.flushed == |st.history| && st.mem == []
      && (if st.phase.Installed? then
            && st.dup == |st.logged| && st.tables != [] && st.tables[0].level == InsertAll(st.logged)
            && EndsUnsynced(st.logged, st.synced, st.history, st.dropFloor)
          else st.logged == [])
  }

  /** Tables hold a part of a history that answers for all of it. */
  ghost predicate HoldsPast(files: seq<File>, past: seq<Entry>, floor: nat) {
    && AllNewestFirst(LevelsOf(files)) && Pairwise(LevelsOf(files))
    && All(LevelsOf(files)) <= Elems(past) && Covers(All(LevelsOf(files)), past, floor)
  }

  ghost predicate Holds(files: seq<File>, st: Store) {
    st.flushed <= |st.history| && HoldsPast(files, st.history[..st.flushed], st.dropFloor)
  }

  ghost predicate LevelsOk(st: Store) {
    Holds(st.tables, st) && Over(st.mem, LevelsOf(st.tables))
  }

  /** A compaction under way: the outcomes so far, group by group. */
  ghost predicate MergingOk(st: Store) {
    st.phase.Merging? ==>
      && |st.tables| >= COMPACTION_THRESHOLD
      && AllIndexes(st.phase.groups, |st.tables|) && Partition(st.phase.groups, |st.tables|) && InOrder(st.phase.groups)
      && Min(st.phase.floor, |st.history|) <= st.dropFloor
      && |st.phase.done| <= |st.phase.groups|
      && forall g | 0 <= g < |st.phase.done| ::
           st.phase.done[g].level == Outcome(LevelsOf(st.tables), st.phase.groups[g], st.phase.floor)
  }

  /** Names descend along the list: a reopen finds the files in this order. */
  ghost predicate Descending(files: seq<File>, below: nat) {
    && (forall i | 0 <= i < |files| :: files[i].name < below)
    && (forall i, j | 0 <= i < j < |files| :: files[j].name < files[i].name)
  }

  /** The files on disk are the table list, up to the compaction in progress. */
  ghost predicate DiskList(disk: seq<File>, tables: seq<File>, phase: Phase) {
    match phase
    case Merging(groups, floor, done) =>
      && OnlyFirstMerges(groups)
      && disk == (if done != [] && groups != [] && |groups[0]| >= 2 then [done[0]] else []) + tables
      && forall g | 0 <= g < |done| && g < |groups| && |groups[g]| == 1 && groups[g][0] < |tables| ::
           done[g] == tables[groups[g][0]]
    case Deleting(victims) =>
      && (victims != [] ==> tables != [])
      && disk == (if tables == [] then [] else [tables[0]] + victims + tables[1..])
    case _ => disk == tables
  }

  ghost predicate DiskOk(st: Store) {
    Descending(st.disk, st.nextName) && Holds(st.disk, st) && DiskList(st.disk, st.tables, st.phase)
  }

  ghost predicate Inv(fmt: Format<Entry>, crashes: bool, st: Store) {
    && Numbered(st) && LogOk(fmt, st) && PhaseOk(st) && LevelsOk(st) && MergingOk(st)
    && (crashes ==> DiskOk(st))
  }

  // ------------------------------------------------------------------ reads

  lemma HistoryMember(history: seq<Entry>, e: Entry)
    requires WellNumbered(history) && e in history
    ensures 1 <= e.key.num <= |history| && history[e.key.num - 1] == e
  {
  }

  lemma AscendsDistinct(entries: seq<Entry>)
    requires Ascends(entries)
    ensures DistinctKeys(entries)
  {
  }

  lemma PrefixNumbered(history: seq<Entry>, n: nat)
    requires WellNumbered(history) && n <= |history|
    ensures WellNumbered(history[..n]) && Elems(history[..n]) <= Elems(history)
    ensures forall e | e in history && e.key.num <= n :: e in history[..n]
  {
    forall e | e in history && e.key.num <= n
      ensures e in history[..n]
    {
      HistoryMember(history, e);
      assert history[..n][e.key.num - 1] == e;
    }
  }

  /** All levels together hold a part of the history that answers for it. */
  lemma LevelsCover(fmt: Format<Entry>, crashes: bool, st: Store)
    requires Inv(fmt, crashes, st) && st.phase.Idle?
    ensures var levels := [st.mem] + LevelsOf(st.tables);
            && AllNewestFirst(levels) && Pairwise(levels)
            && All(levels) <= Elems(st.history) && Covers(All(levels), st.history, st.dropFloor)
  {
    var levels := [st.mem] + LevelsOf(st.tables);
    AscendsDistinct(st.logged);
    InsertAllElems(st.logged);
    PairwiseCons(st.mem, LevelsOf(st.tables));
    AllCons(st.mem, LevelsOf(st.tables));
    PrefixNumbered(st.history, st.flushed);
    forall e | e in st.history[st.flushed..]
      ensures e in All(levels)
    {
      assert e in st.logged[st.dup..];
      assert e in Elems(st.logged);
    }
    CoversExtended(All(levels), st.history, st.flushed, st.dropFloor);
  }

  /** A read at or above the drop floor returns the last write it can see. */
  lemma ReadIsLastWrite(fmt: Format<Entry>, crashes: bool, st: Store, k: bytes, s: SeqNum)
    requires Inv(fmt, crashes, st) && st.phase.Idle? && st.dropFloor <= s
    ensures FirstHit([st.mem] + LevelsOf(st.tables), k, s) == LastWrite(st.history, k, s)
    ensures Read(st, k, s) == Answer(LastWrite(st.history, k, s))
  {
    var levels := [st.mem] + LevelsOf(st.tables);
    LevelsCover(fmt, crashes, st);
    PairwiseIsShadowed(levels);
    FirstHitIsNewest(levels, k, s);
    CoveringReadsHistory(All(levels), st.history, st.dropFloor, k, s, FirstHit(levels, k, s));
  }

  /** At snapshot 0, which no write has, there is nothing to read. */
  lemma ReadAtZero(fmt: Format<Entry>, crashes: bool, st: Store, k: bytes)
    requires Inv(fmt, crashes, st) && st.phase.Idle?
    ensures FirstHit([st.mem] + LevelsOf(st.tables), k, 0) == None == LastWrite(st.history, k, 0)
  {
    var levels := [st.mem] + LevelsOf(st.tables);
    LevelsCover(fmt, crashes, st);
    var i := FirstHitLevel(levels, k, 0);
    var o := FirstHit(levels, k, 0);
    if o.Some? {
      assert o.value in levels[i] && levels[i] in levels && o.value in All(levels);
      HistoryMember(st.history, o.value);
    }
    var w := LastWrite(st.history, k, 0);
    if w.Some? { HistoryMember(st.history, w.value); }
  }

  /** What readers may ask for: a pinned snapshot, or the latest state. */
  lemma PinnedReadIsLastWrite(fmt: Format<Entry>, crashes: bool, st: Store, k: bytes, s: SeqNum)
    requires Inv(fmt, crashes, st) && st.phase.Idle? && (s in st.pins || s == SEQ_NUM_MAX)
    ensures FirstHit([st.mem] + LevelsOf(st.tables), k, s) == LastWrite(st.history, k, s)
    ensures Read(st, k, s) == Answer(LastWrite(st.history, k, s))
  {
    if s == 0 { ReadAtZero(fmt, crashes, st, k); } else { ReadIsLastWrite(fmt, crashes, st, k, s); }
  }

  // ------------------------------------------------------------------ start

  lemma EmptyInv(fmt: Format<Entry>, crashes: bool)
    ensures Inv(fmt, crashes, Empty)
  {
    assert LevelsOf(Empty.tables) == [];
  }

  // ------------------------------------------------------------------ write

  lemma SnocElems<T>(a: seq<T>, x: T)
    ensures forall y :: y in a + [x] <==> y in a || y == x
  {
  }

  lemma WriteLog(fmt: Format<Entry>, st: Store, e: Entry)
    requires Numbered(st) && LogOk(fmt, st) && fmt.fits(e) && e.key.num == |st.history| + 1
    ensures LogOk(fmt, AfterWrite(fmt, st, e))
  {
    var now := AfterWrite(fmt, st, e);
    EncodeAllSnoc(fmt, st.logged, e);
    assert now.logged[..|now.logged|] == now.logged;
    assert now.logged[..st.synced] == st.logged[..st.synced];
    SnocElems(st.logged, e);
    SnocElems(st.history, e);
    forall x | x in now.logged
      ensures x in now.history
    {
      assert x in st.logged ==> x in Elems(st.logged);
    }
    forall i, j | 0 <= i < j < |now.logged|
      ensures now.logged[i].key.num < now.logged[j].key.num
    {
      if j == |st.logged| {
        assert st.logged[i] in Elems(st.logged);
        HistoryMember(st.history, st.logged[i]);
      }
    }
  }

  lemma WriteLevels(fmt: Format<Entry>, crashes: bool, st: Store, e: Entry)
    requires Inv(fmt, crashes, st) && st.phase.Idle? && e.key.num == |st.history| + 1
    ensures LevelsOk(AfterWrite(fmt, st, e)) && PhaseOk(AfterWrite(fmt, st, e))
    ensures crashes ==> DiskOk(AfterWrite(fmt, st, e))
  {
    var now := AfterWrite(fmt, st, e);
    assert now.history[..st.flushed] == st.history[..st.flushed];
    assert now.history[st.flushed..] == st.history[st.flushed..] + [e];
    assert now.logged[st.dup..] == st.logged[st.dup..] + [e];
    assert now.logged[..|st.logged|] == st.logged;
    WriteOver(st, e);
  }

  lemma WriteOver(st: Store, e: Entry)
    requires WellNumbered(st.history) && e.key.num == |st.history| + 1 && LevelsOk(st)
    requires Ascends(st.logged) && Elems(st.logged) <= Elems(st.history) && st.mem == InsertAll(st.logged)
    ensures Over(Insert(st.mem, e), LevelsOf(st.tables))
  {
    AscendsDistinct(st.logged);
    InsertAllElems(st.logged);
    PrefixNumbered(st.history, st.flushed);
    forall x | x in All(LevelsOf(st.tables)) || x in st.mem
      ensures x.key.num < e.key.num
    {
      assert x in st.mem ==> x in Elems(st.mem);
      HistoryMember(st.history, x);
    }
    WriteKeepsOver(st.mem, LevelsOf(st.tables), e);
  }

  lemma WriteInv(fmt: Format<Entry>, crashes: bool, st: Store, key: bytes, kind: byte, value: bytes)
    requires Inv(fmt, crashes, st) && Enabled(fmt, crashes, st, Write(key, kind, value))
    ensures Inv(fmt, crashes, AfterWrite(fmt, st, NewEntry(st, key, kind, value)))
  {
    var e := NewEntry(st, key, kind, value);
    WriteNumbered(fmt, st, e);
    WriteLog(fmt, st, e);
    WriteLevels(fmt, crashes, st, e);
  }

  lemma WriteNumbered(fmt: Format<Entry>, st: Store, e: Entry)
    requires Numbered(st) && e.key.num == |st.history| + 1 < SEQ_NUM_MAX
    ensures Numbered(AfterWrite(fmt, st, e))
  {
  }

  // ------------------------------------------------------------------ flush

  lemma LevelsOfCons(f: File, files: seq<File>)
    ensures LevelsOf([f] + files) == [f.level] + LevelsOf(files)
  {
  }

  /** The memtable, installed as a table above the others, covers everything. */
  lemma InstallHolds(fmt: Format<Entry>, crashes: bool, st: Store, f: File)
    requires Inv(fmt, crashes, st) && st.phase.Idle? && f.level == st.mem
    ensures AllNewestFirst(LevelsOf([f] + st.tables)) && Pairwise(LevelsOf([f] + st.tables))
    ensures All(LevelsOf([f] + st.tables)) <= Elems(st.history)
    ensures Covers(All(LevelsOf([f] + st.tables)), st.history, st.dropFloor)
  {
    LevelsOfCons(f, st.tables);
    LevelsCover(fmt, crashes, st);
  }

  lemma InstallInv(fmt: Format<Entry>, crashes: bool, st: Store)
    requires Inv(fmt, crashes, st) && st.phase.Idle?
    ensures Inv(fmt, crashes, AfterInstall(st))
  {
    var now := AfterInstall(st);
    InstallHolds(fmt, crashes, st, File(st.nextName, st.mem));
    assert now.history[..now.flushed] == st.history;
    EmptyOver(LevelsOf(now.tables));
    UnsyncedTail(st.logged, st.dup, st.synced, st.history, st.flushed, st.dropFloor);
  }

  lemma UnsyncedTail(logged: seq<Entry>, dup: nat, synced: nat, history: seq<Entry>, flushed: nat, dropFloor: nat)
    requires dup <= synced <= |logged| && dropFloor <= flushed <= |history| && logged[dup..] == history[flushed..]
    ensures EndsUnsynced(logged, synced, history, dropFloor)
  {
    assert |logged[dup..]| == |history[flushed..]|;
    assert logged[synced..] == logged[dup..][synced - dup..];
    assert history[|history| - (|logged| - synced)..] == history[flushed..][synced - dup..];
  }

  lemma ResetLogInv(fmt: Format<Entry>, crashes: bool, st: Store)
    requires Inv(fmt, crashes, st) && st.phase.Installed?
    ensures Inv(fmt, crashes, AfterResetLog(st))
  {
  }

  // ------------------------------------------------------------- compaction

  lemma FloorBelowPins(fmt: Format<Entry>, crashes: bool, st: Store)
    requires Inv(fmt, crashes, st)
    ensures forall p | p in st.pins :: Max(st.dropFloor, Min(Floor(st.pins), st.seqNum)) <= p || p == 0
  {
  }

  lemma CoversHigher(S: set<Entry>, history: seq<Entry>, floor: int, higher: int)
    requires Covers(S, history, floor) && floor <= higher
    ensures Covers(S, history, higher)
  {
  }

  lemma StartInv(fmt: Format<Entry>, crashes: bool, st: Store, sizes: seq<nat>)
    requires Inv(fmt, crashes, st) && Enabled(fmt, crashes, st, StartCompaction(sizes))
    ensures Inv(fmt, crashes, AfterStart(st, sizes))
  {
    FloorBelowPins(fmt, crashes, st);
    if |st.tables| < COMPACTION_THRESHOLD {
      assert st.history[st.flushed..] == [];
    } else {
      var now := AfterStart(st, sizes);
      GroupsIndex(sizes);
      CoversHigher(All(LevelsOf(st.tables)), st.history[..st.flushed], st.dropFloor, now.dropFloor);
      if crashes { CoversHigher(All(LevelsOf(st.disk)), st.history[..st.flushed], st.dropFloor, now.dropFloor); }
    }
  }

  lemma TablesLayered(files: seq<File>, st: Store)
    requires Numbered(st) && Holds(files, st)
    ensures Layered(LevelsOf(files))
    ensures forall e | e in All(LevelsOf(files)) :: e.key.num <= |st.history|
  {
    PrefixNumbered(st.history, st.flushed);
    HistoryAgrees(st.history[..st.flushed], All(LevelsOf(files)));
    forall e | e in All(LevelsOf(files))
      ensures e.key.num <= |st.history|
    {
      HistoryMember(st.history, e);
    }
  }

  /** More versions of the flushed history, above the rest, do no harm. */
  lemma HoldsMore(f: File, files: seq<File>, st: Store)
    requires Holds(files, st) && NewestFirst(f.level) && Over(f.level, LevelsOf(files))
    requires Elems(f.level) <= All(LevelsOf(files))
    ensures Holds([f] + files, st)
  {
    LevelsOfCons(f, files);
    PairwiseCons(f.level, LevelsOf(files));
    AllCons(f.level, LevelsOf(files));
  }

  lemma MergeNextDone(fmt: Format<Entry>, crashes: bool, st: Store)
    requires Inv(fmt, crashes, st) && CanMerge(st)
    ensures MergingOk(AfterMergeNext(st))
  {
    var Merging(groups, floor, done) := st.phase;
    var group := groups[|done|];
    assert group[0] in group;
    assert |group| < 2 ==> Gather(LevelsOf(st.tables), group)[0] == st.tables[group[0]].level;
  }

  lemma FirstMergedHolds(fmt: Format<Entry>, st: Store, f: File)
    requires Inv(fmt, true, st) && st.phase.Merging? && st.phase.groups != [] && |st.phase.groups[0]| >= 2
    requires f.level == Outcome(LevelsOf(st.tables), st.phase.groups[0], st.phase.floor)
    ensures Holds([f] + st.tables, st)
  {
    var levels, groups, floor := LevelsOf(st.tables), st.phase.groups, st.phase.floor;
    TablesLayered(st.tables, st);
    FirstOutcomeOver(levels, groups, floor);
    OutcomeSubset(levels, groups[0], floor);
    OutcomeNewestFirst(levels, groups[0], floor);
    GatherLayered(levels, groups[0]);
    HoldsMore(f, st.tables, st);
  }

  lemma DescendingCons(f: File, files: seq<File>)
    requires Descending(files, f.name)
    ensures Descending([f] + files, f.name + 1)
  {
  }

  lemma MergeFirstDisk(st: Store, f: File)
    requires CanMerge(st) && Descending(st.tables, st.nextName) && OnlyFirstMerges(st.phase.groups)
    requires st.disk == st.tables && st.phase.done == [] && |st.phase.groups[0]| >= 2
    requires f == File(st.nextName, Outcome(LevelsOf(st.tables), st.phase.groups[0], st.phase.floor))
    requires Holds([f] + st.tables, st)
    ensures DiskOk(AfterMergeNext(st))
  {
    DescendingCons(f, st.tables);
    assert DiskList([f] + st.tables, st.tables, Merging(st.phase.groups, st.phase.floor, [f]));
    assert [] + [f] == [f];
  }

  lemma MergeSingleDisk(st: Store)
    requires CanMerge(st) && DiskOk(st) && |st.phase.groups[|st.phase.done|]| < 2
    ensures DiskOk(AfterMergeNext(st))
  {
    var done, now := st.phase.done, AfterMergeNext(st);
    assert forall g | 0 <= g < |done| :: now.phase.done[g] == done[g];
    assert DiskList(st.disk, st.tables, now.phase);
  }

  lemma MergeNextDisk(fmt: Format<Entry>, st: Store)
    requires Inv(fmt, true, st) && CanMerge(st)
    ensures DiskOk(AfterMergeNext(st))
  {
    var group := st.phase.groups[|st.phase.done|];
    if |group| >= 2 {
      var f := File(st.nextName, Outcome(LevelsOf(st.tables), group, st.phase.floor));
      assert st.phase.done == [] && st.disk == st.tables;
      FirstMergedHolds(fmt, st, f);
      MergeFirstDisk(st, f);
    } else {
      MergeSingleDisk(st);
    }
  }

  lemma MergeNextInv(fmt: Format<Entry>, crashes: bool, st: Store)
    requires Inv(fmt, crashes, st) && CanMerge(st)
    ensures Inv(fmt, crashes, AfterMergeNext(st))
  {
    MergeNextDone(fmt, crashes, st);
    if crashes { MergeNextDisk(fmt, st); }
  }

  /** The outcomes depend on the floor only up to the last number given out. */
  lemma DoneIsOutcomes(fmt: Format<Entry>, crashes: bool, st: Store)
    requires Inv(fmt, crashes, st) && st.phase.Merging? && |st.phase.done| == |st.phase.groups|
    ensures LevelsOf(st.phase.done)
         == Outcomes(LevelsOf(st.tables), st.phase.groups, Min(st.phase.floor, |st.history|))
  {
    var Merging(groups, floor, done) := st.phase;
    var levels := LevelsOf(st.tables);
    TablesLayered(st.tables, st);
    forall g | 0 <= g < |groups|
      ensures LevelsOf(done)[g] == Outcome(levels, groups[g], Min(floor, |st.history|))
    {
      if floor > |st.history| { OutcomeFloor(levels, groups[g], floor, |st.history|); }
    }
  }

  lemma FinishMergingLevels(fmt: Format<Entry>, crashes: bool, st: Store)
    requires Inv(fmt, crashes, st) && st.phase.Merging? && |st.phase.done| == |st.phase.groups|
    ensures Holds(st.phase.done, st)
  {
    var groups, levels, floor := st.phase.groups, LevelsOf(st.tables), Min(st.phase.floor, |st.history|);
    var result, flushed := Outcomes(levels, groups, floor), st.history[..st.flushed];
    DoneIsOutcomes(fmt, crashes, st);
    TablesLayered(st.tables, st);
    OutcomesLayered(levels, groups, floor);
    OutcomesSubset(levels, groups, floor);
    forall k: bytes, s: SeqNum, o: Option<Entry> | floor <= s && Newest(All(levels), k, s, o)
      ensures Newest(All(result), k, s, o)
    {
      OutcomesPreserveNewest(levels, groups, floor, k, s, o);
    }
    PrefixNumbered(st.history, st.flushed);
    CoversAfter(All(levels), All(result), flushed, st.dropFloor, st.dropFloor);
  }

  lemma {:induction false} VictimsArePrefix(tables: seq<File>, groups: seq<seq<nat>>, m: nat, i: nat)
    requires m <= |tables| && forall x: nat | x < |tables| :: WasMerged(groups, x) <==> x < m
    ensures Victims(tables, groups, i) == if i <= m then tables[i..m] else []
    decreases |tables| - i
  {
    if i < |tables| {
      VictimsArePrefix(tables, groups, m, i + 1);
      if i < m { assert tables[i..m] == [tables[i]] + tables[i + 1..m]; }
    }
  }

  /** Table i was merged exactly when the first group is more than one table and
      i is in it. */
  lemma MergedPrefix(groups: seq<seq<nat>>, n: nat, m: nat)
    requires AllIndexes(groups, n) && Partition(groups, n) && InOrder(groups) && OnlyFirstMerges(groups) && n > 0
    requires groups != [] && m == if |groups[0]| >= 2 then |groups[0]| else 0
    ensures forall x: nat | x < n :: WasMerged(groups, x) <==> x < m
  {
    FirstGroupIsPrefix(groups, n);
    forall x: nat | x < n
      ensures WasMerged(groups, x) <==> x < m
    {
      if x < m { assert groups[0][x] == x; }
    }
  }

  /** The outcomes after the first are the tables after the first group. */
  lemma KeptSuffix(tables: seq<File>, groups: seq<seq<nat>>, done: seq<File>)
    requires |tables| > 0 && |done| == |groups|
    requires AllIndexes(groups, |tables|) && Partition(groups, |tables|) && InOrder(groups) && OnlyFirstMerges(groups)
    requires forall g | 0 <= g < |groups| && |groups[g]| == 1 && groups[g][0] < |tables| ::
               done[g] == tables[groups[g][0]]
    ensures groups != [] && 0 < |groups[0]| <= |tables| && done[1..] == tables[|groups[0]|..]
    ensures |groups[0]| == 1 ==> done[0] == tables[0]
  {
    FirstGroupIsPrefix(groups, |tables|);
    var n := |groups[0]|;
    assert groups[0] != [] && groups[0][0] == 0;
    forall g | 1 <= g < |done|
      ensures done[g] == tables[n..][g - 1]
    {
      assert groups[g] == [n + g - 1];
    }
  }

  /** What the result list and the deleted tables are when only the first group merges. */
  lemma PrefixMerged(tables: seq<File>, groups: seq<seq<nat>>, done: seq<File>)
    requires |tables| > 0 && |done| == |groups|
    requires AllIndexes(groups, |tables|) && Partition(groups, |tables|) && InOrder(groups) && OnlyFirstMerges(groups)
    requires forall g | 0 <= g < |groups| && |groups[g]| == 1 && groups[g][0] < |tables| ::
               done[g] == tables[groups[g][0]]
    ensures groups != []
    ensures [done[0]] + Victims(tables, groups, 0) + done[1..]
         == (if |groups[0]| >= 2 then [done[0]] else []) + tables
  {
    KeptSuffix(tables, groups, done);
    var n := |groups[0]|;
    var m := if n >= 2 then n else 0;
    MergedPrefix(groups, |tables|, m);
    VictimsArePrefix(tables, groups, m, 0);
    JoinParts(tables, done, n, m);
  }

  lemma JoinParts(tables: seq<File>, done: seq<File>, n: nat, m: nat)
    requires 0 < n <= |tables| && done != [] && done[1..] == tables[n..] && (n == 1 ==> done[0] == tables[0])
    requires m == if n >= 2 then n else 0
    ensures [done[0]] + tables[0..m] + done[1..] == (if n >= 2 then [done[0]] else []) + tables
  {
    if n >= 2 {
      assert tables[0..m] + tables[n..] == tables;
    } else {
      assert tables == [tables[0]] + tables[1..];
    }
  }

  lemma FinishMergingDisk(fmt: Format<Entry>, st: Store)
    requires Inv(fmt, true, st) && st.phase.Merging? && |st.phase.done| == |st.phase.groups|
    ensures DiskOk(AfterFinishMerging(st))
  {
    var Merging(groups, floor, done) := st.phase;
    PrefixMerged(st.tables, groups, done);
  }

  lemma FinishMergingInv(fmt: Format<Entry>, crashes: bool, st: Store)
    requires Inv(fmt, crashes, st) && Enabled(fmt, crashes, st, FinishMerging)
    ensures Inv(fmt, crashes, AfterFinishMerging(st))
  {
    FinishMergingLevels(fmt, crashes, st);
    EmptyOver(LevelsOf(st.phase.done));
    if crashes { FinishMergingDisk(fmt, st); }
  }

  lemma DeleteNextDisk(st: Store)
    requires DiskOk(st) && LevelsOk(st) && st.phase.Deleting? && st.phase.victims != []
    ensures DiskOk(AfterDeleteNext(st))
  {
    var victims, tables := st.phase.victims, st.tables;
    var front, back := [tables[0]], victims[1..] + tables[1..];
    DeleteNextList(st.disk, tables, victims, st.nextName);
    assert forall t | t in tables :: t == tables[0] || t in tables[1..];
    DeleteHolds(front, victims[0], back, st);
  }

  lemma DeleteNextList(disk: seq<File>, tables: seq<File>, victims: seq<File>, below: nat)
    requires tables != [] && victims != [] && Descending(disk, below)
    requires disk == [tables[0]] + victims + tables[1..]
    ensures disk == [tables[0]] + [victims[0]] + (victims[1..] + tables[1..])
    ensures Without(disk, victims[0]) == [tables[0]] + (victims[1..] + tables[1..])
                                      == [tables[0]] + victims[1..] + tables[1..]
  {
    assert disk[0] == tables[0] && disk[1] == victims[0];
    assert disk[1].name < disk[0].name;
    WithoutSecond(tables[0], victims[0], victims[1..] + tables[1..]);
  }

  lemma WithoutSecond(first: File, second: File, rest: seq<File>)
    requires first != second
    ensures Without([first] + [second] + rest, second) == [first] + rest
  {
    var all := [first] + [second] + rest;
    assert all[1..] == [second] + rest && all[1..][1..] == rest;
  }

  lemma DeleteHolds(front: seq<File>, f: File, back: seq<File>, st: Store)
    requires Holds(front + [f] + back, st) && Descending(front + [f] + back, st.nextName)
    requires Holds(st.tables, st) && forall t | t in st.tables :: t in front + back
    ensures Holds(front + back, st) && Descending(front + back, st.nextName)
  {
    var was, now := front + [f] + back, front + back;
    assert LevelsOf(was) == LevelsOf(front) + [f.level] + LevelsOf(back);
    assert LevelsOf(now) == LevelsOf(front) + LevelsOf(back);
    RemoveKeepsPairwise(LevelsOf(front), f.level, LevelsOf(back));
    FilesSubset(now, was);
    FilesSubset(st.tables, now);
    assert forall i | 0 <= i < |now| :: now[i] == was[if i < |front| then i else i + 1];
  }

  lemma FilesSubset(a: seq<File>, b: seq<File>)
    requires forall f | f in a :: f in b
    ensures All(LevelsOf(a)) <= All(LevelsOf(b))
  {
    forall e | e in All(LevelsOf(a))
      ensures e in All(LevelsOf(b))
    {
      var i :| 0 <= i < |a| && e in LevelsOf(a)[i];
      assert a[i] in a;
      var j :| 0 <= j < |b| && b[j] == a[i];
      assert LevelsOf(b)[j] in LevelsOf(b);
    }
  }

  lemma DeleteNextInv(fmt: Format<Entry>, crashes: bool, st: Store)
    requires Inv(fmt, crashes, st) && Enabled(fmt, crashes, st, DeleteNext)
    ensures Inv(fmt, crashes, AfterDeleteNext(st))
  {
    if crashes { DeleteNextDisk(st); }
  }

  lemma FinishDeletingInv(fmt: Format<Entry>, crashes: bool, st: Store)
    requires Inv(fmt, crashes, st) && Enabled(fmt, crashes, st, FinishDeleting)
    ensures Inv(fmt, crashes, st.(phase := Idle))
  {
    assert st.history[st.flushed..] == [] == st.logged[st.dup..];
    assert InsertAll([]) == [];
    if crashes { DeletedDisk(st.disk, st.tables); }
  }

  lemma DeletedDisk(disk: seq<File>, tables: seq<File>)
    requires DiskList(disk, tables, Deleting([]))
    ensures disk == tables
  {
    if tables != [] { assert [tables[0]] + [] + tables[1..] == tables; }
  }
}
