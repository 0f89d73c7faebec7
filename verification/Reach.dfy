/** Runs as the engine makes them: files have the sizes that their contents give
    them, and a full memtable takes no further write. */
module Reaching {
  import opened Bytes
  import opened InternalKeys
  import opened Versions
  import opened Grouping
  import opened Compaction
  import opened Watermarks
  import opened MemTables
  import opened Framing
  import opened Stores
  import opened StoreInvariants
  import opened Flushing
  import opened Runs
  import opened FileSizes
  import opened Disks
  import Wal

  /** What a memtable reports as its size. */
  function Weight(tree: Level): nat {
    if tree == [] then 0 else tree[0].key.Size() + |tree[0].value| + Weight(tree[1..])
  }

  lemma {:induction false} WeightInsert(tree: Level, e: Entry)
    ensures Weight(Insert(tree, e)) <= Weight(tree) + e.key.Size() + |e.value|
  {
    if tree == [] || KeyLess(e.key, tree[0].key) {
      assert ([e] + tree)[1..] == tree;
    } else if e.key == tree[0].key {
      assert ([e] + tree[1..])[1..] == tree[1..];
    } else {
      WeightInsert(tree[1..], e);
      assert ([tree[0]] + Insert(tree[1..], e))[1..] == Insert(tree[1..], e);
    }
  }

  // ------------------------------------------------------------ reachability

  /** What the engine can do, a crash apart, when table files are `size` long. */
  ghost predicate Real(fmt: Format<Entry>, size: Level -> nat, guarded: bool, st: Store, ev: Event) {
    && Possible(fmt, st, ev) && (guarded ==> Guarded(fmt, true, st, ev)) && !ev.Crash?
    && (ev.Write? ==> Weight(st.mem) < MEMTABLE_FLUSH_SIZE)
    && (ev.StartCompaction? ==> Sized(size, LevelsOf(st.tables), ev.sizes))
  }

  ghost predicate RealAt(fmt: Format<Entry>, size: Level -> nat, guarded: bool,
                         states: seq<Store>, events: seq<Event>, i: nat)
    requires i < |events| && |states| == |events| + 1
  {
    Real(fmt, size, guarded, states[i], events[i]) && states[i + 1] == Next(fmt, states[i], events[i])
  }

  ghost predicate Leads(fmt: Format<Entry>, size: Level -> nat, guarded: bool, a: Store, b: Store,
                        states: seq<Store>, events: seq<Event>) {
    && |states| == |events| + 1 && states[0] == a && states[|events|] == b
    && forall i | 0 <= i < |events| :: RealAt(fmt, size, guarded, states, events, i)
  }

  /** Events of the engine, none of them a crash, lead from a to b. */
  ghost predicate Reaches(fmt: Format<Entry>, size: Level -> nat, guarded: bool, a: Store, b: Store) {
    exists states, events :: Leads(fmt, size, guarded, a, b, states, events)
  }

  lemma ReachesSelf(fmt: Format<Entry>, size: Level -> nat, guarded: bool, a: Store)
    ensures Reaches(fmt, size, guarded, a, a)
  {
    assert Leads(fmt, size, guarded, a, a, [a], []);
  }

  lemma ReachesStep(fmt: Format<Entry>, size: Level -> nat, guarded: bool, a: Store, b: Store, ev: Event)
    requires Reaches(fmt, size, guarded, a, b) && Real(fmt, size, guarded, b, ev)
    ensures Reaches(fmt, size, guarded, a, Next(fmt, b, ev))
  {
    var states, events :| Leads(fmt, size, guarded, a, b, states, events);
    var c := Next(fmt, b, ev);
    forall i | 0 <= i < |events + [ev]|
      ensures RealAt(fmt, size, guarded, states + [c], events + [ev], i)
    {
      if i < |events| { assert RealAt(fmt, size, guarded, states, events, i); }
    }
    assert Leads(fmt, size, guarded, a, c, states + [c], events + [ev]);
  }

  /** Such a run, when guarded, is a run of the store. */
  lemma ReachesInv(fmt: Format<Entry>, size: Level -> nat, st: Store)
    requires Lawful(fmt) && Reaches(fmt, size, true, Empty, st)
    ensures Inv(fmt, true, st)
  {
    var states, events :| Leads(fmt, size, true, Empty, st, states, events);
    forall i | 0 <= i < |events|
      ensures StepAt(fmt, true, states, events, i)
    {
      assert RealAt(fmt, size, true, states, events, i);
    }
    assert Run(fmt, true, states, events);
    RunInv(fmt, true, states, events, |events|);
  }

  lemma ReachesOn(fmt: Format<Entry>, size: Level -> nat, guarded: bool, a: Store, b: Store, c: Store)
    requires Reaches(fmt, size, guarded, a, b) && Reaches(fmt, size, guarded, b, c)
    ensures Reaches(fmt, size, guarded, a, c)
  {
    var states, events :| Leads(fmt, size, guarded, a, b, states, events);
    var states', events' :| Leads(fmt, size, guarded, b, c, states', events');
    var all, done := states + states'[1..], events + events';
    forall i | 0 <= i < |done|
      ensures RealAt(fmt, size, guarded, all, done, i)
    {
      if i < |events| {
        assert RealAt(fmt, size, guarded, states, events, i);
      } else {
        assert RealAt(fmt, size, guarded, states', events', i - |events|);
      }
    }
    assert Leads(fmt, size, guarded, a, c, all, done);
  }

  // ------------------------------------------------------------ whole flushes

  lemma {:induction false} ReachesMerges(fmt: Format<Entry>, size: Level -> nat, guarded: bool, a: Store, b: Store)
    requires Reaches(fmt, size, guarded, a, b) && b.phase.Merging?
    ensures Reaches(fmt, size, guarded, a, MergeAll(b))
    decreases |b.phase.groups| - |b.phase.done|
  {
    if CanMerge(b) {
      ReachesStep(fmt, size, guarded, a, b, MergeNext);
      ReachesMerges(fmt, size, guarded, a, AfterMergeNext(b));
    }
  }

  lemma {:induction false} ReachesDeletes(fmt: Format<Entry>, size: Level -> nat, guarded: bool, a: Store, b: Store)
    requires Reaches(fmt, size, guarded, a, b) && b.phase.Deleting?
    ensures Reaches(fmt, size, guarded, a, DeleteAll(b))
    decreases |b.phase.victims|
  {
    if b.phase.victims != [] {
      ReachesStep(fmt, size, guarded, a, b, DeleteNext);
      ReachesDeletes(fmt, size, guarded, a, AfterDeleteNext(b));
    }
  }

  lemma ReachesCompaction(fmt: Format<Entry>, size: Level -> nat, guarded: bool, a: Store, b: Store, sizes: seq<nat>)
    requires Reaches(fmt, size, guarded, a, b) && Real(fmt, size, guarded, b, StartCompaction(sizes))
    ensures Reaches(fmt, size, guarded, a, AfterCompaction(b, sizes))
  {
    ReachesStep(fmt, size, guarded, a, b, StartCompaction(sizes));
    if |b.tables| >= COMPACTION_THRESHOLD {
      var started := AfterStart(b, sizes);
      ReachesMerged(fmt, size, guarded, a, started, sizes);
      ReachesDeleted(fmt, size, guarded, a, MergeAll(started));
    }
  }

  lemma ReachesMerged(fmt: Format<Entry>, size: Level -> nat, guarded: bool, a: Store, b: Store, sizes: seq<nat>)
    requires Reaches(fmt, size, guarded, a, b) && b.phase.Merging? && |sizes| == |b.tables|
    requires b.phase.groups == Groups(sizes) && b.phase.done == []
    ensures Reaches(fmt, size, guarded, a, MergeAll(b)) && |MergeAll(b).phase.done| == |b.phase.groups|
  {
    GroupsIndex(sizes);
    MergeAllDone(b);
    ReachesMerges(fmt, size, guarded, a, b);
  }

  lemma ReachesDeleted(fmt: Format<Entry>, size: Level -> nat, guarded: bool, a: Store, b: Store)
    requires Reaches(fmt, size, guarded, a, b) && b.phase.Merging? && |b.phase.done| == |b.phase.groups|
    ensures Reaches(fmt, size, guarded, a, DeleteAll(AfterFinishMerging(b)).(phase := Idle))
  {
    ReachesStep(fmt, size, guarded, a, b, FinishMerging);
    ReachesDeletes(fmt, size, guarded, a, AfterFinishMerging(b));
    ReachesStep(fmt, size, guarded, a, DeleteAll(AfterFinishMerging(b)), FinishDeleting);
  }

  ghost function FilesOf(size: Level -> nat, levels: seq<Level>): (r: seq<nat>)
    ensures Sized(size, levels, r)
  {
    seq(|levels|, i requires 0 <= i < |levels| => size(levels[i]))
  }

  /** The sizes that the compaction after a flush looks at. */
  ghost function SizesAfter(size: Level -> nat, st: Store): seq<nat> {
    FilesOf(size, [st.mem] + LevelsOf(st.tables))
  }

  /** A flush, to its end. */
  ghost function Flush(size: Level -> nat, st: Store): Store { AfterFlush(st, SizesAfter(size, st)) }

  lemma ReachesFlush(fmt: Format<Entry>, size: Level -> nat, guarded: bool, a: Store, b: Store)
    requires Reaches(fmt, size, guarded, a, b) && b.phase.Idle?
    requires guarded ==> Orderly(true, SizesAfter(size, b))
    ensures Reaches(fmt, size, guarded, a, Flush(size, b))
  {
    var installed := AfterInstall(b);
    ReachesStep(fmt, size, guarded, a, b, Install);
    ReachesStep(fmt, size, guarded, a, installed, ResetLog);
    assert LevelsOf(AfterResetLog(installed).tables) == [b.mem] + LevelsOf(b.tables);
    ReachesCompaction(fmt, size, guarded, a, AfterResetLog(installed), SizesAfter(size, b));
  }

  /** What a flush leaves, in terms of what the tables hold. */
  lemma FlushLevels(size: Level -> nat, st: Store)
    ensures var levels, sizes := [st.mem] + LevelsOf(st.tables), SizesAfter(size, st);
            && LevelsOf(Flush(size, st).tables) == Compact(levels, sizes, Floor(st.pins))
            && Flush(size, st).dropFloor == if |levels| < COMPACTION_THRESHOLD then st.dropFloor
                                            else Max(st.dropFloor, Min(Floor(st.pins), st.seqNum))
  {
    var mid := AfterResetLog(AfterInstall(st));
    assert LevelsOf(mid.tables) == [st.mem] + LevelsOf(st.tables);
    CompactionLevels(mid, SizesAfter(size, st));
  }

  /** A flush that compacts, then a reopen: reads go through what Reopened says. */
  lemma ReopenedAfterFlush(fmt: Format<Entry>, size: Level -> nat, st: Store, k: bytes, s: SeqNum)
    requires Inv(fmt, true, st) && st.phase.Idle? && |st.tables| + 1 >= COMPACTION_THRESHOLD
    ensures var levels, sizes, now := [st.mem] + LevelsOf(st.tables), SizesAfter(size, st), Flush(size, st);
            && Possible(fmt, now, Crash(0)) && |sizes| == |levels| && AllIndexes(Groups(sizes), |levels|)
            && Hit(Next(fmt, now, Crash(0)), k, s) == FirstHit(Reopened(levels, Groups(sizes), Floor(st.pins)), k, s)
  {
    var mid := AfterResetLog(AfterInstall(st));
    assert LevelsOf(mid.tables) == [st.mem] + LevelsOf(st.tables);
    CompactionDisk(mid, SizesAfter(size, st));
    ReopenedHit(fmt, Flush(size, st), k, s);
  }

  /** An engine closed with an empty log reads what is on disk. */
  lemma ReopenedHit(fmt: Format<Entry>, st: Store, k: bytes, s: SeqNum)
    requires st.wal == [] && st.durable == 0
    ensures Hit(Next(fmt, st, Crash(0)), k, s) == FirstHit(LevelsOf(st.disk), k, s)
  {
    var after := Next(fmt, st, Crash(0));
    assert Replay(fmt, [], 0) == ([], 0) && st.wal[..0] == [];
    assert after.mem == [] && after.tables == st.disk;
    assert ([after.mem] + LevelsOf(after.tables))[1..] == LevelsOf(after.tables);
  }

  // --------------------------------------------------------- small writes

  function Ver(u: byte, num: SeqNum, value: bytes): Entry { Entry(InternalKey([u], num, KIND_SET), value) }

  /** Keys of one byte are accepted, with values of up to one megabyte. */
  ghost predicate AcceptsBytes(fmt: Format<Entry>) {
    forall u: byte, num: SeqNum, value: bytes | |value| <= Wal.MAX_VALUE_LENGTH :: fmt.fits(Ver(u, num, value))
  }

  /** The files of an empty memtable and of one entry with a key of one byte. */
  ghost predicate SmallFiles(size: Level -> nat, overhead: nat) {
    && overhead > 32 && size([]) == overhead
    && forall u: byte, num: SeqNum, value: bytes :: size([Ver(u, num, value)]) == overhead + 50 + |value|
  }

  ghost function Wrote(fmt: Format<Entry>, st: Store, u: byte, value: bytes): Store
    requires st.seqNum < SEQ_NUM_MAX
  {
    AfterWrite(fmt, st, Ver(u, st.seqNum + 1, value))
  }

  lemma ReachesWrite(fmt: Format<Entry>, size: Level -> nat, guarded: bool, a: Store, st: Store, u: byte, value: bytes)
    requires AcceptsBytes(fmt) && |value| <= Wal.MAX_VALUE_LENGTH && Reaches(fmt, size, guarded, a, st)
    requires st.phase.Idle? && st.seqNum + 1 < SEQ_NUM_MAX && Weight(st.mem) < MEMTABLE_FLUSH_SIZE
    ensures Reaches(fmt, size, guarded, a, Wrote(fmt, st, u, value))
  {
    assert NewEntry(st, [u], KIND_SET, value) == Ver(u, st.seqNum + 1, value);
    ReachesStep(fmt, size, guarded, a, st, Write([u], KIND_SET, value));
  }
}
