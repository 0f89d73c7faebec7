/** The engine as a state machine: db/db.go and db/operations.go.

    One event is one step that a crash can separate from the next.  The state
    holds what the engine holds (memtable, table list, log, counters, pins), the
    files a reopen would find, and, for the specification, the history of writes:
    write number n carries sequence number n. */
module Stores {
  import opened Bytes
  import opened InternalKeys
  import opened Versions
  import opened Grouping
  import opened Compaction
  import opened Watermarks
  import opened MemTables
  import opened Framing
  import opened Levels

  /** Names are creation times: fresh and increasing. */
  datatype File = File(name: nat, level: Level)

  datatype Phase =
    | Idle
    | Installed      // the flushed table is on disk, the log is not yet reset
    | Flushed        // the log is reset, compaction has not begun
    | Merging(groups: seq<seq<nat>>, floor: SeqNum, done: seq<File>)
    | Deleting(victims: seq<File>)

  datatype Store = Store(
    history: seq<Entry>,       // every write, for the specification
    flushed: nat,              // the tables hold the history up to here
    dropFloor: nat,            // no version needed at or above this is gone
    mem: Level,
    tables: seq<File>,         // as searched, newest first
    disk: seq<File>,           // what a reopen finds, newest name first
    wal: bytes,
    logged: seq<Entry>,        // the writes recorded in the log
    dup: nat,                  // how many of them are in a table as well
    synced: nat,               // how many of them are durable
    durable: nat,              // the bytes of the log that are durable
    counter: nat,              // writes since the last sync
    seqNum: nat,
    pins: multiset<SeqNum>,
    nextName: nat,
    phase: Phase)

  datatype Event =
    | Write(key: bytes, kind: byte, value: bytes)
    | Install
    | ResetLog
    | StartCompaction(sizes: seq<nat>)
    | MergeNext
    | FinishMerging
    | DeleteNext
    | FinishDeleting
    | GetSnapshot
    | Pin(loaded: SeqNum)   // the second half of GetSnapshot, some time after the first
    | ReleaseSnapshot(snap: SeqNum)
    | Crash(keep: nat)

  ghost function LevelsOf(files: seq<File>): (r: seq<Level>)
    ensures |r| == |files| && forall i | 0 <= i < |files| :: r[i] == files[i].level
  {
    seq(|files|, i requires 0 <= i < |files| => files[i].level)
  }

  function Min(a: int, b: int): int { if a < b then a else b }

  const Empty := Store([], 0, 0, [], [], [], [], [], 0, 0, 0, 0, 0, multiset{}, 0, Idle)

  // ------------------------------------------------------------ the events

  function NewEntry(st: Store, key: bytes, kind: byte, value: bytes): Entry
    requires st.seqNum < SEQ_NUM_MAX
  {
    Entry(InternalKey(key, st.seqNum + 1, kind), value)
  }

  /** Log first, then memtable; every tenth write makes the log durable. */
  ghost function AfterWrite(fmt: Format<Entry>, st: Store, e: Entry): Store {
    var wal, logged := st.wal + fmt.encode(e), st.logged + [e];
    var sync := st.counter + 1 >= SYNC_THRESHOLD;
    st.(history := st.history + [e], mem := Insert(st.mem, e), wal := wal, logged := logged,
        synced := if sync then |logged| else st.synced,
        durable := if sync then |wal| else st.durable,
        counter := if sync then 0 else st.counter + 1,
        seqNum := st.seqNum + 1)
  }

  ghost function AfterInstall(st: Store): Store {
    var f := File(st.nextName, st.mem);
    st.(tables := [f] + st.tables, disk := [f] + st.disk, mem := [], nextName := st.nextName + 1,
        flushed := |st.history|, dup := |st.logged|, phase := Installed)
  }

  ghost function AfterResetLog(st: Store): Store {
    st.(wal := [], logged := [], dup := 0, synced := 0, durable := 0, phase := Flushed)
  }

  ghost function AfterStart(st: Store, sizes: seq<nat>): Store {
    var floor := Floor(st.pins);
    if |st.tables| < COMPACTION_THRESHOLD then st.(phase := Idle)
    else st.(phase := Merging(Groups(sizes), floor, []), dropFloor := Max(st.dropFloor, Min(floor, st.seqNum)))
  }

  ghost predicate CanMerge(st: Store) {
    && st.phase.Merging? && |st.phase.done| < |st.phase.groups|
    && st.phase.groups[|st.phase.done|] != [] && Indexes(st.phase.groups[|st.phase.done|], |st.tables|)
  }

  ghost function AfterMergeNext(st: Store): Store
    requires CanMerge(st)
  {
    var Merging(groups, floor, done) := st.phase;
    var group := groups[|done|];
    if |group| < 2 then
      assert group[0] in group;
      st.(phase := Merging(groups, floor, done + [st.tables[group[0]]]))
    else
      var f := File(st.nextName, Outcome(LevelsOf(st.tables), group, floor));
      st.(disk := [f] + st.disk, nextName := st.nextName + 1, phase := Merging(groups, floor, done + [f]))
  }

  /** Tables of the groups that were merged, in the order they are deleted. */
  ghost function Victims(tables: seq<File>, groups: seq<seq<nat>>, i: nat): seq<File>
    decreases |tables| - i
  {
    if |tables| <= i then []
    else (if WasMerged(groups, i) then [tables[i]] else []) + Victims(tables, groups, i + 1)
  }

  ghost predicate WasMerged(groups: seq<seq<nat>>, i: nat) {
    exists g :: 0 <= g < |groups| && |groups[g]| >= 2 && i in groups[g]
  }

  ghost function AfterFinishMerging(st: Store): Store
    requires st.phase.Merging?
  {
    st.(tables := st.phase.done, phase := Deleting(Victims(st.tables, st.phase.groups, 0)))
  }

  ghost function Without(files: seq<File>, f: File): seq<File> {
    if files == [] then []
    else if files[0] == f then files[1..]
    else [files[0]] + Without(files[1..], f)
  }

  ghost function AfterDeleteNext(st: Store): Store
    requires st.phase.Deleting? && st.phase.victims != []
  {
    st.(disk := Without(st.disk, st.phase.victims[0]), phase := Deleting(st.phase.victims[1..]))
  }

  ghost function AfterPin(st: Store, s: SeqNum): Store { st.(pins := st.pins + multiset{s}) }

  ghost function AfterRelease(st: Store, s: SeqNum): Store { st.(pins := st.pins - multiset{s}) }

  // ----------------------------------------------------------------- reopen

  function MaxNum(entries: seq<Entry>): nat {
    if entries == [] then 0 else Max(entries[0].key.num, MaxNum(entries[1..]))
  }

  lemma {:induction false} MaxNumIsMax(entries: seq<Entry>)
    ensures forall e | e in entries :: e.key.num <= MaxNum(entries)
    ensures MaxNum(entries) == 0 || exists e :: e in entries && e.key.num == MaxNum(entries)
  {
    if entries != [] {
      assert entries == [entries[0]] + entries[1..];
      MaxNumIsMax(entries[1..]);
    }
  }

  ghost function MaxNumIn(levels: seq<Level>): nat {
    if levels == [] then 0 else Max(MaxNum(levels[0]), MaxNumIn(levels[1..]))
  }

  lemma {:induction false} MaxNumInIsMax(levels: seq<Level>)
    ensures forall e | e in All(levels) :: e.key.num <= MaxNumIn(levels)
    ensures MaxNumIn(levels) == 0 || exists e :: e in All(levels) && e.key.num == MaxNumIn(levels)
  {
    if levels != [] {
      assert levels == [levels[0]] + levels[1..];
      AllCons(levels[0], levels[1..]);
      MaxNumIsMax(levels[0]);
      MaxNumInIsMax(levels[1..]);
      assert forall e | e in levels[0] :: e in Elems(levels[0]);
    }
  }

  function Max(a: nat, b: nat): nat { if a > b then a else b }

  /** What Open builds from the bytes of the log and the files it finds; the
      history is the one the reopened engine answers for. */
  ghost function Reopen(fmt: Format<Entry>, st: Store, wal: bytes): Store {
    var (entries, end) := Replay(fmt, wal, 0);
    var lost := |st.logged| - Min(|entries|, |st.logged|);
    st.(history := if st.phase.Idle? && lost <= |st.history| then st.history[..|st.history| - lost] else st.history,
        mem := InsertAll(entries),
        tables := st.disk,
        wal := wal[..end], logged := entries, synced := |entries|, durable := end,
        dup := if st.phase.Idle? then st.dup else |entries|,
        counter := 0,
        seqNum := Max(MaxNum(entries), MaxNumIn(LevelsOf(st.disk))),
        pins := multiset{},
        phase := Idle)
  }

  /** No user key has both a surviving and a lost record. */
  ghost predicate CutSafe(logged: seq<Entry>, r: nat) {
    forall i, j | 0 <= i < r <= j < |logged| :: logged[i].key.user != logged[j].key.user
  }

  // ------------------------------------------------------------------ steps

  /** What the engine can do in a state. */
  ghost predicate Possible(fmt: Format<Entry>, st: Store, ev: Event) {
    match ev
    case Write(key, kind, value) =>
      && st.phase.Idle? && st.seqNum + 1 < SEQ_NUM_MAX
      && kind <= KIND_MAX && (kind == KIND_DELETE ==> value == [])
      && fmt.fits(NewEntry(st, key, kind, value))
    case Install => st.phase.Idle?
    case ResetLog => st.phase.Installed?
    case StartCompaction(sizes) => st.phase.Flushed? && |sizes| == |st.tables|
    case MergeNext => CanMerge(st)
    case FinishMerging => st.phase.Merging? && |st.phase.done| == |st.phase.groups|
    case DeleteNext => st.phase.Deleting? && st.phase.victims != []
    case FinishDeleting => st.phase.Deleting? && st.phase.victims == []
    case GetSnapshot => true
    case Pin(loaded) => loaded <= st.seqNum
    case ReleaseSnapshot(snap) => true
    case Crash(keep) => st.durable <= keep <= |st.wal|
  }

  /** What it must not do for reads to stay right.  Groups come out in table
      order; a number, unless it is 0, is pinned before a compaction drops below it; and when
      runs may crash, a compaction merges at most its first group, whose merged
      table alone gets the newest name, and no crash separates a table's install
      from the log's reset while a key has both durable and lost records. */
  ghost predicate Guarded(fmt: Format<Entry>, crashes: bool, st: Store, ev: Event) {
    match ev
    case StartCompaction(sizes) => Orderly(crashes, sizes)
    case Pin(loaded) => st.dropFloor <= loaded || loaded == 0
    case Crash(keep) => crashes && (st.phase.Installed? ==> CutSafe(st.logged, Whole(fmt, st.logged, keep)))
    case _ => true
  }

  /** A compaction of tables of these sizes keeps their order, also, when runs
      may crash, in the order of their names. */
  ghost predicate Orderly(crashes: bool, sizes: seq<nat>) {
    |sizes| >= COMPACTION_THRESHOLD ==>
      InOrder(Groups(sizes)) && (crashes ==> OnlyFirstMerges(Groups(sizes)))
  }

  ghost predicate Enabled(fmt: Format<Entry>, crashes: bool, st: Store, ev: Event) {
    Possible(fmt, st, ev) && Guarded(fmt, crashes, st, ev)
  }

  ghost function Next(fmt: Format<Entry>, st: Store, ev: Event): Store
    requires Possible(fmt, st, ev)
  {
    match ev
    case Write(key, kind, value) => AfterWrite(fmt, st, NewEntry(st, key, kind, value))
    case Install => AfterInstall(st)
    case ResetLog => AfterResetLog(st)
    case StartCompaction(sizes) => AfterStart(st, sizes)
    case MergeNext => AfterMergeNext(st)
    case FinishMerging => AfterFinishMerging(st)
    case DeleteNext => AfterDeleteNext(st)
    case FinishDeleting => st.(phase := Idle)
    case GetSnapshot => if st.seqNum <= SEQ_NUM_MAX then AfterPin(st, st.seqNum) else st
    case Pin(loaded) => AfterPin(st, loaded)
    case ReleaseSnapshot(snap) => AfterRelease(st, snap)
    case Crash(keep) => Reopen(fmt, st, st.wal[..keep])
  }

  /** The version that a reader finds: memtable first, then the tables in order. */
  ghost function Hit(st: Store, k: bytes, s: SeqNum): Option<Entry> {
    FirstHit([st.mem] + LevelsOf(st.tables), k, s)
  }

  ghost function Read(st: Store, k: bytes, s: SeqNum): Option<bytes> { Answer(Hit(st, k, s)) }
}
