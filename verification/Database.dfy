/** The engine object: db/db.go and db/operations.go.  A ghost copy of the store
    is carried along; every operation carries out the store's events. */
module Databases {
  import opened Bytes
  import opened InternalKeys
  import opened Versions
  import opened Watermarks
  import opened MemTables
  import opened Framing
  import opened Levels
  import opened Tables
  import opened Stores
  import opened StoreInvariants
  import opened Recovery
  import opened Runs
  import opened Flushing
  import opened TableSets
  import opened TableDirs
  import opened ScanAts
  import EntryLog
  import Wal

  datatype WriteError = KeyTooLong | ValueTooLong

  // ----------------------------------------------------------------- replay

  function FromRecords(records: seq<Wal.Record>): (r: seq<Entry>)
    ensures |r| == |records| && forall i | 0 <= i < |records| :: r[i] == EntryLog.FromRecord(records[i])
  {
    EntryLog.MapAll(EntryLog.FromRecord, records)
  }

  /** Replaying records and decoding them is replaying versions. */
  lemma ReplayDecodes(crc: Wal.Checksum, file: bytes)
    ensures Replay(EntryLog.Entries(crc), file, 0) ==
            (FromRecords(Replay(Wal.Records(crc), file, 0).0), Replay(Wal.Records(crc), file, 0).1)
  {
    EntryLog.ReplayThrough(Wal.Records(crc), EntryLog.WellFormed, EntryLog.ToRecord, EntryLog.FromRecord, file, 0);
  }

  /** The memtable and the largest number found in the log. */
  method RebuildMemtable(log: Wal.Log) returns (mem: MemTable, maxSeq: nat)
    requires log.Valid() && log.durable == |log.content|
    modifies log
    ensures fresh(mem) && mem.Valid() && log.Valid() && log.putCounter == old(log.putCounter)
    ensures var (entries, end) := Replay(EntryLog.Entries(log.crc), old(log.content), 0);
            && mem.tree == InsertAll(entries) && maxSeq == MaxNum(entries)
            && log.content == old(log.content)[..end] && log.durable == end
  {
    ReplayDecodes(log.crc, log.content);
    var records := log.ReplayLog();
    mem := new MemTable();
    maxSeq := Reinsert(mem, records, FromRecords(records));
  }

  method Reinsert(mem: MemTable, records: seq<Wal.Record>, ghost entries: seq<Entry>) returns (maxSeq: nat)
    requires mem.Valid() && mem.tree == [] && entries == FromRecords(records)
    modifies mem
    ensures mem.Valid() && mem.tree == InsertAll(entries) && maxSeq == MaxNum(entries)
  {
    maxSeq := 0;
    for i := 0 to |records|
      invariant mem.Valid() && mem.tree == InsertAll(entries[..i]) && maxSeq == MaxNum(entries[..i])
    {
      var key := Decode(records[i].key);
      assert entries[i] in entries && entries[i] == EntryLog.FromRecord(records[i]);
      InsertAllSnoc(entries, i);
      MaxNumSnoc(entries, i);
      if key.num > maxSeq { maxSeq := key.num; }
      mem.Put(Entry(key, if key.kind == KIND_DELETE then [] else records[i].value));
    }
    assert entries[..|records|] == entries;
  }

  lemma InsertAllSnoc(entries: seq<Entry>, i: nat)
    requires i < |entries|
    ensures InsertAll(entries[..i + 1]) == Insert(InsertAll(entries[..i]), entries[i])
  {
    assert entries[..i + 1][..i] == entries[..i];
  }

  // ----------------------------------------------------------------- engine

  class Database {
    const cfg: Config
    var mem: MemTable
    var tables: seq<SSTable>
    var log: Wal.Log
    var watermark: Watermark
    var seqNum: nat
    var nextName: nat
    /** The files of the directory, newest name first. */
    var dir: seq<SSTable>
    ghost var st: Store
    /** No compaction so far has reordered the tables, and no pin came too late. */
    ghost var ordered: bool
    /** Besides, no compaction has merged any but its first group. */
    ghost var recoverable: bool

    /** The objects are the store, and everything held was written. */
    ghost predicate Holding()
      reads `mem, `tables, `dir, `log, `watermark, `seqNum, `nextName, `st, mem, log, watermark
    {
      && cfg.Valid() && mem.Valid() && log.Valid() && watermark.Holds(st.pins)
      && mem.tree == st.mem && seqNum == st.seqNum == |st.history| < SEQ_NUM_MAX && nextName == st.nextName
      && FilesOf(tables) == st.tables && FilesOf(dir) == st.disk && Shelved(dir, tables, nextName)
      && log.content == st.wal && log.durable == st.durable && log.putCounter == st.counter
      && Written(st.history, mem.tree) && Stocked(cfg, tables, st.history) && Stocked(cfg, dir, st.history)
    }

    /** Holding, between requests. */
    ghost predicate Base()
      reads `mem, `tables, `dir, `log, `watermark, `seqNum, `nextName, `st, mem, log, watermark
    {
      Holding() && st.phase.Idle?
    }

    ghost predicate Valid()
      reads this, mem, log, watermark
    {
      Base() && Trusted(log.crc, ordered, recoverable, st)
    }

    constructor (cfg: Config, mem: MemTable, tables: seq<SSTable>, log: Wal.Log, watermark: Watermark,
                 seqNum: nat, nextName: nat, ghost st: Store)
      ensures this.cfg == cfg && this.mem == mem && this.tables == this.dir == tables && this.log == log
      ensures this.watermark == watermark && this.seqNum == seqNum && this.nextName == nextName
      ensures this.st == st && ordered && recoverable
    {
      this.cfg, this.mem, this.tables, this.log, this.watermark := cfg, mem, tables, log, watermark;
      this.seqNum, this.nextName, this.dir, this.st := seqNum, nextName, tables, st;
      ordered, recoverable := true, true;
    }

    /** The newest value visible at the snapshot.  At a pinned snapshot, and of
        the latest state, it is the last write that the reader may see. */
    method GetAt(k: bytes, s: SeqNum) returns (r: Option<bytes>)
      requires Valid()
      ensures r == Read(st, k, s)
      ensures ordered && (s in st.pins || s == SEQ_NUM_MAX) ==> r == Answer(LastWrite(st.history, k, s))
    {
      r := Find(k, s);
      if ordered && (s in st.pins || s == SEQ_NUM_MAX) {
        PinnedReadIsLastWrite(EntryLog.Entries(log.crc), false, st, k, s);
      }
    }

    /** Memtable first, then the tables; a tombstone at any level ends it. */
    method Find(k: bytes, s: SeqNum) returns (r: Option<bytes>)
      requires Base()
      ensures r == Read(st, k, s)
    {
      ReadSplits(st, k, s);
      WrittenKinds(st.history, mem.tree);
      var l := mem.Get(k, s);
      if l.Found? { return Some(l.value); }
      if l.Deleted? { return None; }
      r := Search(cfg.hashes, tables, k, s);
    }

    method Get(k: bytes) returns (r: Option<bytes>)
      requires Valid()
      ensures ordered ==> r == Answer(LastWrite(st.history, k, SEQ_NUM_MAX))
    {
      r := GetAt(k, SEQ_NUM_MAX);
    }

    /** A drained scan.  At a pinned snapshot, and of the latest state, it yields
        exactly the keys in range whose last write is a value, in order. */
    method ScanAt(lower: bytes, upper: Option<bytes>, s: SeqNum) returns (out: seq<(bytes, bytes)>)
      requires Valid()
      ensures InKeyOrder(out)
      ensures ordered && (s in st.pins || s == SEQ_NUM_MAX) ==>
                forall k: bytes, v: bytes ::
                  (k, v) in out <==> InRange(k, lower, upper) && Answer(LastWrite(st.history, k, s)) == Some(v)
    {
      out := Drain(lower, upper, s);
      if ordered && (s in st.pins || s == SEQ_NUM_MAX) {
        ScansHistory(EntryLog.Entries(log.crc), st, s);
      }
    }

    /** What the levels show, whatever their order. */
    method Drain(lower: bytes, upper: Option<bytes>, s: SeqNum) returns (out: seq<(bytes, bytes)>)
      requires Base()
      ensures InKeyOrder(out)
      ensures forall k: bytes, v: bytes :: (k, v) in out <==> InRange(k, lower, upper) && ShowsIn(st, k, s, v)
    {
      var sources := TablesOf(tables);
      AllCons(mem.tree, Content(tables));
      assert ScanAts.Levels(mem.tree, sources) == [mem.tree] + Content(tables) == [st.mem] + LevelsOf(st.tables);
      HistoryAgrees(st.history, All(ScanAts.Levels(mem.tree, sources)));
      out := ScanAts.Scan(cfg.hashes, mem, sources, lower, upper, s);
    }

    /** Load and pin, one after the other. */
    method GetSnapshot() returns (s: SeqNum)
      requires Valid()
      modifies `st, `ordered, `recoverable, watermark
      ensures Valid() && s == seqNum && st == AfterPin(old(st), s)
      ensures ordered == old(ordered) && recoverable == old(recoverable)
    {
      s := Load();
      if ordered { DropFloorBelow(log.crc, st); }
      Pin(s);
    }

    method Load() returns (s: SeqNum)
      requires Valid()
      ensures s == seqNum
    {
      s := seqNum;
    }

    /** The pin of a number loaded at some time before: in time unless a
        compaction since then has dropped below it. */
    method Pin(s: SeqNum)
      requires Valid()
      modifies `st, `ordered, `recoverable, watermark
      ensures Valid() && st == AfterPin(old(st), s)
      ensures ordered == (old(ordered) && old(InTime(s)))
      ensures recoverable == (old(recoverable) && old(InTime(s)))
    {
      ghost var timely := InTime(s);
      TrustedPin(log.crc, ordered, recoverable, st, s);
      AddPin(s);
      Trust(ordered && timely, recoverable && timely);
    }

    /** No compaction has dropped below s, or s is below every write. */
    ghost predicate InTime(s: SeqNum)
      reads `st, `seqNum
    {
      (st.dropFloor <= s || s == 0) && s <= seqNum
    }

    method AddPin(s: SeqNum)
      requires Base()
      modifies `st, watermark
      ensures Base() && st == AfterPin(old(st), s)
    {
      watermark.Begin(s, st.pins);
      st := AfterPin(st, s);
    }

    method ReleaseSnapshot(s: SeqNum)
      requires Valid()
      modifies `st, watermark
      ensures Valid() && st == AfterRelease(old(st), s)
    {
      TrustedRelease(log.crc, ordered, recoverable, st, s);
      RemovePin(s);
    }

    method RemovePin(s: SeqNum)
      requires Base()
      modifies `st, watermark
      ensures Base() && st == AfterRelease(old(st), s)
    {
      watermark.Done(s, st.pins);
      st := AfterRelease(st, s);
    }

    method Put(key: bytes, value: bytes) returns (err: Option<WriteError>)
      requires Valid() && seqNum + 1 < SEQ_NUM_MAX
      modifies this, mem, log
      ensures Valid() && Kept(old(log), old(watermark), old(mem))
      ensures err == if |key| > 1024 then Some(KeyTooLong)
                     else if |value| > 1048576 then Some(ValueTooLong) else None
      ensures err.Some? ==> unchanged(this, old(mem), log)
      ensures err.None? ==> Wrote(old(st), st, key, KIND_SET, value)
      ensures err.None? ==> Updates(old(st.history), st.history, key, Some(value))
      ensures err.None? ==> ordered == (old(ordered) && old(StaysOrderly(false, NewEntry(st, key, KIND_SET, value))))
      ensures err.None? ==>
                recoverable == (old(recoverable) && old(StaysOrderly(true, NewEntry(st, key, KIND_SET, value))))
    {
      if |key| > Wal.MAX_KEY_LENGTH { return Some(KeyTooLong); }
      if |value| > Wal.MAX_VALUE_LENGTH { return Some(ValueTooLong); }
      WriteUpdates(st.history, NewEntry(st, key, KIND_SET, value));
      Write(key, KIND_SET, value);
      err := None;
    }

    method Delete(key: bytes) returns (err: Option<WriteError>)
      requires Valid() && seqNum + 1 < SEQ_NUM_MAX
      modifies this, mem, log
      ensures Valid() && Kept(old(log), old(watermark), old(mem))
      ensures err == if |key| > 1024 then Some(KeyTooLong) else None
      ensures err.Some? ==> unchanged(this, old(mem), log)
      ensures err.None? ==> Wrote(old(st), st, key, KIND_DELETE, [])
      ensures err.None? ==> Updates(old(st.history), st.history, key, None)
      ensures err.None? ==> ordered == (old(ordered) && old(StaysOrderly(false, NewEntry(st, key, KIND_DELETE, []))))
      ensures err.None? ==>
                recoverable == (old(recoverable) && old(StaysOrderly(true, NewEntry(st, key, KIND_DELETE, []))))
    {
      if |key| > Wal.MAX_KEY_LENGTH { return Some(KeyTooLong); }
      WriteUpdates(st.history, NewEntry(st, key, KIND_DELETE, []));
      Write(key, KIND_DELETE, []);
      err := None;
    }

    twostate predicate Kept(log: Wal.Log, watermark: Watermark, mem: MemTable)
      reads this
    {
      this.log == log && this.watermark == watermark && (this.mem == mem || fresh(this.mem))
    }

    /** Writing e does not start a compaction that reorders the tables. */
    ghost predicate StaysOrderly(crashes: bool, e: Entry)
      reads this, mem
      requires cfg.Valid()
    {
      || mem.size + e.key.Size() + |e.value| < MEMTABLE_FLUSH_SIZE
      || Orderly(crashes, SizesWith(Insert(mem.tree, e)))
    }

    /** The sizes of the tables once the memtable is one of them. */
    ghost function SizesWith(tree: Level): (sizes: seq<nat>)
      reads this
      requires cfg.Valid()
      ensures |sizes| == |tables| + 1
    {
      Sizes(cfg, [SSTable(nextName, WriteTable(cfg.hashes, cfg.filter, tree))] + tables)
    }

    method Write(key: bytes, kind: byte, value: bytes)
      requires Valid() && seqNum + 1 < SEQ_NUM_MAX && kind <= KIND_MAX && (kind == KIND_DELETE ==> value == [])
      requires |key| <= Wal.MAX_KEY_LENGTH && |value| <= Wal.MAX_VALUE_LENGTH
      modifies this, mem, log
      ensures Valid() && Kept(old(log), old(watermark), old(mem))
      ensures Wrote(old(st), st, key, kind, value)
      ensures ordered == (old(ordered) && old(StaysOrderly(false, NewEntry(st, key, kind, value))))
      ensures recoverable == (old(recoverable) && old(StaysOrderly(true, NewEntry(st, key, kind, value))))
    {
      Record(key, kind, value);
      FlushIfFull();
    }

    method FlushIfFull()
      requires Valid()
      modifies this, log
      ensures Valid() && Kept(old(log), old(watermark), old(mem))
      ensures st == if old(mem.size) < 4194304 then old(st)
                    else AfterFlush(old(st), old(SizesWith(mem.tree)))
      ensures st.history == old(st.history) && st.pins == old(st.pins)
      ensures ordered == (old(ordered) && old(FlushOrderly(false)))
      ensures recoverable == (old(recoverable) && old(FlushOrderly(true)))
    {
      if mem.size >= MEMTABLE_FLUSH_SIZE {
        ForceFlush();
      }
    }

    /** The memtable is not full, or its flush reorders nothing. */
    ghost predicate FlushOrderly(crashes: bool)
      reads this, mem
      requires cfg.Valid()
    {
      mem.size < MEMTABLE_FLUSH_SIZE || Orderly(crashes, SizesWith(mem.tree))
    }

    method Record(key: bytes, kind: byte, value: bytes)
      requires Valid() && seqNum + 1 < SEQ_NUM_MAX && kind <= KIND_MAX && (kind == KIND_DELETE ==> value == [])
      requires |key| <= Wal.MAX_KEY_LENGTH && |value| <= Wal.MAX_VALUE_LENGTH
      modifies `seqNum, `st, mem, log
      ensures Valid() && Wrote(old(st), st, key, kind, value)
      ensures mem.tree == Insert(old(mem.tree), NewEntry(old(st), key, kind, value))
      ensures mem.size == old(mem.size) + |key| + TRAILER_LEN + |value|
    {
      TrustedWrite(log.crc, ordered, recoverable, st, key, kind, value);
      Append(key, kind, value);
    }

    method ForceFlush()
      requires Valid()
      modifies this, log
      ensures Valid() && Kept(old(log), old(watermark), old(mem))
      ensures var sizes := old(SizesWith(mem.tree));
              && st == AfterFlush(old(st), sizes) && ordered == (old(ordered) && Orderly(false, sizes))
              && recoverable == (old(recoverable) && Orderly(true, sizes))
    {
      ghost var sizes := SizesWith(mem.tree);
      TrustedFlush(log.crc, ordered, recoverable, st, sizes);
      FlushMemtable();
      Trust(ordered && Orderly(false, sizes), recoverable && Orderly(true, sizes));
    }

    ghost method Trust(o: bool, r: bool)
      requires Base() && Trusted(log.crc, o, r, st)
      modifies `ordered, `recoverable
      ensures Valid() && ordered == o && recoverable == r
    {
      ordered, recoverable := o, r;
    }

    /** Log first, then memtable. */
    method Append(key: bytes, kind: byte, value: bytes)
      requires Base() && seqNum + 1 < SEQ_NUM_MAX && kind <= KIND_MAX
      modifies `seqNum, `st, mem, log
      ensures Base()
      ensures var e := NewEntry(old(st), key, kind, value);
              && st == AfterWrite(EntryLog.Entries(log.crc), old(st), e)
              && mem.size == old(mem.size) + e.key.Size() + |e.value|
      ensures Updates(old(st.history), st.history, key, if kind == KIND_DELETE then None else Some(value))
    {
      seqNum := seqNum + 1;
      var internalKey := InternalKey(key, seqNum, kind);
      var e := Entry(internalKey, value);
      WriteUpdates(st.history, e);
      AppendKeeps(cfg, st.history, e, mem.tree, tables);
      AppendKeeps(cfg, st.history, e, mem.tree, dir);
      LogEntry(log, e);
      mem.Put(e);
      st := AfterWrite(EntryLog.Entries(log.crc), st, e);
    }

    method FlushMemtable()
      requires Base()
      modifies this, log
      ensures Base() && Kept(old(log), old(watermark), old(mem))
      ensures ordered == old(ordered) && recoverable == old(recoverable)
      ensures st == AfterFlush(old(st), old(SizesWith(mem.tree)))
    {
      Install();
      CompactTables();
    }

    /** The memtable becomes the newest table, then the log is reset. */
    method Install()
      requires Base()
      modifies this, log
      ensures Holding() && Kept(old(log), old(watermark), old(mem))
      ensures ordered == old(ordered) && recoverable == old(recoverable)
      ensures st == AfterResetLog(AfterInstall(old(st)))
      ensures Sizes(cfg, tables) == old(SizesWith(mem.tree))
    {
      StrictIsSorted(mem.tree);
      WrittenReadable(cfg, mem.tree, st.history);
      var sst := SSTable(nextName, WriteTable(cfg.hashes, cfg.filter, mem.tree));
      InstallKeeps(cfg, sst, tables, dir, nextName, st.history);
      tables := [sst] + tables;
      dir := [sst] + dir;
      nextName := nextName + 1;
      mem := new MemTable();
      log.Reset();
      st := AfterResetLog(AfterInstall(st));
    }

    /** Merge the groups, replace the table list, delete what was merged. */
    method CompactTables()
      requires Holding() && st.phase.Flushed?
      modifies `tables, `dir, `nextName, `st
      ensures Base() && st == AfterCompaction(old(st), old(Sizes(cfg, tables)))
    {
      ghost var sizes := Sizes(cfg, tables);
      var floor := watermark.GetFloor(st.pins);
      var result, left, next := TableDirs.CompactTables(cfg, tables, dir, floor, nextName, st);
      Adopt(result, left, next, AfterCompaction(st, sizes));
    }

    method Adopt(result: seq<SSTable>, left: seq<SSTable>, next: nat, ghost now: Store)
      requires Holding() && SameWrites(st, now) && SameLog(st, now) && now.phase.Idle?
      requires FilesOf(result) == now.tables && FilesOf(left) == now.disk && next == now.nextName
      requires Stocked(cfg, result, st.history) && Stocked(cfg, left, st.history) && Shelved(left, result, next)
      modifies `tables, `dir, `nextName, `st
      ensures Base() && st == now
    {
      tables, dir, nextName, st := result, left, next, now;
    }
  }

  // ------------------------------------------------------------------ trust

  /** What the two flags stand for. */
  ghost predicate Trusted(crc: Wal.Checksum, ordered: bool, recoverable: bool, st: Store) {
    && (ordered ==> Inv(EntryLog.Entries(crc), false, st))
    && (recoverable ==> ordered && Inv(EntryLog.Entries(crc), true, st))
  }

  lemma TrustedPin(crc: Wal.Checksum, ordered: bool, recoverable: bool, st: Store, s: SeqNum)
    requires Trusted(crc, ordered, recoverable, st)
    ensures var timely := (st.dropFloor <= s || s == 0) && s <= st.seqNum;
            Trusted(crc, ordered && timely, recoverable && timely, AfterPin(st, s))
  {
    if (st.dropFloor <= s || s == 0) && s <= st.seqNum {
      if ordered { PinInvIff(EntryLog.Entries(crc), false, st, s); }
      if recoverable { PinInvIff(EntryLog.Entries(crc), true, st, s); }
    }
  }

  lemma DropFloorBelow(crc: Wal.Checksum, st: Store)
    requires Inv(EntryLog.Entries(crc), false, st)
    ensures st.dropFloor <= st.seqNum
  {
  }

  lemma TrustedRelease(crc: Wal.Checksum, ordered: bool, recoverable: bool, st: Store, s: SeqNum)
    requires Trusted(crc, ordered, recoverable, st)
    ensures Trusted(crc, ordered, recoverable, AfterRelease(st, s))
  {
    if ordered { ReleaseInv(EntryLog.Entries(crc), false, st, s); }
    if recoverable { ReleaseInv(EntryLog.Entries(crc), true, st, s); }
  }

  /** The lengths that Put and Delete accept are the ones the log can hold. */
  lemma TrustedWrite(crc: Wal.Checksum, ordered: bool, recoverable: bool, st: Store,
                     key: bytes, kind: byte, value: bytes)
    requires Trusted(crc, ordered, recoverable, st) && st.phase.Idle? && st.seqNum + 1 < SEQ_NUM_MAX
    requires kind <= KIND_MAX && (kind == KIND_DELETE ==> value == [])
    requires |key| <= Wal.MAX_KEY_LENGTH && |value| <= Wal.MAX_VALUE_LENGTH
    ensures Trusted(crc, ordered, recoverable, AfterWrite(EntryLog.Entries(crc), st, NewEntry(st, key, kind, value)))
  {
    EntryLog.AcceptedFits(crc, NewEntry(st, key, kind, value));
    if ordered { WriteInv(EntryLog.Entries(crc), false, st, key, kind, value); }
    if recoverable { WriteInv(EntryLog.Entries(crc), true, st, key, kind, value); }
  }

  lemma TrustedFlush(crc: Wal.Checksum, ordered: bool, recoverable: bool, st: Store, sizes: seq<nat>)
    requires Trusted(crc, ordered, recoverable, st) && st.phase.Idle? && |sizes| == |st.tables| + 1
    ensures Trusted(crc, ordered && Orderly(false, sizes), recoverable && Orderly(true, sizes), AfterFlush(st, sizes))
  {
    if ordered && Orderly(false, sizes) { FlushInv(EntryLog.Entries(crc), false, st, sizes); }
    if recoverable && Orderly(true, sizes) { FlushInv(EntryLog.Entries(crc), true, st, sizes); }
  }

  method LogEntry(log: Wal.Log, e: Entry)
    requires log.Valid()
    modifies log
    ensures log.Valid() && log.content == old(log.content) + EntryLog.Entries(log.crc).encode(e)
    ensures log.putCounter == if old(log.putCounter) + 1 >= SYNC_THRESHOLD then 0 else old(log.putCounter) + 1
    ensures log.durable == if old(log.putCounter) + 1 >= SYNC_THRESHOLD then |log.content| else old(log.durable)
  {
    EncodedAs(log.crc, e);
    log.Write(Encode(e.key), e.value);
  }

  /** A history of valid writes, and a level of some of them. */
  ghost predicate Written(history: seq<Entry>, tree: Level) {
    WellNumbered(history) && ValidKinds(history) && Elems(tree) <= Elems(history)
  }

  lemma WrittenKinds(history: seq<Entry>, tree: Level)
    requires Written(history, tree)
    ensures ValidKinds(tree)
  {
    forall e | e in tree
      ensures e.key.Valid()
    {
      assert e in Elems(tree);
    }
  }

  /** Open after a crash: `before` is the store at the crash, `wal` what is left
      of its log, `listing` its files in any order. */
  method Open(cfg: Config, crc: Wal.Checksum, listing: seq<SSTable>, wal: bytes, clock: nat,
              ghost before: Store, ghost disk: seq<SSTable>) returns (db: Database)
    requires cfg.Valid() && Inv(EntryLog.Entries(crc), true, before) && ValidKinds(before.history)
    requires |wal| <= |before.wal| && wal == before.wal[..|wal|] && clock == before.nextName
    requires Enabled(EntryLog.Entries(crc), true, before, Crash(|wal|))
    requires multiset(listing) == multiset(disk) && FilesOf(disk) == before.disk
    requires Readable(cfg.hashes, disk) && SortsByAge(disk)
    ensures db.Valid() && fresh(db) && fresh(db.mem) && fresh(db.log) && fresh(db.watermark)
    ensures db.ordered && db.recoverable && db.st == Reopen(EntryLog.Entries(crc), before, wal)
    ensures db.st.history <= before.history && |before.history| <= |db.st.history| + 9
  {
    OpenReady(cfg, crc, before, |wal|, disk);
    db := Assemble(cfg, crc, listing, wal, clock, Reopen(EntryLog.Entries(crc), before, wal), disk);
  }

  /** The engine dies between two requests, the log keeps any part that covers
      what was synced, and a new engine opens what is left. */
  method Restart(db: Database, keep: nat, listing: seq<SSTable>) returns (again: Database)
    requires db.Valid() && db.recoverable && db.log.durable <= keep <= |db.log.content|
    requires multiset(listing) == multiset(db.dir) && SortsByAge(db.dir)
    ensures again.Valid() && fresh(again) && fresh(again.mem) && fresh(again.log) && fresh(again.watermark)
    ensures again.ordered && again.recoverable
    ensures again.st.history <= db.st.history && |db.st.history| <= |again.st.history| + 9
    ensures keep == |db.log.content| ==> again.st.history == db.st.history
  {
    RestartEnabled(db.log.crc, db.st, keep);
    again := Open(db.cfg, db.log.crc, listing, db.log.content[..keep], db.nextName, db.st, db.dir);
  }

  /** A store as the log and the files give it back. */
  ghost predicate Recovered(cfg: Config, fmt: Format<Entry>, st: Store, wal: bytes, clock: nat, disk: seq<SSTable>) {
    var (entries, end) := Replay(fmt, wal, 0);
    && st.mem == InsertAll(entries) && st.tables == st.disk == FilesOf(disk) && st.nextName == clock
    && st.wal == wal[..end] && st.durable == end && st.counter == 0 && st.pins == multiset{} && st.phase.Idle?
    && st.seqNum == Max(MaxNum(entries), MaxNumIn(LevelsOf(FilesOf(disk)))) == |st.history| < SEQ_NUM_MAX
    && Written(st.history, st.mem) && Stocked(cfg, disk, st.history)
    && Shelved(disk, disk, clock) && SortsByAge(disk)
  }

  method Assemble(cfg: Config, crc: Wal.Checksum, listing: seq<SSTable>, wal: bytes, clock: nat,
                  ghost st: Store, ghost disk: seq<SSTable>) returns (db: Database)
    requires cfg.Valid() && multiset(listing) == multiset(disk)
    requires Recovered(cfg, EntryLog.Entries(crc), st, wal, clock, disk)
    ensures db.Base() && db.log.crc == crc && fresh(db) && fresh(db.mem) && fresh(db.log) && fresh(db.watermark)
    ensures db.st == st && db.ordered && db.recoverable
  {
    var log := new Wal.Log(crc, wal);
    var mem, walMax := RebuildMemtable(log);
    var tables := ByName(listing);
    ByNameRestores(listing, disk);
    var tableMax := MaxSeqNum(tables);
    var watermark := new Watermark();
    db := new Database(cfg, mem, tables, log, watermark, Max(walMax, tableMax), clock, st);
  }

  /** A write appends one version to the history and leaves the pins alone. */
  ghost predicate Wrote(before: Store, after: Store, key: bytes, kind: byte, value: bytes)
    requires before.seqNum < SEQ_NUM_MAX
  {
    after.history == before.history + [NewEntry(before, key, kind, value)] && after.pins == before.pins
  }

  lemma ReadSplits(st: Store, k: bytes, s: SeqNum)
    ensures var o := FirstVisible(st.mem, k, s);
            Read(st, k, s) == Answer(if o.Some? then o else FirstHit(LevelsOf(st.tables), k, s))
  {
    assert ([st.mem] + LevelsOf(st.tables))[1..] == LevelsOf(st.tables);
  }

  ghost predicate ShowsIn(st: Store, k: bytes, s: SeqNum, v: bytes) {
    ShowsAt(All([st.mem] + LevelsOf(st.tables)), k, s, v)
  }

  function TablesOf(tables: seq<SSTable>): (r: seq<Table>)
    ensures |r| == |tables| && forall i | 0 <= i < |tables| :: r[i] == tables[i].table
  {
    seq(|tables|, i requires 0 <= i < |tables| => tables[i].table)
  }

  /** Under the invariant a scan shows what the history says. */
  lemma ScansHistory(fmt: Format<Entry>, st: Store, s: SeqNum)
    requires Inv(fmt, false, st) && st.phase.Idle? && (s in st.pins || s == SEQ_NUM_MAX)
    ensures forall k: bytes, v: bytes :: ShowsIn(st, k, s, v) <==> Answer(LastWrite(st.history, k, s)) == Some(v)
  {
    var levels := [st.mem] + LevelsOf(st.tables);
    LevelsCover(fmt, false, st);
    PairwiseIsShadowed(levels);
    HistoryAgrees(st.history, All(levels));
    forall k: bytes, v: bytes
      ensures ShowsIn(st, k, s, v) <==> Answer(LastWrite(st.history, k, s)) == Some(v)
    {
      PinnedReadIsLastWrite(fmt, false, st, k, s);
      ScanAgreesWithGet(levels, k, s, v);
    }
  }

  lemma RestartEnabled(crc: Wal.Checksum, st: Store, keep: nat)
    requires Inv(EntryLog.Entries(crc), true, st) && st.phase.Idle? && st.durable <= keep <= |st.wal|
    ensures Enabled(EntryLog.Entries(crc), true, st, Crash(keep))
    ensures keep == |st.wal| ==> Reopen(EntryLog.Entries(crc), st, st.wal[..keep]).history == st.history
  {
    EntryLog.EntriesAreLawful(crc);
    if keep == |st.wal| { WholeLogKept(EntryLog.Entries(crc), st); }
  }

  lemma WholeLogKept(fmt: Format<Entry>, st: Store)
    requires Lawful(fmt) && LogOk(fmt, st)
    ensures Reopen(fmt, st, st.wal[..|st.wal|]).history == st.history
  {
    ReplayWholeLog(fmt, st.logged);
    assert st.wal[..|st.wal|] == st.wal && st.history[..|st.history|] == st.history;
  }

  lemma ReopenedSound(fmt: Format<Entry>, before: Store, keep: nat)
    requires Lawful(fmt) && Inv(fmt, true, before) && ValidKinds(before.history)
    requires Enabled(fmt, true, before, Crash(keep))
    ensures var st := Reopen(fmt, before, before.wal[..keep]);
            && st.history <= before.history && |before.history| <= |st.history| + 9
            && Inv(fmt, true, st) && ValidKinds(st.history)
            && Elems(st.mem) <= Elems(st.history) && All(LevelsOf(st.tables)) <= Elems(st.history)
  {
    var st := Reopen(fmt, before, before.wal[..keep]);
    CrashInv(fmt, before, keep);
    LevelsCover(fmt, true, st);
    AllCons(st.mem, LevelsOf(st.tables));
    forall e | e in st.history
      ensures e.key.Valid()
    {
      assert e in before.history;
    }
  }

  lemma OpenReady(cfg: Config, crc: Wal.Checksum, before: Store, keep: nat, disk: seq<SSTable>)
    requires Inv(EntryLog.Entries(crc), true, before) && ValidKinds(before.history)
    requires Enabled(EntryLog.Entries(crc), true, before, Crash(keep))
    requires FilesOf(disk) == before.disk && Readable(cfg.hashes, disk) && SortsByAge(disk)
    ensures var wal := before.wal[..keep];
            var st := Reopen(EntryLog.Entries(crc), before, wal);
            && Recovered(cfg, EntryLog.Entries(crc), st, wal, before.nextName, disk)
            && Trusted(crc, true, true, st)
            && st.history <= before.history && |before.history| <= |st.history| + 9
  {
    EntryLog.EntriesAreLawful(crc);
    ReopenReady(cfg, EntryLog.Entries(crc), before, keep, disk);
  }

  lemma ReopenReady(cfg: Config, fmt: Format<Entry>, before: Store, keep: nat, disk: seq<SSTable>)
    requires Lawful(fmt) && Inv(fmt, true, before) && ValidKinds(before.history)
    requires Enabled(fmt, true, before, Crash(keep))
    requires FilesOf(disk) == before.disk && Readable(cfg.hashes, disk) && SortsByAge(disk)
    ensures var wal := before.wal[..keep];
            var st := Reopen(fmt, before, wal);
            && Recovered(cfg, fmt, st, wal, before.nextName, disk) && Inv(fmt, true, st)
            && st.history <= before.history && |before.history| <= |st.history| + 9
  {
    ReopenedSound(fmt, before, keep);
    DiskDescends(before, disk);
  }

  lemma DiskDescends(before: Store, disk: seq<SSTable>)
    requires Descending(before.disk, before.nextName) && FilesOf(disk) == before.disk
    ensures Shelved(disk, disk, before.nextName)
  {
    forall i, j | 0 <= i < j < |disk|
      ensures disk[j].name < disk[i].name
    {
      assert before.disk[j].name < before.disk[i].name;
    }
    forall t | t in disk
      ensures t.name < before.nextName
    {
      var i :| 0 <= i < |disk| && disk[i] == t;
      assert before.disk[i].name == t.name;
    }
  }

  lemma AppendKeeps(cfg: Config, history: seq<Entry>, e: Entry, tree: Level, tables: seq<SSTable>)
    requires Written(history, tree) && Stocked(cfg, tables, history) && StrictlySorted(tree)
    requires e.key.num == |history| + 1 && e.key.Valid()
    ensures Written(history + [e], Insert(tree, e)) && Stocked(cfg, tables, history + [e])
  {
    assert Elems(history) <= Elems(history + [e]);
    forall x | x in Insert(tree, e)
      ensures x in history + [e]
    {
      InsertMembers(tree, e, x);
      assert x in tree ==> x in Elems(tree);
    }
  }

  lemma EncodedAs(crc: Wal.Checksum, e: Entry)
    ensures EntryLog.Entries(crc).encode(e) == Wal.Encode(crc, Wal.Record(Encode(e.key), e.value))
  {
    assert EntryLog.Entries(crc).encode(e) == Wal.Records(crc).encode(EntryLog.ToRecord(e));
  }

  /** A fresh table may be put in front of the others and on the shelf. */
  lemma InstallKeeps(cfg: Config, t: SSTable, tables: seq<SSTable>, dir: seq<SSTable>, next: nat, history: seq<Entry>)
    requires Stocked(cfg, tables, history) && Stocked(cfg, dir, history) && Shelved(dir, tables, next)
    requires t.name == next && WellFormed(cfg.hashes, t.table) && Elems(Flat(t.table)) <= Elems(history)
    ensures FilesOf([t] + tables) == [FileOf(t)] + FilesOf(tables) && FilesOf([t] + dir) == [FileOf(t)] + FilesOf(dir)
    ensures Stocked(cfg, [t] + tables, history) && Stocked(cfg, [t] + dir, history)
    ensures Shelved([t] + dir, [t] + tables, next + 1)
  {
    assert [t][0] == t;
    StockedCons(cfg, t, tables, history);
    StockedCons(cfg, t, dir, history);
    ShelvedInstall(dir, tables, next, t);
  }
}
