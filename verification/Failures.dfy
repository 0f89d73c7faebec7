/** What goes wrong without the guards: runs of the engine that end in a stale
    or a missing read. */
module Failures {
  import opened Bytes
  import opened InternalKeys
  import opened Versions
  import opened Merging
  import opened Grouping
  import opened Compaction
  import opened ReopenOrders
  import opened Watermarks
  import opened MemTables
  import opened Framing
  import opened Stores
  import opened StoreInvariants
  import opened Recovery
  import opened Prefixes
  import opened Flushing
  import opened Bloom
  import opened FileSizes
  import opened Reaching
  import EntryLog

  // ------------------------------------------------------ the engine's formats

  /** The engine's log and table files are as the runs below need them. */
  lemma EngineMeets(size: Level -> nat, crc: Wal.Checksum, h: Hashes, empty: Filter)
    requires IsFileSize(size, crc, h, empty)
    ensures Lawful(EntryLog.Entries(crc)) && AcceptsBytes(EntryLog.Entries(crc)) && SmallFiles(size, Overhead(empty))
  {
    EntryLog.EntriesAreLawful(crc);
    forall u: byte, num: SeqNum, value: bytes | |value| <= Wal.MAX_VALUE_LENGTH
      ensures EntryLog.Entries(crc).fits(Ver(u, num, value))
    {
      EntryLog.AcceptedFits(crc, Ver(u, num, value));
    }
    forall u: byte, num: SeqNum, value: bytes
      ensures size([Ver(u, num, value)]) == Overhead(empty) + 50 + |value|
    {
      SmallFile(size, crc, h, empty, Ver(u, num, value));
    }
    SinglesSize(crc, h, empty, []);
    assert FileSizeAt(size, crc, h, empty, []);
  }

  lemma SmallFile(size: Level -> nat, crc: Wal.Checksum, h: Hashes, empty: Filter, e: Entry)
    requires IsFileSize(size, crc, h, empty)
    ensures size([e]) == Overhead(empty) + UnitSize(e)
  {
    SinglesSize(crc, h, empty, [e]);
    assert [e][1..] == [] && Units([e]) == UnitSize(e);
    assert FileSizeAt(size, crc, h, empty, [e]);
  }

  // ------------------------------------------- four tables of similar sizes

  lemma FourSimilar(sizes: seq<nat>, short: nat, long: nat)
    requires sizes == [short, short, long, long] && 0 < short <= long < 3 * short
    ensures Groups(sizes) == [[0, 1, 2, 3]] && Orderly(true, sizes)
  {
    IsSimilarSizeMeaning(short, short);
    IsSimilarSizeMeaning(short, long);
    AllClose(SimilarIn(sizes));
  }

  lemma AllClose(close: Relation)
    requires close(0, 1) && close(0, 2) && close(0, 3)
    ensures GroupsFrom(close, NoneUsed(4), 0) == [[0, 1, 2, 3]]
  {
    var none, all := NoneUsed(4), [true, true, true, true];
    assert Taken(close, none, 0) == all;
    assert Members(close, none, 0, 4) == [];
    assert Members(close, none, 0, 3) == [3];
    assert Members(close, none, 0, 2) == [2, 3] by { assert [2] + [3] == [2, 3]; }
    assert Members(close, none, 0, 1) == [1, 2, 3] by { assert [1] + [2, 3] == [1, 2, 3]; }
    assert GroupsFrom(close, all, 4) == [] && GroupsFrom(close, all, 3) == [];
    assert GroupsFrom(close, all, 2) == [];
    assert GroupsFrom(close, all, 1) == [];
    assert GroupsFrom(close, none, 0) == [[0, 1, 2, 3]] by { assert [0] + [1, 2, 3] == [0, 1, 2, 3]; }
  }

  /** With nothing pinned, of two versions of a key the older one goes. */
  lemma KeepsOne(b: Entry, a: Entry)
    requires a.key.user == b.key.user
    ensures Merge([[], [], [b], [a]], SEQ_NUM_MAX) == [b]
  {
    var tables, m, done := [[], [], [b], [a]], SEQ_NUM_MAX, {b.key.user};
    assert tables[1..] == [[], [b], [a]] && [[], [b], [a]][1..] == [[b], [a]];
    assert [[b], [a]][1..] == [[a]] && [[a]][1..] == [];
    assert Concat([[a]]) == [a] && Concat([[b], [a]]) == [b, a];
    assert Concat([[], [b], [a]]) == [b, a];
    assert Concat(tables) == [b, a];
    assert [b, a][1..] == [a] && [a][1..] == [] && [b][1..] == [];
    assert Mark({}, b, m) == done;
    assert Survivors([a], m, done) == Survivors([], m, done) == [];
    assert Survivors([b, a], m, {}) == [b] + Survivors([a], m, done);
    assert SortEntries([b]) == [b];
  }

  // -------------------------------------------------------------- the late pin

  /** After n turns: n writes of one key, and one table with the last of them. */
  ghost predicate Turned(st: Store, n: nat) {
    && st.phase.Idle? && st.mem == [] && st.pins == multiset{} && n < SEQ_NUM_MAX
    && st.seqNum == |st.history| == n && st.dropFloor == (if n < 2 then 0 else n)
    && (forall i | 0 <= i < n :: st.history[i] == Ver(1, i + 1, [1]))
    && LevelsOf(st.tables) == if n == 0 then [] else [[Ver(1, n, [1])]]
  }

  /** One write and one flush; later on, two flushes more, of empty memtables. */
  ghost function Turn(fmt: Format<Entry>, size: Level -> nat, st: Store): Store
    requires st.seqNum < SEQ_NUM_MAX
  {
    var one := Flush(size, Wrote(fmt, st, 1, [1]));
    if st.tables == [] then one else Flush(size, Flush(size, one))
  }

  lemma FewTables(size: Level -> nat, st: Store)
    requires |st.tables| + 1 < COMPACTION_THRESHOLD
    ensures LevelsOf(Flush(size, st).tables) == [st.mem] + LevelsOf(st.tables)
    ensures Flush(size, st).dropFloor == st.dropFloor && Orderly(true, SizesAfter(size, st))
  {
    FlushLevels(size, st);
  }

  lemma FourTables(size: Level -> nat, overhead: nat, st: Store, b: SeqNum, a: SeqNum)
    requires SmallFiles(size, overhead) && st.mem == [] && st.pins == multiset{} && st.seqNum <= SEQ_NUM_MAX
    requires LevelsOf(st.tables) == [[], [Ver(1, b, [1])], [Ver(1, a, [1])]]
    ensures LevelsOf(Flush(size, st).tables) == [[Ver(1, b, [1])]] && Orderly(true, SizesAfter(size, st))
    ensures Flush(size, st).dropFloor == Max(st.dropFloor, st.seqNum)
  {
    var vb, va := Ver(1, b, [1]), Ver(1, a, [1]);
    var levels := [[], [], [vb], [va]];
    assert [st.mem] + LevelsOf(st.tables) == levels;
    var sizes := SizesAfter(size, st);
    assert sizes == [overhead, overhead, overhead + 51, overhead + 51];
    FourSimilar(sizes, overhead, overhead + 51);
    FloorIsUnique(multiset{}, Floor(multiset{}), SEQ_NUM_MAX);
    FlushLevels(size, st);
    MergesAll(levels, sizes, SEQ_NUM_MAX);
    KeepsOne(vb, va);
  }

  lemma MergesAll(levels: seq<Level>, sizes: seq<nat>, floor: SeqNum)
    requires |levels| == |sizes| == 4 && Groups(sizes) == [[0, 1, 2, 3]]
    ensures Compact(levels, sizes, floor) == [Merge(levels, floor)]
  {
    assert Gather(levels, [0, 1, 2, 3]) == levels;
  }

  /** What a write and its flush leave in any turn. */
  ghost predicate AfterTurn(st: Store, one: Store, e: Entry) {
    && one.phase.Idle? && one.mem == [] && one.pins == st.pins && one.history == st.history + [e]
    && one.seqNum == st.seqNum + 1 && one.dropFloor == st.dropFloor
    && LevelsOf(one.tables) == [[e]] + LevelsOf(st.tables)
  }

  lemma WriteRound(fmt: Format<Entry>, size: Level -> nat, from: Store, st: Store, u: byte, value: bytes)
    returns (one: Store)
    requires AcceptsBytes(fmt) && |value| <= Wal.MAX_VALUE_LENGTH && Reaches(fmt, size, true, from, st)
    requires st.phase.Idle? && st.mem == [] && st.seqNum + 1 < SEQ_NUM_MAX && |st.tables| + 1 < COMPACTION_THRESHOLD
    ensures one == Flush(size, Wrote(fmt, st, u, value)) && Reaches(fmt, size, true, from, one)
    ensures AfterTurn(st, one, Ver(u, st.seqNum + 1, value))
  {
    var wrote := Wrote(fmt, st, u, value);
    ReachesWrite(fmt, size, true, from, st, u, value);
    assert wrote.mem == [Ver(u, st.seqNum + 1, value)];
    FewTables(size, wrote);
    ReachesFlush(fmt, size, true, from, wrote);
    one := Flush(size, wrote);
  }

  /** Two flushes of empty memtables make four tables. */
  lemma EmptyTurns(fmt: Format<Entry>, size: Level -> nat, overhead: nat, from: Store, one: Store, n: nat)
    requires SmallFiles(size, overhead) && Reaches(fmt, size, true, from, one) && n < SEQ_NUM_MAX
    requires one.phase.Idle? && one.mem == [] && one.pins == multiset{} && one.seqNum == n + 1
    requires LevelsOf(one.tables) == [[Ver(1, n + 1, [1])], [Ver(1, n, [1])]]
    ensures var now := Flush(size, Flush(size, one));
            && Reaches(fmt, size, true, from, now) && LevelsOf(now.tables) == [[Ver(1, n + 1, [1])]]
            && now.dropFloor == Max(one.dropFloor, n + 1) && SameWrites(one, now) && now.mem == []
  {
    assert |one.tables| == |LevelsOf(one.tables)| == 2;
    FewTables(size, one);
    ReachesFlush(fmt, size, true, from, one);
    var two := Flush(size, one);
    assert LevelsOf(two.tables) == [[], [Ver(1, n + 1, [1])], [Ver(1, n, [1])]];
    FourTables(size, overhead, two, n + 1, n);
    ReachesFlush(fmt, size, true, from, two);
  }

  lemma TurnedNext(st: Store, one: Store, now: Store, n: nat)
    requires Turned(st, n) && n + 1 < SEQ_NUM_MAX && AfterTurn(st, one, Ver(1, n + 1, [1]))
    requires now.phase.Idle? && now.mem == [] && SameWrites(one, now)
    requires if n == 0 then now == one else LevelsOf(now.tables) == [[Ver(1, n + 1, [1])]] && now.dropFloor == n + 1
    ensures Turned(now, n + 1)
  {
  }

  lemma TurnTurned(fmt: Format<Entry>, size: Level -> nat, overhead: nat, from: Store, st: Store, n: nat)
    requires AcceptsBytes(fmt) && SmallFiles(size, overhead) && Reaches(fmt, size, true, from, st)
    requires Turned(st, n) && n + 1 < SEQ_NUM_MAX
    ensures Turned(Turn(fmt, size, st), n + 1) && Reaches(fmt, size, true, from, Turn(fmt, size, st))
  {
    var one := WriteRound(fmt, size, from, st, 1, [1]);
    if n > 0 { EmptyTurns(fmt, size, overhead, from, one, n); }
    TurnedNext(st, one, Turn(fmt, size, st), n);
  }

  lemma {:induction false} TurnsTo(fmt: Format<Entry>, size: Level -> nat, overhead: nat, from: Store, n: nat, m: nat)
    returns (st: Store)
    requires AcceptsBytes(fmt) && SmallFiles(size, overhead) && Turned(from, n) && n <= m < SEQ_NUM_MAX
    ensures Reaches(fmt, size, true, from, st) && Turned(st, m)
    decreases m
  {
    if m == n {
      st := from;
      ReachesSelf(fmt, size, true, from);
    } else {
      st := TurnsTo(fmt, size, overhead, from, n, m - 1);
      TurnTurned(fmt, size, overhead, from, st, m - 1);
      st := Turn(fmt, size, st);
    }
  }

  /** A number loaded, more writes, flushes and compactions, and only then the
      pin: every event meets its guard but the last, and the read at the snapshot
      misses the write that it should see.  For every number from 1 on, and every
      drop floor above it. */
  lemma LatePinFails(fmt: Format<Entry>, size: Level -> nat, overhead: nat, s: SeqNum, d: nat)
    returns (loaded: Store, late: Store)
    requires Lawful(fmt) && AcceptsBytes(fmt) && SmallFiles(size, overhead) && 1 <= s < d < SEQ_NUM_MAX
    ensures Reaches(fmt, size, true, Empty, loaded) && loaded.phase.Idle? && loaded.seqNum == s
    ensures Reaches(fmt, size, true, loaded, late) && Reaches(fmt, size, true, Empty, late)
    ensures late.phase.Idle? && late.dropFloor == d
    ensures Possible(fmt, late, Pin(s)) && !Guarded(fmt, true, late, Pin(s))
    ensures Answer(LastWrite(late.history, [1], s)) == Some([1]) && Hit(late, [1], s) == None
    ensures Read(Next(fmt, late, Pin(s)), [1], s) == None
  {
    assert LevelsOf(Empty.tables) == [];
    loaded := TurnsTo(fmt, size, overhead, Empty, 0, s);
    late := TurnsTo(fmt, size, overhead, loaded, s, d);
    ReachesOn(fmt, size, true, Empty, loaded, late);
    MissingRead(late, s, d);
    assert Next(fmt, late, Pin(s)).tables == late.tables && Next(fmt, late, Pin(s)).mem == late.mem;
  }

  lemma MissingRead(st: Store, s: SeqNum, d: nat)
    requires Turned(st, d) && 1 <= s < d
    ensures Answer(LastWrite(st.history, [1], s)) == Some([1]) && Hit(st, [1], s) == None
  {
    var e := Ver(1, d, [1]);
    var levels := [st.mem] + LevelsOf(st.tables);
    assert levels == [[], [e]] && levels[1..] == [[e]] && [[e]][1..] == [];
    assert [e][1..] == [] && FirstVisible([e], [1], s) == None == FirstVisible([], [1], s);
    assert FirstHit([[e]], [1], s) == None;
    assert st.history[s - 1] in st.history && Sees(st.history[s - 1], [1], s);
  }

  ghost predicate ReadsRight(st: Store, s: SeqNum) {
    forall k: bytes :: Hit(st, k, s) == LastWrite(st.history, k, s)
  }

  /** Every guarded run that ends at this drop floor reads right at s. */
  ghost predicate RightAt(fmt: Format<Entry>, size: Level -> nat, d: nat, s: SeqNum) {
    forall st | Reaches(fmt, size, true, Empty, st) && st.phase.Idle? && st.dropFloor == d :: ReadsRight(st, s)
  }

  /** A number loaded earlier may be read at exactly when it is 0 or no compaction
      has dropped below it. */
  lemma LatePinIff(fmt: Format<Entry>, size: Level -> nat, overhead: nat, s: SeqNum, d: nat)
    requires Lawful(fmt) && AcceptsBytes(fmt) && SmallFiles(size, overhead) && d < SEQ_NUM_MAX
    ensures RightAt(fmt, size, d, s) <==> d <= s || s == 0
  {
    if d <= s || s == 0 {
      forall st | Reaches(fmt, size, true, Empty, st) && st.phase.Idle? && st.dropFloor == d
        ensures ReadsRight(st, s)
      {
        ReachesInv(fmt, size, st);
        forall k: bytes
          ensures Hit(st, k, s) == LastWrite(st.history, k, s)
        {
          if s == 0 { ReadAtZero(fmt, true, st, k); } else { ReadIsLastWrite(fmt, true, st, k, s); }
        }
      }
    } else {
      var loaded, late := LatePinFails(fmt, size, overhead, s, d);
      assert Hit(late, [1], s) != LastWrite(late.history, [1], s);
    }
  }

  // ---------------------------------------------------- the unsynced flush

  /** m writes of one key from the empty store. */
  ghost function Burst(fmt: Format<Entry>, m: nat): (st: Store)
    requires m <= 11
    ensures st.seqNum == m
  {
    if m == 0 then Empty else Wrote(fmt, Burst(fmt, m - 1), 1, [m])
  }

  ghost predicate BurstOf(st: Store, m: nat) {
    && st.phase.Idle? && st.history == st.logged && |st.history| == m
    && Weight(st.mem) <= 10 * m && st.durable <= |st.wal|
    && (forall i | 0 <= i < m <= 11 :: st.history[i] == Ver(1, i + 1, [i + 1]))
    && st.counter == (if m < 10 then m else m - 10) && (m >= 10 ==> st.synced == 10)
  }

  lemma BurstNext(fmt: Format<Entry>, st: Store, m: nat)
    requires 1 <= m <= 11 && BurstOf(st, m - 1) && st.seqNum == m - 1
    ensures BurstOf(Wrote(fmt, st, 1, [m]), m)
  {
    WeightInsert(st.mem, Ver(1, m, [m]));
  }

  lemma {:induction false} BurstIs(fmt: Format<Entry>, size: Level -> nat, m: nat)
    requires AcceptsBytes(fmt) && m <= 11
    ensures Reaches(fmt, size, true, Empty, Burst(fmt, m)) && BurstOf(Burst(fmt, m), m)
  {
    if m == 0 {
      ReachesSelf(fmt, size, true, Empty);
    } else {
      BurstIs(fmt, size, m - 1);
      ReachesWrite(fmt, size, true, Empty, Burst(fmt, m - 1), 1, [m]);
      BurstNext(fmt, Burst(fmt, m - 1), m);
    }
  }

  lemma {:induction false} WholeExact<T>(f: Format<T>, xs: seq<T>, n: nat)
    requires n <= |xs| && (n < |xs| ==> |f.encode(xs[n])| > 0)
    ensures Whole(f, xs, |EncodeAll(f, xs[..n])|) == n
  {
    if n > 0 {
      WholeExact(f, xs[1..], n - 1);
      assert xs[..n][1..] == xs[1..][..n - 1];
    }
  }

  lemma EncodesSomething(fmt: Format<Entry>, e: Entry)
    requires Lawful(fmt) && fmt.fits(e)
    ensures |fmt.encode(e)| > 0
  {
    var file := fmt.encode(e);
    assert ReadsBackAt(fmt, e, file, 0) && AdvancesAt(fmt, file, 0);
  }

  /** Ten records are durable, others follow, and a crash right after the install
      keeps only the durable part of the log. */
  ghost predicate TenLeft(fmt: Format<Entry>, st: Store) {
    && Inv(fmt, true, st) && st.phase.Installed? && st.synced == 10 < |st.logged| && st.history == st.logged
    && st.durable <= |st.wal|
    && (forall i | 0 <= i < 10 :: st.history[i] == Ver(1, i + 1, [i + 1]))
  }

  lemma TenLeftReads(fmt: Format<Entry>, st: Store, k: bytes)
    requires Lawful(fmt) && AcceptsBytes(fmt) && TenLeft(fmt, st) && fmt.fits(st.logged[10])
    ensures Possible(fmt, st, Crash(st.durable)) && Whole(fmt, st.logged, st.durable) == 10
    ensures var n := if k == [1] then 10 else |st.history|;
            Hit(Next(fmt, st, Crash(st.durable)), k, SEQ_NUM_MAX) == LastWrite(st.history[..n], k, SEQ_NUM_MAX)
    ensures HasRecord(st.logged, 10, k) <==> k == [1]
  {
    assert LogOk(fmt, st);
    EncodesSomething(fmt, st.logged[10]);
    WholeExact(fmt, st.logged, 10);
    ReopenedDecides(fmt, st, st.durable);
    InstalledReadsAll(fmt, st, 10);
    assert ReadsOf(st.history, st.logged, LevelsOf(st.tables), 10, k);
    DecidesIs(st.history, st.logged, LevelsOf(st.tables), 10, k);
    assert st.logged[0].key.user == [1];
  }

  /** Eleven writes of one key, of which the tenth syncs the log, then a flush,
      and a crash between the table's install and the log's reset that loses what
      was not durable: the reopened engine answers with the tenth value, although
      the table holds the eleventh. */
  lemma UnsyncedInstallFails(fmt: Format<Entry>, size: Level -> nat) returns (st: Store)
    requires Lawful(fmt) && AcceptsBytes(fmt)
    ensures Reaches(fmt, size, true, Empty, st) && Inv(fmt, true, st) && st.phase.Installed?
    ensures Possible(fmt, st, Crash(st.durable)) && !Guarded(fmt, true, st, Crash(st.durable))
    ensures Ver(1, 11, [11]) in st.tables[0].level
    ensures Answer(LastWrite(st.history, [1], SEQ_NUM_MAX)) == Some([11])
    ensures Read(Next(fmt, st, Crash(st.durable)), [1], SEQ_NUM_MAX) == Some([10])
  {
    st := ElevenWrites(fmt, size);
    LastOfEleven(st.history);
    TenLeftReads(fmt, st, [1]);
    assert st.logged[0].key.user == st.logged[10].key.user;
    InTable(fmt, st, st.history[10]);
  }

  lemma ElevenWrites(fmt: Format<Entry>, size: Level -> nat) returns (st: Store)
    requires Lawful(fmt) && AcceptsBytes(fmt)
    ensures Reaches(fmt, size, true, Empty, st) && TenLeft(fmt, st)
    ensures |st.history| == 11 && st.history[10] == Ver(1, 11, [11])
  {
    BurstIs(fmt, size, 11);
    var full := Burst(fmt, 11);
    ReachesStep(fmt, size, true, Empty, full, Install);
    st := AfterInstall(full);
    ReachesInv(fmt, size, st);
  }

  lemma LastOfEleven(h: seq<Entry>)
    requires |h| == 11 && h[9] == Ver(1, 10, [10]) && h[10] == Ver(1, 11, [11])
    ensures LastWrite(h[..10], [1], SEQ_NUM_MAX) == Some(h[9]) && LastWrite(h, [1], SEQ_NUM_MAX) == Some(h[10])
  {
    assert h[..10][9] == h[9];
  }

  lemma InTable(fmt: Format<Entry>, st: Store, e: Entry)
    requires Inv(fmt, true, st) && st.phase.Installed? && e in st.logged
    ensures st.tables != [] && e in st.tables[0].level
  {
    InstalledIs(fmt, st);
    AscendsDistinct(st.logged);
    InsertAllMembers(st.logged, e);
  }

  /** The same with a twelfth write, of another key: one key reads as of the
      tenth write and the other as of the twelfth, so that there is no prefix of
      the writes after which the reopened engine answers. */
  lemma NoCommonPrefix(fmt: Format<Entry>, size: Level -> nat) returns (st: Store)
    requires Lawful(fmt) && AcceptsBytes(fmt)
    ensures Reaches(fmt, size, true, Empty, st) && Inv(fmt, true, st) && st.phase.Installed?
    ensures Possible(fmt, st, Crash(st.durable)) && |st.history| == 12
    ensures var after := Next(fmt, st, Crash(st.durable));
            && Hit(after, [1], SEQ_NUM_MAX) == Some(Ver(1, 10, [10]))
            && Hit(after, [2], SEQ_NUM_MAX) == Some(Ver(2, 12, [12]))
            && LastWrite(st.history, [1], SEQ_NUM_MAX) == Some(Ver(1, 11, [11]))
            && forall n: nat :: !ReadsAsPrefix(after, st.history, n)
  {
    st := TwelveWrites(fmt, size);
    LastOfTwelve(st.history);
    TenLeftReads(fmt, st, [1]);
    TenLeftReads(fmt, st, [2]);
    NotOnePrefix(st.logged);
    InstalledPrefixIff(fmt, st, st.durable);
  }

  lemma LastOfTwelve(h: seq<Entry>)
    requires |h| == 12 && h[9] == Ver(1, 10, [10]) && h[10] == Ver(1, 11, [11]) && h[11] == Ver(2, 12, [12])
    ensures LastWrite(h[..10], [1], SEQ_NUM_MAX) == Some(h[9]) && LastWrite(h, [1], SEQ_NUM_MAX) == Some(h[10])
    ensures LastWrite(h[..12], [2], SEQ_NUM_MAX) == Some(h[11])
  {
    assert h[..10][9] == h[9] && h[..12] == h && h[..11][10] == h[10];
  }

  lemma NotOnePrefix(logged: seq<Entry>)
    requires |logged| == 12 && HasRecord(logged, 10, logged[10].key.user) && !HasRecord(logged, 10, logged[11].key.user)
    ensures !OnePrefix(logged, 10)
  {
  }

  lemma TwelveWrites(fmt: Format<Entry>, size: Level -> nat) returns (st: Store)
    requires Lawful(fmt) && AcceptsBytes(fmt)
    ensures Reaches(fmt, size, true, Empty, st) && TenLeft(fmt, st) && |st.history| == 12
    ensures st.history[10] == Ver(1, 11, [11]) && st.history[11] == Ver(2, 12, [12])
  {
    BurstIs(fmt, size, 11);
    var eleven := Burst(fmt, 11);
    ReachesWrite(fmt, size, true, Empty, eleven, 2, [12]);
    var full := Wrote(fmt, eleven, 2, [12]);
    ReachesStep(fmt, size, true, Empty, full, Install);
    st := AfterInstall(full);
    ReachesInv(fmt, size, st);
    assert st.history == eleven.history + [Ver(2, 12, [12])];
    assert forall i | 0 <= i < 11 :: st.history[i] == eleven.history[i] == Ver(1, i + 1, [i + 1]);
  }

  // --------------------------------------------- the compaction out of order

  /** One write and one flush. */
  ghost function Round(fmt: Format<Entry>, size: Level -> nat, st: Store, u: byte, value: bytes): Store
    requires st.seqNum < SEQ_NUM_MAX
  {
    Flush(size, Wrote(fmt, st, u, value))
  }

  /** A store between rounds. */
  ghost predicate Calm(st: Store, history: seq<Entry>, levels: seq<Level>) {
    && st.phase.Idle? && st.mem == [] && st.pins == multiset{} && st.history == history
    && st.seqNum == |history| && LevelsOf(st.tables) == levels
  }

  lemma RoundCalm(fmt: Format<Entry>, size: Level -> nat, from: Store, st: Store,
                  history: seq<Entry>, levels: seq<Level>, u: byte, value: bytes)
    requires AcceptsBytes(fmt) && |value| <= Wal.MAX_VALUE_LENGTH && Reaches(fmt, size, true, from, st)
    requires Calm(st, history, levels) && |levels| + 1 < COMPACTION_THRESHOLD && |history| + 1 < SEQ_NUM_MAX
    ensures Reaches(fmt, size, true, from, Round(fmt, size, st, u, value))
    ensures Calm(Round(fmt, size, st, u, value),
                 history + [Ver(u, |history| + 1, value)], [[Ver(u, |history| + 1, value)]] + levels)
  {
    var one := WriteRound(fmt, size, from, st, u, value);
  }

  lemma TwoRounds(fmt: Format<Entry>, size: Level -> nat, long: bytes) returns (two: Store)
    requires AcceptsBytes(fmt) && |long| <= Wal.MAX_VALUE_LENGTH
    ensures Reaches(fmt, size, true, Empty, two)
    ensures Calm(two, [Ver(2, 1, long), Ver(1, 2, [1])], [[Ver(1, 2, [1])], [Ver(2, 1, long)]])
  {
    var e1, e2 := Ver(2, 1, long), Ver(1, 2, [1]);
    ReachesSelf(fmt, size, true, Empty);
    assert LevelsOf(Empty.tables) == [];
    RoundCalm(fmt, size, Empty, Empty, [], [], 2, long);
    var one := Round(fmt, size, Empty, 2, long);
    assert [] + [e1] == [e1] && [[e1]] + [] == [[e1]];
    RoundCalm(fmt, size, Empty, one, [e1], [[e1]], 1, [1]);
    two := Round(fmt, size, one, 1, [1]);
    assert [e1] + [e2] == [e1, e2] && [[e2]] + [[e1]] == [[e2], [e1]];
  }

  /** Three flushed writes, of a key, of a second key and of the second key again,
      and a write of the first key in memory: long, short, long and short. */
  lemma ThreeRounds(fmt: Format<Entry>, size: Level -> nat, long: bytes) returns (full: Store)
    requires AcceptsBytes(fmt) && |long| <= Wal.MAX_VALUE_LENGTH
    ensures Reaches(fmt, size, true, Empty, full) && full.phase.Idle? && full.pins == multiset{}
    ensures full.history == [Ver(2, 1, long), Ver(1, 2, [1]), Ver(1, 3, long), Ver(2, 4, [1])]
    ensures [full.mem] + LevelsOf(full.tables)
         == [[Ver(2, 4, [1])], [Ver(1, 3, long)], [Ver(1, 2, [1])], [Ver(2, 1, long)]]
  {
    var e1, e2, e3, e4 := Ver(2, 1, long), Ver(1, 2, [1]), Ver(1, 3, long), Ver(2, 4, [1]);
    var two := TwoRounds(fmt, size, long);
    RoundCalm(fmt, size, Empty, two, [e1, e2], [[e2], [e1]], 1, long);
    var three := Round(fmt, size, two, 1, long);
    assert [e1, e2] + [e3] == [e1, e2, e3] && [[e3]] + [[e2], [e1]] == [[e3], [e2], [e1]];
    ReachesWrite(fmt, size, true, Empty, three, 2, [1]);
    full := Wrote(fmt, three, 2, [1]);
    assert full.mem == [e4];
  }

  /** Four tables, short and long by turns, are grouped out of their order: after
      that compaction a key reads its first value, although its second was flushed
      two tables earlier.  Only the start of the compaction misses its guard. */
  lemma OutOfOrderRunFails(fmt: Format<Entry>, size: Level -> nat, overhead: nat) returns (full: Store)
    requires Lawful(fmt) && AcceptsBytes(fmt) && SmallFiles(size, overhead)
    requires 2 * overhead + 103 <= Wal.MAX_VALUE_LENGTH
    ensures Reaches(fmt, size, true, Empty, full) && full.phase.Idle?
    ensures Reaches(fmt, size, false, full, Flush(size, full)) && Flush(size, full).phase.Idle?
    ensures Groups(SizesAfter(size, full)) == [[0, 2], [1, 3]]
    ensures Answer(LastWrite(full.history, [1], SEQ_NUM_MAX)) == Some(Zeros(2 * overhead + 103))
    ensures Read(full, [1], SEQ_NUM_MAX) == Some(Zeros(2 * overhead + 103))
    ensures Read(Flush(size, full), [1], SEQ_NUM_MAX) == Some([1])
  {
    var long := Zeros(2 * overhead + 103);
    full := ThreeRounds(fmt, size, long);
    ReachesSelf(fmt, size, false, full);
    ReachesFlush(fmt, size, false, full, full);
    ReachesInv(fmt, size, full);
    ByTurnsSizes(size, overhead, full, long);
    StaleFlush(fmt, size, full, long);
    LastOfFour(full.history, long);
  }

  lemma ByTurnsSizes(size: Level -> nat, overhead: nat, full: Store, long: bytes)
    requires SmallFiles(size, overhead) && |long| == 2 * overhead + 103
    requires [full.mem] + LevelsOf(full.tables)
          == [[Ver(2, 4, [1])], [Ver(1, 3, long)], [Ver(1, 2, [1])], [Ver(2, 1, long)]]
    ensures |SizesAfter(size, full)| == 4 && Groups(SizesAfter(size, full)) == [[0, 2], [1, 3]]
  {
    var short := overhead + 51;
    assert SizesAfter(size, full) == [short, 3 * short, short, 3 * short];
    ShortLongShortLong(short);
  }

  lemma StaleFlush(fmt: Format<Entry>, size: Level -> nat, full: Store, long: bytes)
    requires Inv(fmt, true, full) && full.phase.Idle?
    requires [full.mem] + LevelsOf(full.tables)
          == [[Ver(2, 4, [1])], [Ver(1, 3, long)], [Ver(1, 2, [1])], [Ver(2, 1, long)]]
    requires |SizesAfter(size, full)| == 4 && Groups(SizesAfter(size, full)) == [[0, 2], [1, 3]]
    ensures Hit(full, [1], SEQ_NUM_MAX) == Some(Ver(1, 3, long))
    ensures Hit(Flush(size, full), [1], SEQ_NUM_MAX) == Some(Ver(1, 2, [1]))
  {
    StaleHit(fmt, full, [full.mem] + LevelsOf(full.tables), long, Floor(full.pins), SizesAfter(size, full));
    FlushLevels(size, full);
    StaleAfter(Flush(size, full), Ver(1, 2, [1]));
  }

  lemma StaleAfter(st: Store, e: Entry)
    requires st.mem == [] && FirstHit(LevelsOf(st.tables), e.key.user, SEQ_NUM_MAX) == Some(e)
    ensures Hit(st, e.key.user, SEQ_NUM_MAX) == Some(e)
  {
    assert ([st.mem] + LevelsOf(st.tables))[1..] == LevelsOf(st.tables);
  }

  lemma LastOfFour(history: seq<Entry>, long: bytes)
    requires history == [Ver(2, 1, long), Ver(1, 2, [1]), Ver(1, 3, long), Ver(2, 4, [1])]
    ensures LastWrite(history, [1], SEQ_NUM_MAX) == Some(Ver(1, 3, long))
  {
    assert history[..3][2] == Ver(1, 3, long);
  }

  lemma LevelsLayered(fmt: Format<Entry>, st: Store)
    requires Inv(fmt, true, st) && st.phase.Idle?
    ensures Layered([st.mem] + LevelsOf(st.tables))
  {
    LevelsCover(fmt, true, st);
    HistoryAgrees(st.history, All([st.mem] + LevelsOf(st.tables)));
  }

  lemma StaleHit(fmt: Format<Entry>, st: Store, levels: seq<Level>, long: bytes, floor: SeqNum, sizes: seq<nat>)
    requires Inv(fmt, true, st) && st.phase.Idle? && levels == [st.mem] + LevelsOf(st.tables)
    requires levels == [[Ver(2, 4, [1])], [Ver(1, 3, long)], [Ver(1, 2, [1])], [Ver(2, 1, long)]]
    requires |sizes| == 4 && Groups(sizes) == [[0, 2], [1, 3]]
    ensures FirstHit(levels, [1], SEQ_NUM_MAX) == Some(Ver(1, 3, long))
    ensures FirstHit(Compact(levels, sizes, floor), [1], SEQ_NUM_MAX) == Some(Ver(1, 2, [1]))
  {
    var older, newer := Ver(1, 2, [1]), Ver(1, 3, long);
    LevelsLayered(fmt, st);
    assert Apart(levels, 2, 1, older, newer);
    GroupsIndex(sizes);
    OutOfOrderFails(levels, Groups(sizes), floor, 0, 1, 2, 1, older, newer);
  }

  // ---------------------------------------------- the later group that merges

  lemma FirstAlone(close: Relation)
    requires !close(0, 1) && !close(0, 2) && !close(0, 3) && close(1, 2) && close(1, 3)
    ensures GroupsFrom(close, NoneUsed(4), 0) == [[0], [1, 2, 3]]
  {
    var none, once, all := NoneUsed(4), [true, false, false, false], [true, true, true, true];
    NoneTaken(close, none, 0, 1);
    assert Taken(close, none, 0) == once && Taken(close, once, 1) == all;
    assert Members(close, once, 1, 4) == [];
    assert Members(close, once, 1, 3) == [3];
    assert Members(close, once, 1, 2) == [2, 3] by { assert [2] + [3] == [2, 3]; }
    assert GroupsFrom(close, all, 4) == [] && GroupsFrom(close, all, 3) == [];
    assert GroupsFrom(close, all, 2) == [];
    assert GroupsFrom(close, once, 1) == [[1, 2, 3]] by { assert [1] + [2, 3] == [1, 2, 3]; }
    assert GroupsFrom(close, none, 0) == [[0]] + [[1, 2, 3]] by { assert [0] + [] == [0]; }
  }

  lemma LongThenShort(size: Level -> nat, overhead: nat, full: Store, long: bytes)
    requires SmallFiles(size, overhead) && |long| == 2 * overhead + 103
    requires [full.mem] + LevelsOf(full.tables)
          == [[Ver(1, 4, long)], [Ver(1, 3, [1])], [Ver(2, 2, [1])], [Ver(2, 1, [1])]]
    ensures |SizesAfter(size, full)| == 4 && Groups(SizesAfter(size, full)) == [[0], [1, 2, 3]]
    ensures Orderly(false, SizesAfter(size, full))
  {
    var short, sizes := overhead + 51, SizesAfter(size, full);
    assert sizes == [3 * short, short, short, short];
    IsSimilarSizeMeaning(3 * short, short);
    IsSimilarSizeMeaning(short, short);
    FirstAlone(SimilarIn(sizes));
  }

  lemma ShortRounds(fmt: Format<Entry>, size: Level -> nat) returns (three: Store)
    requires AcceptsBytes(fmt)
    ensures Reaches(fmt, size, true, Empty, three)
    ensures Calm(three, [Ver(2, 1, [1]), Ver(2, 2, [1]), Ver(1, 3, [1])],
                 [[Ver(1, 3, [1])], [Ver(2, 2, [1])], [Ver(2, 1, [1])]])
  {
    var e1, e2, e3 := Ver(2, 1, [1]), Ver(2, 2, [1]), Ver(1, 3, [1]);
    ReachesSelf(fmt, size, true, Empty);
    assert LevelsOf(Empty.tables) == [];
    RoundCalm(fmt, size, Empty, Empty, [], [], 2, [1]);
    var one := Round(fmt, size, Empty, 2, [1]);
    assert [] + [e1] == [e1] && [[e1]] + [] == [[e1]];
    RoundCalm(fmt, size, Empty, one, [e1], [[e1]], 2, [1]);
    var two := Round(fmt, size, one, 2, [1]);
    assert [e1] + [e2] == [e1, e2] && [[e2]] + [[e1]] == [[e2], [e1]];
    RoundCalm(fmt, size, Empty, two, [e1, e2], [[e2], [e1]], 1, [1]);
    three := Round(fmt, size, two, 1, [1]);
    assert [e1, e2] + [e3] == [e1, e2, e3] && [[e3]] + [[e2], [e1]] == [[e3], [e2], [e1]];
  }

  lemma LongOverShort(fmt: Format<Entry>, size: Level -> nat, long: bytes) returns (full: Store)
    requires AcceptsBytes(fmt) && |long| <= Wal.MAX_VALUE_LENGTH
    ensures Reaches(fmt, size, true, Empty, full) && full.phase.Idle? && |full.tables| == 3
    ensures LastWrite(full.history, [1], SEQ_NUM_MAX) == Some(Ver(1, 4, long))
    ensures [full.mem] + LevelsOf(full.tables)
         == [[Ver(1, 4, long)], [Ver(1, 3, [1])], [Ver(2, 2, [1])], [Ver(2, 1, [1])]]
  {
    var three := ShortRounds(fmt, size);
    ReachesWrite(fmt, size, true, Empty, three, 1, long);
    full := Wrote(fmt, three, 1, long);
    assert full.mem == [Ver(1, 4, long)] && |full.tables| == |LevelsOf(full.tables)|;
  }

  /** A long table over three short ones: only the short ones merge, and their
      table gets the newest name.  Reads stay right until the engine is reopened;
      then the key's first value is back. */
  lemma LaterMergeRunFails(fmt: Format<Entry>, size: Level -> nat, overhead: nat) returns (full: Store)
    requires Lawful(fmt) && AcceptsBytes(fmt) && SmallFiles(size, overhead)
    requires 2 * overhead + 103 <= Wal.MAX_VALUE_LENGTH
    ensures Reaches(fmt, size, true, Empty, full) && full.phase.Idle?
    ensures Reaches(fmt, size, false, full, Flush(size, full)) && Flush(size, full).phase.Idle?
    ensures Groups(SizesAfter(size, full)) == [[0], [1, 2, 3]] && Orderly(false, SizesAfter(size, full))
    ensures Answer(LastWrite(full.history, [1], SEQ_NUM_MAX)) == Some(Zeros(2 * overhead + 103))
    ensures Read(Flush(size, full), [1], SEQ_NUM_MAX) == Some(Zeros(2 * overhead + 103))
    ensures Possible(fmt, Flush(size, full), Crash(0))
    ensures Read(Next(fmt, Flush(size, full), Crash(0)), [1], SEQ_NUM_MAX) == Some([1])
  {
    full := LongOverShort(fmt, size, Zeros(2 * overhead + 103));
    ReachesSelf(fmt, size, false, full);
    ReachesFlush(fmt, size, false, full, full);
    ReachesInv(fmt, size, full);
    LongThenShort(size, overhead, full, Zeros(2 * overhead + 103));
    RightSoFar(fmt, size, full, [1]);
    ReopenedStale(fmt, size, full, Zeros(2 * overhead + 103));
  }

  /** A compaction in order keeps reads right, if only until a reopen. */
  lemma RightSoFar(fmt: Format<Entry>, size: Level -> nat, st: Store, k: bytes)
    requires Inv(fmt, false, st) && st.phase.Idle? && Orderly(false, SizesAfter(size, st))
    ensures Hit(Flush(size, st), k, SEQ_NUM_MAX) == LastWrite(st.history, k, SEQ_NUM_MAX)
  {
    FlushInv(fmt, false, st, SizesAfter(size, st));
    ReadIsLastWrite(fmt, false, Flush(size, st), k, SEQ_NUM_MAX);
  }

  lemma ReopenedStale(fmt: Format<Entry>, size: Level -> nat, full: Store, long: bytes)
    requires Inv(fmt, true, full) && full.phase.Idle? && |full.tables| == 3
    requires [full.mem] + LevelsOf(full.tables)
          == [[Ver(1, 4, long)], [Ver(1, 3, [1])], [Ver(2, 2, [1])], [Ver(2, 1, [1])]]
    requires |SizesAfter(size, full)| == 4 && Groups(SizesAfter(size, full)) == [[0], [1, 2, 3]]
    ensures Possible(fmt, Flush(size, full), Crash(0))
    ensures Hit(Next(fmt, Flush(size, full), Crash(0)), [1], SEQ_NUM_MAX) == Some(Ver(1, 3, [1]))
  {
    ReopenedAfterFlush(fmt, size, full, [1], SEQ_NUM_MAX);
    StaleReopened(fmt, full, [full.mem] + LevelsOf(full.tables), long, Floor(full.pins), SizesAfter(size, full));
  }

  lemma StaleReopened(fmt: Format<Entry>, st: Store, levels: seq<Level>, long: bytes, floor: SeqNum, sizes: seq<nat>)
    requires Inv(fmt, true, st) && st.phase.Idle? && levels == [st.mem] + LevelsOf(st.tables)
    requires levels == [[Ver(1, 4, long)], [Ver(1, 3, [1])], [Ver(2, 2, [1])], [Ver(2, 1, [1])]]
    requires |sizes| == 4 && Groups(sizes) == [[0], [1, 2, 3]] && AllIndexes(Groups(sizes), 4)
    ensures FirstHit(Reopened(levels, Groups(sizes), floor), [1], SEQ_NUM_MAX) == Some(Ver(1, 3, [1]))
  {
    var older, newer := Ver(1, 3, [1]), Ver(1, 4, long);
    LevelsLayered(fmt, st);
    assert Apart(levels, 1, 0, older, newer);
    GroupsIndex(sizes);
    LaterMergeFails(levels, Groups(sizes), floor, 1, 1, 0, older, newer);
  }
}
