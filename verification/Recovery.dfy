/** Crash and reopen: db/db.go (Open, rebuildMemtable, maxSeqNumInTables) on
    what a crash leaves of the log and the table files. */
module Recovery {
  import opened Bytes
  import opened InternalKeys
  import opened Versions
  import opened MemTables
  import opened Framing
  import opened Levels
  import opened Stores
  import opened StoreInvariants

  // --------------------------------------------------- what the log yields

  lemma {:induction false} WholeAtLeast<T>(f: Format<T>, xs: seq<T>, n: nat, cut: nat)
    requires n <= |xs| && |EncodeAll(f, xs[..n])| <= cut
    ensures Whole(f, xs, cut) >= n
  {
    if n > 0 {
      assert xs[..n][1..] == xs[1..][..n - 1];
      WholeAtLeast(f, xs[1..], n - 1, cut - |f.encode(xs[0])|);
    }
  }

  /** A crash keeps the durable records and any whole ones after them. */
  lemma CrashReplay(fmt: Format<Entry>, st: Store, keep: nat)
    requires Lawful(fmt) && LogOk(fmt, st) && st.durable <= keep <= |st.wal|
    ensures var r := Whole(fmt, st.logged, keep);
            && st.synced <= r <= |st.logged|
            && Replay(fmt, st.wal[..keep], 0) == (st.logged[..r], |EncodeAll(fmt, st.logged[..r])|)
            && |EncodeAll(fmt, st.logged[..r])| <= keep
            && st.wal[..keep][..|EncodeAll(fmt, st.logged[..r])|] == EncodeAll(fmt, st.logged[..r])
  {
    var r := Whole(fmt, st.logged, keep);
    WholeAtLeast(fmt, st.logged, st.synced, keep);
    TornTail(fmt, st.logged, keep);
    WholeIsMaximal(fmt, st.logged, keep);
    assert st.logged == st.logged[..r] + st.logged[r..];
    EncodeAllAppend(fmt, st.logged[..r], st.logged[r..]);
  }

  // ------------------------------------------------------- what is restored

  /** After a crash that keeps r records: the history that survives, and the
      memtable over the files on disk. */
  ghost predicate Restored(st: Store, past: seq<Entry>, r: nat, dup: nat) {
    && r <= |st.logged| && dup <= r && st.flushed <= |past|
    && past <= st.history && st.history[..st.flushed] == past[..st.flushed]
    && st.logged[..r][dup..] == past[st.flushed..]
    && Elems(st.logged[..r]) <= Elems(past)
    && Over(InsertAll(st.logged[..r]), LevelsOf(st.disk))
  }

  ghost function Survives(st: Store, r: nat): seq<Entry>
    requires r <= |st.logged|
  {
    var lost := |st.logged| - r;
    if st.phase.Idle? && lost <= |st.history| then st.history[..|st.history| - lost] else st.history
  }

  lemma PrefixElems(entries: seq<Entry>, r: nat)
    requires Ascends(entries) && r <= |entries|
    ensures Ascends(entries[..r]) && StrictlySorted(InsertAll(entries[..r]))
    ensures Elems(InsertAll(entries[..r])) == Elems(entries[..r]) <= Elems(entries) == Elems(InsertAll(entries))
  {
    AscendsDistinct(entries);
    AscendsDistinct(entries[..r]);
    InsertAllElems(entries);
    InsertAllElems(entries[..r]);
  }

  /** Records before the last flush are numbered up to it. */
  lemma DupNumbers(fmt: Format<Entry>, st: Store, e: Entry)
    requires Inv(fmt, true, st) && st.phase.Idle? && e in st.logged
    ensures e in st.logged[..st.dup] <==> e.key.num <= st.flushed
  {
    DupNumbersIn(st.history, st.logged, st.dup, st.flushed, e);
  }

  lemma DupNumbersIn(history: seq<Entry>, logged: seq<Entry>, dup: nat, flushed: nat, e: Entry)
    requires WellNumbered(history) && Ascends(logged) && Elems(logged) <= Elems(history) && e in logged
    requires dup <= |logged| && flushed <= |history| && logged[dup..] == history[flushed..]
    ensures e in logged[..dup] <==> e.key.num <= flushed
  {
    assert e in Elems(logged);
    HistoryMember(history, e);
    var i :| 0 <= i < |logged| && logged[i] == e;
    if i < dup {
      assert e == logged[..dup][i];
      assert dup < |logged| ==> logged[dup] == logged[dup..][0] == history[flushed];
    } else {
      assert e == logged[dup..][i - dup] == history[flushed + (i - dup)];
      assert forall j | 0 <= j < dup :: logged[j].key.num < e.key.num;
    }
  }

  lemma IdleLists(fmt: Format<Entry>, st: Store, r: nat)
    requires Inv(fmt, true, st) && st.phase.Idle? && st.synced <= r <= |st.logged|
    ensures |st.logged| - r <= |st.history| - st.flushed
    ensures st.logged[..r][st.dup..] == Survives(st, r)[st.flushed..]
    ensures st.logged[..r][..st.dup] == st.logged[..st.dup]
  {
    assert |st.logged[st.dup..]| == |st.history[st.flushed..]|;
    assert st.logged[..r][st.dup..] == st.logged[st.dup..][..r - st.dup];
    assert Survives(st, r)[st.flushed..] == st.history[st.flushed..][..r - st.dup];
  }

  /** What survives of the log is a part of the history that survives. */
  lemma IdleKept(fmt: Format<Entry>, st: Store, r: nat, e: Entry)
    requires Inv(fmt, true, st) && st.phase.Idle? && st.synced <= r <= |st.logged| && e in st.logged[..r]
    ensures e in Survives(st, r)
  {
    var kept, past := st.logged[..r], Survives(st, r);
    IdleLists(fmt, st, r);
    assert e in st.logged && e in Elems(st.logged);
    DupNumbers(fmt, st, e);
    if e.key.num <= st.flushed {
      HistoryMember(st.history, e);
      assert past[e.key.num - 1] == e;
    } else {
      assert kept == kept[..st.dup] + kept[st.dup..];
      assert e in past[st.flushed..];
    }
  }

  lemma IdleOver(fmt: Format<Entry>, st: Store, r: nat)
    requires Inv(fmt, true, st) && st.phase.Idle? && st.synced <= r <= |st.logged|
    ensures Over(InsertAll(st.logged[..r]), LevelsOf(st.tables))
  {
    var kept := st.logged[..r];
    PrefixElems(st.logged, r);
    IdleLists(fmt, st, r);
    PrefixNumbered(st.history, st.flushed);
    forall w | w in st.mem && w in All(LevelsOf(st.tables))
      ensures w in InsertAll(kept)
    {
      HistoryMember(st.history[..st.flushed], w);
      assert w in Elems(InsertAll(st.logged));
      DupNumbers(fmt, st, w);
      assert w in kept[..st.dup];
      assert w in Elems(kept);
    }
    PartKeepsOver(st.mem, InsertAll(kept), LevelsOf(st.tables));
  }

  lemma RestoredIdle(fmt: Format<Entry>, st: Store, r: nat)
    requires Inv(fmt, true, st) && st.phase.Idle? && st.synced <= r <= |st.logged|
    ensures Restored(st, Survives(st, r), r, st.dup)
    ensures |Survives(st, r)| == |st.history| - (|st.logged| - r)
  {
    IdleLists(fmt, st, r);
    IdleOver(fmt, st, r);
    forall e | e in st.logged[..r]
      ensures e in Survives(st, r)
    {
      IdleKept(fmt, st, r, e);
    }
    assert Survives(st, r)[..st.flushed] == st.history[..st.flushed];
  }

  /** Between install and reset the log repeats the newest table: what is left
      of it must not stop short of a newer version of a key it holds. */
  lemma InstalledOver(fmt: Format<Entry>, st: Store, r: nat)
    requires Inv(fmt, true, st) && st.phase.Installed? && r <= |st.logged| && CutSafe(st.logged, r)
    ensures Over(InsertAll(st.logged[..r]), LevelsOf(st.tables))
  {
    var kept, levels := st.logged[..r], LevelsOf(st.tables);
    PrefixElems(st.logged, r);
    forall i | 0 <= i < |levels|
      ensures Dominates(Elems(InsertAll(kept)), InsertAll(kept), levels[i])
    {
      forall v, w | v in InsertAll(kept) && w in levels[i] && Newer(w, v)
        ensures w in InsertAll(kept)
      {
        assert v in Elems(InsertAll(kept));
        assert v in levels[0] by { assert v in Elems(InsertAll(st.logged)); }
        assert 0 < i ==> Dominates(Elems(levels[0]), levels[0], levels[i]);
        assert w in Elems(InsertAll(st.logged));
        var a :| 0 <= a < r && st.logged[a] == v;
        var b :| 0 <= b < |st.logged| && st.logged[b] == w;
        assert b < r;
        assert kept[b] == w;
        assert w in Elems(kept);
      }
    }
  }

  lemma RestoredInstalled(fmt: Format<Entry>, st: Store, r: nat)
    requires Inv(fmt, true, st) && st.phase.Installed? && r <= |st.logged| && CutSafe(st.logged, r)
    ensures Restored(st, st.history, r, r)
  {
    PrefixElems(st.logged, r);
    InstalledOver(fmt, st, r);
    assert st.logged[..r][r..] == st.history[st.flushed..];
  }

  lemma RestoredOther(fmt: Format<Entry>, st: Store)
    requires Inv(fmt, true, st) && !st.phase.Idle? && !st.phase.Installed?
    ensures st.logged == [] && Restored(st, st.history, 0, 0)
  {
    EmptyOver(LevelsOf(st.disk));
    assert st.history[st.flushed..] == [];
  }

  // --------------------------------------------------- the sequence number

  lemma {:induction false} LastWriteOfLast(history: seq<Entry>)
    requires WellNumbered(history) && 0 < |history| <= SEQ_NUM_MAX
    ensures LastWrite(history, history[|history| - 1].key.user, SEQ_NUM_MAX) == Some(history[|history| - 1])
  {
  }

  /** The highest number found on disk and in the log is the last one given to
      a write that survives. */
  lemma SeqNumRestored(st: Store, past: seq<Entry>, r: nat, dup: nat)
    requires Numbered(st) && DiskOk(st) && Restored(st, past, r, dup)
    ensures Max(MaxNum(st.logged[..r]), MaxNumIn(LevelsOf(st.disk))) == |past|
  {
    var kept, levels := st.logged[..r], LevelsOf(st.disk);
    MaxNumIsMax(kept);
    MaxNumInIsMax(levels);
    assert WellNumbered(past);
    PrefixNumbered(past, st.flushed);
    forall e | e in kept || e in All(levels)
      ensures e.key.num <= |past|
    {
      assert e in kept ==> e in Elems(kept);
      HistoryMember(past, e);
    }
    if |past| > 0 {
      var last := past[|past| - 1];
      if |past| > st.flushed {
        assert past[st.flushed..][|past| - 1 - st.flushed] == last;
        assert last in kept[dup..];
        assert last in kept;
      } else {
        assert past[..st.flushed] == past;
        LastWriteOfLast(past);
        assert last in All(levels);
      }
    }
  }

  // ------------------------------------------------------------- the reopen

  lemma ReopenedLog(fmt: Format<Entry>, st: Store, keep: nat, r: nat)
    requires Lawful(fmt) && LogOk(fmt, st) && st.durable <= keep <= |st.wal|
    requires r == Whole(fmt, st.logged, keep)
    ensures Reopen(fmt, st, st.wal[..keep]).logged == st.logged[..r]
    ensures Reopen(fmt, st, st.wal[..keep]).wal == EncodeAll(fmt, st.logged[..r])
    ensures Reopen(fmt, st, st.wal[..keep]).durable == |EncodeAll(fmt, st.logged[..r])|
    ensures Reopen(fmt, st, st.wal[..keep]).synced == r
    ensures Reopen(fmt, st, st.wal[..keep]).seqNum == Max(MaxNum(st.logged[..r]), MaxNumIn(LevelsOf(st.disk)))
    ensures Reopen(fmt, st, st.wal[..keep]).history == Survives(st, r)
  {
    CrashReplay(fmt, st, keep);
  }

  /** A log cut after r records is a log. */
  lemma CutLogOk(fmt: Format<Entry>, st: Store, now: Store, r: nat)
    requires LogOk(fmt, st) && r <= |st.logged|
    requires now.logged == st.logged[..r] && now.wal == EncodeAll(fmt, now.logged)
    requires now.synced == r && now.durable == |now.wal| && now.counter == 0 && now.dup <= r
    requires Elems(now.logged) <= Elems(now.history)
    ensures LogOk(fmt, now)
  {
    assert now.logged[..r] == now.logged;
  }

  lemma ReopenedLogOk(fmt: Format<Entry>, st: Store, keep: nat, r: nat, past: seq<Entry>, dup: nat)
    requires Lawful(fmt) && LogOk(fmt, st) && st.durable <= keep <= |st.wal|
    requires r == Whole(fmt, st.logged, keep) && past == Survives(st, r)
    requires dup == if st.phase.Idle? then st.dup else r
    requires Restored(st, past, r, dup)
    ensures LogOk(fmt, Reopen(fmt, st, st.wal[..keep]))
  {
    ReopenedLog(fmt, st, keep, r);
    CutLogOk(fmt, st, Reopen(fmt, st, st.wal[..keep]), r);
  }

  lemma ReopenedNumbers(fmt: Format<Entry>, st: Store, keep: nat, r: nat, past: seq<Entry>, dup: nat)
    requires Lawful(fmt) && LogOk(fmt, st) && Numbered(st) && DiskOk(st) && st.durable <= keep <= |st.wal|
    requires r == Whole(fmt, st.logged, keep) && past == Survives(st, r)
    requires Restored(st, past, r, dup)
    ensures Numbered(Reopen(fmt, st, st.wal[..keep]))
  {
    ReopenedLog(fmt, st, keep, r);
    SeqNumRestored(st, past, r, dup);
    SurvivorsNumbered(st, Reopen(fmt, st, st.wal[..keep]), past);
  }

  lemma SurvivorsNumbered(st: Store, now: Store, past: seq<Entry>)
    requires Numbered(st) && past <= st.history && st.flushed <= |past|
    requires now.history == past && now.seqNum == |past| && now.pins == multiset{}
    requires now.flushed == st.flushed && now.dropFloor == st.dropFloor
    ensures Numbered(now)
  {
  }

  lemma ReopenInv(fmt: Format<Entry>, st: Store, keep: nat, r: nat, past: seq<Entry>, dup: nat)
    requires Lawful(fmt) && Inv(fmt, true, st) && st.durable <= keep <= |st.wal|
    requires r == Whole(fmt, st.logged, keep) && past == Survives(st, r)
    requires dup == if st.phase.Idle? then st.dup else r
    requires Restored(st, past, r, dup)
    ensures Inv(fmt, true, Reopen(fmt, st, st.wal[..keep]))
  {
    var now := Reopen(fmt, st, st.wal[..keep]);
    CrashReplay(fmt, st, keep);
    ReopenedLogOk(fmt, st, keep, r, past, dup);
    ReopenedNumbers(fmt, st, keep, r, past, dup);
    ReopenedLog(fmt, st, keep, r);
    assert Holds(st.disk, now);
  }

  /** Every crash that the run allows is recovered from: the invariant holds
      again, for a history that lacks at most nine acknowledged writes. */
  lemma CrashInv(fmt: Format<Entry>, st: Store, keep: nat)
    requires Lawful(fmt) && Inv(fmt, true, st) && Enabled(fmt, true, st, Crash(keep))
    ensures Inv(fmt, true, Reopen(fmt, st, st.wal[..keep]))
    ensures Reopen(fmt, st, st.wal[..keep]).history <= st.history
    ensures |st.history| < |Reopen(fmt, st, st.wal[..keep]).history| + SYNC_THRESHOLD
    ensures !st.phase.Idle? ==> Reopen(fmt, st, st.wal[..keep]).history == st.history
  {
    var r := Whole(fmt, st.logged, keep);
    CrashReplay(fmt, st, keep);
    ReopenedLog(fmt, st, keep, r);
    if st.phase.Idle? {
      RestoredIdle(fmt, st, r);
      ReopenInv(fmt, st, keep, r, Survives(st, r), st.dup);
    } else if st.phase.Installed? {
      RestoredInstalled(fmt, st, r);
      ReopenInv(fmt, st, keep, r, st.history, r);
    } else {
      RestoredOther(fmt, st);
      ReopenInv(fmt, st, keep, r, st.history, r);
    }
  }

  // ------------------------------------- any crash after a table's install

  /** The tables alone answer for the history. */
  lemma TablesRead(st: Store, k: bytes, s: SeqNum)
    requires Numbered(st) && Holds(st.tables, st) && st.flushed == |st.history| && st.dropFloor <= s
    ensures FirstHit(LevelsOf(st.tables), k, s) == LastWrite(st.history, k, s)
  {
    var levels := LevelsOf(st.tables);
    assert st.history[..st.flushed] == st.history;
    PairwiseIsShadowed(levels);
    FirstHitIsNewest(levels, k, s);
    CoveringReadsHistory(All(levels), st.history, st.dropFloor, k, s, FirstHit(levels, k, s));
  }

  /** What holds right after a table's install. */
  ghost predicate JustInstalled(st: Store) {
    && Numbered(st) && Holds(st.tables, st) && st.flushed == |st.history|
    && Ascends(st.logged) && Elems(st.logged) <= Elems(st.history)
    && st.tables != [] && st.tables[0].level == InsertAll(st.logged)
    && EndsUnsynced(st.logged, st.synced, st.history, st.dropFloor)
  }

  lemma InstalledIs(fmt: Format<Entry>, st: Store)
    requires Inv(fmt, true, st) && st.phase.Installed?
    ensures JustInstalled(st) && st.disk == st.tables && |st.logged| - st.synced < SYNC_THRESHOLD
  {
  }

  /** Whatever any level holds that is newer than a record is a record too. */
  ghost predicate Shields(levels: seq<Level>, logged: seq<Entry>) {
    forall w, e | w in All(levels) && e in logged && Newer(w, e) :: w in logged
  }

  /** What reads of k rest on when r records are left. */
  ghost predicate ReadsOf(history: seq<Entry>, logged: seq<Entry>, levels: seq<Level>, r: nat, k: bytes) {
    && WellNumbered(history) && |history| < SEQ_NUM_MAX && Ascends(logged) && Elems(logged) <= Elems(history)
    && levels != [] && levels[0] == InsertAll(logged) && Shields(levels, logged) && r <= |logged|
    && FirstHit(levels, k, SEQ_NUM_MAX) == LastWrite(history, k, SEQ_NUM_MAX)
    && (r < |logged| ==>
          && |history| == logged[r].key.num - 1 + (|logged| - r) && logged[r].key.num > 0
          && FirstHit(levels, k, logged[r].key.num - 1) == LastWrite(history, k, logged[r].key.num - 1))
  }

  lemma InstalledReads(st: Store, r: nat, k: bytes)
    requires JustInstalled(st) && st.synced <= r <= |st.logged|
    ensures ReadsOf(st.history, st.logged, LevelsOf(st.tables), r, k)
  {
    InstalledShields(st);
    TablesRead(st, k, SEQ_NUM_MAX);
    if r < |st.logged| {
      LostNumber(st.logged, st.synced, st.history, st.dropFloor, r);
      TablesRead(st, k, st.logged[r].key.num - 1);
    }
  }

  lemma InstalledShields(st: Store)
    requires Pairwise(LevelsOf(st.tables)) && st.tables != [] && st.tables[0].level == InsertAll(st.logged)
    requires Ascends(st.logged)
    ensures Shields(LevelsOf(st.tables), st.logged)
  {
    var levels := LevelsOf(st.tables);
    forall w, e | w in All(levels) && e in st.logged && Newer(w, e)
      ensures w in st.logged
    {
      var i :| 0 <= i < |levels| && w in levels[i];
      FoundInFirst(st, i, w, e);
    }
  }

  /** A version found in what is left of the log is the last one written before
      the first record that was lost. */
  lemma CutHit(history: seq<Entry>, logged: seq<Entry>, levels: seq<Level>, r: nat, k: bytes, e: Entry)
    requires ReadsOf(history, logged, levels, r, k) && r < |logged|
    requires Newest(Elems(logged[..r]), k, SEQ_NUM_MAX, Some(e))
    ensures LastWrite(history, k, logged[r].key.num - 1) == Some(e)
  {
    var n := logged[r].key.num - 1;
    BeforeLost(logged, r, k, e);
    assert e in Elems(logged) && e in Elems(history);
    SeenIsSome(history, k, n, e);
    var w := LastWrite(history, k, n).value;
    NoneNewer(logged, levels, r, k, e, w);
    SameNumber(history, e, w);
  }

  lemma BeforeLost(logged: seq<Entry>, r: nat, k: bytes, e: Entry)
    requires Ascends(logged) && r < |logged| && Newest(Elems(logged[..r]), k, SEQ_NUM_MAX, Some(e))
    ensures e in logged && e.key.user == k && e.key.num < logged[r].key.num
  {
    var j :| 0 <= j < r && logged[..r][j] == e;
    assert logged[j].key.num < logged[r].key.num;
  }

  lemma SameNumber(history: seq<Entry>, e: Entry, w: Entry)
    requires WellNumbered(history) && e in history && w in history && e.key.num == w.key.num
    ensures e == w
  {
    HistoryMember(history, e);
    HistoryMember(history, w);
  }

  lemma SeenIsSome(history: seq<Entry>, k: bytes, n: SeqNum, e: Entry)
    requires WellNumbered(history) && e in history && Sees(e, k, n)
    ensures LastWrite(history, k, n).Some? && e.key.num <= LastWrite(history, k, n).value.key.num
  {
    LastWriteIsNewest(history, k, n);
    assert e in Elems(history);
  }

  lemma NoneNewer(logged: seq<Entry>, levels: seq<Level>, r: nat, k: bytes, e: Entry, w: Entry)
    requires Ascends(logged) && Shields(levels, logged) && r < |logged| && e in logged && logged[r].key.num > 0
    requires Newest(Elems(logged[..r]), k, SEQ_NUM_MAX, Some(e))
    requires FirstHit(levels, k, logged[r].key.num - 1) == Some(w)
    ensures w.key.num <= e.key.num
  {
    var i := FirstHitLevel(levels, k, logged[r].key.num - 1);
    assert w in levels[i] && levels[i] in levels && Sees(w, k, logged[r].key.num - 1);
    if Newer(w, e) { KeptBefore(logged, r, w); }
  }

  lemma KeptBefore(logged: seq<Entry>, r: nat, w: Entry)
    requires Ascends(logged) && r < |logged| && w in logged && w.key.num < logged[r].key.num
    ensures w in Elems(logged[..r])
  {
    var j :| 0 <= j < |logged| && logged[j] == w;
    assert forall i | r < i < |logged| :: logged[r].key.num < logged[i].key.num;
    assert logged[..r][j] == w;
  }

  lemma LostNumber(logged: seq<Entry>, synced: nat, history: seq<Entry>, dropFloor: nat, r: nat)
    requires EndsUnsynced(logged, synced, history, dropFloor) && WellNumbered(history) && synced <= r < |logged|
    ensures |history| == logged[r].key.num - 1 + (|logged| - r) && dropFloor <= logged[r].key.num - 1
  {
    assert logged[r] == logged[synced..][r - synced];
  }

  lemma FoundInFirst(st: Store, i: nat, w: Entry, e: Entry)
    requires Pairwise(LevelsOf(st.tables)) && i < |st.tables| && w in LevelsOf(st.tables)[i] && Newer(w, e)
    requires st.tables[0].level == InsertAll(st.logged) && Ascends(st.logged) && e in st.logged
    ensures w in st.logged
  {
    AscendsDistinct(st.logged);
    InsertAllMembers(st.logged, e);
    InsertAllMembers(st.logged, w);
    var levels := LevelsOf(st.tables);
    if i > 0 { assert Dominates(Elems(levels[0]), levels[0], levels[i]); }
  }

  /** Whatever a crash leaves of the log then, every key reads as after a prefix
      of the writes that lacks at most the last nine: the writes before the first
      lost record if a record of the key is left, and else all of them. */
  lemma CutRead(fmt: Format<Entry>, st: Store, keep: nat, k: bytes) returns (n: nat)
    requires Lawful(fmt) && Inv(fmt, true, st) && st.phase.Installed? && st.durable <= keep <= |st.wal|
    ensures n <= |st.history| < n + SYNC_THRESHOLD
    ensures Read(Reopen(fmt, st, st.wal[..keep]), k, SEQ_NUM_MAX) == Answer(LastWrite(st.history[..n], k, SEQ_NUM_MAX))
  {
    var r := Whole(fmt, st.logged, keep);
    InstalledIs(fmt, st);
    ReopenedRead(fmt, st, keep, k);
    InstalledReads(st, r, k);
    n := KeptRead(st.history, st.logged, LevelsOf(st.tables), r, k);
  }

  /** What a read finds when r records of the log are left. */
  ghost function Decides(logged: seq<Entry>, levels: seq<Level>, r: nat, k: bytes): Option<Entry>
    requires r <= |logged|
  {
    var o := FirstVisible(InsertAll(logged[..r]), k, SEQ_NUM_MAX);
    if o.Some? then o else FirstHit(levels, k, SEQ_NUM_MAX)
  }

  lemma ReopenedRead(fmt: Format<Entry>, st: Store, keep: nat, k: bytes)
    requires Lawful(fmt) && LogOk(fmt, st) && st.disk == st.tables && st.durable <= keep <= |st.wal|
    ensures st.synced <= Whole(fmt, st.logged, keep)
    ensures Hit(Reopen(fmt, st, st.wal[..keep]), k, SEQ_NUM_MAX)
         == Decides(st.logged, LevelsOf(st.tables), Whole(fmt, st.logged, keep), k)
  {
    CrashReplay(fmt, st, keep);
    var now := Reopen(fmt, st, st.wal[..keep]);
    assert ([now.mem] + LevelsOf(now.tables))[1..] == LevelsOf(st.tables);
  }

  lemma KeptRead(history: seq<Entry>, logged: seq<Entry>, levels: seq<Level>, r: nat, k: bytes) returns (n: nat)
    requires ReadsOf(history, logged, levels, r, k)
    ensures n <= |history| <= n + (|logged| - r)
    ensures LastWrite(history[..n], k, SEQ_NUM_MAX) == Decides(logged, levels, r, k)
  {
    var o := FirstVisible(InsertAll(logged[..r]), k, SEQ_NUM_MAX);
    if o.Some? && r < |logged| {
      n := logged[r].key.num - 1;
      LeftNewest(logged, r, k, o.value);
      CutHit(history, logged, levels, r, k, o.value);
      PrefixRead(history, n, k);
    } else {
      n := |history|;
      assert history[..n] == history;
      assert r == |logged| ==> logged[..r] == logged;
    }
  }

  lemma LeftNewest(logged: seq<Entry>, r: nat, k: bytes, e: Entry)
    requires Ascends(logged) && r <= |logged| && FirstVisible(InsertAll(logged[..r]), k, SEQ_NUM_MAX) == Some(e)
    ensures Newest(Elems(logged[..r]), k, SEQ_NUM_MAX, Some(e))
  {
    var mem := InsertAll(logged[..r]);
    PrefixElems(logged, r);
    StrictIsSorted(mem);
    SortedIsNewestFirst(mem);
    FirstVisibleIsNewest(mem, k, SEQ_NUM_MAX);
  }

  lemma PrefixRead(history: seq<Entry>, n: nat, k: bytes)
    requires WellNumbered(history) && n <= |history| && n <= SEQ_NUM_MAX
    ensures LastWrite(history[..n], k, SEQ_NUM_MAX) == LastWrite(history, k, n)
  {
    PrefixNumbered(history, n);
    var past := history[..n];
    LastWriteIsNewest(past, k, SEQ_NUM_MAX);
    LastWriteIsNewest(history, k, n);
    assert forall e | e in past :: e in Elems(past) && e in Elems(history) && e.key.num <= n;
    assert forall e | e in Elems(history) && e.key.num <= n :: e in Elems(past);
    assert Newest(Elems(past), k, SEQ_NUM_MAX, LastWrite(history, k, n));
    HistoryAgrees(past, Elems(past));
    NewestIsUnique(Elems(past), k, SEQ_NUM_MAX, LastWrite(past, k, SEQ_NUM_MAX), LastWrite(history, k, n));
  }

  // ----------------------------------------------- when all keys agree on it

  /** A crash between a table's install and the log's reset, keeping r of the
      records: level order search over what a reopen finds is right for every
      key and snapshot exactly when no key has both a surviving and a lost
      record. */
  lemma UnsyncedInstallIff(fmt: Format<Entry>, st: Store, r: nat)
    requires Inv(fmt, true, st) && st.phase.Installed? && r <= |st.logged|
    ensures HitsNewest([InsertAll(st.logged[..r])] + LevelsOf(st.tables)) <==> CutSafe(st.logged, r)
  {
    var levels := [InsertAll(st.logged[..r])] + LevelsOf(st.tables);
    InstalledIs(fmt, st);
    InstalledLevels(st, r);
    FirstHitIsNewestIff(levels);
    if CutSafe(st.logged, r) { CutShadowed(fmt, st, r); }
    if Shadowed(levels) { ShadowedCut(st, r); }
  }

  lemma CutShadowed(fmt: Format<Entry>, st: Store, r: nat)
    requires Inv(fmt, true, st) && st.phase.Installed? && r <= |st.logged| && CutSafe(st.logged, r)
    ensures Shadowed([InsertAll(st.logged[..r])] + LevelsOf(st.tables))
  {
    var kept, tables := InsertAll(st.logged[..r]), LevelsOf(st.tables);
    InstalledOver(fmt, st, r);
    PairwiseCons(kept, tables);
    PairwiseIsShadowed([kept] + tables);
  }

  lemma InstalledLevels(st: Store, r: nat)
    requires JustInstalled(st) && r <= |st.logged|
    ensures var levels := [InsertAll(st.logged[..r])] + LevelsOf(st.tables);
            AllNewestFirst(levels) && Agree(All(levels))
  {
    var kept, tables := InsertAll(st.logged[..r]), LevelsOf(st.tables);
    PrefixElems(st.logged, r);
    StrictIsSorted(kept);
    SortedIsNewestFirst(kept);
    AllCons(kept, tables);
    assert st.history[..st.flushed] == st.history;
    HistoryAgrees(st.history, All([kept] + tables));
  }

  lemma ShadowedCut(st: Store, r: nat)
    requires r <= |st.logged| && Ascends(st.logged)
    requires st.tables != [] && st.tables[0].level == InsertAll(st.logged)
    requires Shadowed([InsertAll(st.logged[..r])] + LevelsOf(st.tables))
    ensures CutSafe(st.logged, r)
  {
    var kept := InsertAll(st.logged[..r]);
    var levels := [kept] + LevelsOf(st.tables);
    PrefixElems(st.logged, r);
    forall i, j | 0 <= i < r <= j < |st.logged|
      ensures st.logged[i].key.user != st.logged[j].key.user
    {
      var v, w := st.logged[i], st.logged[j];
      assert v in kept by { assert v == st.logged[..r][i]; assert v in Elems(kept); }
      assert w in levels[1] by { assert w in Elems(st.tables[0].level); }
      assert w !in Elems(kept) by { assert forall a | 0 <= a < r :: st.logged[a].key.num < w.key.num; }
      assert levels[..1] == [kept] && Dominates(All(levels[..1]), levels[0], levels[1]);
    }
  }
}
