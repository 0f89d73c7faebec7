/** What holds over whole runs of the store. */
module Runs {
  import opened Bytes
  import opened InternalKeys
  import opened Versions
  import opened Framing
  import opened Stores
  import opened StoreInvariants
  import opened Recovery
  import opened Prefixes

  // --------------------------------------------------------- one step keeps

  /** A number that was loaded earlier may be pinned exactly while no compaction
      has dropped below it. */
  lemma PinInvIff(fmt: Format<Entry>, crashes: bool, st: Store, s: SeqNum)
    requires Inv(fmt, crashes, st) && s <= st.seqNum
    ensures Inv(fmt, crashes, AfterPin(st, s)) <==> st.dropFloor <= s || s == 0
  {
    assert s in AfterPin(st, s).pins;
  }

  lemma ReleaseInv(fmt: Format<Entry>, crashes: bool, st: Store, s: SeqNum)
    requires Inv(fmt, crashes, st)
    ensures Inv(fmt, crashes, AfterRelease(st, s))
  {
  }

  lemma StepInv(fmt: Format<Entry>, crashes: bool, st: Store, ev: Event)
    requires Lawful(fmt) && Inv(fmt, crashes, st) && Enabled(fmt, crashes, st, ev)
    ensures Inv(fmt, crashes, Next(fmt, st, ev))
  {
    match ev
    case Write(key, kind, value) => WriteInv(fmt, crashes, st, key, kind, value);
    case Install => InstallInv(fmt, crashes, st);
    case ResetLog => ResetLogInv(fmt, crashes, st);
    case StartCompaction(sizes) => StartInv(fmt, crashes, st, sizes);
    case MergeNext => MergeNextInv(fmt, crashes, st);
    case FinishMerging => FinishMergingInv(fmt, crashes, st);
    case DeleteNext => DeleteNextInv(fmt, crashes, st);
    case FinishDeleting => FinishDeletingInv(fmt, crashes, st);
    case GetSnapshot => PinInvIff(fmt, crashes, st, st.seqNum);
    case Pin(loaded) => PinInvIff(fmt, crashes, st, loaded);
    case ReleaseSnapshot(snap) => ReleaseInv(fmt, crashes, st, snap);
    case Crash(keep) => CrashInv(fmt, st, keep);
  }

  // ------------------------------------------------------------------- runs

  ghost predicate StepAt(fmt: Format<Entry>, crashes: bool, states: seq<Store>, events: seq<Event>, i: nat)
    requires i < |events| && |states| == |events| + 1
  {
    Enabled(fmt, crashes, states[i], events[i]) && states[i + 1] == Next(fmt, states[i], events[i])
  }

  /** A run from the empty store. */
  ghost predicate Run(fmt: Format<Entry>, crashes: bool, states: seq<Store>, events: seq<Event>) {
    && |states| == |events| + 1 && states[0] == Empty
    && forall i | 0 <= i < |events| :: StepAt(fmt, crashes, states, events, i)
  }

  lemma {:induction false} RunInv(fmt: Format<Entry>, crashes: bool, states: seq<Store>, events: seq<Event>, i: nat)
    requires Lawful(fmt) && Run(fmt, crashes, states, events) && i < |states|
    ensures Inv(fmt, crashes, states[i])
  {
    if i == 0 {
      EmptyInv(fmt, crashes);
    } else {
      RunInv(fmt, crashes, states, events, i - 1);
      assert StepAt(fmt, crashes, states, events, i - 1);
      StepInv(fmt, crashes, states[i - 1], events[i - 1]);
    }
  }

  // ----------------------------------------------------- snapshot isolation

  /** In every state of every run in which the engine takes requests, a read at
      a pinned snapshot, or of the latest state, returns exactly the last write
      that it may see. */
  lemma ReadsAreLastWrites(fmt: Format<Entry>, crashes: bool, states: seq<Store>, events: seq<Event>, i: nat,
                           k: bytes, s: SeqNum)
    requires Lawful(fmt) && Run(fmt, crashes, states, events) && i < |states|
    requires states[i].phase.Idle? && (s in states[i].pins || s == SEQ_NUM_MAX)
    ensures Read(states[i], k, s) == Answer(LastWrite(states[i].history, k, s))
  {
    RunInv(fmt, crashes, states, events, i);
    PinnedReadIsLastWrite(fmt, crashes, states[i], k, s);
  }

  ghost predicate NoCrash(events: seq<Event>, i: nat, j: nat) {
    forall n | i <= n < j && n < |events| :: !events[n].Crash?
  }

  lemma StepHistory(fmt: Format<Entry>, crashes: bool, st: Store, ev: Event)
    requires Enabled(fmt, crashes, st, ev) && !ev.Crash?
    ensures st.history <= Next(fmt, st, ev).history
  {
  }

  lemma {:induction false} HistoryGrows(fmt: Format<Entry>, crashes: bool, states: seq<Store>, events: seq<Event>,
                                        i: nat, j: nat)
    requires Run(fmt, crashes, states, events) && i <= j < |states| && NoCrash(events, i, j)
    ensures states[i].history <= states[j].history
  {
    if i < j {
      HistoryGrows(fmt, crashes, states, events, i, j - 1);
      assert StepAt(fmt, crashes, states, events, j - 1);
      assert !events[j - 1].Crash?;
      StepHistory(fmt, crashes, states[j - 1], events[j - 1]);
    }
  }

  /** Between two states without a crash, reads at a snapshot pinned in both do
      not change, whatever was written, flushed, compacted or released between. */
  lemma SnapshotIsolation(fmt: Format<Entry>, crashes: bool, states: seq<Store>, events: seq<Event>,
                          i: nat, j: nat, k: bytes, s: SeqNum)
    requires Lawful(fmt) && Run(fmt, crashes, states, events) && i <= j < |states| && NoCrash(events, i, j)
    requires states[i].phase.Idle? && states[j].phase.Idle?
    requires s in states[i].pins && s in states[j].pins
    ensures Read(states[j], k, s) == Read(states[i], k, s)
  {
    ReadsAreLastWrites(fmt, crashes, states, events, i, k, s);
    ReadsAreLastWrites(fmt, crashes, states, events, j, k, s);
    HistoryGrows(fmt, crashes, states, events, i, j);
    assert s <= |states[i].history| && WellNumbered(states[j].history) by {
      RunInv(fmt, crashes, states, events, i);
      RunInv(fmt, crashes, states, events, j);
    }
    PrefixReadsSame(states[i].history, states[j].history, k, s);
  }

  /** A snapshot freezes the latest state: from the moment it is taken until it is
      released, reads at it return what reads of the latest state returned then. */
  lemma SnapshotFreezes(fmt: Format<Entry>, crashes: bool, states: seq<Store>, events: seq<Event>,
                        i: nat, j: nat, k: bytes)
    requires Lawful(fmt) && Run(fmt, crashes, states, events) && i < j < |states| && NoCrash(events, i, j)
    requires events[i] == GetSnapshot && states[i].phase.Idle? && states[j].phase.Idle?
    ensures var s := states[i].seqNum;
            && s < SEQ_NUM_MAX && s in states[i + 1].pins
            && (s in states[j].pins ==> Read(states[j], k, s) == Read(states[i], k, SEQ_NUM_MAX))
  {
    var s := states[i].seqNum;
    RunInv(fmt, crashes, states, events, i);
    assert StepAt(fmt, crashes, states, events, i);
    if s in states[j].pins {
      assert NoCrash(events, i + 1, j);
      SnapshotIsolation(fmt, crashes, states, events, i + 1, j, k, s);
      ReadsAreLastWrites(fmt, crashes, states, events, i, k, SEQ_NUM_MAX);
      ReadsAreLastWrites(fmt, crashes, states, events, i + 1, k, s);
      AllAreSeen(states[i].history, k, s);
    }
  }

  lemma {:induction false} AllAreSeen(history: seq<Entry>, k: bytes, s: SeqNum)
    requires WellNumbered(history) && |history| <= s
    ensures LastWrite(history, k, s) == LastWrite(history, k, SEQ_NUM_MAX)
  {
    if history != [] { AllAreSeen(history[..|history| - 1], k, s); }
  }

  lemma PrefixReadsSame(a: seq<Entry>, b: seq<Entry>, k: bytes, s: SeqNum)
    requires a <= b && WellNumbered(b) && s <= |a|
    ensures LastWrite(b, k, s) == LastWrite(a, k, s)
  {
    assert b == a + b[|a|..];
    LastWriteStable(a, b[|a|..], k, s);
  }

  // -------------------------------------------------- prefix-consistent recovery

  /** Whatever the run did and wherever it crashes, there is one prefix of the
      issued writes, lacking at most the last nine, after which the reopened
      engine answers every read.  Only right after a table's install does this
      depend on the order of the lost records. */
  lemma PrefixRecovery(fmt: Format<Entry>, states: seq<Store>, events: seq<Event>, i: nat, keep: nat) returns (n: nat)
    requires Lawful(fmt) && Run(fmt, true, states, events) && i < |states| && Possible(fmt, states[i], Crash(keep))
    requires states[i].phase.Installed? ==> OnePrefix(states[i].logged, Whole(fmt, states[i].logged, keep))
    ensures var before, after := states[i].history, Next(fmt, states[i], Crash(keep));
            && n <= |before| <= n + 9 && after.phase.Idle? && ReadsAsPrefix(after, before, n)
            && forall k: bytes :: Read(after, k, SEQ_NUM_MAX) == Answer(LastWrite(before[..n], k, SEQ_NUM_MAX))
  {
    var st := states[i];
    var after := Next(fmt, st, Crash(keep));
    RunInv(fmt, true, states, events, i);
    if st.phase.Installed? { n := InstalledPrefix(fmt, st, keep); } else { n := GuardedPrefix(fmt, st, keep); }
    forall k: bytes
      ensures Read(after, k, SEQ_NUM_MAX) == Answer(LastWrite(st.history[..n], k, SEQ_NUM_MAX))
    {
      assert HitsAs(after, st.history[..n], k);
    }
  }

  /** Exactly then. */
  lemma PrefixRecoveryIff(fmt: Format<Entry>, states: seq<Store>, events: seq<Event>, i: nat, keep: nat)
    requires Lawful(fmt) && Run(fmt, true, states, events) && i < |states| && Possible(fmt, states[i], Crash(keep))
    ensures (exists n: nat :: ReadsAsPrefix(Next(fmt, states[i], Crash(keep)), states[i].history, n))
       <==> (states[i].phase.Installed? ==> OnePrefix(states[i].logged, Whole(fmt, states[i].logged, keep)))
  {
    RunInv(fmt, true, states, events, i);
    var st, after := states[i], Next(fmt, states[i], Crash(keep));
    assert after == Reopen(fmt, st, st.wal[..keep]);
    if st.phase.Installed? {
      InstalledPrefixIff(fmt, st, keep);
    } else {
      var n := GuardedPrefix(fmt, st, keep);
      assert ReadsAsPrefix(after, st.history, n);
    }
  }

  lemma GuardedPrefix(fmt: Format<Entry>, st: Store, keep: nat) returns (n: nat)
    requires Lawful(fmt) && Inv(fmt, true, st) && Enabled(fmt, true, st, Crash(keep))
    ensures n <= |st.history| <= n + 9 && ReadsAsPrefix(Reopen(fmt, st, st.wal[..keep]), st.history, n)
  {
    var after := Reopen(fmt, st, st.wal[..keep]);
    CrashSummary(fmt, st, keep, []);
    n := |after.history|;
    assert st.history[..n] == after.history;
    forall k: bytes
      ensures HitsAs(after, st.history[..n], k)
    {
      CrashSummary(fmt, st, keep, k);
    }
  }

  /** A guarded crash is a step of the run, and what the reopened engine goes on
      with is that prefix. */
  lemma GuardedRecovery(fmt: Format<Entry>, states: seq<Store>, events: seq<Event>, i: nat, k: bytes)
    requires Lawful(fmt) && Run(fmt, true, states, events) && i < |events| && events[i].Crash?
    ensures var before, after := states[i].history, states[i + 1].history;
            && after <= before && |before| <= |after| + 9
            && states[i + 1].phase.Idle? && states[i + 1].seqNum == |after|
            && Read(states[i + 1], k, SEQ_NUM_MAX) == Answer(LastWrite(after, k, SEQ_NUM_MAX))
  {
    RunInv(fmt, true, states, events, i);
    RunInv(fmt, true, states, events, i + 1);
    assert StepAt(fmt, true, states, events, i);
    CrashInv(fmt, states[i], events[i].keep);
    ReadIsLastWrite(fmt, true, states[i + 1], k, SEQ_NUM_MAX);
  }

  /** Also for a crash that no guard allows: each key then reads as after a
      prefix of the issued writes that lacks at most the last nine. */
  lemma AnyCrashReads(fmt: Format<Entry>, states: seq<Store>, events: seq<Event>, i: nat, keep: nat, k: bytes)
    returns (n: nat)
    requires Lawful(fmt) && Run(fmt, true, states, events) && i < |states| && Possible(fmt, states[i], Crash(keep))
    ensures var before, after := states[i].history, Next(fmt, states[i], Crash(keep));
            && n <= |before| <= n + 9 && after.phase.Idle?
            && Read(after, k, SEQ_NUM_MAX) == Answer(LastWrite(before[..n], k, SEQ_NUM_MAX))
  {
    var st := states[i];
    RunInv(fmt, true, states, events, i);
    if st.phase.Installed? {
      n := CutRead(fmt, st, keep, k);
    } else {
      n := GuardedCrashRead(fmt, st, keep, k);
    }
  }

  lemma GuardedCrashRead(fmt: Format<Entry>, st: Store, keep: nat, k: bytes) returns (n: nat)
    requires Lawful(fmt) && Inv(fmt, true, st) && Enabled(fmt, true, st, Crash(keep))
    ensures n <= |st.history| <= n + 9
    ensures Read(Next(fmt, st, Crash(keep)), k, SEQ_NUM_MAX) == Answer(LastWrite(st.history[..n], k, SEQ_NUM_MAX))
  {
    CrashSummary(fmt, st, keep, k);
    n := |Reopen(fmt, st, st.wal[..keep]).history|;
    assert st.history[..n] == Reopen(fmt, st, st.wal[..keep]).history;
  }

  lemma CrashSummary(fmt: Format<Entry>, st: Store, keep: nat, k: bytes)
    requires Lawful(fmt) && Inv(fmt, true, st) && Enabled(fmt, true, st, Crash(keep))
    ensures var after := Reopen(fmt, st, st.wal[..keep]);
            && after.history <= st.history && |st.history| <= |after.history| + 9
            && Hit(after, k, SEQ_NUM_MAX) == LastWrite(after.history, k, SEQ_NUM_MAX)
  {
    CrashInv(fmt, st, keep);
    ReadIsLastWrite(fmt, true, Reopen(fmt, st, st.wal[..keep]), k, SEQ_NUM_MAX);
  }
}
