/** What holds in every run, whether or not its events meet the guards: tables
    may be reordered, any group may merge, pins may come late, and crashes may
    cut the log anywhere above its durable part. */
module Unguarded {
  import opened InternalKeys
  import opened Versions
  import opened Compaction
  import opened Watermarks
  import opened Framing
  import opened Levels
  import opened MemTables
  import opened Stores
  import opened Runs

  ghost predicate PossibleAt(fmt: Format<Entry>, states: seq<Store>, events: seq<Event>, i: nat)
    requires i < |events| && |states| == |events| + 1
  {
    Possible(fmt, states[i], events[i]) && states[i + 1] == Next(fmt, states[i], events[i])
  }

  /** Any run from the empty store. */
  ghost predicate AnyRun(fmt: Format<Entry>, states: seq<Store>, events: seq<Event>) {
    && |states| == |events| + 1 && states[0] == Empty
    && forall i | 0 <= i < |events| :: PossibleAt(fmt, states, events, i)
  }

  lemma RunIsAnyRun(fmt: Format<Entry>, crashes: bool, states: seq<Store>, events: seq<Event>)
    requires Run(fmt, crashes, states, events)
    ensures AnyRun(fmt, states, events)
  {
    forall i | 0 <= i < |events|
      ensures PossibleAt(fmt, states, events, i)
    {
      assert StepAt(fmt, crashes, states, events, i);
    }
  }

  // ----------------------------------------------------------- fresh numbers

  ghost function UnderWay(st: Store): set<Entry> {
    if st.phase.Merging? then All(LevelsOf(st.phase.done)) else {}
  }

  /** Everything stored anywhere: memtable, tables, files on disk, log, and the
      outcomes of a compaction under way. */
  ghost function Stored(st: Store): set<Entry> {
    Elems(st.mem) + All(LevelsOf(st.tables)) + All(LevelsOf(st.disk)) + Elems(st.logged) + UnderWay(st)
  }

  /** The counter is at or above every number of S, and copies agree. */
  ghost predicate Numbers(S: set<Entry>, seqNum: nat) {
    Agree(S) && forall e | e in S :: 1 <= e.key.num <= seqNum
  }

  ghost predicate Fresh(fmt: Format<Entry>, st: Store) {
    && st.wal == EncodeAll(fmt, st.logged) && AllFit(fmt, st.logged) && StrictlySorted(st.mem)
    && Numbers(Stored(st), st.seqNum)
  }

  lemma FewerNumbers(S: set<Entry>, T: set<Entry>, seqNum: nat)
    requires T <= S && Numbers(S, seqNum)
    ensures Numbers(T, seqNum)
  {
  }

  lemma WriteFresh(fmt: Format<Entry>, st: Store, e: Entry)
    requires Fresh(fmt, st) && fmt.fits(e) && e.key.num == st.seqNum + 1
    ensures Fresh(fmt, AfterWrite(fmt, st, e))
  {
    var now := AfterWrite(fmt, st, e);
    EncodeAllSnoc(fmt, st.logged, e);
    InsertSorted(st.mem, e);
    forall x | x in Stored(now)
      ensures x == e || x in Stored(st)
    {
      InsertMembers(st.mem, e, x);
      assert x in now.logged <==> x == e || x in st.logged;
    }
  }

  lemma InstallStored(st: Store)
    ensures Stored(AfterInstall(st)) <= Stored(st)
  {
    var f := File(st.nextName, st.mem);
    assert LevelsOf([f] + st.tables) == [f.level] + LevelsOf(st.tables);
    assert LevelsOf([f] + st.disk) == [f.level] + LevelsOf(st.disk);
    AllCons(f.level, LevelsOf(st.tables));
    AllCons(f.level, LevelsOf(st.disk));
  }

  lemma LevelsOfSnoc(files: seq<File>, f: File)
    ensures All(LevelsOf(files + [f])) == All(LevelsOf(files)) + Elems(f.level)
  {
    assert LevelsOf(files + [f]) == LevelsOf(files) + [f.level];
    forall e
      ensures e in All(LevelsOf(files + [f])) <==> e in All(LevelsOf(files)) || e in f.level
    {
      assert forall l :: l in LevelsOf(files) + [f.level] <==> l in LevelsOf(files) || l == f.level;
    }
  }

  lemma MergeStored(st: Store)
    requires CanMerge(st)
    ensures Stored(AfterMergeNext(st)) <= Stored(st)
  {
    var now, group := AfterMergeNext(st), st.phase.groups[|st.phase.done|];
    var f := now.phase.done[|st.phase.done|];
    assert group[0] in group;
    OutcomeStored(LevelsOf(st.tables), group, st.phase.floor);
    LevelsOfSnoc(st.phase.done, f);
    if |group| >= 2 {
      assert LevelsOf([f] + st.disk) == [f.level] + LevelsOf(st.disk);
      AllCons(f.level, LevelsOf(st.disk));
    }
  }

  lemma OutcomeStored(tables: seq<Level>, group: seq<nat>, floor: SeqNum)
    requires group != [] && Indexes(group, |tables|)
    ensures Elems(Outcome(tables, group, floor)) <= All(tables)
    ensures forall x | x in group :: Elems(tables[x]) <= All(tables)
  {
    OutcomeSubset(tables, group, floor);
    assert forall x | x in group :: tables[x] in tables;
    forall e | e in All(Gather(tables, group))
      ensures e in All(tables)
    {
      var i :| 0 <= i < |group| && e in Gather(tables, group)[i];
      assert group[i] in group && tables[group[i]] in tables;
    }
  }

  lemma {:induction false} WithoutSubset(files: seq<File>, f: File, g: File)
    requires g in Without(files, f)
    ensures g in files
  {
    if files[0] != f && g != files[0] { WithoutSubset(files[1..], f, g); }
  }

  lemma WithoutMembers(files: seq<File>, f: File)
    ensures All(LevelsOf(Without(files, f))) <= All(LevelsOf(files))
  {
    var left := Without(files, f);
    forall e | e in All(LevelsOf(left))
      ensures e in All(LevelsOf(files))
    {
      var i :| 0 <= i < |left| && e in left[i].level;
      WithoutSubset(files, f, left[i]);
      var j :| 0 <= j < |files| && files[j] == left[i];
      assert LevelsOf(files)[j] in LevelsOf(files);
    }
  }

  /** What is left of the log, and the files, are what a reopen knows. */
  lemma CrashFresh(fmt: Format<Entry>, st: Store, keep: nat)
    requires Lawful(fmt) && Fresh(fmt, st) && keep <= |st.wal|
    ensures Fresh(fmt, Reopen(fmt, st, st.wal[..keep]))
  {
    var now, r := Reopen(fmt, st, st.wal[..keep]), Whole(fmt, st.logged, keep);
    TornTail(fmt, st.logged, keep);
    assert now.logged == st.logged[..r];
    InsertAllSorted(now.logged);
    CrashNumbers(st, now, r);
    EncodedPrefix(fmt, st.logged, r);
  }

  lemma CrashNumbers(st: Store, now: Store, r: nat)
    requires Numbers(Stored(st), st.seqNum) && r <= |st.logged| && now.logged == st.logged[..r] && now.phase.Idle?
    requires now.tables == now.disk == st.disk && now.mem == InsertAll(now.logged)
    requires now.seqNum == Max(MaxNum(now.logged), MaxNumIn(LevelsOf(st.disk)))
    ensures Numbers(Stored(now), now.seqNum)
  {
    RecoveredNumbers(st.disk, now.logged);
    LessStored(st, now, r);
    FewerNumbers(Stored(st), Stored(now), st.seqNum);
  }

  lemma LessStored(st: Store, now: Store, r: nat)
    requires r <= |st.logged| && now.logged == st.logged[..r] && now.phase.Idle?
    requires now.tables == now.disk == st.disk && Elems(now.mem) <= Elems(now.logged)
    ensures Stored(now) <= Stored(st)
  {
    assert Elems(now.logged) <= Elems(st.logged);
  }

  lemma RecoveredNumbers(disk: seq<File>, logged: seq<Entry>)
    ensures Elems(InsertAll(logged)) <= Elems(logged)
    ensures forall e | e in logged || e in All(LevelsOf(disk)) ::
              e.key.num <= Max(MaxNum(logged), MaxNumIn(LevelsOf(disk)))
  {
    forall e | e in InsertAll(logged)
      ensures e in logged
    {
      InsertedWasGiven(logged, e);
    }
    MaxNumIsMax(logged);
    MaxNumInIsMax(LevelsOf(disk));
  }

  lemma {:induction false} InsertedWasGiven(entries: seq<Entry>, e: Entry)
    requires e in InsertAll(entries)
    ensures e in entries
  {
    var last := |entries| - 1;
    InsertAllSorted(entries[..last]);
    InsertMembers(InsertAll(entries[..last]), entries[last], e);
    if e != entries[last] { InsertedWasGiven(entries[..last], e); }
  }

  lemma EncodedPrefix(fmt: Format<Entry>, xs: seq<Entry>, r: nat)
    requires r <= |xs|
    ensures |EncodeAll(fmt, xs[..r])| <= |EncodeAll(fmt, xs)|
    ensures EncodeAll(fmt, xs)[..|EncodeAll(fmt, xs[..r])|] == EncodeAll(fmt, xs[..r])
  {
    assert xs == xs[..r] + xs[r..];
    EncodeAllAppend(fmt, xs[..r], xs[r..]);
  }

  lemma FreshStep(fmt: Format<Entry>, st: Store, ev: Event)
    requires Lawful(fmt) && Fresh(fmt, st) && Possible(fmt, st, ev)
    ensures Fresh(fmt, Next(fmt, st, ev))
  {
    match ev
    case Write(key, kind, value) => WriteFresh(fmt, st, NewEntry(st, key, kind, value));
    case Install => InstallStored(st);
    case MergeNext => MergeStored(st);
    case DeleteNext => WithoutMembers(st.disk, st.phase.victims[0]);
    case Crash(keep) => CrashFresh(fmt, st, keep);
    case _ => OtherStored(fmt, st, ev);
  }

  lemma OtherStored(fmt: Format<Entry>, st: Store, ev: Event)
    requires Possible(fmt, st, ev) && !ev.Write? && !ev.Install? && !ev.MergeNext? && !ev.DeleteNext? && !ev.Crash?
    ensures Stored(Next(fmt, st, ev)) <= Stored(st)
    ensures var now := Next(fmt, st, ev);
            && now.mem == st.mem && now.seqNum == st.seqNum
            && ((now.wal == st.wal && now.logged == st.logged) || (now.wal == [] && now.logged == []))
  {
  }

  lemma {:induction false} RunFresh(fmt: Format<Entry>, states: seq<Store>, events: seq<Event>, i: nat)
    requires Lawful(fmt) && AnyRun(fmt, states, events) && i < |states|
    ensures Fresh(fmt, states[i])
  {
    if i == 0 {
      assert Stored(Empty) == {};
    } else {
      RunFresh(fmt, states, events, i - 1);
      assert PossibleAt(fmt, states, events, i - 1);
      FreshStep(fmt, states[i - 1], events[i - 1]);
    }
  }

  /** In every state of any run, also after crashes, the counter is at or above
      every stored number, and copies of one version agree on kind and value. */
  lemma NumbersStayFresh(fmt: Format<Entry>, states: seq<Store>, events: seq<Event>, i: nat)
    requires Lawful(fmt) && AnyRun(fmt, states, events) && i < |states|
    ensures Agree(Stored(states[i]))
    ensures forall e | e in Stored(states[i]) :: 1 <= e.key.num <= states[i].seqNum
  {
    RunFresh(fmt, states, events, i);
  }

  // --------------------------------------------------------------- the floor

  /** What compaction may drop below, were it to run now. */
  ghost function EffectiveFloor(st: Store): int { Min(Floor(st.pins), st.seqNum) }

  lemma FloorOfMore(pins: multiset<SeqNum>, s: SeqNum)
    ensures Floor(pins + multiset{s}) == if s < Floor(pins) then s else Floor(pins)
  {
    var f := if s < Floor(pins) then s else Floor(pins);
    if pins == multiset{} { assert s <= SEQ_NUM_MAX; }
    assert s in pins + multiset{s};
    FloorIsUnique(pins + multiset{s}, Floor(pins + multiset{s}), f);
  }

  lemma FloorOfFewer(pins: multiset<SeqNum>, s: SeqNum)
    ensures Floor(pins) <= Floor(pins - multiset{s})
  {
    var rest := pins - multiset{s};
    if rest != multiset{} { assert Floor(rest) in pins; }
  }

  /** Only the late pin of a number below it takes the floor back. */
  lemma FloorStepIff(fmt: Format<Entry>, st: Store, ev: Event)
    requires Possible(fmt, st, ev) && !ev.Crash?
    ensures EffectiveFloor(st) <= EffectiveFloor(Next(fmt, st, ev))
       <==> (ev.Pin? ==> EffectiveFloor(st) <= ev.loaded)
  {
    match ev
    case GetSnapshot => if st.seqNum <= SEQ_NUM_MAX { FloorOfMore(st.pins, st.seqNum); }
    case Pin(loaded) => FloorOfMore(st.pins, loaded);
    case ReleaseSnapshot(snap) => FloorOfFewer(st.pins, snap);
    case _ => PinsKept(fmt, st, ev);
  }

  lemma PinsKept(fmt: Format<Entry>, st: Store, ev: Event)
    requires Possible(fmt, st, ev) && !ev.Crash? && !ev.GetSnapshot? && !ev.Pin? && !ev.ReleaseSnapshot?
    ensures Next(fmt, st, ev).pins == st.pins && st.seqNum <= Next(fmt, st, ev).seqNum
  {
  }

  ghost predicate TimelyPin(states: seq<Store>, events: seq<Event>, n: nat)
    requires n < |events| && |states| == |events| + 1
  {
    events[n].Pin? ==> EffectiveFloor(states[n]) <= events[n].loaded
  }

  /** The floor never decreases while the engine runs and pins in time, so what
      one compaction drops is below every snapshot live then or taken later. */
  lemma {:induction false} FloorNeverDecreases(fmt: Format<Entry>, states: seq<Store>, events: seq<Event>,
                                               i: nat, j: nat)
    requires AnyRun(fmt, states, events) && i <= j < |states| && NoCrash(events, i, j)
    requires forall n | i <= n < j :: TimelyPin(states, events, n)
    ensures EffectiveFloor(states[i]) <= EffectiveFloor(states[j])
    ensures forall p | p in states[j].pins :: EffectiveFloor(states[i]) <= p
  {
    if i < j {
      FloorNeverDecreases(fmt, states, events, i, j - 1);
      assert PossibleAt(fmt, states, events, j - 1) && TimelyPin(states, events, j - 1);
      assert !events[j - 1].Crash?;
      FloorStepIff(fmt, states[j - 1], events[j - 1]);
    }
  }
}
