/** The level invariant, operation by operation, on plain levels: the steps of
    the store are built from these. */
module Levels {
  import opened Bytes
  import opened InternalKeys
  import opened Versions
  import opened Merging
  import opened Grouping
  import opened MemTables
  import opened Compaction

  /** Whatever is newer than a version in the memtable is in the memtable. */
  ghost predicate Over(mem: Level, tables: seq<Level>) {
    forall i | 0 <= i < |tables| :: Dominates(Elems(mem), mem, tables[i])
  }

  lemma PairwiseCons(mem: Level, tables: seq<Level>)
    ensures Pairwise([mem] + tables) <==> Pairwise(tables) && Over(mem, tables)
  {
    var levels := [mem] + tables;
    if Pairwise(tables) && Over(mem, tables) {
      forall i, j | 0 <= i < j < |levels|
        ensures Dominates(Elems(levels[i]), levels[i], levels[j])
      {
        if 0 < i { assert Dominates(Elems(tables[i - 1]), tables[i - 1], tables[j - 1]); }
      }
    }
    if Pairwise(levels) {
      forall i, j | 0 <= i < j < |tables|
        ensures Dominates(Elems(tables[i]), tables[i], tables[j])
      {
        assert Dominates(Elems(levels[i + 1]), levels[i + 1], levels[j + 1]);
      }
      forall j | 0 <= j < |tables|
        ensures Dominates(Elems(mem), mem, tables[j])
      {
        assert Dominates(Elems(levels[0]), levels[0], levels[j + 1]);
      }
    }
  }

  lemma AllCons(mem: Level, tables: seq<Level>)
    ensures All([mem] + tables) == Elems(mem) + All(tables)
  {
    var levels := [mem] + tables;
    assert levels[0] == mem;
    assert forall i | 0 <= i < |tables| :: levels[i + 1] == tables[i];
    forall e | e in All(tables)
      ensures e in All(levels)
    {
      var i :| 0 <= i < |tables| && e in tables[i];
      assert e in levels[i + 1] && levels[i + 1] in levels;
    }
    forall e | e in Elems(mem)
      ensures e in All(levels)
    {
      assert e in levels[0] && levels[0] in levels;
    }
  }

  /** A write goes to the memtable with a number above all stored ones. */
  lemma WriteKeepsOver(mem: Level, tables: seq<Level>, e: Entry)
    requires StrictlySorted(mem) && Over(mem, tables)
    requires forall x | x in All(tables) :: x.key.num < e.key.num
    requires forall x | x in mem :: x.key != e.key
    ensures Over(Insert(mem, e), tables)
    ensures Elems(Insert(mem, e)) == Elems(mem) + {e}
  {
    forall x
      ensures x in Insert(mem, e) <==> x in mem || x == e
    {
      InsertMembers(mem, e, x);
    }
    forall i | 0 <= i < |tables|
      ensures Dominates(Elems(Insert(mem, e)), Insert(mem, e), tables[i])
    {
      assert Dominates(Elems(mem), mem, tables[i]);
      forall w | w in tables[i]
        ensures w.key.num < e.key.num
      {
        assert tables[i] in tables && w in All(tables);
      }
    }
  }

  /** A part of the memtable that keeps every stored newer version it meets. */
  lemma PartKeepsOver(mem: Level, part: Level, tables: seq<Level>)
    requires Over(mem, tables) && Elems(part) <= Elems(mem)
    requires forall v, w | v in part && w in mem && w in All(tables) && Newer(w, v) :: w in part
    ensures Over(part, tables)
  {
    forall i | 0 <= i < |tables|
      ensures Dominates(Elems(part), part, tables[i])
    {
      forall v, w | v in part && w in tables[i] && Newer(w, v)
        ensures w in part
      {
        assert v in Elems(mem) && Dominates(Elems(mem), mem, tables[i]);
        assert tables[i] in tables && w in All(tables);
      }
    }
  }

  lemma EmptyOver(tables: seq<Level>)
    ensures Over([], tables)
  {
  }

  /** The table of a flush stands above the older tables, as the memtable did. */
  lemma FlushKeepsPairwise(mem: Level, tables: seq<Level>)
    requires Over(mem, tables) && Pairwise(tables) && AllNewestFirst(tables) && NewestFirst(mem)
    ensures Pairwise([mem] + tables) && AllNewestFirst([mem] + tables)
  {
    PairwiseCons(mem, tables);
  }

  /** Above all numbers, floors do not differ. */
  lemma {:induction false} SurvivorsFloor(entries: seq<Entry>, f: SeqNum, g: SeqNum, done: set<bytes>)
    requires forall e | e in entries :: e.key.num <= f && e.key.num <= g
    ensures Survivors(entries, f, done) == Survivors(entries, g, done)
  {
    if entries != [] {
      assert entries[0] in entries;
      SurvivorsFloor(entries[1..], f, g, done);
      SurvivorsFloor(entries[1..], f, g, Mark(done, entries[0], f));
    }
  }

  lemma MergeFloor(tables: seq<Level>, f: SeqNum, g: SeqNum)
    requires forall e | e in All(tables) :: e.key.num <= f && e.key.num <= g
    ensures Merge(tables, f) == Merge(tables, g)
  {
    forall e | e in Concat(tables)
      ensures e in All(tables)
    {
      var x :| 0 <= x < |Concat(tables)| && Concat(tables)[x] == e;
      var a, i := ConcatLocate(tables, x);
      assert tables[a] in tables && tables[a][i] in tables[a];
    }
    SurvivorsFloor(Concat(tables), f, g, {});
  }

  lemma OutcomeFloor(tables: seq<Level>, group: seq<nat>, f: SeqNum, g: SeqNum)
    requires group != [] && Indexes(group, |tables|)
    requires forall e | e in All(tables) :: e.key.num <= f && e.key.num <= g
    ensures Outcome(tables, group, f) == Outcome(tables, group, g)
  {
    var part := Gather(tables, group);
    forall e | e in All(part)
      ensures e in All(tables)
    {
      var i :| 0 <= i < |group| && e in part[i];
      assert group[i] in group && tables[group[i]] in tables;
    }
    MergeFloor(part, f, g);
  }

  /** The table merged from the first group may stand above all its inputs and
      the tables below them. */
  lemma FirstOutcomeOver(tables: seq<Level>, groups: seq<seq<nat>>, floor: SeqNum)
    requires Layered(tables) && AllIndexes(groups, |tables|) && Partition(groups, |tables|) && InOrder(groups)
    requires groups != [] && |groups[0]| >= 2
    ensures Over(Outcome(tables, groups[0], floor), tables)
  {
    var group, part := groups[0], Gather(tables, groups[0]);
    forall x | 0 <= x < |tables|
      ensures Dominates(Elems(Outcome(tables, group, floor)), Outcome(tables, group, floor), tables[x])
    {
      assert Covered(groups, x);
      var g :| 0 <= g < |groups| && x in groups[g];
      if g == 0 {
        var b :| 0 <= b < |group| && group[b] == x;
        GatherLayered(tables, group);
        MergeDominatesInputs(part, floor, b);
      } else {
        forall y | y in group
          ensures Dominates(Elems(tables[y]), tables[y], tables[x])
        {
          assert y < x;
        }
        OutcomeDominates(tables, group, floor, tables[x]);
      }
    }
  }

  /** Dropping a level keeps the invariant. */
  lemma RemoveKeepsPairwise(front: seq<Level>, x: Level, back: seq<Level>)
    requires Pairwise(front + [x] + back) && AllNewestFirst(front + [x] + back)
    ensures Pairwise(front + back) && AllNewestFirst(front + back)
  {
    var was, now := front + [x] + back, front + back;
    forall i | 0 <= i < |now|
      ensures now[i] == was[if i < |front| then i else i + 1]
    {
    }
    forall i, j | 0 <= i < j < |now|
      ensures Dominates(Elems(now[i]), now[i], now[j])
    {
      var a, b := if i < |front| then i else i + 1, if j < |front| then j else j + 1;
      assert Dominates(Elems(was[a]), was[a], was[b]);
    }
    forall l | l in now
      ensures NewestFirst(l)
    {
      assert l in was;
    }
  }

  /** Tables that cover a history still cover it after compaction, from the
      compaction's floor on. */
  lemma CoversAfter(S: set<Entry>, T: set<Entry>, history: seq<Entry>, floor: int, newFloor: int)
    requires WellNumbered(history) && S <= Elems(history) && Covers(S, history, floor) && floor <= newFloor
    requires forall k: bytes, s: SeqNum, o: Option<Entry> | newFloor <= s && Newest(S, k, s, o) :: Newest(T, k, s, o)
    ensures Covers(T, history, newFloor)
  {
    forall k: bytes, s: SeqNum | newFloor <= s && LastWrite(history, k, s).Some?
      ensures LastWrite(history, k, s).value in T
    {
      LastWriteIsNewest(history, k, s);
      assert Newest(S, k, s, LastWrite(history, k, s));
      assert Newest(T, k, s, LastWrite(history, k, s));
    }
  }

  /** A covered history stays covered when the memtable holds the writes after it. */
  lemma CoversExtended(S: set<Entry>, history: seq<Entry>, n: nat, floor: int)
    requires WellNumbered(history) && n <= |history| && Covers(S, history[..n], floor)
    requires Elems(history[n..]) <= S
    ensures Covers(S, history, floor)
  {
    forall k: bytes, s: SeqNum | floor <= s && LastWrite(history, k, s).Some?
      ensures LastWrite(history, k, s).value in S
    {
      LastWriteSplits(history, n, k, s);
    }
  }

  lemma {:induction false} LastWriteSplits(history: seq<Entry>, n: nat, k: bytes, s: SeqNum)
    requires n <= |history| && LastWrite(history, k, s).Some?
    ensures LastWrite(history, k, s).value in Elems(history[n..])
         || LastWrite(history[..n], k, s) == LastWrite(history, k, s)
  {
    var last := |history| - 1;
    if n == |history| {
      assert history[..n] == history;
    } else if Sees(history[last], k, s) {
      assert history[n..][last - n] == history[last];
    } else {
      LastWriteSplits(history[..last], n, k, s);
      assert history[..last][..n] == history[..n];
      forall e | e in history[..last][n..]
        ensures e in history[n..]
      {
        var i :| 0 <= i < |history[..last][n..]| && history[..last][n..][i] == e;
        assert history[n..][i] == e;
      }
    }
  }
}
