/** A whole compaction: compaction/compact.go over the groups of Grouping and
    the merge of Merging. */
module Compaction {
  import opened Bytes
  import opened InternalKeys
  import opened Versions
  import opened Merging
  import opened Grouping

  const COMPACTION_THRESHOLD := 4

  ghost predicate Indexes(group: seq<nat>, n: nat) {
    forall x | x in group :: x < n
  }

  ghost predicate AllIndexes(groups: seq<seq<nat>>, n: nat) {
    forall g | 0 <= g < |groups| :: groups[g] != [] && Indexes(groups[g], n)
  }

  ghost function Gather(tables: seq<Level>, group: seq<nat>): (r: seq<Level>)
    requires Indexes(group, |tables|)
    ensures |r| == |group|
  {
    seq(|group|, i requires 0 <= i < |group| => assert group[i] in group; tables[group[i]])
  }

  /** The table that stands for a group: itself, or the merge of its members. */
  ghost function Outcome(tables: seq<Level>, group: seq<nat>, floor: SeqNum): Level
    requires group != [] && Indexes(group, |tables|)
  {
    if |group| < 2 then Gather(tables, group)[0] else Merge(Gather(tables, group), floor)
  }

  ghost function Outcomes(tables: seq<Level>, groups: seq<seq<nat>>, floor: SeqNum): (r: seq<Level>)
    requires AllIndexes(groups, |tables|)
    ensures |r| == |groups|
    ensures forall g | 0 <= g < |groups| :: r[g] == Outcome(tables, groups[g], floor)
  {
    seq(|groups|, g requires 0 <= g < |groups| => Outcome(tables, groups[g], floor))
  }

  lemma GroupsIndex(sizes: seq<nat>)
    ensures AllIndexes(Groups(sizes), |sizes|)
    ensures Partition(Groups(sizes), |sizes|)
    ensures sizes != [] ==> Groups(sizes) != [] && Groups(sizes)[0][0] == 0
  {
    GroupsAreGrouping(sizes);
    var groups := Groups(sizes);
    forall g, x | 0 <= g < |groups| && x in groups[g]
      ensures x < |sizes|
    {
      assert Covered(groups, x);
    }
    forall g | 0 <= g < |groups|
      ensures groups[g] != []
    {
      assert IsGroup(groups[g], SimilarIn(sizes));
    }
  }

  /** What level-order arguments need of a grouping. */
  ghost predicate Partition(groups: seq<seq<nat>>, n: nat) {
    && (forall g | 0 <= g < |groups| :: Ascending(groups[g]))
    && (forall g, h, x | 0 <= g < h < |groups| && x in groups[h] :: x !in groups[g])
    && (forall x: nat | x < n :: Covered(groups, x))
  }

  ghost function Compact(tables: seq<Level>, sizes: seq<nat>, floor: SeqNum): seq<Level>
    requires |sizes| == |tables|
  {
    if |tables| < COMPACTION_THRESHOLD then tables
    else
      GroupsIndex(sizes);
      Outcomes(tables, Groups(sizes), floor)
  }

  /** Levels whose first hit is their newest version, with agreeing copies. */
  ghost predicate Layered(levels: seq<Level>) {
    AllNewestFirst(levels) && Pairwise(levels) && Agree(All(levels))
  }

  // ---------------------------------------------------- one group at a time

  lemma GatherLayered(tables: seq<Level>, group: seq<nat>)
    requires Layered(tables) && Indexes(group, |tables|) && Ascending(group)
    ensures Layered(Gather(tables, group))
    ensures All(Gather(tables, group)) <= All(tables)
  {
    var part := Gather(tables, group);
    forall i | 0 <= i < |part|
      ensures part[i] in tables
    {
      assert group[i] in group;
    }
    forall i, j | 0 <= i < j < |part|
      ensures Dominates(Elems(part[i]), part[i], part[j])
    {
      assert group[i] in group && group[j] in group;
      assert Dominates(Elems(tables[group[i]]), tables[group[i]], tables[group[j]]);
    }
  }

  lemma GatherOne(tables: seq<Level>, group: seq<nat>)
    requires group != [] && Indexes(group, |tables|) && |group| < 2
    ensures All(Gather(tables, group)) == Elems(Gather(tables, group)[0])
  {
    var part := Gather(tables, group);
    assert part == [part[0]] && part[0] in part;
  }

  lemma OutcomeSubset(tables: seq<Level>, group: seq<nat>, floor: SeqNum)
    requires group != [] && Indexes(group, |tables|)
    ensures Elems(Outcome(tables, group, floor)) <= All(Gather(tables, group))
  {
    if |group| < 2 { GatherOne(tables, group); } else { MergeElems(Gather(tables, group), floor); }
  }

  lemma OutcomePreserves(tables: seq<Level>, group: seq<nat>, floor: SeqNum, k: bytes, s: SeqNum, o: Option<Entry>)
    requires Layered(tables) && group != [] && Indexes(group, |tables|) && Ascending(group)
    requires floor <= s && Newest(All(Gather(tables, group)), k, s, o)
    ensures Newest(Elems(Outcome(tables, group, floor)), k, s, o)
  {
    if |group| < 2 {
      GatherOne(tables, group);
    } else {
      GatherLayered(tables, group);
      MergePreservesNewest(Gather(tables, group), floor, k, s, o);
    }
  }

  lemma OutcomeNewestFirst(tables: seq<Level>, group: seq<nat>, floor: SeqNum)
    requires AllNewestFirst(tables) && group != [] && Indexes(group, |tables|)
    ensures NewestFirst(Outcome(tables, group, floor))
  {
    assert group[0] in group;
    if |group| >= 2 { MergeElems(Gather(tables, group), floor); }
  }

  lemma OutcomeDominates(tables: seq<Level>, group: seq<nat>, floor: SeqNum, low: Level)
    requires AllNewestFirst(tables) && group != [] && Indexes(group, |tables|)
    requires forall x | x in group :: Dominates(Elems(tables[x]), tables[x], low)
    ensures Dominates(Elems(Outcome(tables, group, floor)), Outcome(tables, group, floor), low)
  {
    var part := Gather(tables, group);
    forall a | 0 <= a < |part|
      ensures Dominates(Elems(part[a]), part[a], low) && NewestFirst(part[a])
    {
      assert group[a] in group;
    }
    if |group| >= 2 { MergeDominates(part, floor, low); }
  }

  // ------------------------------------------------------ groups in order

  /** Every table of an earlier group is newer than every table of a later one:
      the groups, written one after the other, are the table list. */
  ghost predicate InOrder(groups: seq<seq<nat>>) {
    forall g, h, x, y | 0 <= g < h < |groups| && x in groups[g] && y in groups[h] :: x < y
  }

  /** The same for the tables that hold anything. */
  ghost predicate FullInOrder(tables: seq<Level>, groups: seq<seq<nat>>)
    requires AllIndexes(groups, |tables|)
  {
    forall g, h, x, y | 0 <= g < h < |groups| && x in groups[g] && y in groups[h]
                     && tables[x] != [] && tables[y] != [] :: x < y
  }

  lemma TableDominatesOutcome(tables: seq<Level>, x: nat, group: seq<nat>, floor: SeqNum)
    requires Pairwise(tables) && x < |tables| && group != [] && Indexes(group, |tables|)
    requires forall y | y in group && tables[x] != [] && tables[y] != [] :: x < y
    ensures Dominates(Elems(tables[x]), tables[x], Outcome(tables, group, floor))
  {
    OutcomeSubset(tables, group, floor);
    forall v, w | v in tables[x] && w in Outcome(tables, group, floor) && Newer(w, v)
      ensures w in tables[x]
    {
      assert w in Elems(Outcome(tables, group, floor));
      var i :| 0 <= i < |group| && w in Gather(tables, group)[i];
      assert group[i] in group;
      assert Dominates(Elems(tables[x]), tables[x], tables[group[i]]);
    }
  }

  lemma OutcomesPairwise(tables: seq<Level>, groups: seq<seq<nat>>, floor: SeqNum)
    requires Layered(tables) && AllIndexes(groups, |tables|) && FullInOrder(tables, groups)
    ensures AllNewestFirst(Outcomes(tables, groups, floor))
    ensures Pairwise(Outcomes(tables, groups, floor))
  {
    var result := Outcomes(tables, groups, floor);
    forall g, h | 0 <= g < h < |groups|
      ensures Dominates(Elems(result[g]), result[g], result[h])
    {
      forall x | x in groups[g]
        ensures Dominates(Elems(tables[x]), tables[x], result[h])
      {
        TableDominatesOutcome(tables, x, groups[h], floor);
      }
      OutcomeDominates(tables, groups[g], floor, result[h]);
    }
    forall g | 0 <= g < |groups|
      ensures NewestFirst(result[g])
    {
      OutcomeNewestFirst(tables, groups[g], floor);
    }
  }

  lemma OutcomesSubset(tables: seq<Level>, groups: seq<seq<nat>>, floor: SeqNum)
    requires AllIndexes(groups, |tables|)
    ensures All(Outcomes(tables, groups, floor)) <= All(tables)
  {
    var result := Outcomes(tables, groups, floor);
    forall e | e in All(result)
      ensures e in All(tables)
    {
      var g :| 0 <= g < |groups| && e in result[g];
      OutcomeSubset(tables, groups[g], floor);
      assert e in Elems(result[g]);
      var i :| 0 <= i < |groups[g]| && e in Gather(tables, groups[g])[i];
      assert groups[g][i] in groups[g];
    }
  }

  /** In any order of groups, nothing a snapshot at or above floor needs is lost. */
  lemma OutcomesPreserveNewest(tables: seq<Level>, groups: seq<seq<nat>>, floor: SeqNum,
                               k: bytes, s: SeqNum, o: Option<Entry>)
    requires Layered(tables) && AllIndexes(groups, |tables|) && Partition(groups, |tables|)
    requires floor <= s && Newest(All(tables), k, s, o)
    ensures Newest(All(Outcomes(tables, groups, floor)), k, s, o)
  {
    OutcomesSubset(tables, groups, floor);
    if o.Some? {
      var x :| 0 <= x < |tables| && o.value in tables[x];
      assert Covered(groups, x);
      var g :| 0 <= g < |groups| && x in groups[g];
      var i :| 0 <= i < |groups[g]| && groups[g][i] == x;
      assert Gather(tables, groups[g])[i] == tables[x];
      GatherLayered(tables, groups[g]);
      assert o.value in All(Gather(tables, groups[g]));
      OutcomePreserves(tables, groups[g], floor, k, s, o);
      assert Outcomes(tables, groups, floor)[g] in Outcomes(tables, groups, floor);
    }
  }

  lemma OutcomesLayered(tables: seq<Level>, groups: seq<seq<nat>>, floor: SeqNum)
    requires Layered(tables) && AllIndexes(groups, |tables|) && FullInOrder(tables, groups)
    ensures Layered(Outcomes(tables, groups, floor))
  {
    OutcomesPairwise(tables, groups, floor);
    OutcomesSubset(tables, groups, floor);
  }

  lemma SameFirstHit(levels: seq<Level>, result: seq<Level>, k: bytes, s: SeqNum)
    requires Layered(levels) && Layered(result) && All(result) <= All(levels)
    requires forall o | Newest(All(levels), k, s, o) :: Newest(All(result), k, s, o)
    ensures FirstHit(result, k, s) == FirstHit(levels, k, s)
  {
    PairwiseIsShadowed(levels);
    PairwiseIsShadowed(result);
    FirstHitIsNewest(levels, k, s);
    FirstHitIsNewest(result, k, s);
    NewestIsUnique(All(result), k, s, FirstHit(levels, k, s), FirstHit(result, k, s));
  }

  lemma OutcomesSameHit(tables: seq<Level>, groups: seq<seq<nat>>, floor: SeqNum, k: bytes, s: SeqNum)
    requires Layered(tables) && AllIndexes(groups, |tables|) && Partition(groups, |tables|)
    requires FullInOrder(tables, groups) && floor <= s
    ensures FirstHit(Outcomes(tables, groups, floor), k, s) == FirstHit(tables, k, s)
  {
    OutcomesLayered(tables, groups, floor);
    OutcomesSubset(tables, groups, floor);
    forall o | Newest(All(tables), k, s, o)
      ensures Newest(All(Outcomes(tables, groups, floor)), k, s, o)
    {
      OutcomesPreserveNewest(tables, groups, floor, k, s, o);
    }
    SameFirstHit(tables, Outcomes(tables, groups, floor), k, s);
  }

  // -------------------------------------------------- groups out of order

  /** Of one user key there is an older version in table x, a newer one in table
      y in front of it, and nothing else. */
  ghost predicate Crossing(tables: seq<Level>, x: nat, y: nat, older: Entry, newer: Entry) {
    y < x < |tables| && Layered(tables) && Newer(newer, older) && Apart(tables, x, y, older, newer)
  }

  ghost predicate Apart(tables: seq<Level>, x: nat, y: nat, older: Entry, newer: Entry)
    requires x < |tables| && y < |tables|
  {
    && older in tables[x] && newer in tables[y]
    && forall i, e | 0 <= i < |tables| && e in tables[i] && e.key.user == older.key.user ::
         (i == x && e == older) || (i == y && e == newer)
  }

  lemma CrossingHit(tables: seq<Level>, x: nat, y: nat, older: Entry, newer: Entry)
    requires Crossing(tables, x, y, older, newer)
    ensures FirstHit(tables, older.key.user, SEQ_NUM_MAX) == Some(newer)
  {
    var k := older.key.user;
    PairwiseIsShadowed(tables);
    FirstHitIsNewest(tables, k, SEQ_NUM_MAX);
    assert tables[y] in tables && newer in All(tables);
    forall e | e in All(tables) && Sees(e, k, SEQ_NUM_MAX)
      ensures e.key.num <= newer.key.num
    {
      var i :| 0 <= i < |tables| && e in tables[i];
    }
    NewestIsUnique(All(tables), k, SEQ_NUM_MAX, FirstHit(tables, k, SEQ_NUM_MAX), Some(newer));
  }

  /** The outcome of a group holds no version of the key that its tables do not. */
  lemma CrossingOutcome(tables: seq<Level>, x: nat, y: nat, older: Entry, newer: Entry,
                        group: seq<nat>, floor: SeqNum, e: Entry)
    requires Crossing(tables, x, y, older, newer) && group != [] && Indexes(group, |tables|) && y !in group
    requires e in Outcome(tables, group, floor) && e.key.user == older.key.user
    ensures e == older
  {
    OutcomeSubset(tables, group, floor);
    assert e in Elems(Outcome(tables, group, floor));
    var i :| 0 <= i < |group| && e in Gather(tables, group)[i];
    assert group[i] in group;
  }

  lemma OlderOutcome(tables: seq<Level>, x: nat, y: nat, older: Entry, newer: Entry, group: seq<nat>, floor: SeqNum)
    requires Crossing(tables, x, y, older, newer) && Indexes(group, |tables|) && Ascending(group)
    requires x in group && y !in group
    ensures group != [] && older in Outcome(tables, group, floor)
  {
    var k, part := older.key.user, Gather(tables, group);
    var i :| 0 <= i < |group| && group[i] == x;
    assert older in part[i] && part[i] in part;
    forall e | e in All(part) && Sees(e, k, SEQ_NUM_MAX)
      ensures e == older
    {
      var j :| 0 <= j < |group| && e in part[j];
      assert group[j] in group;
    }
    assert Newest(All(part), k, SEQ_NUM_MAX, Some(older));
    OutcomePreserves(tables, group, floor, k, SEQ_NUM_MAX, Some(older));
  }

  /** A group with the older version in front of the one with the newer: the
      lookup after the compaction is stale. */
  lemma OutOfOrderFails(tables: seq<Level>, groups: seq<seq<nat>>, floor: SeqNum, g: nat, h: nat,
                        x: nat, y: nat, older: Entry, newer: Entry)
    requires AllIndexes(groups, |tables|) && Partition(groups, |tables|) && Crossing(tables, x, y, older, newer)
    requires g < h < |groups| && x in groups[g] && y in groups[h]
    ensures FirstHit(tables, older.key.user, SEQ_NUM_MAX) == Some(newer)
    ensures FirstHit(Outcomes(tables, groups, floor), older.key.user, SEQ_NUM_MAX) == Some(older)
  {
    CrossingHit(tables, x, y, older, newer);
    OlderOutcome(tables, x, y, older, newer, groups[g], floor);
    var result := Outcomes(tables, groups, floor);
    var i := FirstHitLevel(result, older.key.user, SEQ_NUM_MAX);
    assert Sees(older, older.key.user, SEQ_NUM_MAX) && older in result[g];
    CrossingOutcome(tables, x, y, older, newer, groups[i], floor,
                    FirstHit(result, older.key.user, SEQ_NUM_MAX).value);
  }

  // ------------------------------------------------------- after a reopen

  /** Merged tables carry fresh names, so a reopen lists the last one first. */
  ghost function MergedByName(tables: seq<Level>, groups: seq<seq<nat>>, floor: SeqNum): seq<Level>
    requires AllIndexes(groups, |tables|)
  {
    if groups == [] then []
    else MergedByName(tables, groups[1..], floor)
         + if |groups[0]| < 2 then [] else [Outcome(tables, groups[0], floor)]
  }

  /** Tables that were not merged keep their names, and so their order. */
  ghost function KeptByName(tables: seq<Level>, groups: seq<seq<nat>>, floor: SeqNum): seq<Level>
    requires AllIndexes(groups, |tables|)
  {
    if groups == [] then []
    else (if |groups[0]| < 2 then [Outcome(tables, groups[0], floor)] else [])
         + KeptByName(tables, groups[1..], floor)
  }

  /** The tables in the order in which a reopen after the compaction finds them. */
  ghost function Reopened(tables: seq<Level>, groups: seq<seq<nat>>, floor: SeqNum): seq<Level>
    requires AllIndexes(groups, |tables|)
  {
    MergedByName(tables, groups, floor) + KeptByName(tables, groups, floor)
  }

  ghost predicate OnlyFirstMerges(groups: seq<seq<nat>>) {
    forall g | 1 <= g < |groups| :: |groups[g]| < 2
  }
}
