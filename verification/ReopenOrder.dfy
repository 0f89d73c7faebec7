/** In which order a reopen finds the groups of a compaction: merged tables have
    newer names than all others, and the last one the newest. */
module ReopenOrders {
  import opened Bytes
  import opened InternalKeys
  import opened Versions
  import opened Grouping
  import opened Compaction

  ghost function MergedGroups(groups: seq<seq<nat>>): seq<seq<nat>> {
    if groups == [] then []
    else MergedGroups(groups[1..]) + if |groups[0]| < 2 then [] else [groups[0]]
  }

  ghost function SingleGroups(groups: seq<seq<nat>>): seq<seq<nat>> {
    if groups == [] then []
    else (if |groups[0]| < 2 then [groups[0]] else []) + SingleGroups(groups[1..])
  }

  ghost function ReopenOrder(groups: seq<seq<nat>>): seq<seq<nat>> { MergedGroups(groups) + SingleGroups(groups) }

  lemma {:induction false} MergedMembers(groups: seq<seq<nat>>, x: seq<nat>)
    ensures x in MergedGroups(groups) <==> x in groups && |x| >= 2
  {
    if groups != [] {
      assert groups == [groups[0]] + groups[1..];
      MergedMembers(groups[1..], x);
    }
  }

  lemma {:induction false} SingleMembers(groups: seq<seq<nat>>, x: seq<nat>)
    ensures x in SingleGroups(groups) <==> x in groups && |x| < 2
  {
    if groups != [] {
      assert groups == [groups[0]] + groups[1..];
      SingleMembers(groups[1..], x);
    }
  }

  lemma OrderMembers(groups: seq<seq<nat>>, x: seq<nat>)
    ensures x in ReopenOrder(groups) <==> x in groups
  {
    MergedMembers(groups, x);
    SingleMembers(groups, x);
  }

  // ------------------------------------------------- it is a partition, too

  ghost predicate Disjoint(groups: seq<seq<nat>>) {
    forall g, h, x | 0 <= g < h < |groups| && x in groups[h] :: x !in groups[g]
  }

  lemma ApartAppend(a: seq<seq<nat>>, b: seq<seq<nat>>)
    requires Disjoint(a) && Disjoint(b)
    requires forall p, q, x | p in a && q in b && x in q :: x !in p
    ensures Disjoint(a + b)
  {
    var all := a + b;
    forall g, h, x | 0 <= g < h < |all| && x in all[h]
      ensures x !in all[g]
    {
      if g < |a| <= h { assert a[g] in a && b[h - |a|] in b; }
    }
  }

  lemma TailApart(groups: seq<seq<nat>>)
    requires groups != [] && Disjoint(groups)
    ensures Disjoint(groups[1..])
    ensures forall p, x | p in groups[1..] && x in p :: x !in groups[0]
  {
  }

  lemma {:induction false} MergedApart(groups: seq<seq<nat>>)
    requires Disjoint(groups)
    ensures Disjoint(MergedGroups(groups))
  {
    if groups != [] {
      TailApart(groups);
      MergedApart(groups[1..]);
      var last := if |groups[0]| < 2 then [] else [groups[0]];
      forall p, q, x | p in MergedGroups(groups[1..]) && q in last && x in q
        ensures x !in p
      {
        MergedMembers(groups[1..], p);
      }
      ApartAppend(MergedGroups(groups[1..]), last);
    }
  }

  lemma {:induction false} SingleApart(groups: seq<seq<nat>>)
    requires Disjoint(groups)
    ensures Disjoint(SingleGroups(groups))
  {
    if groups != [] {
      TailApart(groups);
      SingleApart(groups[1..]);
      var first := if |groups[0]| < 2 then [groups[0]] else [];
      forall p, q, x | p in first && q in SingleGroups(groups[1..]) && x in q
        ensures x !in p
      {
        SingleMembers(groups[1..], q);
      }
      ApartAppend(first, SingleGroups(groups[1..]));
    }
  }

  lemma OrderApart(groups: seq<seq<nat>>)
    requires Disjoint(groups)
    ensures Disjoint(ReopenOrder(groups))
  {
    MergedApart(groups);
    SingleApart(groups);
    forall p, q, x | p in MergedGroups(groups) && q in SingleGroups(groups) && x in q
      ensures x !in p
    {
      MergedMembers(groups, p);
      SingleMembers(groups, q);
      var i :| 0 <= i < |groups| && groups[i] == p;
      var j :| 0 <= j < |groups| && groups[j] == q;
    }
    ApartAppend(MergedGroups(groups), SingleGroups(groups));
  }

  lemma OrderPartition(groups: seq<seq<nat>>, n: nat)
    requires AllIndexes(groups, n) && Partition(groups, n)
    ensures AllIndexes(ReopenOrder(groups), n) && Partition(ReopenOrder(groups), n)
  {
    var order := ReopenOrder(groups);
    OrderApart(groups);
    forall g | 0 <= g < |order|
      ensures order[g] in groups
    {
      OrderMembers(groups, order[g]);
    }
    forall x: nat | x < n
      ensures Covered(order, x)
    {
      assert Covered(groups, x);
      var g :| 0 <= g < |groups| && x in groups[g];
      OrderMembers(groups, groups[g]);
    }
  }

  // -------------------------------------------------- what a reopen finds

  lemma {:induction false} MergedOutcomes(tables: seq<Level>, groups: seq<seq<nat>>, floor: SeqNum)
    requires AllIndexes(groups, |tables|) && AllIndexes(MergedGroups(groups), |tables|)
    ensures MergedByName(tables, groups, floor) == Outcomes(tables, MergedGroups(groups), floor)
  {
    if groups != [] {
      assert forall g | 0 <= g < |MergedGroups(groups[1..])| :: MergedGroups(groups)[g] == MergedGroups(groups[1..])[g];
      MergedOutcomes(tables, groups[1..], floor);
    }
  }

  lemma {:induction false} SingleOutcomes(tables: seq<Level>, groups: seq<seq<nat>>, floor: SeqNum)
    requires AllIndexes(groups, |tables|) && AllIndexes(SingleGroups(groups), |tables|)
    ensures KeptByName(tables, groups, floor) == Outcomes(tables, SingleGroups(groups), floor)
  {
    if groups != [] {
      var first := if |groups[0]| < 2 then [groups[0]] else [];
      assert forall g | 0 <= g < |SingleGroups(groups[1..])| ::
          SingleGroups(groups)[|first| + g] == SingleGroups(groups[1..])[g];
      SingleOutcomes(tables, groups[1..], floor);
    }
  }

  /** A reopen finds the outcomes in this order. */
  lemma ReopenedIsOrder(tables: seq<Level>, groups: seq<seq<nat>>, floor: SeqNum)
    requires AllIndexes(groups, |tables|) && AllIndexes(ReopenOrder(groups), |tables|)
    ensures Reopened(tables, groups, floor) == Outcomes(tables, ReopenOrder(groups), floor)
  {
    var a, b := MergedGroups(groups), SingleGroups(groups);
    assert forall g | 0 <= g < |a| :: (a + b)[g] == a[g];
    assert forall g | 0 <= g < |b| :: (a + b)[|a| + g] == b[g];
    MergedOutcomes(tables, groups, floor);
    SingleOutcomes(tables, groups, floor);
  }

  // ----------------------------------------------------- when it is in order

  /** That order is the table order exactly when the groups come out in order and
      no group after the first merges. */
  lemma OrderIff(groups: seq<seq<nat>>, n: nat)
    requires AllIndexes(groups, n) && Partition(groups, n)
    requires groups != [] ==> groups[0][0] == 0
    ensures InOrder(ReopenOrder(groups)) <==> InOrder(groups) && OnlyFirstMerges(groups)
  {
    if OnlyFirstMerges(groups) {
      OnlyFirstOrder(groups);
    } else {
      LaterIsFirst(groups, n);
    }
  }

  lemma {:induction false} NoneMerge(groups: seq<seq<nat>>)
    requires forall g | 0 <= g < |groups| :: |groups[g]| < 2
    ensures MergedGroups(groups) == [] && SingleGroups(groups) == groups
  {
    if groups != [] { NoneMerge(groups[1..]); }
  }

  lemma OnlyFirstOrder(groups: seq<seq<nat>>)
    requires OnlyFirstMerges(groups)
    ensures ReopenOrder(groups) == groups
  {
    if groups != [] { NoneMerge(groups[1..]); }
  }

  /** A later merge comes before the first group. */
  lemma LaterComesFirst(groups: seq<seq<nat>>, g: nat) returns (i: nat, j: nat)
    requires 1 <= g < |groups| && |groups[g]| >= 2
    ensures i < j < |ReopenOrder(groups)|
    ensures ReopenOrder(groups)[i] == groups[g] && ReopenOrder(groups)[j] == groups[0]
  {
    var later := MergedGroups(groups[1..]);
    assert groups[1..][g - 1] == groups[g];
    MergedMembers(groups[1..], groups[g]);
    i :| 0 <= i < |later| && later[i] == groups[g];
    j := |later|;
  }

  lemma LaterIsFirst(groups: seq<seq<nat>>, n: nat)
    requires AllIndexes(groups, n) && Partition(groups, n) && !OnlyFirstMerges(groups) && groups[0][0] == 0
    ensures !InOrder(ReopenOrder(groups))
  {
    var g :| 1 <= g < |groups| && |groups[g]| >= 2;
    var i, j := LaterComesFirst(groups, g);
    assert groups[g][0] in ReopenOrder(groups)[i] && 0 in ReopenOrder(groups)[j];
  }

  /** When only the first group merges, a reopen restores the order in memory. */
  lemma ReopenRestoresOrder(tables: seq<Level>, groups: seq<seq<nat>>, floor: SeqNum)
    requires AllIndexes(groups, |tables|) && OnlyFirstMerges(groups)
    ensures Reopened(tables, groups, floor) == Outcomes(tables, groups, floor)
  {
    OnlyFirstOrder(groups);
    ReopenedIsOrder(tables, groups, floor);
  }

  /** A later group that merges gets a newer name than the first group: the
      lookup after a reopen is stale. */
  lemma LaterMergeFails(tables: seq<Level>, groups: seq<seq<nat>>, floor: SeqNum, g: nat,
                        x: nat, y: nat, older: Entry, newer: Entry)
    requires AllIndexes(groups, |tables|) && Partition(groups, |tables|) && Crossing(tables, x, y, older, newer)
    requires 1 <= g < |groups| && |groups[g]| >= 2 && x in groups[g] && y in groups[0]
    ensures FirstHit(tables, older.key.user, SEQ_NUM_MAX) == Some(newer)
    ensures FirstHit(Reopened(tables, groups, floor), older.key.user, SEQ_NUM_MAX) == Some(older)
  {
    OrderPartition(groups, |tables|);
    ReopenedIsOrder(tables, groups, floor);
    var i, j := LaterComesFirst(groups, g);
    OutOfOrderFails(tables, ReopenOrder(groups), floor, i, j, x, y, older, newer);
  }
}
