/** What it means for the groups of a compaction to come out in table order. */
module GroupOrder {
  import opened Merging
  import opened Grouping
  import opened Compaction

  function Indices(n: nat): (r: seq<nat>)
    ensures |r| == n && forall i | 0 <= i < n :: r[i] == i
  {
    seq(n, i => i)
  }

  /** A strictly ascending list of exactly the numbers below n is 0, 1, .. n-1. */
  lemma {:induction false} AscendingIsIndices(s: seq<nat>, n: nat)
    requires Ascending(s) && (forall x: nat | x in s :: x < n) && (forall x: nat | x < n :: x in s)
    ensures s == Indices(n)
  {
    if s == [] {
      assert n > 0 ==> 0 in s;
    } else {
      var last := |s| - 1;
      assert s[last] in s && s[last] < n;
      assert n - 1 in s;
      var i :| 0 <= i < |s| && s[i] == n - 1;
      var front := s[..last];
      forall x: nat | x in front
        ensures x < n - 1
      {
      }
      forall x: nat | x < n - 1
        ensures x in front
      {
        assert x in s;
        var j :| 0 <= j < |s| && s[j] == x;
        assert front[j] == x;
      }
      AscendingIsIndices(front, n - 1);
      assert s == front + [s[last]];
    }
  }

  lemma ConcatAscending(groups: seq<seq<nat>>)
    requires InOrder(groups) && forall g | 0 <= g < |groups| :: Ascending(groups[g])
    ensures Ascending(Concat(groups))
  {
    var c := Concat(groups);
    forall i, j | 0 <= i < j < |c|
      ensures c[i] < c[j]
    {
      var a, p := ConcatLocate(groups, i);
      var b, q := ConcatLocate(groups, j);
      if b < a { OffsetGrows(groups, b, a); }
      if a < b { assert groups[a][p] in groups[a] && groups[b][q] in groups[b]; }
    }
  }

  lemma ConcatMembers(groups: seq<seq<nat>>, x: nat)
    ensures x in Concat(groups) <==> Covered(groups, x)
  {
    if x in Concat(groups) {
      var i :| 0 <= i < |Concat(groups)| && Concat(groups)[i] == x;
      var a, p := ConcatLocate(groups, i);
      assert groups[a][p] in groups[a];
    }
    if Covered(groups, x) {
      var g :| 0 <= g < |groups| && x in groups[g];
      var p :| 0 <= p < |groups[g]| && groups[g][p] == x;
      ConcatAt(groups, g, p);
    }
  }

  /** Groups are in order exactly when, one after the other, they list the tables. */
  lemma InOrderIffConcat(groups: seq<seq<nat>>, n: nat)
    requires AllIndexes(groups, n) && Partition(groups, n)
    ensures InOrder(groups) <==> Concat(groups) == Indices(n)
  {
    if InOrder(groups) {
      ConcatAscending(groups);
      forall x: nat | x in Concat(groups)
        ensures x < n
      {
        ConcatMembers(groups, x);
      }
      forall x: nat | x < n
        ensures x in Concat(groups)
      {
        assert Covered(groups, x);
        ConcatMembers(groups, x);
      }
      AscendingIsIndices(Concat(groups), n);
    }
    if Concat(groups) == Indices(n) {
      forall g, h, x, y | 0 <= g < h < |groups| && x in groups[g] && y in groups[h]
        ensures x < y
      {
        var p :| 0 <= p < |groups[g]| && groups[g][p] == x;
        var q :| 0 <= q < |groups[h]| && groups[h][q] == y;
        ConcatAt(groups, g, p);
        ConcatAt(groups, h, q);
        OffsetGrows(groups, g, h);
      }
    }
  }

  lemma {:induction false} OffsetOfSingles(groups: seq<seq<nat>>, g: nat)
    requires 1 <= g <= |groups| && (forall h | 1 <= h < |groups| :: |groups[h]| == 1)
    ensures Offset(groups, g) == |groups[0]| + g - 1
  {
    if g > 1 {
      var tail := groups[1..];
      OffsetOfSingles(tail, g - 1);
      assert |tail[0]| == 1;
    } else {
      assert Offset(groups[1..], 0) == 0;
    }
  }

  lemma {:induction false} ConcatLength(groups: seq<seq<nat>>)
    ensures |Concat(groups)| == Offset(groups, |groups|)
  {
    if groups != [] { ConcatLength(groups[1..]); }
  }

  /** When only the first group merges and groups are in order, that group is
      the newest tables and every other group is one table, in its place. */
  lemma FirstGroupIsPrefix(groups: seq<seq<nat>>, n: nat)
    requires AllIndexes(groups, n) && Partition(groups, n) && InOrder(groups) && OnlyFirstMerges(groups)
    requires n > 0
    ensures groups != [] && |groups[0]| <= n && |groups| == n - |groups[0]| + 1
    ensures groups[0] == Indices(|groups[0]|)
    ensures forall g | 1 <= g < |groups| :: groups[g] == [|groups[0]| + g - 1]
  {
    InOrderIffConcat(groups, n);
    assert Covered(groups, 0);
    forall h | 1 <= h < |groups|
      ensures |groups[h]| == 1
    {
      assert groups[h] != [];
    }
    ConcatLength(groups);
    OffsetOfSingles(groups, |groups|);
    forall g | 1 <= g < |groups|
      ensures groups[g] == [|groups[0]| + g - 1]
    {
      OffsetOfSingles(groups, g);
      ConcatAt(groups, g, 0);
    }
    forall i | 0 <= i < |groups[0]|
      ensures groups[0][i] == i
    {
      ConcatAt(groups, 0, i);
    }
  }
}
