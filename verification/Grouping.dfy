/** Greedy grouping of tables by similar size: compaction/group_by_similar_size.go
    and compaction/is_similar_size.go. */
module Grouping {

  const SIMILAR_SIZE_RATIO := 2

  predicate IsSimilarSize(a: nat, b: nat) {
    if a == 0 || b == 0 then false
    else if a < b then b / a <= SIMILAR_SIZE_RATIO
    else a / b <= SIMILAR_SIZE_RATIO
  }

  /** Integer division makes the effective bound "less than three times". */
  lemma IsSimilarSizeMeaning(a: nat, b: nat)
    ensures IsSimilarSize(a, b) == IsSimilarSize(b, a)
    ensures IsSimilarSize(a, b) <==> 0 < a < 3 * b && 0 < b < 3 * a
  {
    if 0 < a && 0 < b {
      DivBound(a, b);
      DivBound(b, a);
    }
  }

  lemma DivBound(a: nat, b: nat)
    requires 0 < b
    ensures a / b <= 2 <==> a < 3 * b
  {
    assert a == b * (a / b) + a % b;
    if a / b >= 3 { assert b * (a / b) >= b * 3; }
    if a / b <= 2 { assert b * (a / b) <= b * 2; }
  }

  type Relation = (nat, nat) -> bool

  /** Tables i and j have similar sizes; a table without a size is never similar. */
  function SimilarIn(sizes: seq<nat>): Relation {
    (i: nat, j: nat) => i < |sizes| && j < |sizes| && IsSimilarSize(sizes[i], sizes[j])
  }

  /** The tables from j on that are free and close to `seed`, in table order. */
  function Members(close: Relation, used: seq<bool>, seed: nat, j: nat): seq<nat>
    decreases |used| - j
  {
    if |used| <= j then []
    else if !used[j] && close(seed, j) then [j] + Members(close, used, seed, j + 1)
    else Members(close, used, seed, j + 1)
  }

  /** `used` once `seed` has taken its group. */
  function Taken(close: Relation, used: seq<bool>, seed: nat): (r: seq<bool>)
    ensures |r| == |used|
  {
    seq(|used|, x requires 0 <= x < |used| => used[x] || x == seed || (seed < x && close(seed, x)))
  }

  function GroupsFrom(close: Relation, used: seq<bool>, i: nat): seq<seq<nat>>
    decreases |used| - i
  {
    if |used| <= i then []
    else if used[i] then GroupsFrom(close, used, i + 1)
    else [[i] + Members(close, used, i, i + 1)] + GroupsFrom(close, Taken(close, used, i), i + 1)
  }

  function NoneUsed(n: nat): seq<bool> { seq(n, _ => false) }

  /** Tables, by index, in the groups the engine forms from their file sizes. */
  function Groups(sizes: seq<nat>): seq<seq<nat>> {
    GroupsFrom(SimilarIn(sizes), NoneUsed(|sizes|), 0)
  }

  // --------------------------------------------------- what the groups are

  ghost predicate Ascending(s: seq<nat>) {
    forall i, j | 0 <= i < j < |s| :: s[i] < s[j]
  }

  /** In table order, every member close to the first one, the seed. */
  ghost predicate IsGroup(group: seq<nat>, close: Relation) {
    && group != [] && Ascending(group)
    && forall x | x in group :: x == group[0] || close(group[0], x)
  }

  /** x comes after the seed of `group` and could not have joined it. */
  ghost predicate Rejects(group: seq<nat>, close: Relation, x: nat) {
    group != [] && group[0] < x && x !in group && !close(group[0], x)
  }

  ghost predicate Covered(groups: seq<seq<nat>>, x: nat) {
    exists g :: 0 <= g < |groups| && x in groups[g]
  }

  /** Every table in `tables`, and nothing else, is in exactly one group, and no
      member could have joined an earlier group. */
  ghost predicate IsGrouping(groups: seq<seq<nat>>, tables: set<nat>, close: Relation) {
    && (forall g | 0 <= g < |groups| :: IsGroup(groups[g], close))
    && (forall g, h, x | 0 <= g < h < |groups| && x in groups[h] :: Rejects(groups[g], close, x))
    && (forall x :: Covered(groups, x) <==> x in tables)
  }

  ghost function Free(used: seq<bool>, i: nat): set<nat> {
    set x: nat | i <= x < |used| && !used[x]
  }

  lemma {:induction false} MembersMeaning(close: Relation, used: seq<bool>, seed: nat, j: nat, x: nat)
    ensures x in Members(close, used, seed, j) <==> x in Free(used, j) && close(seed, x)
    decreases |used| - j
  {
    if j < |used| { MembersMeaning(close, used, seed, j + 1, x); }
  }

  lemma AscendingCons(x: nat, s: seq<nat>)
    requires Ascending(s) && forall y | y in s :: x < y
    ensures Ascending([x] + s)
  {
    assert forall j | 0 <= j < |s| :: s[j] in s;
  }

  lemma {:induction false} MembersAscending(close: Relation, used: seq<bool>, seed: nat, j: nat)
    ensures Ascending(Members(close, used, seed, j))
    decreases |used| - j
  {
    if j < |used| {
      var rest := Members(close, used, seed, j + 1);
      MembersAscending(close, used, seed, j + 1);
      forall x | x in rest
        ensures j < x
      {
        MembersMeaning(close, used, seed, j + 1, x);
      }
      AscendingCons(j, rest);
    }
  }

  lemma SeedGroup(close: Relation, used: seq<bool>, seed: nat)
    ensures IsGroup([seed] + Members(close, used, seed, seed + 1), close)
  {
    var rest := Members(close, used, seed, seed + 1);
    MembersAscending(close, used, seed, seed + 1);
    forall x | x in rest
      ensures seed < x && close(seed, x)
    {
      MembersMeaning(close, used, seed, seed + 1, x);
    }
    AscendingCons(seed, rest);
  }

  lemma CoveredCons(first: seq<nat>, rest: seq<seq<nat>>, x: nat)
    ensures Covered([first] + rest, x) <==> x in first || Covered(rest, x)
  {
    if x in first { assert ([first] + rest)[0] == first; }
    if Covered(rest, x) {
      var g :| 0 <= g < |rest| && x in rest[g];
      assert ([first] + rest)[g + 1] == rest[g];
    }
  }

  lemma {:induction false} GroupsFromIsGrouping(close: Relation, used: seq<bool>, i: nat)
    ensures IsGrouping(GroupsFrom(close, used, i), Free(used, i), close)
    decreases |used| - i
  {
    if i < |used| {
      if used[i] {
        GroupsFromIsGrouping(close, used, i + 1);
        assert Free(used, i) == Free(used, i + 1);
      } else {
        GroupsFromIsGrouping(close, Taken(close, used, i), i + 1);
        FirstGroup(close, used, i, GroupsFrom(close, Taken(close, used, i), i + 1));
      }
    }
  }

  lemma FirstGroup(close: Relation, used: seq<bool>, i: nat, rest: seq<seq<nat>>)
    requires i < |used| && !used[i]
    requires IsGrouping(rest, Free(Taken(close, used, i), i + 1), close)
    ensures IsGrouping([[i] + Members(close, used, i, i + 1)] + rest, Free(used, i), close)
  {
    var first := [i] + Members(close, used, i, i + 1);
    SeedGroup(close, used, i);
    forall h, x | 0 <= h < |rest| && x in rest[h]
      ensures Rejects(first, close, x)
    {
      assert Covered(rest, x);
      MembersMeaning(close, used, i, i + 1, x);
    }
    forall x
      ensures Covered([first] + rest, x) <==> x in Free(used, i)
    {
      CoveredCons(first, rest, x);
      MembersMeaning(close, used, i, i + 1, x);
    }
  }

  /** The groups always partition the tables, each in table order, every member
      similar in size to its seed. */
  lemma GroupsAreGrouping(sizes: seq<nat>)
    ensures IsGrouping(Groups(sizes), Free(NoneUsed(|sizes|), 0), SimilarIn(sizes))
    ensures forall x: nat :: Covered(Groups(sizes), x) <==> x < |sizes|
  {
    GroupsFromIsGrouping(SimilarIn(sizes), NoneUsed(|sizes|), 0);
  }

  // ------------------------------------------------------------- the loops

  /** The inner loop: one group around `seed`. */
  method CollectGroup(close: Relation, used: array<bool>, seed: nat) returns (group: seq<nat>)
    requires seed < used.Length
    modifies used
    ensures group == [seed] + Members(close, old(used[..]), seed, seed + 1)
    ensures used[..] == Taken(close, old(used[..]), seed)
  {
    ghost var was := used[..];
    group := [seed];
    used[seed] := true;
    for j := seed + 1 to used.Length
      invariant forall x | 0 <= x < j :: used[x] == Taken(close, was, seed)[x]
      invariant forall x | j <= x < used.Length :: used[x] == was[x]
      invariant group + Members(close, was, seed, j) == [seed] + Members(close, was, seed, seed + 1)
    {
      if !used[j] && close(seed, j) {
        group := group + [j];
        used[j] := true;
      }
    }
  }

  method GroupBySimilarSize(sizes: seq<nat>) returns (groups: seq<seq<nat>>)
    ensures groups == Groups(sizes)
  {
    var n, close := |sizes|, SimilarIn(sizes);
    var used := new bool[n](_ => false);
    assert used[..] == NoneUsed(n);
    groups := [];
    for i := 0 to n
      invariant groups + GroupsFrom(close, used[..], i) == Groups(sizes)
    {
      if !used[i] {
        var group := CollectGroup(close, used, i);
        groups := groups + [group];
      }
    }
  }
}
