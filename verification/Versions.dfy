/** What a read means, independently of where versions are stored.

    A version is an internal key with its value.  A level is any list of
    versions: the memtable or one SSTable.  The meaning of a set of versions is
    its newest version at every user key and snapshot; the meaning of a history
    of writes is its last write. */
module Versions {
  import opened Bytes
  import opened InternalKeys

  datatype Entry = Entry(key: InternalKey, value: bytes)
  type Level = seq<Entry>

  /** e is a version of k visible at snapshot s. */
  predicate Sees(e: Entry, k: bytes, s: SeqNum) {
    e.key.user == k && e.key.Visible(s)
  }

  ghost function Elems(level: Level): set<Entry> { set e | e in level }

  ghost function All(levels: seq<Level>): set<Entry> {
    set l, e | l in levels && e in l :: e
  }

  /** o is the newest version of k visible at s among the versions S. */
  ghost predicate Newest(S: set<Entry>, k: bytes, s: SeqNum, o: Option<Entry>) {
    match o
    case None => forall e | e in S :: !Sees(e, k, s)
    case Some(n) => n in S && Sees(n, k, s) && forall e | e in S && Sees(e, k, s) :: e.key.num <= n.key.num
  }

  /** Stored copies of one version agree on kind and value. */
  ghost predicate Agree(S: set<Entry>) {
    forall a, b | a in S && b in S && a.key.user == b.key.user && a.key.num == b.key.num :: a == b
  }

  lemma NewestIsUnique(S: set<Entry>, k: bytes, s: SeqNum, o: Option<Entry>, p: Option<Entry>)
    requires Agree(S) && Newest(S, k, s, o) && Newest(S, k, s, p)
    ensures o == p
  {
  }

  /** What the caller of Get sees: a tombstone reads as absent. */
  function Answer(o: Option<Entry>): Option<bytes> {
    if o.Some? && o.value.key.kind != KIND_DELETE then Some(o.value.value) else None
  }

  // ------------------------------------------------------------- one level

  predicate Sorted(level: Level) {
    forall i, j | 0 <= i < j < |level| :: KeyLeq(level[i].key, level[j].key)
  }

  predicate StrictlySorted(level: Level) {
    forall i, j | 0 <= i < j < |level| :: KeyLess(level[i].key, level[j].key)
  }

  predicate ValidKinds(level: Level) {
    forall e | e in level :: e.key.Valid()
  }

  /** Versions of one user key stand newest first. */
  ghost predicate NewestFirst(level: Level) {
    forall i, j | 0 <= i < j < |level| && level[i].key.user == level[j].key.user ::
      level[i].key.num >= level[j].key.num
  }

  lemma SortedIsNewestFirst(level: Level)
    requires Sorted(level)
    ensures NewestFirst(level)
  {
    forall i, j | 0 <= i < j < |level| && level[i].key.user == level[j].key.user
      ensures level[i].key.num >= level[j].key.num
    {
      assert KeyLeq(level[i].key, level[j].key);
    }
  }

  /** The first version of k visible at s, in list order. */
  function FirstVisible(level: Level, k: bytes, s: SeqNum): (o: Option<Entry>)
    ensures o.Some? ==> o.value in level && Sees(o.value, k, s)
    ensures o.None? ==> forall e | e in level :: !Sees(e, k, s)
  {
    if level == [] then None
    else if Sees(level[0], k, s) then Some(level[0])
    else FirstVisible(level[1..], k, s)
  }

  lemma {:induction false} FirstVisibleIsNewest(level: Level, k: bytes, s: SeqNum)
    requires NewestFirst(level)
    ensures Newest(Elems(level), k, s, FirstVisible(level, k, s))
  {
    if level != [] {
      FirstVisibleIsNewest(level[1..], k, s);
      assert level == [level[0]] + level[1..];
      forall e | e in level && Sees(level[0], k, s) && Sees(e, k, s)
        ensures e.key.num <= level[0].key.num
      {
        var j :| 0 <= j < |level| && level[j] == e;
      }
    }
  }

  // ----------------------------------------------------------- many levels

  /** Level order search: the first level holding a visible version decides. */
  function FirstHit(levels: seq<Level>, k: bytes, s: SeqNum): Option<Entry> {
    if levels == [] then None
    else
      var o := FirstVisible(levels[0], k, s);
      if o.Some? then o else FirstHit(levels[1..], k, s)
  }

  ghost predicate AllNewestFirst(levels: seq<Level>) {
    forall l | l in levels :: NewestFirst(l)
  }

  /** w is a newer version of v's user key. */
  predicate Newer(w: Entry, v: Entry) {
    w.key.user == v.key.user && v.key.num < w.key.num
  }

  /** Every version of `low` that is newer than some version in `high` is in `above`. */
  ghost predicate Dominates(above: set<Entry>, high: Level, low: Level) {
    forall v, w | v in high && w in low && Newer(w, v) :: w in above
  }

  /** The level invariant: whatever is newer than a version in a higher level
      is also present in that level. */
  ghost predicate Pairwise(levels: seq<Level>) {
    forall i, j | 0 <= i < j < |levels| :: Dominates(Elems(levels[i]), levels[i], levels[j])
  }

  /** Weaker: it is present in that level or in one above it. */
  ghost predicate Shadowed(levels: seq<Level>) {
    forall i, j | 0 <= i < j < |levels| :: Dominates(All(levels[..i + 1]), levels[i], levels[j])
  }

  lemma PairwiseIsShadowed(levels: seq<Level>)
    requires Pairwise(levels)
    ensures Shadowed(levels)
  {
    forall i, j | 0 <= i < j < |levels|
      ensures Dominates(All(levels[..i + 1]), levels[i], levels[j])
    {
      assert levels[..i + 1][i] == levels[i];
      assert Elems(levels[i]) <= All(levels[..i + 1]);
    }
  }

  /** FirstHit answers from the first level that sees k at all. */
  lemma {:induction false} FirstHitLevel(levels: seq<Level>, k: bytes, s: SeqNum) returns (i: nat)
    ensures i <= |levels|
    ensures forall h, e | 0 <= h < i && e in levels[h] :: !Sees(e, k, s)
    ensures i == |levels| ==> FirstHit(levels, k, s).None?
    ensures i < |levels| ==> FirstHit(levels, k, s).Some? && FirstHit(levels, k, s) == FirstVisible(levels[i], k, s)
  {
    if levels == [] || FirstVisible(levels[0], k, s).Some? {
      i := 0;
    } else {
      i := FirstHitLevel(levels[1..], k, s);
      i := i + 1;
    }
  }

  lemma FirstHitIsNewest(levels: seq<Level>, k: bytes, s: SeqNum)
    requires AllNewestFirst(levels) && Shadowed(levels)
    ensures Newest(All(levels), k, s, FirstHit(levels, k, s))
  {
    var i := FirstHitLevel(levels, k, s);
    if i < |levels| {
      var v := FirstHit(levels, k, s).value;
      forall w | w in All(levels) && Sees(w, k, s)
        ensures w.key.num <= v.key.num
      {
        NothingNewerBelow(levels, k, s, i, w);
      }
    }
  }

  lemma NothingNewerBelow(levels: seq<Level>, k: bytes, s: SeqNum, i: nat, w: Entry)
    requires AllNewestFirst(levels) && Shadowed(levels)
    requires i < |levels| && FirstVisible(levels[i], k, s).Some?
    requires forall h, e | 0 <= h < i && e in levels[h] :: !Sees(e, k, s)
    requires w in All(levels) && Sees(w, k, s)
    ensures w.key.num <= FirstVisible(levels[i], k, s).value.key.num
  {
    FirstVisibleIsNewest(levels[i], k, s);
    var j :| 0 <= j < |levels| && w in levels[j];
    assert i < j ==> Dominates(All(levels[..i + 1]), levels[i], levels[j]);
    assert w in All(levels[..i + 1]) ==> w in levels[i];
  }

  /** Level order search finds the newest version, for every key and snapshot. */
  ghost predicate HitsNewest(levels: seq<Level>) {
    forall k: bytes, s: SeqNum :: Newest(All(levels), k, s, FirstHit(levels, k, s))
  }

  /** Level order search is right for every key at every snapshot exactly when
      the levels are shadowed. */
  lemma FirstHitIsNewestIff(levels: seq<Level>)
    requires AllNewestFirst(levels) && Agree(All(levels))
    ensures HitsNewest(levels) <==> Shadowed(levels)
  {
    if Shadowed(levels) {
      forall k: bytes, s: SeqNum
        ensures Newest(All(levels), k, s, FirstHit(levels, k, s))
      {
        FirstHitIsNewest(levels, k, s);
      }
    }
    if HitsNewest(levels) {
      forall i, j | 0 <= i < j < |levels|
        ensures Dominates(All(levels[..i + 1]), levels[i], levels[j])
      {
        forall v, w | v in levels[i] && w in levels[j] && Newer(w, v)
          ensures w in All(levels[..i + 1])
        {
          CorrectHitIsShadowed(levels, i, v, w);
        }
      }
    }
  }

  lemma CorrectHitIsShadowed(levels: seq<Level>, i: nat, v: Entry, w: Entry)
    requires Agree(All(levels))
    requires i < |levels| && v in levels[i] && w in All(levels) && Newer(w, v)
    requires Newest(All(levels), w.key.user, w.key.num, FirstHit(levels, w.key.user, w.key.num))
    ensures w in All(levels[..i + 1])
  {
    var k, s := w.key.user, w.key.num;
    var h := FirstHitLevel(levels, k, s);
    assert Sees(v, k, s) && h <= i;
    NewestIsUnique(All(levels), k, s, FirstHit(levels, k, s), Some(w));
    assert levels[..i + 1][h] == levels[h];
  }

  // --------------------------------------------------------------- history

  /** Write number n carries sequence number n. */
  ghost predicate WellNumbered(history: seq<Entry>) {
    forall i | 0 <= i < |history| :: history[i].key.num == i + 1
  }

  /** The last write to k with a sequence number of at most s. */
  function LastWrite(history: seq<Entry>, k: bytes, s: SeqNum): (o: Option<Entry>)
    ensures o.Some? ==> o.value in history && Sees(o.value, k, s)
    ensures o.None? ==> forall e | e in history :: !Sees(e, k, s)
  {
    if history == [] then None
    else
      var last := |history| - 1;
      if Sees(history[last], k, s) then Some(history[last]) else LastWrite(history[..last], k, s)
  }

  /** One more write: the key answers with it from its number on, and everything
      else, other keys and earlier snapshots, as before. */
  ghost predicate Updates(was: seq<Entry>, now: seq<Entry>, key: bytes, answer: Option<bytes>) {
    && |now| == |was| + 1
    && (forall s: SeqNum | |now| <= s :: Answer(LastWrite(now, key, s)) == answer)
    && (forall k: bytes, s: SeqNum | k != key || s <= |was| :: LastWrite(now, k, s) == LastWrite(was, k, s))
  }

  lemma WriteUpdates(was: seq<Entry>, e: Entry)
    requires e.key.num == |was| + 1
    ensures Updates(was, was + [e], e.key.user, Answer(Some(e)))
  {
    assert (was + [e])[..|was|] == was;
  }

  lemma {:induction false} LastWriteIsNewest(history: seq<Entry>, k: bytes, s: SeqNum)
    requires WellNumbered(history)
    ensures Newest(Elems(history), k, s, LastWrite(history, k, s))
  {
    if history != [] {
      var last := |history| - 1;
      LastWriteIsNewest(history[..last], k, s);
      assert history == history[..last] + [history[last]];
    }
  }

  lemma HistoryAgrees(history: seq<Entry>, S: set<Entry>)
    requires WellNumbered(history) && S <= Elems(history)
    ensures Agree(S)
  {
  }

  /** S still holds every write of the history that a read at or above floor
      can be answered with. */
  ghost predicate Covers(S: set<Entry>, history: seq<Entry>, floor: int) {
    forall k: bytes, s: SeqNum | floor <= s && LastWrite(history, k, s).Some? ::
      LastWrite(history, k, s).value in S
  }

  /** Reading a covering subset of the history is reading the history. */
  lemma CoveringReadsHistory(S: set<Entry>, history: seq<Entry>, floor: int, k: bytes, s: SeqNum, o: Option<Entry>)
    requires WellNumbered(history) && S <= Elems(history) && Covers(S, history, floor) && floor <= s
    requires Newest(S, k, s, o)
    ensures o == LastWrite(history, k, s)
  {
    LastWriteIsNewest(history, k, s);
    HistoryAgrees(history, S);
    NewestIsUnique(S, k, s, o, LastWrite(history, k, s));
  }

  /** Writes numbered above s do not change what s reads. */
  lemma {:induction false} LastWriteStable(history: seq<Entry>, more: seq<Entry>, k: bytes, s: SeqNum)
    requires WellNumbered(history + more) && s <= |history|
    ensures LastWrite(history + more, k, s) == LastWrite(history, k, s)
  {
    if more == [] {
      assert history + more == history;
    } else {
      var last := |more| - 1;
      assert (history + more)[..|history| + last] == history + more[..last];
      assert history + more == (history + more[..last]) + [more[last]];
      assert (history + more)[|history| + last].key.num == |history| + last + 1;
      assert WellNumbered(history + more[..last]) by {
        forall i | 0 <= i < |history| + last
          ensures (history + more[..last])[i].key.num == i + 1
        {
          assert (history + more)[i].key.num == i + 1;
        }
      }
      LastWriteStable(history, more[..last], k, s);
    }
  }
}
