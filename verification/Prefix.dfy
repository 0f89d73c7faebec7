/** When a crash after a table's install leaves one prefix for all keys. */
module Prefixes {
  import opened Bytes
  import opened InternalKeys
  import opened Versions
  import opened MemTables
  import opened Framing
  import opened Stores
  import opened StoreInvariants
  import opened Recovery

  // ---------------------------------------------------------------- prefixes

  /** Every key reads as after the first n writes. */
  ghost predicate ReadsAsPrefix(st: Store, history: seq<Entry>, n: nat) {
    n <= |history| && forall k: bytes :: HitsAs(st, history[..n], k)
  }

  ghost predicate HitsAs(st: Store, past: seq<Entry>, k: bytes) {
    Hit(st, k, SEQ_NUM_MAX) == LastWrite(past, k, SEQ_NUM_MAX)
  }

  ghost predicate NoneBetween(history: seq<Entry>, a: nat, b: nat, k: bytes)
    requires a <= b <= |history|
  {
    forall i | a <= i < b :: history[i].key.user != k
  }

  lemma PrefixesAgree(history: seq<Entry>, a: nat, b: nat, k: bytes)
    requires WellNumbered(history) && a <= b <= |history| < SEQ_NUM_MAX && NoneBetween(history, a, b, k)
    ensures LastWrite(history[..a], k, SEQ_NUM_MAX) == LastWrite(history[..b], k, SEQ_NUM_MAX)
  {
    PrefixNumbered(history, a);
    PrefixNumbered(history, b);
    LastWriteIsNewest(history[..b], k, SEQ_NUM_MAX);
    LastWriteIsNewest(history[..a], k, SEQ_NUM_MAX);
    assert forall e | e in history[..a] :: e in history[..b] && e in Elems(history[..b]);
    forall e | e in history[..b] && e.key.user == k
      ensures e in Elems(history[..a])
    {
      var i :| 0 <= i < b && history[i] == e;
      assert history[..a][i] == e;
    }
    HistoryAgrees(history[..b], Elems(history[..b]));
    assert Newest(Elems(history[..b]), k, SEQ_NUM_MAX, LastWrite(history[..a], k, SEQ_NUM_MAX));
    NewestIsUnique(Elems(history[..b]), k, SEQ_NUM_MAX,
                   LastWrite(history[..a], k, SEQ_NUM_MAX), LastWrite(history[..b], k, SEQ_NUM_MAX));
  }

  /** A write to k makes a difference. */
  lemma PrefixesDiffer(history: seq<Entry>, a: nat, b: nat, k: bytes, i: nat)
    requires WellNumbered(history) && a <= i < b <= |history| < SEQ_NUM_MAX && history[i].key.user == k
    ensures LastWrite(history[..a], k, SEQ_NUM_MAX) != LastWrite(history[..b], k, SEQ_NUM_MAX)
  {
    PrefixNumbered(history, a);
    PrefixNumbered(history, b);
    LastWriteIsNewest(history[..b], k, SEQ_NUM_MAX);
    assert history[..b][i] == history[i] && history[i] in Elems(history[..b]);
    var o := LastWrite(history[..a], k, SEQ_NUM_MAX);
    if o.Some? { HistoryMember(history[..a], o.value); }
  }

  // ------------------------------------------------------- what is left over

  /** Of k a record is left. */
  ghost predicate HasRecord(logged: seq<Entry>, r: nat, k: bytes)
    requires r <= |logged|
  {
    exists i :: 0 <= i < r && logged[i].key.user == k
  }

  /** Every lost record of a key that keeps a record comes after every lost
      record of the other keys. */
  ghost predicate OnePrefix(logged: seq<Entry>, r: nat)
    requires r <= |logged|
  {
    forall i, j | r <= i < |logged| && r <= j < |logged|
               && HasRecord(logged, r, logged[i].key.user) && !HasRecord(logged, r, logged[j].key.user) :: j < i
  }

  lemma CutSafeIsOnePrefix(logged: seq<Entry>, r: nat)
    requires r <= |logged| && CutSafe(logged, r)
    ensures OnePrefix(logged, r)
  {
  }

  lemma FoundIffRecord(logged: seq<Entry>, r: nat, k: bytes)
    requires Ascends(logged) && r <= |logged|
    ensures FirstVisible(InsertAll(logged[..r]), k, SEQ_NUM_MAX).Some? <==> HasRecord(logged, r, k)
  {
    var kept, mem := logged[..r], InsertAll(logged[..r]);
    AscendsDistinct(kept);
    var o := FirstVisible(mem, k, SEQ_NUM_MAX);
    if o.Some? {
      InsertAllMembers(kept, o.value);
      var i :| 0 <= i < r && kept[i] == o.value;
      assert logged[i].key.user == k;
    }
    if HasRecord(logged, r, k) {
      var i :| 0 <= i < r && logged[i].key.user == k;
      assert kept[i] in kept;
      InsertAllMembers(kept, kept[i]);
    }
  }

  /** The lost records are the last writes. */
  ghost predicate LostAreLast(history: seq<Entry>, logged: seq<Entry>, r: nat) {
    && r <= |logged| && |logged| - r <= |history|
    && logged[r..] == history[|history| - (|logged| - r)..]
  }

  lemma LostAt(history: seq<Entry>, logged: seq<Entry>, r: nat, j: nat)
    requires LostAreLast(history, logged, r) && r <= j < |logged|
    ensures history[|history| - (|logged| - j)] == logged[j]
  {
    assert logged[r..][j - r] == logged[j];
  }

  /** What k reads: the writes before the lost ones, or all of them. */
  lemma DecidesIs(history: seq<Entry>, logged: seq<Entry>, levels: seq<Level>, r: nat, k: bytes)
    requires ReadsOf(history, logged, levels, r, k) && LostAreLast(history, logged, r)
    ensures var n := if HasRecord(logged, r, k) then |history| - (|logged| - r) else |history|;
            Decides(logged, levels, r, k) == LastWrite(history[..n], k, SEQ_NUM_MAX)
  {
    FoundIffRecord(logged, r, k);
    assert history[..|history|] == history;
    var o := FirstVisible(InsertAll(logged[..r]), k, SEQ_NUM_MAX);
    if o.Some? && r < |logged| {
      LeftNewest(logged, r, k, o.value);
      CutHit(history, logged, levels, r, k, o.value);
      PrefixRead(history, logged[r].key.num - 1, k);
    } else {
      assert r == |logged| ==> logged[..r] == logged;
    }
  }

  // --------------------------------------------------------- the equivalence

  ghost predicate ReadsAll(history: seq<Entry>, logged: seq<Entry>, levels: seq<Level>, r: nat) {
    && WellNumbered(history) && |history| < SEQ_NUM_MAX && LostAreLast(history, logged, r)
    && forall k: bytes :: ReadsOf(history, logged, levels, r, k)
  }

  ghost predicate DecidesAs(history: seq<Entry>, logged: seq<Entry>, levels: seq<Level>, r: nat, n: nat, k: bytes)
    requires n <= |history| && r <= |logged|
  {
    Decides(logged, levels, r, k) == LastWrite(history[..n], k, SEQ_NUM_MAX)
  }

  /** The first lost record of a key that keeps a record. */
  ghost function FirstCut(logged: seq<Entry>, r: nat, i: nat): (c: nat)
    requires r <= i <= |logged|
    ensures i <= c <= |logged| && (c < |logged| ==> HasRecord(logged, r, logged[c].key.user))
    ensures forall j | i <= j < c :: !HasRecord(logged, r, logged[j].key.user)
    decreases |logged| - i
  {
    if i == |logged| || HasRecord(logged, r, logged[i].key.user) then i else FirstCut(logged, r, i + 1)
  }

  lemma PrefixExists(history: seq<Entry>, logged: seq<Entry>, levels: seq<Level>, r: nat, k: bytes) returns (n: nat)
    requires ReadsAll(history, logged, levels, r) && OnePrefix(logged, r)
    ensures n == |history| - (|logged| - FirstCut(logged, r, r)) && n <= |history| <= n + (|logged| - r)
    ensures DecidesAs(history, logged, levels, r, n, k)
  {
    var c, low := FirstCut(logged, r, r), |history| - (|logged| - r);
    n := |history| - (|logged| - c);
    assert ReadsOf(history, logged, levels, r, k);
    DecidesIs(history, logged, levels, r, k);
    if HasRecord(logged, r, k) {
      NoneBeforeCut(history, logged, r, k);
      PrefixesAgree(history, low, n, k);
    } else {
      NoneAfterCut(history, logged, r, k);
      PrefixesAgree(history, n, |history|, k);
    }
  }

  lemma NoneBeforeCut(history: seq<Entry>, logged: seq<Entry>, r: nat, k: bytes)
    requires LostAreLast(history, logged, r) && HasRecord(logged, r, k)
    ensures NoneBetween(history, |history| - (|logged| - r), |history| - (|logged| - FirstCut(logged, r, r)), k)
  {
    forall i | |history| - (|logged| - r) <= i < |history| - (|logged| - FirstCut(logged, r, r))
      ensures history[i].key.user != k
    {
      LostAt(history, logged, r, |logged| - (|history| - i));
    }
  }

  lemma NoneAfterCut(history: seq<Entry>, logged: seq<Entry>, r: nat, k: bytes)
    requires LostAreLast(history, logged, r) && OnePrefix(logged, r) && !HasRecord(logged, r, k)
    ensures NoneBetween(history, |history| - (|logged| - FirstCut(logged, r, r)), |history|, k)
  {
    forall i | |history| - (|logged| - FirstCut(logged, r, r)) <= i < |history|
      ensures history[i].key.user != k
    {
      LostAt(history, logged, r, |logged| - (|history| - i));
    }
  }

  lemma PrefixForAll(history: seq<Entry>, logged: seq<Entry>, levels: seq<Level>, r: nat) returns (n: nat)
    requires ReadsAll(history, logged, levels, r) && OnePrefix(logged, r)
    ensures n <= |history| <= n + (|logged| - r)
    ensures forall k: bytes :: DecidesAs(history, logged, levels, r, n, k)
  {
    n := PrefixExists(history, logged, levels, r, []);
    forall k: bytes
      ensures DecidesAs(history, logged, levels, r, n, k)
    {
      var m := PrefixExists(history, logged, levels, r, k);
    }
  }

  lemma PrefixOrders(history: seq<Entry>, logged: seq<Entry>, levels: seq<Level>, r: nat, n: nat)
    requires ReadsAll(history, logged, levels, r) && n <= |history|
    requires forall k: bytes :: DecidesAs(history, logged, levels, r, n, k)
    ensures OnePrefix(logged, r)
  {
    forall i, j | r <= i < |logged| && r <= j < |logged|
               && HasRecord(logged, r, logged[i].key.user) && !HasRecord(logged, r, logged[j].key.user)
      ensures j < i
    {
      CutBefore(history, logged, levels, r, n, i);
      OtherBehind(history, logged, levels, r, n, j);
    }
  }

  lemma CutBefore(history: seq<Entry>, logged: seq<Entry>, levels: seq<Level>, r: nat, n: nat, i: nat)
    requires ReadsAll(history, logged, levels, r) && n <= |history| && r <= i < |logged|
    requires HasRecord(logged, r, logged[i].key.user) && DecidesAs(history, logged, levels, r, n, logged[i].key.user)
    ensures n <= |history| - (|logged| - i)
  {
    var k, at := logged[i].key.user, |history| - (|logged| - i);
    assert ReadsOf(history, logged, levels, r, k);
    DecidesIs(history, logged, levels, r, k);
    LostAt(history, logged, r, i);
    if at < n { PrefixesDiffer(history, |history| - (|logged| - r), n, k, at); }
  }

  lemma OtherBehind(history: seq<Entry>, logged: seq<Entry>, levels: seq<Level>, r: nat, n: nat, j: nat)
    requires ReadsAll(history, logged, levels, r) && n <= |history| && r <= j < |logged|
    requires !HasRecord(logged, r, logged[j].key.user) && DecidesAs(history, logged, levels, r, n, logged[j].key.user)
    ensures |history| - (|logged| - j) < n
  {
    var k, at := logged[j].key.user, |history| - (|logged| - j);
    assert ReadsOf(history, logged, levels, r, k);
    DecidesIs(history, logged, levels, r, k);
    LostAt(history, logged, r, j);
    if n <= at { PrefixesDiffer(history, n, |history|, k, at); }
  }

  // ---------------------------------------------------------------- the store

  lemma InstalledReadsAll(fmt: Format<Entry>, st: Store, r: nat)
    requires Inv(fmt, true, st) && st.phase.Installed? && st.synced <= r <= |st.logged|
    ensures ReadsAll(st.history, st.logged, LevelsOf(st.tables), r) && |st.logged| - r <= 9
  {
    InstalledIs(fmt, st);
    forall k: bytes
      ensures ReadsOf(st.history, st.logged, LevelsOf(st.tables), r, k)
    {
      InstalledReads(st, r, k);
    }
    TailOf(st.logged, st.synced, st.history, st.dropFloor, r);
  }

  lemma TailOf(logged: seq<Entry>, synced: nat, history: seq<Entry>, dropFloor: nat, r: nat)
    requires EndsUnsynced(logged, synced, history, dropFloor) && synced <= r <= |logged|
    ensures LostAreLast(history, logged, r)
  {
    assert logged[r..] == logged[synced..][r - synced..];
    assert history[|history| - (|logged| - r)..] == history[|history| - (|logged| - synced)..][r - synced..];
  }

  lemma ReopenedDecides(fmt: Format<Entry>, st: Store, keep: nat)
    requires Lawful(fmt) && Inv(fmt, true, st) && st.phase.Installed? && st.durable <= keep <= |st.wal|
    ensures var r, now := Whole(fmt, st.logged, keep), Reopen(fmt, st, st.wal[..keep]);
            && st.synced <= r <= |st.logged|
            && forall k: bytes :: Hit(now, k, SEQ_NUM_MAX) == Decides(st.logged, LevelsOf(st.tables), r, k)
  {
    InstalledIs(fmt, st);
    forall k: bytes
      ensures Hit(Reopen(fmt, st, st.wal[..keep]), k, SEQ_NUM_MAX)
           == Decides(st.logged, LevelsOf(st.tables), Whole(fmt, st.logged, keep), k)
    {
      ReopenedRead(fmt, st, keep, k);
    }
    ReopenedRead(fmt, st, keep, []);
  }

  /** One prefix for all keys, and it lacks at most the last nine writes. */
  lemma InstalledPrefix(fmt: Format<Entry>, st: Store, keep: nat) returns (n: nat)
    requires Lawful(fmt) && Inv(fmt, true, st) && st.phase.Installed? && st.durable <= keep <= |st.wal|
    requires OnePrefix(st.logged, Whole(fmt, st.logged, keep))
    ensures n <= |st.history| <= n + 9 && ReadsAsPrefix(Reopen(fmt, st, st.wal[..keep]), st.history, n)
  {
    var r, now := Whole(fmt, st.logged, keep), Reopen(fmt, st, st.wal[..keep]);
    ReopenedDecides(fmt, st, keep);
    InstalledReadsAll(fmt, st, r);
    n := PrefixForAll(st.history, st.logged, LevelsOf(st.tables), r);
    forall k: bytes
      ensures HitsAs(now, st.history[..n], k)
    {
      assert DecidesAs(st.history, st.logged, LevelsOf(st.tables), r, n, k);
    }
  }

  /** After such a crash there is one prefix exactly when the order of the lost
      records allows it. */
  lemma InstalledPrefixIff(fmt: Format<Entry>, st: Store, keep: nat)
    requires Lawful(fmt) && Inv(fmt, true, st) && st.phase.Installed? && st.durable <= keep <= |st.wal|
    ensures (exists n: nat :: ReadsAsPrefix(Reopen(fmt, st, st.wal[..keep]), st.history, n))
       <==> OnePrefix(st.logged, Whole(fmt, st.logged, keep))
  {
    var r, now := Whole(fmt, st.logged, keep), Reopen(fmt, st, st.wal[..keep]);
    if OnePrefix(st.logged, r) {
      var n := InstalledPrefix(fmt, st, keep);
    } else {
      forall n: nat
        ensures !ReadsAsPrefix(now, st.history, n)
      {
        if ReadsAsPrefix(now, st.history, n) { PrefixIsOne(fmt, st, keep, n); }
      }
    }
  }

  lemma PrefixIsOne(fmt: Format<Entry>, st: Store, keep: nat, n: nat)
    requires Lawful(fmt) && Inv(fmt, true, st) && st.phase.Installed? && st.durable <= keep <= |st.wal|
    requires ReadsAsPrefix(Reopen(fmt, st, st.wal[..keep]), st.history, n)
    ensures OnePrefix(st.logged, Whole(fmt, st.logged, keep))
  {
    var r, now := Whole(fmt, st.logged, keep), Reopen(fmt, st, st.wal[..keep]);
    ReopenedDecides(fmt, st, keep);
    InstalledReadsAll(fmt, st, r);
    forall k: bytes
      ensures DecidesAs(st.history, st.logged, LevelsOf(st.tables), r, n, k)
    {
      assert HitsAs(now, st.history[..n], k);
    }
    PrefixOrders(st.history, st.logged, LevelsOf(st.tables), r, n);
  }
}
