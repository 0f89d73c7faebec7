/** Seeking in a sorted level: what a search key finds, and the three-valued
    result of a point lookup (internal/base/lookup.go). */
module Seeking {
  import opened Bytes
  import opened InternalKeys
  import opened Versions

  datatype Lookup = Absent | Found(value: bytes) | Deleted

  /** The outcome of a lookup that ends at o. */
  function Status(o: Option<Entry>): Lookup {
    match o
    case None => Absent
    case Some(e) => if e.key.kind == KIND_DELETE then Deleted else Found(e.value)
  }

  /** The level from the first entry at or after `key`. */
  function From(level: Level, key: InternalKey): Level {
    if level == [] || KeyLeq(key, level[0].key) then level else From(level[1..], key)
  }

  function VisibleOnly(level: Level, s: SeqNum): Level {
    if level == [] then [] else Keep(level[0], s) + VisibleOnly(level[1..], s)
  }

  function Keep(e: Entry, s: SeqNum): Level { if e.key.Visible(s) then [e] else [] }

  lemma {:induction false} VisibleOnlyAppend(a: Level, b: Level, s: SeqNum)
    ensures VisibleOnly(a + b, s) == VisibleOnly(a, s) + VisibleOnly(b, s)
  {
    if a == [] {
      assert a + b == b;
    } else {
      VisibleOnlyAppend(a[1..], b, s);
      assert (a + b)[1..] == a[1..] + b;
      AppendAssociates(Keep(a[0], s), VisibleOnly(a[1..], s), VisibleOnly(b, s));
    }
  }

  lemma AppendAssociates<T>(x: seq<T>, y: seq<T>, z: seq<T>)
    ensures x + (y + z) == (x + y) + z
  {
  }

  lemma {:induction false} VisibleOnlyMembers(level: Level, s: SeqNum, e: Entry)
    ensures e in VisibleOnly(level, s) <==> e in level && e.key.Visible(s)
  {
    if level != [] {
      VisibleOnlyMembers(level[1..], s, e);
      assert e in level <==> e == level[0] || e in level[1..];
    }
  }

  /** A seek cuts a sorted level into what is before the key and what is not. */
  lemma {:induction false} FromCuts(level: Level, key: InternalKey)
    requires Sorted(level)
    ensures |From(level, key)| <= |level|
    ensures From(level, key) == level[|level| - |From(level, key)|..]
    ensures forall i | 0 <= i < |level| - |From(level, key)| :: KeyLess(level[i].key, key)
    ensures forall i | |level| - |From(level, key)| <= i < |level| :: KeyLeq(key, level[i].key)
  {
    if level == [] {
    } else if KeyLeq(key, level[0].key) {
      forall i | 0 <= i < |level|
        ensures KeyLeq(key, level[i].key)
      {
        if 0 < i { KeyOrderTransitive(key, level[0].key, level[i].key); }
      }
    } else {
      KeyOrderTotal(key, level[0].key);
      FromCuts(level[1..], key);
    }
  }

  lemma {:induction false} FromMembers(level: Level, key: InternalKey, e: Entry)
    requires Sorted(level)
    ensures e in From(level, key) <==> e in level && KeyLeq(key, e.key)
  {
    if level != [] && !KeyLeq(key, level[0].key) {
      FromMembers(level[1..], key, e);
      assert e in level <==> e == level[0] || e in level[1..];
    } else if level != [] && e in level && e != level[0] {
      var i :| 0 <= i < |level| && level[i] == e;
      KeyOrderTransitive(key, level[0].key, level[i].key);
    }
  }

  lemma {:induction false} FromSorted(level: Level, key: InternalKey)
    requires Sorted(level)
    ensures Sorted(From(level, key))
  {
    if level != [] && !KeyLeq(key, level[0].key) { FromSorted(level[1..], key); }
  }

  lemma {:induction false} VisibleOnlySorted(level: Level, s: SeqNum)
    requires Sorted(level)
    ensures Sorted(VisibleOnly(level, s))
  {
    if level != [] {
      VisibleOnlySorted(level[1..], s);
      var rest := VisibleOnly(level[1..], s);
      forall j | 0 <= j < |rest|
        ensures KeyLeq(level[0].key, rest[j].key)
      {
        VisibleOnlyMembers(level[1..], s, rest[j]);
        assert rest[j] in rest;
      }
    }
  }

  /** Seeking to the search key of k at s and taking the next entry finds the
      newest visible version of k: it is what a walk over the level finds. */
  lemma {:induction false} SeekFindsFirstVisible(level: Level, k: bytes, s: SeqNum)
    requires Sorted(level) && ValidKinds(level)
    ensures var rest := From(level, SearchKeyAt(k, s));
            FirstVisible(level, k, s) == if rest != [] && rest[0].key.user == k then Some(rest[0]) else None
  {
    var key := SearchKeyAt(k, s);
    if level != [] {
      var e := level[0];
      assert e.key.Valid();
      if e.key.user == k { SearchKeyCuts(k, s, e.key); }
      if KeyLeq(key, e.key) {
        if e.key.user != k {
          forall x | x in level
            ensures !Sees(x, k, s)
          {
            var i :| 0 <= i < |level| && level[i] == x;
            assert KeyLeq(e.key, x.key);
            CompareFlips(k, e.key.user);
          }
        }
      } else {
        SeekFindsFirstVisible(level[1..], k, s);
      }
    }
  }

  /** The same, when invisible entries are skipped after the seek. */
  lemma SeekVisibleFindsFirstVisible(level: Level, k: bytes, s: SeqNum)
    requires Sorted(level) && ValidKinds(level)
    ensures var rest := VisibleOnly(From(level, SearchKeyAt(k, s)), s);
            FirstVisible(level, k, s) == if rest != [] && rest[0].key.user == k then Some(rest[0]) else None
  {
    var from := From(level, SearchKeyAt(k, s));
    var rest := VisibleOnly(from, s);
    SeekFindsFirstVisible(level, k, s);
    if rest != [] && rest[0].key.user == k {
      assert rest[0] in rest;
      VisibleOnlyMembers(from, s, rest[0]);
      FromMembers(level, SearchKeyAt(k, s), rest[0]);
      assert Sees(rest[0], k, s) && rest[0] in level;
      assert from[0].key.user == k && Sees(from[0], k, s);
    }
  }

  /** What a scan's source yields: the entries from user key `lower` on. */
  lemma SeekMembers(level: Level, lower: bytes, s: SeqNum, e: Entry)
    requires Sorted(level) && ValidKinds(level)
    ensures e in VisibleOnly(From(level, SearchKeyAt(lower, s)), s)
       <==> e in level && e.key.Visible(s) && Compare(lower, e.key.user) <= 0
  {
    VisibleOnlyMembers(From(level, SearchKeyAt(lower, s)), s, e);
    FromMembers(level, SearchKeyAt(lower, s), e);
    if e in level && e.key.user == lower {
      assert e.key.Valid();
      SearchKeyCuts(lower, s, e.key);
    }
  }
}
