/** Lists of open tables: the loops of db/db.go (searchSSTables,
    maxSeqNumInTables) and compaction/merge.go (mergeGroup) over tables. */
module TableSets {
  import opened Bytes
  import opened InternalKeys
  import opened Versions
  import opened Merging
  import opened Compaction
  import opened Bloom
  import opened Tables
  import opened Stores

  datatype SSTable = SSTable(name: nat, table: Table)

  /** What the environment fixes: the hash functions, the empty filter that every
      table starts with, and how large a written file is. */
  datatype Config = Config(hashes: Hashes, filter: Filter, fileSize: Table -> nat) {
    predicate Valid() { |filter.bits| > 0 }
  }

  ghost function FilesOf(tables: seq<SSTable>): (r: seq<File>)
    ensures |r| == |tables|
    ensures forall i | 0 <= i < |tables| :: r[i] == File(tables[i].name, Flat(tables[i].table))
  {
    seq(|tables|, i requires 0 <= i < |tables| => File(tables[i].name, Flat(tables[i].table)))
  }

  ghost function Content(tables: seq<SSTable>): (r: seq<Level>)
    ensures |r| == |tables|
    ensures forall i | 0 <= i < |tables| :: r[i] == Flat(tables[i].table)
  {
    LevelsOf(FilesOf(tables))
  }

  ghost predicate Readable(h: Hashes, tables: seq<SSTable>) {
    forall i | 0 <= i < |tables| :: WellFormed(h, tables[i].table)
  }

  function Sizes(cfg: Config, tables: seq<SSTable>): (r: seq<nat>)
    ensures |r| == |tables|
  {
    seq<nat>(|tables|, i requires 0 <= i < |tables| => cfg.fileSize(tables[i].table))
  }

  // ---------------------------------------------------------------- reading

  /** Newest table first; a tombstone ends the search like a value does. */
  method Search(h: Hashes, tables: seq<SSTable>, k: bytes, s: SeqNum) returns (r: Option<bytes>)
    requires Readable(h, tables)
    ensures r == Answer(FirstHit(Content(tables), k, s))
  {
    assert Content(tables)[0..] == Content(tables);
    for i := 0 to |tables|
      invariant FirstHit(Content(tables)[i..], k, s) == FirstHit(Content(tables), k, s)
    {
      var l := LookupIn(h, tables[i].table, k, s);
      HitStep(Content(tables), i, k, s);
      if l.Deleted? { return None; }
      if l.Found? { return Some(l.value); }
    }
    r := None;
  }

  lemma HitStep(levels: seq<Level>, i: nat, k: bytes, s: SeqNum)
    requires i < |levels|
    ensures var o := FirstVisible(levels[i], k, s);
            FirstHit(levels[i..], k, s) == if o.Some? then o else FirstHit(levels[i + 1..], k, s)
  {
    assert levels[i..][1..] == levels[i + 1..];
  }

  method MaxSeqNum(tables: seq<SSTable>) returns (m: nat)
    ensures m == MaxNumIn(Content(tables))
  {
    m := 0;
    for i := 0 to |tables|
      invariant m == MaxNumIn(Content(tables)[..i])
    {
      MaxNumInSnoc(Content(tables), i);
      var here := MaxOf(Flat(tables[i].table));
      if here > m { m := here; }
    }
    assert Content(tables)[..|tables|] == Content(tables);
  }

  method MaxOf(entries: seq<Entry>) returns (m: nat)
    ensures m == MaxNum(entries)
  {
    m := 0;
    for i := 0 to |entries|
      invariant m == MaxNum(entries[..i])
    {
      MaxNumSnoc(entries, i);
      if entries[i].key.num > m { m := entries[i].key.num; }
    }
    assert entries[..|entries|] == entries;
  }

  lemma {:induction false} MaxNumSnoc(entries: seq<Entry>, i: nat)
    requires i < |entries|
    ensures MaxNum(entries[..i + 1]) == Max(MaxNum(entries[..i]), entries[i].key.num)
  {
    var a := entries[..i + 1];
    if i == 0 {
      assert a[1..] == [];
    } else {
      MaxNumSnoc(entries[1..], i - 1);
      assert a[1..] == entries[1..][..i] && entries[..i][1..] == entries[1..][..i - 1];
    }
  }

  lemma {:induction false} MaxNumInSnoc(levels: seq<Level>, i: nat)
    requires i < |levels|
    ensures MaxNumIn(levels[..i + 1]) == Max(MaxNumIn(levels[..i]), MaxNum(levels[i]))
  {
    var a := levels[..i + 1];
    if i == 0 {
      assert a[1..] == [];
    } else {
      MaxNumInSnoc(levels[1..], i - 1);
      assert a[1..] == levels[1..][..i] && levels[..i][1..] == levels[1..][..i - 1];
    }
  }

  // ------------------------------------------------------------- compaction

  lemma MemberOfAll(levels: seq<Level>, i: nat)
    requires i < |levels|
    ensures Elems(levels[i]) <= All(levels)
  {
    assert levels[i] in levels;
  }

  /** Writing entries of a history gives a readable table of them. */
  lemma WrittenReadable(cfg: Config, entries: Level, past: seq<Entry>)
    requires cfg.Valid() && Sorted(entries) && WellNumbered(past) && ValidKinds(past) && Elems(entries) <= Elems(past)
    ensures Flat(WriteTable(cfg.hashes, cfg.filter, entries)) == entries
    ensures WellFormed(cfg.hashes, WriteTable(cfg.hashes, cfg.filter, entries))
  {
    HistoryAgrees(past, Elems(entries));
    forall e | e in entries
      ensures e.key.Valid()
    {
      assert e in Elems(entries);
    }
    WriteTableWellFormed(cfg.hashes, cfg.filter, entries);
  }

  method ReadAllEntries(tables: seq<SSTable>, group: seq<nat>) returns (iterators: seq<Level>)
    requires Indexes(group, |tables|)
    ensures iterators == Gather(Content(tables), group)
  {
    iterators := [];
    for i := 0 to |group|
      invariant iterators == Gather(Content(tables), group)[..i]
    {
      assert group[i] in group;
      iterators := iterators + [Flat(tables[group[i]].table)];
    }
  }

  method MergeGroup(cfg: Config, tables: seq<SSTable>, group: seq<nat>, floor: SeqNum, name: nat,
                    ghost past: seq<Entry>) returns (t: SSTable)
    requires cfg.Valid() && group != [] && Indexes(group, |tables|)
    requires WellNumbered(past) && ValidKinds(past) && All(Content(tables)) <= Elems(past)
    ensures t.name == name && Flat(t.table) == Merge(Gather(Content(tables), group), floor)
    ensures WellFormed(cfg.hashes, t.table) && Elems(Flat(t.table)) <= Elems(past)
  {
    var iterators := ReadAllEntries(tables, group);
    var merged := MergeIterators(iterators, floor);
    MergeElems(iterators, floor);
    GatherElems(Content(tables), group);
    WrittenReadable(cfg, merged, past);
    t := SSTable(name, WriteTable(cfg.hashes, cfg.filter, merged));
  }

  lemma GatherElems(tables: seq<Level>, group: seq<nat>)
    requires Indexes(group, |tables|)
    ensures All(Gather(tables, group)) <= All(tables)
  {
    var gathered := Gather(tables, group);
    forall e | e in All(gathered)
      ensures e in All(tables)
    {
      var l :| l in gathered && e in l;
      var i :| 0 <= i < |gathered| && gathered[i] == l;
      assert group[i] in group && tables[group[i]] in tables;
    }
  }

  lemma AllSnoc(tables: seq<SSTable>, t: SSTable)
    ensures FilesOf(tables + [t]) == FilesOf(tables) + [File(t.name, Flat(t.table))]
    ensures All(Content(tables + [t])) == All(Content(tables)) + Elems(Flat(t.table))
  {
    assert Content(tables + [t]) == Content(tables) + [Flat(t.table)];
    AllAppend(Content(tables), Flat(t.table));
  }

  lemma AllAppend(levels: seq<Level>, l: Level)
    ensures All(levels + [l]) == All(levels) + Elems(l)
  {
    forall e
      ensures e in All(levels + [l]) <==> e in All(levels) || e in l
    {
      assert forall x :: x in levels + [l] <==> x in levels || x == l;
    }
  }

  ghost function HeadOf(group: seq<nat>, n: nat): (x: nat)
    requires group != [] && Indexes(group, n)
    ensures x < n && x in group
  {
    assert group[0] in group;
    group[0]
  }

  /** One group: a table that stays, or the merge under the next name. */
  method CompactGroup(cfg: Config, tables: seq<SSTable>, group: seq<nat>, floor: SeqNum, nextName: nat,
                      ghost cur: Store)
    returns (t: SSTable, next: nat)
    requires cfg.Valid() && Readable(cfg.hashes, tables)
    requires cur.tables == FilesOf(tables) && CanMerge(cur) && cur.phase.floor == floor && cur.nextName == nextName
    requires group == cur.phase.groups[|cur.phase.done|]
    requires WellNumbered(cur.history) && ValidKinds(cur.history) && All(Content(tables)) <= Elems(cur.history)
    ensures AfterMergeNext(cur).phase.done == cur.phase.done + [File(t.name, Flat(t.table))]
    ensures AfterMergeNext(cur).nextName == next
    ensures AfterMergeNext(cur).disk == (if |group| < 2 then [] else [File(t.name, Flat(t.table))]) + cur.disk
    ensures if |group| < 2 then next == nextName && t == tables[HeadOf(group, |tables|)]
            else next == nextName + 1 && t.name == nextName
    ensures WellFormed(cfg.hashes, t.table) && Elems(Flat(t.table)) <= Elems(cur.history)
  {
    assert group[0] in group;
    assert [] + cur.disk == cur.disk;
    if |group| < 2 {
      MemberOfAll(Content(tables), group[0]);
      return tables[group[0]], nextName;
    }
    t := MergeGroup(cfg, tables, group, floor, nextName, cur.history);
    next := nextName + 1;
  }
}
