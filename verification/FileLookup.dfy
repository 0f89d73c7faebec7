/** A point lookup on a table file through the block cache: sstable/sstable.go
    and sstable/iterator.go over the stored index of sstable/index.go. */
module FileLookups {
  import opened Bytes
  import opened InternalKeys
  import opened Versions
  import opened Merging
  import opened Seeking
  import opened Bloom
  import opened Tables
  import opened BlockCodec
  import opened TableFiles
  import opened SSTables
  import opened Caches

  // ----------------------------------------------- blocks through the index

  /** Reading by index entry i gives block i. */
  lemma {:induction false} BlockThroughIndex(c: Codec, blocks: seq<Level>, file: bytes, offset: nat, i: nat)
    requires At(file, offset, BlocksBytes(c, blocks)) && |file| < 0x8000_0000_0000_0000 && i < |blocks|
    requires forall b | 0 <= b < |blocks| :: BlockFits(c, blocks[b])
    ensures ReadBlockAt(c, file, IndexOf(c, blocks, offset)[i]) == Some(blocks[i])
  {
    AtAppend(file, offset, c.encode(blocks[0]), BlocksBytes(c, blocks[1..]));
    if i == 0 {
      ReadBlockBack(c, blocks[0], file, offset);
    } else {
      BlockThroughIndex(c, blocks[1..], file, offset + |c.encode(blocks[0])|, i - 1);
    }
  }

  lemma {:induction false} StoredHead(c: Codec, blocks: seq<Level>, offset: nat, i: nat)
    requires i < |blocks|
    ensures IndexOf(c, blocks, offset)[i].firstKey == c.head(HeadKey(blocks[i]))
  {
    if i > 0 { StoredHead(c, blocks[1..], offset + |c.encode(blocks[0])|, i - 1); }
  }

  lemma StoredFirstKey(crc: Wal.Checksum, block: Level)
    requires block != []
    ensures Decode(TableCodec(crc).head(HeadKey(block))) == block[0].key
  {
    KeyRoundTrip(block[0].key, []);
    assert TableCodec(crc).head(block[0].key) == Encode(block[0].key);
  }

  function StoredKeys(index: seq<IndexEntry>): (r: seq<InternalKey>)
    ensures |r| == |index|
  {
    seq(|index|, i requires 0 <= i < |index| => Decode(index[i].firstKey))
  }

  lemma StoredKeysAreFirstKeys(crc: Wal.Checksum, blocks: seq<Level>)
    requires NonEmptyBlocks(blocks)
    ensures StoredKeys(IndexOf(TableCodec(crc), blocks, 0)) == FirstKeys(blocks)
  {
    forall i | 0 <= i < |blocks|
      ensures StoredKeys(IndexOf(TableCodec(crc), blocks, 0))[i] == FirstKeys(blocks)[i]
    {
      StoredHead(TableCodec(crc), blocks, 0, i);
      StoredFirstKey(crc, blocks[i]);
    }
  }

  // ----------------------------------------------------------- the walk

  predicate Wanted(e: Entry, key: InternalKey, s: SeqNum) { KeyLeq(key, e.key) && e.key.Visible(s) }

  /** The first entry at or after the key that is visible. */
  function FirstWanted(level: Level, key: InternalKey, s: SeqNum): Option<Entry> {
    if level == [] then None else if Wanted(level[0], key, s) then Some(level[0]) else FirstWanted(level[1..], key, s)
  }

  lemma {:induction false} FirstWantedAppend(a: Level, b: Level, key: InternalKey, s: SeqNum)
    ensures FirstWanted(a + b, key, s)
         == if FirstWanted(a, key, s).Some? then FirstWanted(a, key, s) else FirstWanted(b, key, s)
  {
    if a == [] {
      assert a + b == b;
    } else {
      FirstWantedAppend(a[1..], b, key, s);
      assert (a + b)[1..] == a[1..] + b;
    }
  }

  /** In a sorted level that is where the seek lands. */
  lemma {:induction false} WantedIsSought(level: Level, key: InternalKey, s: SeqNum)
    requires Sorted(level)
    ensures var rest := VisibleOnly(From(level, key), s);
            FirstWanted(level, key, s) == if rest == [] then None else Some(rest[0])
  {
    if level != [] {
      if KeyLeq(key, level[0].key) && !level[0].key.Visible(s) {
        AllAfter(level[1..], level[0].key, key);
      }
      WantedIsSought(level[1..], key, s);
    }
  }

  lemma AllAfter(level: Level, first: InternalKey, key: InternalKey)
    requires KeyLeq(key, first) && forall i | 0 <= i < |level| :: KeyLeq(first, level[i].key)
    ensures From(level, key) == level
  {
    if level != [] { KeyOrderTransitive(key, first, level[0].key); }
  }

  method Walk(block: Level, key: InternalKey, s: SeqNum) returns (r: Option<Entry>)
    ensures r == FirstWanted(block, key, s)
  {
    for i := 0 to |block|
      invariant FirstWanted(block[i..], key, s) == FirstWanted(block, key, s)
    {
      assert block[i..][1..] == block[i + 1..];
      if Wanted(block[i], key, s) { return Some(block[i]); }
    }
    r := None;
  }

  // ---------------------------------------------------------- the lookup

  /** `load` reads the blocks of this file by their stored offsets. */
  ghost predicate Serves(load: (bytes, nat) -> Option<Level>, path: bytes, index: seq<IndexEntry>, blocks: seq<Level>) {
    |index| == |blocks| && forall i | 0 <= i < |index| :: load(path, index[i].offset) == Some(blocks[i])
  }

  lemma FileServes(crc: Wal.Checksum, load: (bytes, nat) -> Option<Level>, path: bytes,
                   blocks: seq<Level>, bloom: bytes)
    requires WithinLimits(TableCodec(crc), blocks, bloom)
    requires var c, index := TableCodec(crc), IndexOf(TableCodec(crc), blocks, 0);
             forall i | 0 <= i < |index| ::
               load(path, index[i].offset) == ReadBlockAt(c, FileBytes(c, blocks, bloom), index[i])
    ensures Serves(load, path, IndexOf(TableCodec(crc), blocks, 0), blocks)
  {
    var c := TableCodec(crc);
    TableCodecLawful(crc);
    Sections(c, blocks, bloom);
    forall i | 0 <= i < |blocks|
      ensures load(path, IndexOf(c, blocks, 0)[i].offset) == Some(blocks[i])
    {
      BlockThroughIndex(c, blocks, FileBytes(c, blocks, bloom), 0, i);
    }
  }

  /** Filter, binary search over the stored keys, then block after block through
      the cache: the answer of the lookup in the table. */
  method LookupFile(h: Hashes, cache: LRU?<Level>, load: (bytes, nat) -> Option<Level>, path: bytes,
                    index: seq<IndexEntry>, t: Filter, k: bytes, s: SeqNum, ghost blocks: seq<Level>)
    returns (r: Lookup)
    requires WellFormed(h, Table(blocks, t)) && Serves(load, path, index, blocks)
    requires StoredKeys(index) == FirstKeys(blocks)
    requires cache != null ==> cache.Valid() && Coherent(cache, load)
    modifies cache
    ensures r == Status(FirstVisible(Flat(Table(blocks, t)), k, s))
    ensures cache != null ==> cache.Valid() && Coherent(cache, load)
  {
    var key := SearchKeyAt(k, s);
    if !MightContain(h, t, k) {
      assert forall e | e in Flat(Table(blocks, t)) :: e.key.user != k;
      return Absent;
    }
    FirstKeysSorted(blocks);
    var found := SearchIndex(StoredKeys(index), key);
    var first := if found < 0 then 0 else found;
    assert found >= 0 ==> StoredKeys(index)[found] == FirstKeys(blocks)[found] == blocks[found][0].key;
    LandsFrom(blocks, k, s, first);
    var o := WalkBlocks(cache, load, path, index, first, key, s, blocks);
    if o.None? || o.value.key.user != k { return Absent; }
    if o.value.key.kind == KIND_DELETE { return Deleted; }
    return Found(o.value.value);
  }

  lemma LandsFrom(blocks: seq<Level>, k: bytes, s: SeqNum, first: nat)
    requires NonEmptyBlocks(blocks) && Sorted(Concat(blocks)) && ValidKinds(Concat(blocks))
    requires Agree(Elems(Concat(blocks)))
    requires first <= |blocks| && (first < |blocks| ==> first == 0 || KeyLeq(blocks[first][0].key, SearchKeyAt(k, s)))
    requires first == |blocks| ==> first == 0
    ensures var o := FirstWanted(Concat(blocks[first..]), SearchKeyAt(k, s), s);
            FirstVisible(Concat(blocks), k, s) == if o.Some? && o.value.key.user == k then o else None
  {
    var key, tail := SearchKeyAt(k, s), Concat(blocks[first..]);
    StartBlock(blocks, key, first, s);
    SeekLookup(Concat(blocks), k, s, VisibleOnly(From(tail, key), s));
    ConcatDrop(blocks, first);
    SortedTail(Concat(blocks), Offset(blocks, first));
    WantedIsSought(tail, key, s);
  }

  lemma SortedTail(level: Level, n: nat)
    requires Sorted(level) && n <= |level|
    ensures Sorted(level[n..])
  {
  }

  method WalkBlocks(cache: LRU?<Level>, load: (bytes, nat) -> Option<Level>, path: bytes, index: seq<IndexEntry>,
                    first: nat, key: InternalKey, s: SeqNum, ghost blocks: seq<Level>)
    returns (r: Option<Entry>)
    requires Serves(load, path, index, blocks) && first <= |blocks|
    requires cache != null ==> cache.Valid() && Coherent(cache, load)
    modifies cache
    ensures r == FirstWanted(Concat(blocks[first..]), key, s)
    ensures cache != null ==> cache.Valid() && Coherent(cache, load)
  {
    for b := first to |index|
      invariant FirstWanted(Concat(blocks[b..]), key, s) == FirstWanted(Concat(blocks[first..]), key, s)
      invariant cache != null ==> cache.Valid() && Coherent(cache, load)
    {
      var block := ReadBlock(cache, load, path, index[b].offset);
      assert blocks[b..][1..] == blocks[b + 1..];
      FirstWantedAppend(blocks[b], Concat(blocks[b + 1..]), key, s);
      r := Walk(block.value, key, s);
      if r.Some? { return; }
    }
    r := None;
  }
}
