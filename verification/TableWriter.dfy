/** The two writers of table files: sstable/writer.go walks a memtable,
    sstable/write_from_entries.go a merged list, both through the collector of
    sstable/write_block_collector.go. */
module TableWriters {
  import opened Bytes
  import opened InternalKeys
  import opened Versions
  import opened Framing
  import opened Bloom
  import opened Tables
  import opened BlockCodec
  import opened TableFiles

  // ------------------------------------------------------------- collector

  /** Collects the entries of one block.  Its buffer is reused for the next
      block, so what Drain hands out is overwritten by the next Add. */
  class Collector {
    var buf: array<Entry>
    var len: nat
    var sizeEstimate: nat
    var firstKey: InternalKey

    ghost predicate Valid()
      reads this
    {
      len <= buf.Length
    }

    ghost function View(): Level
      requires Valid()
      reads this, buf
    {
      buf[..len]
    }

    constructor ()
      ensures Valid() && fresh(buf) && View() == [] && sizeEstimate == 0
    {
      buf := new Entry[0];
      len, sizeEstimate := 0, 0;
      firstKey := InternalKey([], 0, KIND_INVALID);
    }

    method Add(e: Entry)
      requires Valid()
      modifies this, buf
      ensures Valid() && (buf == old(buf) || fresh(buf))
      ensures View() == old(View()) + [e]
      ensures sizeEstimate == old(sizeEstimate) + EntrySize(e)
      ensures firstKey == if old(len) == 0 then e.key else old(firstKey)
    {
      if len == 0 { firstKey := e.key; }
      ghost var was := View();
      if len == buf.Length {
        var bigger := new Entry[2 * len + 1];
        forall i | 0 <= i < len { bigger[i] := buf[i]; }
        buf := bigger;
      }
      assert buf[..len] == was;
      buf[len] := e;
      len := len + 1;
      sizeEstimate := sizeEstimate + EntrySize(e);
    }

    /** The block, still in the collector's own buffer. */
    method Drain() returns (block: array<Entry>, n: nat)
      requires Valid()
      modifies this
      ensures Valid() && buf == old(buf) && block == buf && n <= block.Length
      ensures block[..n] == old(View()) && View() == [] && sizeEstimate == 0
    {
      block, n := buf, len;
      len, sizeEstimate := 0, 0;
      firstKey := InternalKey([], 0, KIND_INVALID);
    }
  }

  // ----------------------------------------------------- appending a block

  lemma {:induction false} BlocksSnoc(c: Codec, blocks: seq<Level>, b: Level)
    ensures BlocksBytes(c, blocks + [b]) == BlocksBytes(c, blocks) + c.encode(b)
  {
    if blocks == [] {
      assert blocks + [b] == [b] && [b][1..] == [];
    } else {
      BlocksSnoc(c, blocks[1..], b);
      assert (blocks + [b])[1..] == blocks[1..] + [b];
    }
  }

  lemma {:induction false} IndexSnoc(c: Codec, blocks: seq<Level>, b: Level, offset: nat)
    ensures IndexOf(c, blocks + [b], offset)
         == IndexOf(c, blocks, offset) + [IndexEntryFor(c, b, offset + |BlocksBytes(c, blocks)|)]
  {
    if blocks == [] {
      assert blocks + [b] == [b] && [b][1..] == [];
    } else {
      IndexSnoc(c, blocks[1..], b, offset + |c.encode(blocks[0])|);
      assert (blocks + [b])[1..] == blocks[1..] + [b];
    }
  }

  /** What has been written when the blocks `done` are. */
  ghost predicate Written(c: Codec, done: seq<Level>, out: bytes, index: seq<IndexEntry>, offset: nat) {
    out == BlocksBytes(c, done) && index == IndexOf(c, done, 0) && offset == |out|
  }

  /** Encodes the drained block before the collector is used again. */
  method FlushBlock(c: Codec, col: Collector, out: bytes, index: seq<IndexEntry>, offset: nat, ghost done: seq<Level>)
    returns (out': bytes, index': seq<IndexEntry>, offset': nat)
    requires col.Valid() && col.View() != [] && col.firstKey == HeadKey(col.View())
    requires Written(c, done, out, index, offset)
    modifies col
    ensures col.Valid() && col.buf == old(col.buf) && col.View() == [] && col.sizeEstimate == 0
    ensures Written(c, done + [old(col.View())], out', index', offset')
  {
    ghost var block := col.View();
    var key := col.firstKey;
    var drained, n := col.Drain();
    var b := c.encode(drained[..n]);
    out', offset' := out + b, offset + |b|;
    index' := index + [IndexEntry(c.head(key), offset % 0x1_0000_0000_0000_0000, (offset' - offset) % 0x1_0000_0000)];
    BlocksSnoc(c, done, block);
    IndexSnoc(c, done, block, 0);
  }

  lemma SplitStep(entries: seq<Entry>, i: nat, open: Level, size: nat)
    requires i < |entries|
    ensures var grown, total := open + [entries[i]], size + EntrySize(entries[i]);
            Split(entries[i..], open, size)
            == if total >= BLOCK_SIZE then [grown] + Split(entries[i + 1..], [], 0)
               else Split(entries[i + 1..], grown, total)
  {
    assert entries[i..][1..] == entries[i + 1..];
  }

  // --------------------------------------------------------- the other parts

  method IndexSize(c: Codec, index: seq<IndexEntry>) returns (size: nat)
    requires SizedIndex(c)
    ensures size == |EncodeAll(c.index, index)|
  {
    size := 0;
    for i := 0 to |index|
      invariant size == |EncodeAll(c.index, index[..i])|
    {
      assert index[..i + 1] == index[..i] + [index[i]];
      EncodeAllSnoc(c.index, index[..i], index[i]);
      size := size + 4 + |index[i].firstKey| + 8 + 4;
    }
    assert index[..|index|] == index;
  }

  method EncodeIndex(c: Codec, index: seq<IndexEntry>) returns (out: bytes)
    ensures out == EncodeAll(c.index, index)
  {
    out := [];
    for i := 0 to |index|
      invariant out == EncodeAll(c.index, index[..i])
    {
      assert index[..i + 1] == index[..i] + [index[i]];
      EncodeAllSnoc(c.index, index[..i], index[i]);
      out := out + c.index.encode(index[i]);
    }
    assert index[..|index|] == index;
  }

  lemma Regroup(a: bytes, b: bytes, c: bytes, d: bytes)
    ensures a + b + c + d == a + (b + (c + d))
  {
  }

  /** Index, filter and footer after the blocks. */
  method Finish(c: Codec, out: bytes, index: seq<IndexEntry>, offset: nat, bloom: bytes, ghost blocks: seq<Level>)
    returns (file: bytes)
    requires SizedIndex(c) && Written(c, blocks, out, index, offset)
    ensures file == FileBytes(c, blocks, bloom)
  {
    var packed := EncodeIndex(c, index);
    var size := IndexSize(c, index);
    var section, foot := c.bloom.encode(bloom), c.foot.encode(FootFor(offset, |index|, offset + size));
    file := out + packed;
    file := file + section;
    file := file + foot;
    Regroup(out, packed, section, foot);
  }

  lemma {:induction false} AddAllSnoc(h: Hashes, f: Filter, keys: seq<bytes>, key: bytes)
    requires |f.bits| > 0
    ensures AddAll(h, f, keys + [key]) == Add(h, AddAll(h, f, keys), key)
    decreases |keys|
  {
    if keys == [] {
      assert keys + [key] == [key] && [key][1..] == [];
    } else {
      AddAllSnoc(h, Add(h, f, keys[0]), keys[1..], key);
      assert (keys + [key])[1..] == keys[1..] + [key];
    }
  }

  lemma AddNext(h: Hashes, f: Filter, entries: seq<Entry>, i: nat)
    requires |f.bits| > 0 && i < |entries|
    ensures AddAll(h, f, UserKeys(entries[..i + 1]))
         == Add(h, AddAll(h, f, UserKeys(entries[..i])), entries[i].key.user)
  {
    assert UserKeys(entries[..i + 1]) == UserKeys(entries[..i]) + [entries[i].key.user];
    AddAllSnoc(h, f, UserKeys(entries[..i]), entries[i].key.user);
  }

  // ------------------------------------------------------------ the writers

  /** The bytes of the table of these entries. */
  ghost function TableBytes(c: Codec, h: Hashes, empty: Filter, entries: seq<Entry>): bytes
    requires |empty.bits| > 0
  {
    FileBytes(c, Split(entries, [], 0), Serialize(AddAll(h, empty, UserKeys(entries))))
  }

  /** The first i entries are in written blocks or in the open one. */
  ghost predicate InProgress(c: Codec, entries: seq<Entry>, i: nat, open: Level, size: nat,
                             done: seq<Level>, out: bytes, index: seq<IndexEntry>, offset: nat) {
    && i <= |entries| && Written(c, done, out, index, offset)
    && done + Split(entries[i..], open, size) == Split(entries, [], 0)
  }

  ghost predicate Ready(col: Collector)
    reads col, col.buf
  {
    col.Valid() && (col.View() != [] ==> col.firstKey == HeadKey(col.View()))
  }

  lemma ClosesBlock(c: Codec, entries: seq<Entry>, i: nat, open: Level, size: nat, done: seq<Level>)
    requires i < |entries| && size + EntrySize(entries[i]) >= BLOCK_SIZE
    requires done + Split(entries[i..], open, size) == Split(entries, [], 0)
    ensures (done + [open + [entries[i]]]) + Split(entries[i + 1..], [], 0) == Split(entries, [], 0)
  {
    SplitStep(entries, i, open, size);
  }

  /** The callback of the memtable walk, for one entry. */
  method WalkEntry(c: Codec, col: Collector, entries: seq<Entry>, i: nat,
                   out: bytes, index: seq<IndexEntry>, offset: nat, ghost done: seq<Level>)
    returns (out': bytes, index': seq<IndexEntry>, offset': nat, ghost done': seq<Level>)
    requires Ready(col) && i < |entries|
    requires InProgress(c, entries, i, col.View(), col.sizeEstimate, done, out, index, offset)
    modifies col, col.buf
    ensures Ready(col) && (col.buf == old(col.buf) || fresh(col.buf))
    ensures InProgress(c, entries, i + 1, col.View(), col.sizeEstimate, done', out', index', offset')
  {
    SplitStep(entries, i, col.View(), col.sizeEstimate);
    ghost var open, size := col.View(), col.sizeEstimate;
    col.Add(entries[i]);
    out', index', offset', done' := out, index, offset, done;
    if col.sizeEstimate >= BLOCK_SIZE {
      ClosesBlock(c, entries, i, open, size, done);
      done' := done + [col.View()];
      out', index', offset' := FlushBlock(c, col, out, index, offset, done);
    }
  }

  /** From a memtable, in one walk: filter and blocks together. */
  method Flush(c: Codec, h: Hashes, empty: Filter, tree: Level)
    returns (file: bytes, index: seq<IndexEntry>, bloom: Filter)
    requires LawfulCodec(c) && |empty.bits| > 0
    ensures file == TableBytes(c, h, empty, tree)
    ensures index == IndexOf(c, Split(tree, [], 0), 0)
    ensures bloom == AddAll(h, empty, UserKeys(tree))
  {
    var col := new Collector();
    var out: bytes, offset := [], 0;
    index, bloom := [], empty;
    ghost var done := [];
    assert tree[0..] == tree && UserKeys(tree[..0]) == [];
    for i := 0 to |tree|
      invariant Ready(col) && fresh(col) && fresh(col.buf)
      invariant InProgress(c, tree, i, col.View(), col.sizeEstimate, done, out, index, offset)
      invariant bloom == AddAll(h, empty, UserKeys(tree[..i]))
    {
      AddNext(h, empty, tree, i);
      bloom := Add(h, bloom, tree[i].key.user);
      out, index, offset, done := WalkEntry(c, col, tree, i, out, index, offset, done);
    }
    if col.len > 0 {
      ghost var block := col.View();
      out, index, offset := FlushBlock(c, col, out, index, offset, done);
      done := done + [block];
    }
    assert done == Split(tree, [], 0) && tree[..|tree|] == tree;
    var packed := SerializeFilter(bloom);
    file := Finish(c, out, index, offset, packed, done);
  }

  /** From merged entries: all keys to the filter first, then the blocks. */
  method WriteFromEntries(c: Codec, h: Hashes, empty: Filter, entries: seq<Entry>)
    returns (file: bytes, index: seq<IndexEntry>, bloom: Filter)
    requires LawfulCodec(c) && |empty.bits| > 0
    ensures file == TableBytes(c, h, empty, entries)
    ensures index == IndexOf(c, Split(entries, [], 0), 0)
    ensures bloom == AddAll(h, empty, UserKeys(entries))
  {
    bloom := AddKeys(h, empty, entries);
    var col := new Collector();
    var out: bytes, offset := [], 0;
    index := [];
    ghost var done := [];
    assert entries[0..] == entries;
    for i := 0 to |entries|
      invariant Ready(col) && fresh(col) && fresh(col.buf)
      invariant InProgress(c, entries, i, col.View(), col.sizeEstimate, done, out, index, offset)
    {
      out, index, offset, done := ListEntry(c, col, entries, i, out, index, offset, done);
    }
    out, index, offset, done := FlushCurrent(c, col, out, index, offset, done);
    assert done == Split(entries, [], 0);
    var packed := SerializeFilter(bloom);
    file := Finish(c, out, index, offset, packed, done);
  }

  /** The loop body of the second writer. */
  method ListEntry(c: Codec, col: Collector, entries: seq<Entry>, i: nat,
                   out: bytes, index: seq<IndexEntry>, offset: nat, ghost done: seq<Level>)
    returns (out': bytes, index': seq<IndexEntry>, offset': nat, ghost done': seq<Level>)
    requires Ready(col) && i < |entries|
    requires InProgress(c, entries, i, col.View(), col.sizeEstimate, done, out, index, offset)
    modifies col, col.buf
    ensures Ready(col) && (col.buf == old(col.buf) || fresh(col.buf))
    ensures InProgress(c, entries, i + 1, col.View(), col.sizeEstimate, done', out', index', offset')
  {
    SplitStep(entries, i, col.View(), col.sizeEstimate);
    ghost var open, size := col.View(), col.sizeEstimate;
    col.Add(entries[i]);
    out', index', offset', done' := out, index, offset, done;
    if col.sizeEstimate >= BLOCK_SIZE {
      ClosesBlock(c, entries, i, open, size, done);
      out', index', offset', done' := FlushCurrent(c, col, out, index, offset, done);
    }
  }

  method AddKeys(h: Hashes, empty: Filter, entries: seq<Entry>) returns (bloom: Filter)
    requires |empty.bits| > 0
    ensures bloom == AddAll(h, empty, UserKeys(entries))
  {
    bloom := empty;
    assert UserKeys(entries[..0]) == [];
    for i := 0 to |entries|
      invariant bloom == AddAll(h, empty, UserKeys(entries[..i]))
    {
      AddNext(h, empty, entries, i);
      bloom := Add(h, bloom, entries[i].key.user);
    }
    assert entries[..|entries|] == entries;
  }

  /** The closure of the second writer: nothing to do for an empty collector. */
  method FlushCurrent(c: Codec, col: Collector, out: bytes, index: seq<IndexEntry>, offset: nat, ghost done: seq<Level>)
    returns (out': bytes, index': seq<IndexEntry>, offset': nat, ghost done': seq<Level>)
    requires col.Valid() && (col.View() != [] ==> col.firstKey == HeadKey(col.View()))
    requires Written(c, done, out, index, offset)
    modifies col
    ensures col.Valid() && col.buf == old(col.buf) && col.View() == []
    ensures old(col.View()) != [] ==> col.sizeEstimate == 0
    ensures done' == done + if old(col.View()) == [] then [] else [old(col.View())]
    ensures Written(c, done', out', index', offset')
  {
    if col.len == 0 { return out, index, offset, done; }
    done' := done + [col.View()];
    out', index', offset' := FlushBlock(c, col, out, index, offset, done);
  }
}
