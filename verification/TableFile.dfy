/** The table file: its layout, its reader and its two writers
    (sstable/writer.go, sstable/write_from_entries.go,
    sstable/write_block_collector.go, sstable/reader.go,
    sstable/block_iterator.go, sstable/index.go).

    Sections follow each other: blocks, index, Bloom filter, footer.  How a
    block and an index entry are written is a parameter. */
module TableFiles {
  import opened Bytes
  import opened InternalKeys
  import opened Versions
  import opened Merging
  import opened Framing
  import opened BlockCodec

  /** `head` encodes the first key of a block, as the index records it. */
  datatype Codec = Codec(
    encode: Level -> bytes, decode: bytes -> Option<Level>, head: InternalKey -> bytes,
    index: Format<IndexEntry>, bloom: Format<bytes>, foot: Format<Foot>)

  ghost predicate FixedFooter(c: Codec) {
    forall x: Foot :: c.foot.fits(x) && |c.foot.encode(x)| == FOOTER_SIZE
  }

  ghost predicate SizedIndex(c: Codec) {
    forall x: IndexEntry :: |c.index.encode(x)| == 16 + |x.firstKey|
  }

  ghost predicate Accepts(c: Codec) {
    && (forall x: IndexEntry :: c.index.fits(x) <==> IndexFits(x))
    && (forall x: bytes :: c.bloom.fits(x) <==> |x| < 0x1_0000_0000)
  }

  ghost predicate LawfulCodec(c: Codec) {
    && ReadsBack(c.index) && ReadsBack(c.bloom) && ReadsBack(c.foot)
    && FixedFooter(c) && SizedIndex(c) && Accepts(c)
  }

  // ---------------------------------------------------------------- layout

  function BlocksBytes(c: Codec, blocks: seq<Level>): bytes {
    if blocks == [] then [] else c.encode(blocks[0]) + BlocksBytes(c, blocks[1..])
  }

  function HeadKey(block: Level): InternalKey {
    if block == [] then InternalKey([], 0, KIND_INVALID) else block[0].key
  }

  function IndexEntryFor(c: Codec, block: Level, offset: nat): IndexEntry {
    IndexEntry(c.head(HeadKey(block)), offset % 0x1_0000_0000_0000_0000, |c.encode(block)| % 0x1_0000_0000)
  }

  function IndexOf(c: Codec, blocks: seq<Level>, offset: nat): (r: seq<IndexEntry>)
    ensures |r| == |blocks|
  {
    if blocks == [] then []
    else [IndexEntryFor(c, blocks[0], offset)] + IndexOf(c, blocks[1..], offset + |c.encode(blocks[0])|)
  }

  /** Offsets and counts as the footer stores them. */
  function FootFor(indexOffset: nat, count: nat, bloomOffset: nat): Foot {
    Foot(indexOffset % 0x1_0000_0000_0000_0000, count % 0x1_0000_0000, bloomOffset % 0x1_0000_0000_0000_0000)
  }

  function FileBytes(c: Codec, blocks: seq<Level>, bloom: bytes): bytes {
    var data, index := BlocksBytes(c, blocks), EncodeAll(c.index, IndexOf(c, blocks, 0));
    data + (index + (c.bloom.encode(bloom) + c.foot.encode(FootFor(|data|, |blocks|, |data| + |index|))))
  }

  // ---------------------------------------------------------------- reading

  datatype Opened = Opened(index: seq<IndexEntry>, bloom: bytes)

  /** Footer first, then the index and the filter it points to. */
  function OpenFile(c: Codec, file: bytes): Option<Opened> {
    if |file| < FOOTER_SIZE then None
    else
      var foot := c.foot.parse(file, |file| - FOOTER_SIZE);
      if foot.None? then None
      else
        var at := foot.value.0;
        var index, bloom := ReadMany(c.index, file, at.indexOffset, at.count), c.bloom.parse(file, at.bloomOffset);
        if index.None? || bloom.None? then None else Some(Opened(index.value.0, bloom.value.0))
  }

  function ReadBlockAt(c: Codec, file: bytes, x: IndexEntry): Option<Level> {
    var b := ReadFull(file, x.offset, x.length);
    if b.None? then None else c.decode(b.value)
  }

  /** All blocks, flattened. */
  function ReadAll(c: Codec, file: bytes, index: seq<IndexEntry>): Option<Level> {
    if index == [] then Some([])
    else
      var first, rest := ReadBlockAt(c, file, index[0]), ReadAll(c, file, index[1..]);
      if first.None? || rest.None? then None else Some(first.value + rest.value)
  }

  /** The loop of the block iterator. */
  method ReadBlocks(c: Codec, file: bytes, index: seq<IndexEntry>) returns (r: Option<Level>)
    ensures r == ReadAll(c, file, index)
  {
    var entries: Level := [];
    for i := 0 to |index|
      invariant ReadAll(c, file, index).Some? <==> ReadAll(c, file, index[i..]).Some?
      invariant ReadAll(c, file, index).Some? ==>
                  ReadAll(c, file, index).value == entries + ReadAll(c, file, index[i..]).value
    {
      assert index[i..][1..] == index[i + 1..];
      var block := ReadBlockAt(c, file, index[i]);
      if block.None? { return None; }
      entries := entries + block.value;
    }
    assert index[|index|..] == [] && entries + [] == entries;
    return Some(entries);
  }

  // ------------------------------------------------------------- round trip

  /** The limits of the format: what the integer fields can hold. */
  ghost predicate WithinLimits(c: Codec, blocks: seq<Level>, bloom: bytes) {
    && FileFits(FileBytes(c, blocks, bloom))
    && |blocks| < 0x1_0000_0000 && |bloom| < 0x1_0000_0000
    && (forall b | 0 <= b < |blocks| :: BlockFits(c, blocks[b]))
  }

  ghost predicate FileFits(file: bytes) { |file| < 0x8000_0000_0000_0000 }

  ghost predicate BlockFits(c: Codec, block: Level) {
    && |c.encode(block)| < 0x8000_0000 && c.decode(c.encode(block)) == Some(block)
    && |c.head(HeadKey(block))| < 0x1_0000_0000
  }

  lemma {:induction false} IndexFitsAll(c: Codec, blocks: seq<Level>, offset: nat)
    requires forall b | 0 <= b < |blocks| :: BlockFits(c, blocks[b])
    requires Accepts(c)
    ensures AllFit(c.index, IndexOf(c, blocks, offset))
  {
    if blocks != [] {
      assert BlockFits(c, blocks[0]);
      IndexFitsAll(c, blocks[1..], offset + |c.encode(blocks[0])|);
    }
  }

  /** Index ranges tile the data section: each block starts where the previous
      one ends, the first at the start, the last ending where the index begins. */
  lemma {:induction false} IndexTiles(c: Codec, blocks: seq<Level>, offset: nat, i: nat)
    requires offset + |BlocksBytes(c, blocks)| < 0x8000_0000_0000_0000 && i < |blocks|
    requires forall b | 0 <= b < |blocks| :: BlockFits(c, blocks[b])
    ensures IndexOf(c, blocks, offset)[0].offset == offset
    ensures IndexOf(c, blocks, offset)[i].offset + IndexOf(c, blocks, offset)[i].length
         == if i + 1 < |blocks| then IndexOf(c, blocks, offset)[i + 1].offset else offset + |BlocksBytes(c, blocks)|
  {
    EntryIsExact(c, blocks[0], offset);
    var next := offset + |c.encode(blocks[0])|;
    if |blocks| > 1 {
      IndexTiles(c, blocks[1..], next, if i > 0 then i - 1 else 0);
    }
  }

  lemma EntryIsExact(c: Codec, block: Level, offset: nat)
    requires BlockFits(c, block) && offset < 0x8000_0000_0000_0000
    ensures IndexEntryFor(c, block, offset).offset == offset
    ensures IndexEntryFor(c, block, offset).length == |c.encode(block)|
  {
  }

  lemma ReadBlockBack(c: Codec, block: Level, file: bytes, offset: nat)
    requires At(file, offset, c.encode(block)) && |file| < 0x8000_0000_0000_0000 && BlockFits(c, block)
    ensures ReadBlockAt(c, file, IndexEntryFor(c, block, offset)) == Some(block)
  {
    EntryIsExact(c, block, offset);
  }

  lemma {:induction false} ReadAllBack(c: Codec, blocks: seq<Level>, file: bytes, offset: nat)
    requires At(file, offset, BlocksBytes(c, blocks)) && |file| < 0x8000_0000_0000_0000
    requires forall b | 0 <= b < |blocks| :: BlockFits(c, blocks[b])
    ensures ReadAll(c, file, IndexOf(c, blocks, offset)) == Some(Concat(blocks))
  {
    if blocks != [] {
      var next, index := offset + |c.encode(blocks[0])|, IndexOf(c, blocks, offset);
      AtAppend(file, offset, c.encode(blocks[0]), BlocksBytes(c, blocks[1..]));
      ReadBlockBack(c, blocks[0], file, offset);
      ReadAllBack(c, blocks[1..], file, next);
      assert index[0] == IndexEntryFor(c, blocks[0], offset);
      assert index[1..] == IndexOf(c, blocks[1..], next);
    }
  }

  /** Where the sections stand: the stored offsets are their true positions. */
  lemma Sections(c: Codec, blocks: seq<Level>, bloom: bytes)
    requires FixedFooter(c)
    ensures var file, data, index :=
              FileBytes(c, blocks, bloom), BlocksBytes(c, blocks), EncodeAll(c.index, IndexOf(c, blocks, 0));
            && At(file, 0, data) && At(file, |data|, index) && At(file, |data| + |index|, c.bloom.encode(bloom))
            && |file| >= FOOTER_SIZE
            && At(file, |file| - FOOTER_SIZE, c.foot.encode(FootFor(|data|, |blocks|, |data| + |index|)))
  {
    var file, data, index :=
      FileBytes(c, blocks, bloom), BlocksBytes(c, blocks), EncodeAll(c.index, IndexOf(c, blocks, 0));
    var section, foot := c.bloom.encode(bloom), c.foot.encode(FootFor(|data|, |blocks|, |data| + |index|));
    assert At(file, 0, file);
    AtAppend(file, 0, data, index + (section + foot));
    AtAppend(file, |data|, index, section + foot);
    AtAppend(file, |data| + |index|, section, foot);
  }

  /** Index, filter and footer where the footer says. */
  ghost predicate Laid(c: Codec, index: seq<IndexEntry>, bloom: bytes, file: bytes, data: nat, packed: bytes) {
    && packed == EncodeAll(c.index, index) && At(file, data, packed)
    && At(file, data + |packed|, c.bloom.encode(bloom)) && |file| >= FOOTER_SIZE
    && At(file, |file| - FOOTER_SIZE, c.foot.encode(FootFor(data, |index|, data + |packed|)))
  }

  lemma OpenBack(c: Codec, index: seq<IndexEntry>, bloom: bytes, file: bytes, data: nat, packed: bytes)
    requires ReadsBack(c.index) && ReadsBack(c.bloom) && ReadsBack(c.foot) && AllFit(c.index, index)
    requires FixedFooter(c) && c.bloom.fits(bloom)
    requires |file| < 0x8000_0000_0000_0000 && |index| < 0x1_0000_0000 && |bloom| < 0x1_0000_0000
    requires Laid(c, index, bloom, file, data, packed)
    ensures OpenFile(c, file) == Some(Opened(index, bloom))
  {
    var foot := FootFor(data, |index|, data + |packed|);
    assert foot == Foot(data, |index|, data + |packed|);
    assert ReadsBackAt(c.foot, foot, file, |file| - FOOTER_SIZE);
    ReadManyBack(c.index, index, file, data);
    assert ReadsBackAt(c.bloom, bloom, file, data + |packed|);
    OpenFrom(c, index, bloom, file, foot);
  }

  lemma OpenFrom(c: Codec, index: seq<IndexEntry>, bloom: bytes, file: bytes, foot: Foot)
    requires |file| >= FOOTER_SIZE
    requires var o := c.foot.parse(file, |file| - FOOTER_SIZE); o.Some? && o.value.0 == foot
    requires var o := ReadMany(c.index, file, foot.indexOffset, foot.count); o.Some? && o.value.0 == index
    requires var o := c.bloom.parse(file, foot.bloomOffset); o.Some? && o.value.0 == bloom
    ensures OpenFile(c, file) == Some(Opened(index, bloom))
  {
  }

  lemma SectionsLaid(c: Codec, blocks: seq<Level>, bloom: bytes)
    requires FixedFooter(c)
    ensures Laid(c, IndexOf(c, blocks, 0), bloom, FileBytes(c, blocks, bloom), |BlocksBytes(c, blocks)|,
                 EncodeAll(c.index, IndexOf(c, blocks, 0)))
  {
    Sections(c, blocks, bloom);
  }

  lemma FileOpens(c: Codec, blocks: seq<Level>, bloom: bytes)
    requires LawfulCodec(c) && WithinLimits(c, blocks, bloom)
    ensures OpenFile(c, FileBytes(c, blocks, bloom)) == Some(Opened(IndexOf(c, blocks, 0), bloom))
  {
    SectionsLaid(c, blocks, bloom);
    IndexFitsAll(c, blocks, 0);
    OpenLaid(c, IndexOf(c, blocks, 0), bloom, FileBytes(c, blocks, bloom), |BlocksBytes(c, blocks)|);
  }

  lemma OpenLaid(c: Codec, index: seq<IndexEntry>, bloom: bytes, file: bytes, data: nat)
    requires LawfulCodec(c) && AllFit(c.index, index) && FileFits(file)
    requires |index| < 0x1_0000_0000 && |bloom| < 0x1_0000_0000
    requires Laid(c, index, bloom, file, data, EncodeAll(c.index, index))
    ensures OpenFile(c, file) == Some(Opened(index, bloom))
  {
    OpenBack(c, index, bloom, file, data, EncodeAll(c.index, index));
  }

  /** Reading a written file back gives the same index, the same filter bytes
      and exactly the entries of its blocks. */
  lemma FileRoundTrip(c: Codec, blocks: seq<Level>, bloom: bytes)
    requires LawfulCodec(c) && WithinLimits(c, blocks, bloom)
    ensures OpenFile(c, FileBytes(c, blocks, bloom)) == Some(Opened(IndexOf(c, blocks, 0), bloom))
    ensures ReadAll(c, FileBytes(c, blocks, bloom), IndexOf(c, blocks, 0)) == Some(Concat(blocks))
  {
    FileOpens(c, blocks, bloom);
    Sections(c, blocks, bloom);
    ReadAllBack(c, blocks, FileBytes(c, blocks, bloom), 0);
  }
}
