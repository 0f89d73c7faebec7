/** Tables through the disk: the concrete codec, its limits, and what a written
    table answers once it is read back. */
module SSTables {
  import opened Bytes
  import opened InternalKeys
  import opened Versions
  import opened Merging
  import opened Framing
  import opened Bloom
  import Wal
  import opened EntryLog
  import opened Tables
  import opened BlockCodec
  import opened TableFiles
  import opened TableWriters

  function TableCodec(crc: Wal.Checksum): Codec {
    Codec((b: Level) => EncodeBlock(crc, BlockEntries(), b),
          (x: bytes) => DecodeBlock(crc, BlockEntries(), x),
          (k: InternalKey) => Encode(k),
          IndexEntries(), Blooms(), Feet())
  }

  lemma TableCodecLawful(crc: Wal.Checksum)
    ensures LawfulCodec(TableCodec(crc))
  {
    IndexEntriesReadBack();
    BloomsReadBack();
    FeetReadBack();
  }

  // ------------------------------------------------------------ size limits

  /** What the engine accepts as a write. */
  predicate EntryFits(e: Entry) {
    |e.key.user| <= Wal.MAX_KEY_LENGTH && |e.value| <= Wal.MAX_VALUE_LENGTH
  }

  const MAX_ENTRY_SIZE := Wal.MAX_KEY_LENGTH + TRAILER_LEN + Wal.MAX_VALUE_LENGTH + 8

  function TotalSize(block: Level): nat {
    if block == [] then 0 else TotalSize(block[..|block| - 1]) + EntrySize(block[|block| - 1])
  }

  lemma TotalSnoc(block: Level, e: Entry)
    ensures TotalSize(block + [e]) == TotalSize(block) + EntrySize(e)
  {
    assert (block + [e])[..|block|] == block;
  }

  /** A block is full from 4096 bytes on, and was not before its last entry. */
  ghost predicate JustFull(block: Level) {
    block != [] && TotalSize(block[..|block| - 1]) < 4096 <= TotalSize(block)
  }

  ghost predicate FullAt(blocks: seq<Level>, b: nat)
    requires b < |blocks|
  {
    JustFull(blocks[b]) || (b == |blocks| - 1 && blocks[b] != [] && TotalSize(blocks[b]) < 4096)
  }

  /** Every block is closed as soon as it is full; only the last may not be. */
  lemma {:induction false} BlocksAreFull(entries: seq<Entry>, open: Level, size: nat)
    requires size == TotalSize(open) < 4096
    ensures forall b | 0 <= b < |Split(entries, open, size)| :: FullAt(Split(entries, open, size), b)
    decreases |entries|
  {
    if entries != [] {
      var grown := open + [entries[0]];
      TotalSnoc(open, entries[0]);
      assert grown[..|open|] == open;
      if TotalSize(grown) >= BLOCK_SIZE {
        BlocksAreFull(entries[1..], [], 0);
        var rest := Split(entries[1..], [], 0);
        assert grown[..|grown| - 1] == open && JustFull(grown);
        forall b | 0 <= b < |[grown] + rest|
          ensures FullAt([grown] + rest, b)
        {
          if b > 0 { assert FullAt(rest, b - 1); }
        }
      } else {
        BlocksAreFull(entries[1..], grown, TotalSize(grown));
      }
    }
  }

  lemma {:induction false} TotalBytes(block: Level)
    ensures |EncodeAll(BlockEntries(), block)| == TotalSize(block)
    ensures |block| <= TotalSize(block)
  {
    if block != [] {
      var last := |block| - 1;
      TotalBytes(block[..last]);
      assert block == block[..last] + [block[last]];
      EncodeAllSnoc(BlockEntries(), block[..last], block[last]);
      EntryBytes(block[last]);
    }
  }

  /** No block outgrows the block size by more than one entry. */
  lemma {:induction false} BlocksBounded(entries: seq<Entry>, open: Level, size: nat, b: nat)
    requires forall i | 0 <= i < |entries| :: EntryFits(entries[i])
    requires TotalSize(open) == size && size < BLOCK_SIZE && b < |Split(entries, open, size)|
    ensures TotalSize(Split(entries, open, size)[b]) < BLOCK_SIZE + MAX_ENTRY_SIZE
    decreases |entries|
  {
    if entries != [] {
      var e := entries[0];
      assert EntrySize(e) <= MAX_ENTRY_SIZE;
      TotalSnoc(open, e);
      if size + EntrySize(e) >= BLOCK_SIZE {
        if b > 0 { BlocksBounded(entries[1..], [], 0, b - 1); }
      } else {
        BlocksBounded(entries[1..], open + [e], size + EntrySize(e), b);
      }
    }
  }

  lemma BlockBytes(crc: Wal.Checksum, block: Level)
    ensures |EncodeBlock(crc, BlockEntries(), block)| == TotalSize(block) + 8
  {
    TotalBytes(block);
  }

  lemma {:induction false} SplitMembers(entries: seq<Entry>, open: Level, size: nat, b: nat, e: Entry)
    requires b < |Split(entries, open, size)| && e in Split(entries, open, size)[b]
    ensures e in open || e in entries
  {
    var blocks := Split(entries, open, size);
    SplitPartitions(entries, open, size);
    var i :| 0 <= i < |blocks[b]| && blocks[b][i] == e;
    ConcatAt(blocks, b, i);
  }

  /** Every block of a table fits the format: its length fits 32 bits signed, and
      decoding gives it back. */
  lemma SplitBlockFits(crc: Wal.Checksum, entries: seq<Entry>, b: nat)
    requires forall i | 0 <= i < |entries| :: EntryFits(entries[i])
    requires b < |Split(entries, [], 0)|
    ensures BlockFits(TableCodec(crc), Split(entries, [], 0)[b])
  {
    var block, f := Split(entries, [], 0)[b], BlockEntries();
    BlocksBounded(entries, [], 0, b);
    BlockBytes(crc, block);
    TotalBytes(block);
    forall i | 0 <= i < |block|
      ensures EntryFits(block[i])
    {
      assert block[i] in block;
      SplitMembers(entries, [], 0, b, block[i]);
    }
    FitsBlock(block);
    BlockEntriesReadBack();
    BlockRoundTrip(crc, f, block);
    SplitPartitions(entries, [], 0);
    assert block != [] && EntryFits(block[0]);
    BlockFitsFrom(crc, block);
  }

  lemma BlockFitsFrom(crc: Wal.Checksum, block: Level)
    requires block != [] && EntryFits(block[0])
    requires |EncodeBlock(crc, BlockEntries(), block)| < 0x8000_0000
    requires DecodeBlock(crc, BlockEntries(), EncodeBlock(crc, BlockEntries(), block)) == Some(block)
    ensures BlockFits(TableCodec(crc), block)
  {
    var c := TableCodec(crc);
    assert c.encode(block) == EncodeBlock(crc, BlockEntries(), block);
    assert c.head(HeadKey(block)) == Encode(block[0].key);
  }

  lemma FitsBlock(block: Level)
    requires forall i | 0 <= i < |block| :: EntryFits(block[i])
    ensures AllFit(BlockEntries(), block)
  {
    forall i | 0 <= i < |block|
      ensures BlockEntries().fits(block[i])
    {
      assert RawFits(ToRecord(block[i]));
      assert RawEntries().fits(ToRecord(block[i]));
    }
  }

  // ------------------------------------------------------------- round trip

  /** Written and read back, a table has the same index, the same filter and
      exactly the same entries: for all entries that the engine accepts, as long
      as the file is shorter than 2^63 bytes and has fewer than 2^32 blocks. */
  lemma TableRoundTrip(crc: Wal.Checksum, h: Hashes, empty: Filter, entries: seq<Entry>)
    requires 0 < |empty.bits| < 0x1_0000_0000 && empty.numHash < 0x1_0000_0000
    requires forall i | 0 <= i < |entries| :: EntryFits(entries[i])
    requires FileFits(TableBytes(TableCodec(crc), h, empty, entries)) && |Split(entries, [], 0)| < 0x1_0000_0000
    ensures var c, file := TableCodec(crc), TableBytes(TableCodec(crc), h, empty, entries);
            var o := OpenFile(c, file);
            && o.Some? && o.value.index == IndexOf(c, Split(entries, [], 0), 0)
            && |o.value.bloom| >= 8 && Deserialize(o.value.bloom) == AddAll(h, empty, UserKeys(entries))
            && ReadAll(c, file, o.value.index) == Some(entries)
            && forall b | 0 <= b < |Split(entries, [], 0)| :: BlockFits(c, Split(entries, [], 0)[b])
  {
    var c, blocks := TableCodec(crc), Split(entries, [], 0);
    var bloom := AddAll(h, empty, UserKeys(entries));
    TableCodecLawful(crc);
    forall b | 0 <= b < |blocks|
      ensures BlockFits(c, blocks[b])
    {
      SplitBlockFits(crc, entries, b);
    }
    FileRoundTrip(c, blocks, Serialize(bloom));
    SplitPartitions(entries, [], 0);
    assert [] + entries == entries;
    SerializeRoundTrip(bloom);
  }
}
