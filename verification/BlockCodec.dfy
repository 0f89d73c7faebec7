/** Blocks and index entries as bytes: sstable/block.go and sstable/index.go. */
module BlockCodec {
  import opened Bytes
  import opened InternalKeys
  import opened Versions
  import opened Framing
  import opened EntryLog
  import opened Tables

  // -------------------------------------------------- one entry of a block

  /** Key and value of an entry; lengths are stored on 32 bits. */
  function ParseRaw(b: bytes, p: nat): (o: Option<(Wal.Record, nat)>)
    ensures o.Some? ==> p + 8 <= o.value.1 <= |b|
  {
    var k, v := ReadUint32(b, p), ReadUint32(b, p + 4);
    if k.None? || v.None? then None
    else
      var key, value := ReadFull(b, p + 8, k.value), ReadFull(b, p + 8 + k.value, v.value);
      if key.None? || value.None? then None
      else Some((Wal.Record(key.value, value.value), p + 8 + k.value + v.value))
  }

  predicate RawFits(r: Wal.Record) { |r.key| < 0x1_0000_0000 && |r.value| < 0x1_0000_0000 }

  function RawEntries(): Format<Wal.Record> {
    Format((r: Wal.Record) => RawFits(r), (r: Wal.Record) => Wal.DataPart(r), (b: bytes, p: nat) => ParseRaw(b, p))
  }

  lemma ReadRaw(b: bytes, p: nat, k: u32, v: u32, key: bytes, value: bytes)
    requires At(b, p, PutUint32(k) + (PutUint32(v) + (key + value))) && k == |key| && v == |value|
    ensures ParseRaw(b, p) == Some((Wal.Record(key, value), p + 8 + |key| + |value|))
  {
    Wal.ReadUint32At(b, p, k, PutUint32(v) + (key + value));
    Wal.ReadUint32At(b, p + 4, v, key + value);
    AtAppend(b, p + 8, key, value);
  }

  lemma RawReadBack(r: Wal.Record, b: bytes, p: nat)
    ensures ReadsBackAt(RawEntries(), r, b, p)
  {
    if RawFits(r) && At(b, p, Wal.DataPart(r)) {
      ReadRaw(b, p, Wal.Length32(|r.key|), Wal.Length32(|r.value|), r.key, r.value);
    }
  }

  function FromRaw(r: Wal.Record): Entry { Entry(Decode(r.key), r.value) }

  /** Entries of a block: no entry is refused for its kind. */
  function BlockEntries(): Format<Entry> {
    Through(RawEntries(), (e: Entry) => true, ToRecord, FromRaw)
  }

  lemma BlockEntriesReadBack()
    ensures ReadsBack(BlockEntries())
  {
    var f, g := RawEntries(), BlockEntries();
    forall e: Entry, b: bytes, p: nat ensures ReadsBackAt(g, e, b, p) {
      RawReadBack(ToRecord(e), b, p);
      KeyRoundTrip(e.key, []);
      assert ReadsBackAt(f, ToRecord(e), b, p);
    }
  }

  /** The writer's size estimate of an entry is exact. */
  lemma EntryBytes(e: Entry)
    ensures |BlockEntries().encode(e)| == EntrySize(e)
  {
    assert RawEntries().encode(ToRecord(e)) == Wal.DataPart(ToRecord(e));
  }

  // ------------------------------------------------------------- one block

  /** Any layout of the block's data, closed by its checksum. */
  function SealedBlock(crc: Wal.Checksum, data: bytes): (b: bytes)
    ensures |b| == |data| + 4
  {
    data + PutUint32(crc(data))
  }

  function BlockData(f: Format<Entry>, block: Level): bytes {
    PutUint32(|block| % 0x1_0000_0000) + EncodeAll(f, block)
  }

  function EncodeBlock(crc: Wal.Checksum, f: Format<Entry>, block: Level): bytes {
    SealedBlock(crc, BlockData(f, block))
  }

  function DecodeData(f: Format<Entry>, data: bytes): Option<Level> {
    var n := ReadUint32(data, 0);
    if n.None? then None
    else
      var r := ReadMany(f, data, 4, n.value);
      if r.None? then None else Some(r.value.0)
  }

  function DecodeBlock(crc: Wal.Checksum, f: Format<Entry>, b: bytes): Option<Level> {
    if |b| < 4 then None
    else
      var data := b[..|b| - 4];
      if crc(data) != GetUint32(b[|b| - 4..]) then None else DecodeData(f, data)
  }

  lemma DecodeDataBack(f: Format<Entry>, block: Level)
    requires ReadsBack(f) && AllFit(f, block) && |block| < 0x1_0000_0000
    ensures DecodeData(f, BlockData(f, block)) == Some(block)
  {
    var data, n := BlockData(f, block), |block| % 0x1_0000_0000;
    assert At(data, 0, data) && n == |block|;
    Wal.ReadUint32At(data, 0, n, EncodeAll(f, block));
    ReadManyBack(f, block, data, 4);
  }

  lemma SealedBack(crc: Wal.Checksum, f: Format<Entry>, data: bytes)
    ensures DecodeBlock(crc, f, SealedBlock(crc, data)) == DecodeData(f, data)
  {
    var b := SealedBlock(crc, data);
    assert b[..|b| - 4] == data;
    assert b[|b| - 4..] == PutUint32(crc(data));
  }

  /** A block whose stored checksum is not that of its data is refused. */
  lemma DamagedBlockIsRefused(crc: Wal.Checksum, f: Format<Entry>, data: bytes, sum: u32)
    ensures DecodeBlock(crc, f, data + PutUint32(sum)) == if crc(data) == sum then DecodeData(f, data) else None
  {
    var b := data + PutUint32(sum);
    assert b[..|b| - 4] == data && b[|b| - 4..] == PutUint32(sum);
  }

  /** Decoding a block gives back its entries. */
  lemma BlockRoundTrip(crc: Wal.Checksum, f: Format<Entry>, block: Level)
    requires ReadsBack(f) && AllFit(f, block) && |block| < 0x1_0000_0000
    ensures DecodeBlock(crc, f, EncodeBlock(crc, f, block)) == Some(block)
  {
    DecodeDataBack(f, block);
    SealedBack(crc, f, BlockData(f, block));
  }

  // ------------------------------------------------------------- the index

  datatype IndexEntry = IndexEntry(firstKey: bytes, offset: u64, length: u32)

  predicate IndexFits(x: IndexEntry) { |x.firstKey| < 0x1_0000_0000 }

  function EncodeIndexEntry(x: IndexEntry): (b: bytes)
    ensures |b| == 16 + |x.firstKey|
  {
    PutUint32(|x.firstKey| % 0x1_0000_0000) + (x.firstKey + (PutUint64(x.offset) + PutUint32(x.length)))
  }

  function ParseIndexEntry(b: bytes, p: nat): Option<(IndexEntry, nat)> {
    var k := ReadUint32(b, p);
    if k.None? then None
    else
      var q := p + 4 + k.value;
      var key, offset, length := ReadFull(b, p + 4, k.value), ReadUint64(b, q), ReadUint32(b, q + 8);
      if key.None? || offset.None? || length.None? then None
      else Some((IndexEntry(key.value, offset.value, length.value), q + 12))
  }

  function IndexEntries(): Format<IndexEntry> {
    Format((x: IndexEntry) => IndexFits(x), (x: IndexEntry) => EncodeIndexEntry(x),
           (b: bytes, p: nat) => ParseIndexEntry(b, p))
  }

  lemma ReadIndexEntry(b: bytes, p: nat, n: u32, key: bytes, offset: u64, length: u32)
    requires At(b, p, PutUint32(n) + (key + (PutUint64(offset) + PutUint32(length)))) && n == |key|
    ensures ParseIndexEntry(b, p) == Some((IndexEntry(key, offset, length), p + 16 + |key|))
  {
    Wal.ReadUint32At(b, p, n, key + (PutUint64(offset) + PutUint32(length)));
    AtAppend(b, p + 4, key, PutUint64(offset) + PutUint32(length));
    AtAppend(b, p + 4 + |key|, PutUint64(offset), PutUint32(length));
  }

  lemma IndexReadBack(x: IndexEntry, b: bytes, p: nat)
    ensures ReadsBackAt(IndexEntries(), x, b, p)
  {
    if IndexFits(x) && At(b, p, EncodeIndexEntry(x)) {
      ReadIndexEntry(b, p, |x.firstKey| % 0x1_0000_0000, x.firstKey, x.offset, x.length);
    }
  }

  lemma IndexEntriesReadBack()
    ensures ReadsBack(IndexEntries())
  {
    forall x: IndexEntry, b: bytes, p: nat ensures ReadsBackAt(IndexEntries(), x, b, p) { IndexReadBack(x, b, p); }
  }

  // -------------------------------------------------- filter and footer

  /** The filter section: its length on 32 bits, then its bytes. */
  function Blooms(): Format<bytes> {
    Format((x: bytes) => |x| < 0x1_0000_0000,
           (x: bytes) => PutUint32(|x| % 0x1_0000_0000) + x,
           (b: bytes, p: nat) => ParseBloom(b, p))
  }

  function ParseBloom(b: bytes, p: nat): Option<(bytes, nat)> {
    var n := ReadUint32(b, p);
    if n.None? then None
    else
      var x := ReadFull(b, p + 4, n.value);
      if x.None? then None else Some((x.value, p + 4 + n.value))
  }

  lemma ReadBloom(b: bytes, p: nat, n: u32, x: bytes)
    requires At(b, p, PutUint32(n) + x) && n == |x|
    ensures ParseBloom(b, p) == Some((x, p + 4 + |x|))
  {
    Wal.ReadUint32At(b, p, n, x);
  }

  lemma BloomsReadBack()
    ensures ReadsBack(Blooms())
  {
    forall x: bytes, b: bytes, p: nat ensures ReadsBackAt(Blooms(), x, b, p) {
      var n := |x| % 0x1_0000_0000;
      if |x| < 0x1_0000_0000 && At(b, p, PutUint32(n) + x) { ReadBloom(b, p, n, x); }
    }
  }

  datatype Foot = Foot(indexOffset: u64, count: u32, bloomOffset: u64)

  const FOOTER_SIZE := 20

  function EncodeFoot(x: Foot): (b: bytes)
    ensures |b| == FOOTER_SIZE
  {
    PutUint64(x.indexOffset) + (PutUint32(x.count) + PutUint64(x.bloomOffset))
  }

  function ParseFoot(b: bytes, p: nat): Option<(Foot, nat)> {
    var i, n, f := ReadUint64(b, p), ReadUint32(b, p + 8), ReadUint64(b, p + 12);
    if i.None? || n.None? || f.None? then None else Some((Foot(i.value, n.value, f.value), p + FOOTER_SIZE))
  }

  function Feet(): Format<Foot> {
    Format((x: Foot) => true, (x: Foot) => EncodeFoot(x), (b: bytes, p: nat) => ParseFoot(b, p))
  }

  lemma ReadFoot(b: bytes, p: nat, i: u64, n: u32, f: u64)
    requires At(b, p, PutUint64(i) + (PutUint32(n) + PutUint64(f)))
    ensures ParseFoot(b, p) == Some((Foot(i, n, f), p + FOOTER_SIZE))
  {
    AtAppend(b, p, PutUint64(i), PutUint32(n) + PutUint64(f));
    AtAppend(b, p + 8, PutUint32(n), PutUint64(f));
  }

  lemma FeetReadBack()
    ensures ReadsBack(Feet())
  {
    forall x: Foot, b: bytes, p: nat ensures ReadsBackAt(Feet(), x, b, p) {
      if At(b, p, EncodeFoot(x)) { ReadFoot(b, p, x.indexOffset, x.count, x.bloomOffset); }
    }
  }
}
