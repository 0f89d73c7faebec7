/** The file formats byte by byte: where each field stands, and how it is spelled. */
module Layouts {
  import opened Bytes
  import opened InternalKeys
  import opened Versions
  import opened Framing
  import opened EntryLog
  import opened BlockCodec
  import opened Bloom
  import opened Decimal
  import Caches
  import FileNames

  /** From p on, in as many bytes, least significant first, the file has n. */
  ghost predicate Number(file: bytes, p: nat, width: nat, n: nat) {
    p + width <= |file| && Little(file[p..p + width]) == n
  }

  lemma NumberOf(file: bytes, p: nat, n: u32)
    requires At(file, p, PutUint32(n))
    ensures Number(file, p, 4, n)
  {
    PutIsLittle(n, 0);
  }

  lemma NumberThen(file: bytes, p: nat, n: u32, rest: bytes)
    requires At(file, p, PutUint32(n) + rest)
    ensures Number(file, p, 4, n) && At(file, p + 4, rest)
  {
    AtAppend(file, p, PutUint32(n), rest);
    NumberOf(file, p, n);
  }

  lemma Fits32(n: nat)
    requires n < 0x1_0000_0000
    ensures n % 0x1_0000_0000 == n && Wal.Length32(n) == n
  {
  }

  lemma NumberOf64(file: bytes, p: nat, n: u64)
    requires At(file, p, PutUint64(n))
    ensures Number(file, p, 8, n)
  {
    PutIsLittle(0, n);
  }

  // --------------------------------------------------------------- the keys

  /** A stored key: the user key, then the kind in one byte and the number in
      seven.  Deletes are of kind 0 and writes of kind 1. */
  lemma KeyLayout(k: InternalKey)
    ensures var b, n := Encode(k), |k.user|;
            |b| == n + 8 && b[..n] == k.user && Number(b, n, 8, 256 * k.num + k.kind)
    ensures KIND_DELETE == 0 && KIND_SET == 1
  {
    assert At(Encode(k), |k.user|, PutUint64(k.Trailer()));
    NumberOf64(Encode(k), |k.user|, k.Trailer());
  }

  /** A string too short for that is a key of no valid kind. */
  lemma ShortKey(b: bytes)
    requires |b| < 8
    ensures Decode(b).user == [] && Decode(b).kind == 255 && !Decode(b).Valid()
  {
  }

  // ---------------------------------------------------------------- the log

  /** A record of the log: the length of the rest, the lengths of key and value,
      key and value, and the checksum of all but the first and last field. */
  lemma RecordLayout(crc: Wal.Checksum, r: Wal.Record)
    requires 12 + |r.key| + |r.value| < 0x1_0000_0000
    ensures var b, k, v := Wal.Encode(crc, r), |r.key|, |r.value|;
            && |b| == 16 + k + v && Number(b, 0, 4, 12 + k + v) && Number(b, 4, 4, k) && Number(b, 8, 4, v)
            && At(b, 12, r.key) && At(b, 12 + k, r.value) && Number(b, 12 + k + v, 4, crc(b[4..12 + k + v]))
  {
    var b, data := Wal.Encode(crc, r), Wal.DataPart(r);
    FrameIs(crc, data);
    FrameLayout(b, data, crc(data));
    DataLayout(r, b, 4);
  }

  lemma FrameIs(crc: Wal.Checksum, data: bytes)
    requires |data| + 4 < 0x1_0000_0000
    ensures Wal.Frame(Wal.Body(crc, data)) == PutUint32(|data| + 4) + (data + PutUint32(crc(data)))
  {
    Fits32(|data| + 4);
  }

  lemma FrameLayout(b: bytes, data: bytes, sum: u32)
    requires |data| + 4 < 0x1_0000_0000 && b == PutUint32(|data| + 4) + (data + PutUint32(sum))
    ensures Number(b, 0, 4, |data| + 4) && At(b, 4, data) && Number(b, 4 + |data|, 4, sum)
  {
    assert At(b, 0, b);
    NumberThen(b, 0, |data| + 4, data + PutUint32(sum));
    AtAppend(b, 4, data, PutUint32(sum));
    NumberOf(b, 4 + |data|, sum);
  }

  /** The part that blocks have as well. */
  lemma DataLayout(r: Wal.Record, b: bytes, p: nat)
    requires |r.key| < 0x1_0000_0000 && |r.value| < 0x1_0000_0000 && At(b, p, Wal.DataPart(r))
    ensures Number(b, p, 4, |r.key|) && Number(b, p + 4, 4, |r.value|)
    ensures At(b, p + 8, r.key) && At(b, p + 8 + |r.key|, r.value)
  {
    DataIs(r);
    PartsLayout(b, p, |r.key|, |r.value|, r.key, r.value);
  }

  lemma DataIs(r: Wal.Record)
    requires |r.key| < 0x1_0000_0000 && |r.value| < 0x1_0000_0000
    ensures Wal.DataPart(r) == PutUint32(|r.key|) + (PutUint32(|r.value|) + (r.key + r.value))
  {
    Fits32(|r.key|);
    Fits32(|r.value|);
  }

  lemma PartsLayout(b: bytes, p: nat, k: u32, v: u32, key: bytes, value: bytes)
    requires At(b, p, PutUint32(k) + (PutUint32(v) + (key + value)))
    ensures Number(b, p, 4, k) && Number(b, p + 4, 4, v) && At(b, p + 8, key) && At(b, p + 8 + |key|, value)
  {
    NumberThen(b, p, k, PutUint32(v) + (key + value));
    NumberThen(b, p + 4, v, key + value);
    AtAppend(b, p + 8, key, value);
  }

  // ------------------------------------------------------------- the blocks

  /** A block: the number of entries, the entries, and the checksum of both. */
  lemma BlockLayout(crc: Wal.Checksum, block: Level)
    requires |block| < 0x1_0000_0000
    ensures var b, n := EncodeBlock(crc, BlockEntries(), block), |EncodeAll(BlockEntries(), block)|;
            && |b| == n + 8 && Number(b, 0, 4, |block|) && b[4..4 + n] == EncodeAll(BlockEntries(), block)
            && Number(b, 4 + n, 4, crc(b[..4 + n]))
  {
    var b, entries := EncodeBlock(crc, BlockEntries(), block), EncodeAll(BlockEntries(), block);
    Fits32(|block|);
    var data := PutUint32(|block|) + entries;
    assert At(b, 0, data + PutUint32(crc(data)));
    AtAppend(b, 0, data, PutUint32(crc(data)));
    AtAppend(b, 0, PutUint32(|block|), entries);
    NumberOf(b, 0, |block|);
    NumberOf(b, |data|, crc(data));
    assert b[..|data|] == data;
  }

  /** An entry: the lengths of the stored key and of the value, then both. */
  lemma EntryLayout(e: Entry)
    requires |e.key.user| + 8 < 0x1_0000_0000 && |e.value| < 0x1_0000_0000
    ensures var b, k := BlockEntries().encode(e), |e.key.user| + 8;
            && |b| == 8 + k + |e.value| && Number(b, 0, 4, k) && Number(b, 4, 4, |e.value|)
            && b[8..8 + k] == Encode(e.key) && b[8 + k..] == e.value
  {
    var b, r := BlockEntries().encode(e), ToRecord(e);
    assert b == RawEntries().encode(r) == Wal.DataPart(r);
    assert At(b, 0, Wal.DataPart(r));
    DataLayout(r, b, 0);
  }

  // ----------------------------------------- index, filter section, footer

  /** An index entry: the length of the block's first key, that key, and offset and
      length of the block. */
  lemma IndexLayout(x: IndexEntry)
    requires |x.firstKey| < 0x1_0000_0000
    ensures var b, k := IndexEntries().encode(x), |x.firstKey|;
            && |b| == 16 + k && Number(b, 0, 4, k) && b[4..4 + k] == x.firstKey
            && Number(b, 4 + k, 8, x.offset) && Number(b, 12 + k, 4, x.length)
  {
    var b := IndexEntries().encode(x);
    Fits32(|x.firstKey|);
    assert At(b, 0, b);
    IndexParts(b, |x.firstKey|, x.firstKey, x.offset, x.length);
  }

  lemma IndexParts(b: bytes, k: u32, key: bytes, offset: u64, length: u32)
    requires At(b, 0, PutUint32(k) + (key + (PutUint64(offset) + PutUint32(length))))
    ensures Number(b, 0, 4, k) && At(b, 4, key) && Number(b, 4 + |key|, 8, offset) && Number(b, 12 + |key|, 4, length)
  {
    NumberThen(b, 0, k, key + (PutUint64(offset) + PutUint32(length)));
    AtAppend(b, 4, key, PutUint64(offset) + PutUint32(length));
    AtAppend(b, 4 + |key|, PutUint64(offset), PutUint32(length));
    NumberOf64(b, 4 + |key|, offset);
    NumberOf(b, 12 + |key|, length);
  }

  /** The footer: where the index starts, how many entries it has, and where the
      filter starts. */
  lemma FootLayout(x: Foot)
    ensures var b := Feet().encode(x);
            |b| == 20 && Number(b, 0, 8, x.indexOffset) && Number(b, 8, 4, x.count) && Number(b, 12, 8, x.bloomOffset)
  {
    var b := EncodeFoot(x);
    var i, n, f := PutUint64(x.indexOffset), PutUint32(x.count), PutUint64(x.bloomOffset);
    assert At(b, 0, i + (n + f));
    AtAppend(b, 0, i, n + f);
    AtAppend(b, 8, n, f);
    NumberOf64(b, 0, x.indexOffset);
    NumberOf(b, 8, x.count);
    NumberOf64(b, 12, x.bloomOffset);
  }

  lemma BloomLayout(x: bytes)
    requires |x| < 0x1_0000_0000
    ensures var b := Blooms().encode(x); |b| == 4 + |x| && Number(b, 0, 4, |x|) && b[4..] == x
  {
    Fits32(|x|);
    assert At(Blooms().encode(x), 0, PutUint32(|x|) + x);
    NumberThen(Blooms().encode(x), 0, |x|, x);
  }

  // ------------------------------------------------------------- the filter

  const WEIGHTS: seq<nat> := [1, 2, 4, 8, 16, 32, 64, 128]

  lemma WeightsArePowers(k: nat)
    requires k < 8
    ensures Pow2(k) == WEIGHTS[k]
  {
    assert Pow2(0) == 1;
    assert Pow2(1) == 2 * Pow2(0);
    assert Pow2(2) == 2 * Pow2(1);
    assert Pow2(3) == 2 * Pow2(2);
    assert Pow2(4) == 2 * Pow2(3);
    assert Pow2(5) == 2 * Pow2(4);
    assert Pow2(6) == 2 * Pow2(5);
    assert Pow2(7) == 2 * Pow2(6);
  }

  /** A stored filter: how many bits, how many probes, and the bits, eight to the
      byte, the first one in the lowest place. */
  lemma FilterLayout(f: Filter, i: nat)
    requires |f.bits| < 0x1_0000_0000 && f.numHash < 0x1_0000_0000
    ensures var b := Serialize(f);
            |b| == 8 + (|f.bits| + 7) / 8 && Number(b, 0, 4, |f.bits|) && Number(b, 4, 4, f.numHash)
    ensures i < |f.bits| ==> (f.bits[i] <==> Serialize(f)[8 + i / 8] / WEIGHTS[i % 8] % 2 == 1)
  {
    SerializeParts(f);
    Fits32(|f.bits|);
    Fits32(f.numHash);
    HeadLayout(Serialize(f), |f.bits|, f.numHash);
    if i < |f.bits| { BitLayout(f.bits, i, Serialize(f)[8 + i / 8]); }
  }

  lemma HeadLayout(b: bytes, size: u32, probes: u32)
    requires |b| >= 8 && b[0..4] == PutUint32(size) && b[4..8] == PutUint32(probes)
    ensures Number(b, 0, 4, size) && Number(b, 4, 4, probes)
  {
    NumberOf(b, 0, size);
    NumberOf(b, 4, probes);
  }

  lemma BitLayout(bits: seq<bool>, i: nat, packed: byte)
    requires i < |bits| && packed == PackByte(bits, i / 8)
    ensures bits[i] <==> packed / WEIGHTS[i % 8] % 2 == 1
  {
    PackedBit(bits, i / 8, 8, i % 8);
    WeightsArePowers(i % 8);
  }

  // --------------------------------------------------------------- the names

  /** Every byte is the digit of its decimal place. */
  ghost predicate Spelled(s: bytes, n: nat) {
    && s != [] && (forall i | 0 <= i < |s| :: s[|s| - 1 - i] == 48 + Shifted(n, i) % 10)
    && Shifted(n, |s|) == 0 && (|s| > 1 ==> Shifted(n, |s| - 1) > 0)
  }

  /** A table file is named after its creation time, with ".sst" behind it; a
      cached block after its file and its offset, with ":" between. */
  lemma NameLayout(n: nat, path: bytes)
    ensures var name := FileNames.FileName(n);
            |name| > 4 && Spelled(name[..|name| - 4], n) && name[|name| - 4..] == [46, 115, 115, 116]
    ensures var key := Caches.CacheKey(path, n);
            |key| > |path| && key[..|path|] == path && key[|path|] == 58 && Spelled(key[|path| + 1..], n)
  {
    PrintNatPlaces(n);
    var name, key := FileNames.FileName(n), Caches.CacheKey(path, n);
    assert name[..|name| - 4] == PrintNat(n) == key[|path| + 1..];
  }
}
