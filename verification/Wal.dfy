/** The write-ahead log: wal/append.go, wal/replay.go and wal/operators.go.

    A log is a byte string; a crash may keep any prefix that covers the durable
    part.  The checksum is an arbitrary function of the bytes it covers. */
module Wal {
  import opened Bytes
  import opened Framing

  const MAX_KEY_LENGTH := 1024
  const MAX_VALUE_LENGTH := 1048576
  const MAX_ENCODED_KEY_LENGTH := MAX_KEY_LENGTH + 8
  const MAX_TOTAL_LENGTH := 4 + MAX_ENCODED_KEY_LENGTH + 4 + MAX_VALUE_LENGTH + 4

  type Checksum = bytes -> u32

  datatype Record = Record(key: bytes, value: bytes)

  predicate Fits(r: Record) {
    |r.key| <= MAX_ENCODED_KEY_LENGTH && |r.value| <= MAX_VALUE_LENGTH
  }

  // -------------------------------------------------------------- encoding

  /** A length as the format stores it, on 32 bits. */
  function Length32(n: nat): u32 { n % 0x1_0000_0000 }

  function DataPart(r: Record): (b: bytes)
    ensures |b| == 8 + |r.key| + |r.value|
  {
    PutUint32(Length32(|r.key|)) + (PutUint32(Length32(|r.value|)) + (r.key + r.value))
  }

  /** What the total length counts: the data and its checksum. */
  function Body(crc: Checksum, data: bytes): (b: bytes)
    ensures |b| == |data| + 4
  {
    data + PutUint32(crc(data))
  }

  function Frame(body: bytes): (b: bytes)
    ensures |b| == 4 + |body|
  {
    PutUint32(Length32(|body|)) + body
  }

  function Encode(crc: Checksum, r: Record): (b: bytes)
    ensures |b| == 16 + |r.key| + |r.value|
  {
    Frame(Body(crc, DataPart(r)))
  }

  // -------------------------------------------------------------- decoding

  /** The key and value inside a record whose checksum matched.  Bytes after
      the value are ignored. */
  function ParseData(data: bytes): Option<Record> {
    var k := ReadUint32(data, 0);
    var v := ReadUint32(data, 4);
    if k.None? || v.None? then None
    else if k.value > MAX_ENCODED_KEY_LENGTH || v.value > MAX_VALUE_LENGTH then None
    else
      var key := ReadFull(data, 8, k.value);
      var value := ReadFull(data, 8 + k.value, v.value);
      if key.None? || value.None? then None else Some(Record(key.value, value.value))
  }

  function ParseBody(crc: Checksum, body: bytes): Option<Record> {
    if |body| < 4 then None
    else
      var data := body[..|body| - 4];
      if crc(data) != GetUint32(body[|body| - 4..]) then None else ParseData(data)
  }

  /** The record at `pos` and the position after it, or None at the first sign
      of corruption or at the end of the file. */
  function ParseAt(crc: Checksum, file: bytes, pos: nat): (o: Option<(Record, nat)>)
    ensures o.Some? ==> pos + 4 <= o.value.1 <= |file|
  {
    var total := ReadUint32(file, pos);
    if total.None? || total.value > MAX_TOTAL_LENGTH then None
    else
      var body := ReadFull(file, pos + 4, total.value);
      if body.None? then None
      else
        var r := ParseBody(crc, body.value);
        if r.None? then None else Some((r.value, pos + 4 + total.value))
  }

  // -------------------------------------------------- one record, read back

  lemma ReadUint32At(file: bytes, pos: nat, n: u32, rest: bytes)
    requires At(file, pos, PutUint32(n) + rest)
    ensures ReadUint32(file, pos) == Some(n) && At(file, pos + 4, rest)
  {
    AtAppend(file, pos, PutUint32(n), rest);
  }

  lemma ReadDataPart(data: bytes, k: u32, v: u32, key: bytes, value: bytes)
    requires At(data, 0, PutUint32(k) + (PutUint32(v) + (key + value)))
    ensures ReadUint32(data, 0) == Some(k) && ReadUint32(data, 4) == Some(v)
    ensures At(data, 8, key) && At(data, 8 + |key|, value)
  {
    ReadUint32At(data, 0, k, PutUint32(v) + (key + value));
    ReadUint32At(data, 4, v, key + value);
    AtAppend(data, 8, key, value);
  }

  lemma ParseDataPart(r: Record)
    requires |r.key| < 0x1_0000_0000 && |r.value| < 0x1_0000_0000
    ensures ParseData(DataPart(r)) == if Fits(r) then Some(r) else None
  {
    var data := DataPart(r);
    DataPartReads(r);
    ParsesAs(data, |r.key|, |r.value|, r);
  }

  lemma DataPartReads(r: Record)
    requires |r.key| < 0x1_0000_0000 && |r.value| < 0x1_0000_0000
    ensures var data := DataPart(r);
            && ReadUint32(data, 0) == Some(|r.key|) && ReadUint32(data, 4) == Some(|r.value|)
            && At(data, 8, r.key) && At(data, 8 + |r.key|, r.value)
  {
    assert At(DataPart(r), 0, DataPart(r));
    ReadDataPart(DataPart(r), Length32(|r.key|), Length32(|r.value|), r.key, r.value);
  }

  lemma ParsesAs(data: bytes, k: nat, v: nat, r: Record)
    requires k == |r.key| && v == |r.value| && k < 0x1_0000_0000 && v < 0x1_0000_0000
    requires ReadUint32(data, 0) == Some(k) && ReadUint32(data, 4) == Some(v)
    requires At(data, 8, r.key) && At(data, 8 + k, r.value)
    ensures ParseData(data) == if Fits(r) then Some(r) else None
  {
  }

  lemma ParseBodyBack(crc: Checksum, data: bytes)
    ensures ParseBody(crc, Body(crc, data)) == ParseData(data)
  {
    var body := Body(crc, data);
    assert body[..|body| - 4] == data;
    assert body[|body| - 4..] == PutUint32(crc(data));
  }

  lemma ParseFrame(crc: Checksum, body: bytes, file: bytes, pos: nat)
    requires At(file, pos, Frame(body)) && |body| < 0x1_0000_0000
    ensures |body| <= MAX_TOTAL_LENGTH && ParseBody(crc, body).Some? ==>
              ParseAt(crc, file, pos) == Some((ParseBody(crc, body).value, pos + 4 + |body|))
    ensures |body| > MAX_TOTAL_LENGTH || ParseBody(crc, body).None? ==> ParseAt(crc, file, pos) == None
  {
    var total := Length32(|body|);
    assert total == |body|;
    ReadUint32At(file, pos, total, body);
  }

  /** Every record that fits is read back, and only those: no record of maximum
      size is rejected, and an oversized one is taken for corruption. */
  lemma ParseEncoded(crc: Checksum, r: Record, file: bytes, pos: nat)
    requires At(file, pos, Encode(crc, r))
    requires 12 + |r.key| + |r.value| < 0x1_0000_0000
    ensures Fits(r) ==> ParseAt(crc, file, pos) == Some((r, pos + |Encode(crc, r)|))
    ensures !Fits(r) ==> ParseAt(crc, file, pos) == None
  {
    ParseDataPart(r);
    ParseBodyBack(crc, DataPart(r));
    ParseFrame(crc, Body(crc, DataPart(r)), file, pos);
  }

  // ------------------------------------------------------- what is accepted

  /** A frame as the format has it: the length of what follows, then data, then
      the checksum that the file claims for it. */
  ghost predicate FrameAt(file: bytes, pos: nat, data: bytes, sum: u32) {
    |data| + 4 < 0x1_0000_0000 && At(file, pos, PutUint32(|data| + 4) + (data + PutUint32(sum)))
  }

  /** Data of a record: the two lengths, key and value, and perhaps more. */
  ghost predicate Carries(data: bytes, r: Record) {
    && |r.key| <= 1032 && |r.value| <= 1048576 && |data| >= 8 + |r.key| + |r.value|
    && Little(data[..4]) == |r.key| && Little(data[4..8]) == |r.value|
    && data[8..8 + |r.key|] == r.key && data[8 + |r.key|..8 + |r.key| + |r.value|] == r.value
  }

  lemma CarriesIff(data: bytes, r: Record)
    ensures ParseData(data) == Some(r) <==> Carries(data, r)
  {
    if |data| >= 8 {
      LittleIsGet(data[..4]);
      LittleIsGet(data[4..8]);
      assert data[0..4] == data[..4];
    }
  }

  lemma LittleIsGet(b: bytes)
    requires |b| == 4
    ensures GetUint32(b) == Little(b)
  {
    Uint32Bytes(b);
    PutIsLittle(GetUint32(b), 0);
  }

  lemma FrameReads(crc: Checksum, file: bytes, pos: nat, data: bytes, sum: u32)
    requires FrameAt(file, pos, data, sum)
    ensures var o := if crc(data) == sum && |data| + 4 <= MAX_TOTAL_LENGTH then ParseData(data) else None;
            ParseAt(crc, file, pos) == if o.None? then None else Some((o.value, pos + 8 + |data|))
  {
    BodyReads(crc, data, sum);
    assert Length32(|data| + 4) == |data| + 4;
    ParseFrame(crc, data + PutUint32(sum), file, pos);
  }

  lemma BodyReads(crc: Checksum, data: bytes, sum: u32)
    ensures ParseBody(crc, data + PutUint32(sum)) == if crc(data) == sum then ParseData(data) else None
  {
    var body := data + PutUint32(sum);
    assert body[..|body| - 4] == data && body[|body| - 4..] == PutUint32(sum);
  }

  /** A frame whose checksum is not that of its data is refused, wherever it
      stands and whatever follows it. */
  lemma DamageIsRefused(crc: Checksum, file: bytes, pos: nat, data: bytes, sum: u32)
    requires FrameAt(file, pos, data, sum) && crc(data) != sum
    ensures ParseAt(crc, file, pos) == None
  {
    FrameReads(crc, file, pos, data, sum);
  }

  /** A frame of at most 1049620 bytes after its length, with the right checksum,
      that carries a record. */
  ghost predicate RecordAt(crc: Checksum, file: bytes, pos: nat, data: bytes, r: Record) {
    FrameAt(file, pos, data, crc(data)) && |data| <= 1049616 && Carries(data, r)
  }

  /** It is accepted, wherever it stands and whatever follows it. */
  lemma RecordIsRead(crc: Checksum, file: bytes, pos: nat, data: bytes, r: Record)
    requires RecordAt(crc, file, pos, data, r)
    ensures ParseAt(crc, file, pos) == Some((r, pos + 8 + |data|))
  {
    FrameReads(crc, file, pos, data, crc(data));
    CarriesIff(data, r);
  }

  /** Nothing else is accepted. */
  lemma ReadIsRecord(crc: Checksum, file: bytes, pos: nat, r: Record, end: nat) returns (data: bytes)
    requires ParseAt(crc, file, pos) == Some((r, end))
    ensures RecordAt(crc, file, pos, data, r) && end == pos + 8 + |data|
  {
    data := AcceptedFrame(crc, file, pos);
    CarriesIff(data, r);
  }

  lemma AcceptedFrame(crc: Checksum, file: bytes, pos: nat) returns (data: bytes)
    requires ParseAt(crc, file, pos).Some?
    ensures FrameAt(file, pos, data, crc(data)) && |data| <= 1049616
    ensures ParseAt(crc, file, pos).value.1 == pos + 8 + |data|
    ensures ParseData(data) == Some(ParseAt(crc, file, pos).value.0)
  {
    var total := ReadUint32(file, pos).value;
    var body := file[pos + 4..pos + 4 + total];
    data := body[..|body| - 4];
    Uint32Bytes(file[pos..pos + 4]);
    Uint32Bytes(body[|body| - 4..]);
    assert body == data + PutUint32(crc(data));
    assert file[pos..pos + 4 + total] == file[pos..pos + 4] + body;
  }

  /** A log with a damaged record: replay returns the records before it and cuts
      the file there, whatever stands behind it. */
  lemma ReplayStopsAtDamage(crc: Checksum, xs: seq<Record>, data: bytes, sum: u32, more: bytes)
    requires AllFit(Records(crc), xs) && |data| + 4 < 0x1_0000_0000 && crc(data) != sum
    ensures var good := EncodeAll(Records(crc), xs);
            Replay(Records(crc), good + (PutUint32(|data| + 4) + (data + PutUint32(sum)) + more), 0) == (xs, |good|)
  {
    var good, bad := EncodeAll(Records(crc), xs), PutUint32(|data| + 4) + (data + PutUint32(sum));
    var file := good + (bad + more);
    RecordsAreLawful(crc);
    assert [] + good == good;
    assert At(file, |good|, bad);
    DamageIsRefused(crc, file, |good|, data, sum);
    ReplayStops(Records(crc), xs, [], bad + more);
  }

  lemma ParseTorn(crc: Checksum, body: bytes, file: bytes, pos: nat)
    requires EndsInside(file, pos, Frame(body)) && |body| < 0x1_0000_0000
    ensures ParseAt(crc, file, pos) == None
  {
    var total := Length32(|body|);
    assert total == |body|;
    if pos + 4 <= |file| {
      assert file[pos..pos + 4] == file[pos..][..4] == Frame(body)[..4] == PutUint32(total);
    }
  }

  lemma ParseLocal(crc: Checksum, a: bytes, p: nat, b: bytes, q: nat, n: nat)
    requires SameBytes(a, p, b, q, n)
    requires ParseAt(crc, a, p).Some? && ParseAt(crc, a, p).value.1 <= p + n
    ensures ParseAt(crc, b, q) == Some((ParseAt(crc, a, p).value.0, q + (ParseAt(crc, a, p).value.1 - p)))
  {
    var total := ReadUint32(a, p).value;
    var body := a[p + 4..p + 4 + total];
    ParseFrom(crc, a, p, total, body);
    SubBytes(a, p, b, q, n, 0, 4);
    SubBytes(a, p, b, q, n, 4, total);
    ParseFrom(crc, b, q, total, body);
  }

  lemma ParseFrom(crc: Checksum, file: bytes, pos: nat, total: u32, body: bytes)
    requires ReadUint32(file, pos) == Some(total) && total <= MAX_TOTAL_LENGTH
    requires ReadFull(file, pos + 4, total) == Some(body)
    ensures var r := ParseBody(crc, body);
            ParseAt(crc, file, pos) == if r.None? then None else Some((r.value, pos + 4 + total))
  {
  }

  lemma SubBytes(a: bytes, p: nat, b: bytes, q: nat, n: nat, from: nat, len: nat)
    requires SameBytes(a, p, b, q, n) && from + len <= n
    ensures a[p + from..p + from + len] == b[q + from..q + from + len]
  {
    var u, v := a[p + from..p + from + len], b[q + from..q + from + len];
    forall i | 0 <= i < len
      ensures u[i] == v[i]
    {
      assert u[i] == a[p..p + n][from + i] && v[i] == b[q..q + n][from + i];
    }
  }

  // ------------------------------------------------------------ the format

  /** Log records as a format, to which the results of Framing apply. */
  function Records(crc: Checksum): Format<Record> {
    Format((r: Record) => Fits(r), (r: Record) => Encode(crc, r), (file: bytes, pos: nat) => ParseAt(crc, file, pos))
  }

  lemma RecordReadBack(crc: Checksum, r: Record, b: bytes, p: nat)
    ensures ReadsBackAt(Records(crc), r, b, p)
  {
    if Fits(r) && At(b, p, Encode(crc, r)) { ParseEncoded(crc, r, b, p); }
  }

  lemma RecordRejectTorn(crc: Checksum, r: Record, b: bytes, p: nat)
    ensures RejectsTornAt(Records(crc), r, b, p)
  {
    if Fits(r) && EndsInside(b, p, Encode(crc, r)) { ParseTorn(crc, Body(crc, DataPart(r)), b, p); }
  }

  lemma RecordReadLocally(crc: Checksum, a: bytes, p: nat, b: bytes, q: nat, n: nat)
    ensures ReadsLocallyAt(Records(crc), a, p, b, q, n)
  {
    if SameBytes(a, p, b, q, n) && ParseAt(crc, a, p).Some? && ParseAt(crc, a, p).value.1 <= p + n {
      ParseLocal(crc, a, p, b, q, n);
    }
  }

  lemma RecordsAreLawful(crc: Checksum)
    ensures Lawful(Records(crc))
  {
    var f := Records(crc);
    forall b: bytes, p: nat ensures AdvancesAt(f, b, p) {}
    forall r: Record, b: bytes, p: nat ensures ReadsBackAt(f, r, b, p) { RecordReadBack(crc, r, b, p); }
    forall r: Record, b: bytes, p: nat ensures RejectsTornAt(f, r, b, p) { RecordRejectTorn(crc, r, b, p); }
    forall a: bytes, p: nat, b: bytes, q: nat, n: nat ensures ReadsLocallyAt(f, a, p, b, q, n) {
      RecordReadLocally(crc, a, p, b, q, n);
    }
  }

  // ---------------------------------------------------------------- the log

  class Log {
    const crc: Checksum
    var content: bytes
    var durable: nat
    var putCounter: nat

    ghost predicate Valid()
      reads this
    {
      durable <= |content| && putCounter < SYNC_THRESHOLD
    }

    constructor (crc: Checksum, content: bytes)
      ensures Valid() && this.crc == crc && this.content == content && durable == |content| && putCounter == 0
    {
      this.crc := crc;
      this.content := content;
      durable := |content|;
      putCounter := 0;
    }

    method Append(r: Record)
      requires Valid()
      modifies this
      ensures Valid() && content == old(content) + Encode(crc, r)
      ensures durable == old(durable) && putCounter == old(putCounter)
    {
      var data := WriteDataBuff(r);
      var checksum := crc(data);
      var record := PutUint32(Length32(|data| + 4));
      record := record + data;
      record := record + PutUint32(checksum);
      assert record == PutUint32(Length32(|data| + 4)) + (data + PutUint32(checksum));
      content := content + record;
    }

    method Sync()
      requires Valid()
      modifies this
      ensures Valid() && content == old(content) && durable == |content| && putCounter == old(putCounter)
    {
      durable := |content|;
    }

    /** One record; every tenth write makes the whole log durable. */
    method Write(key: bytes, value: bytes)
      requires Valid()
      modifies this
      ensures Valid() && content == old(content) + Encode(crc, Record(key, value))
      ensures putCounter == (old(putCounter) + 1) % SYNC_THRESHOLD
      ensures durable == if putCounter == 0 then |content| else old(durable)
    {
      Append(Record(key, value));
      if putCounter + 1 >= SYNC_THRESHOLD {
        Sync();
        putCounter := 0;
      } else {
        putCounter := putCounter + 1;
      }
    }

    /** Truncation to zero; the counter of writes since the last sync is kept. */
    method Reset()
      requires Valid()
      modifies this
      ensures Valid() && content == [] && durable == 0 && putCounter == old(putCounter)
    {
      content := [];
      durable := 0;
    }

    /** Reads records up to the first bad one and truncates the file there. */
    method ReplayLog() returns (entries: seq<Record>)
      requires Valid() && durable == |content|
      modifies this
      ensures Valid() && durable == |content| && putCounter == old(putCounter)
      ensures (entries, |content|) == Replay(Records(crc), old(content), 0)
      ensures content == old(content)[..|content|]
    {
      var items, end := ReplayFile(Records(crc), content);
      entries := items;
      content := content[..end];
      durable := end;
    }
  }

  method WriteDataBuff(r: Record) returns (data: bytes)
    ensures data == DataPart(r)
  {
    data := PutUint32(Length32(|r.key|));
    data := data + PutUint32(Length32(|r.value|));
    data := data + r.key;
    data := data + r.value;
    assert data == PutUint32(Length32(|r.key|)) + (PutUint32(Length32(|r.value|)) + (r.key + r.value));
  }
}
