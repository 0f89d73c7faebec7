/** Versions in the log: the key and value bytes of wal/operators.go and the
    decoding of db/db.go (rebuildMemtable). */
module EntryLog {
  import opened Bytes
  import opened InternalKeys
  import opened Versions
  import opened Framing
  import Wal

  /** Items of type B written through a format for items of type A. */
  function Through<A, B>(f: Format<A>, ok: B -> bool, to: B -> A, from: A -> B): Format<B> {
    Format((x: B) => ok(x) && f.fits(to(x)),
           (x: B) => f.encode(to(x)),
           (b: bytes, p: nat) =>
             var o := f.parse(b, p);
             if o.None? then None else Some((from(o.value.0), o.value.1)))
  }

  lemma ThroughIsLawful<A(!new), B(!new)>(f: Format<A>, ok: B -> bool, to: B -> A, from: A -> B)
    requires Lawful(f) && forall x: B :: ok(x) ==> from(to(x)) == x
    ensures Lawful(Through(f, ok, to, from))
  {
    var g := Through(f, ok, to, from);
    forall b: bytes, p: nat ensures AdvancesAt(g, b, p) { assert AdvancesAt(f, b, p); }
    forall x: B, b: bytes, p: nat ensures ReadsBackAt(g, x, b, p) { assert ReadsBackAt(f, to(x), b, p); }
    forall x: B, b: bytes, p: nat ensures RejectsTornAt(g, x, b, p) { assert RejectsTornAt(f, to(x), b, p); }
    forall a: bytes, p: nat, b: bytes, q: nat, n: nat ensures ReadsLocallyAt(g, a, p, b, q, n) {
      assert ReadsLocallyAt(f, a, p, b, q, n);
    }
  }

  function MapAll<A, B>(g: A -> B, xs: seq<A>): (r: seq<B>)
    ensures |r| == |xs| && forall i | 0 <= i < |xs| :: r[i] == g(xs[i])
  {
    seq(|xs|, i requires 0 <= i < |xs| => g(xs[i]))
  }

  /** Replaying through a format is replaying it and converting the items. */
  lemma {:induction false} ReplayThrough<A, B>(f: Format<A>, ok: B -> bool, to: B -> A, from: A -> B,
                                               file: bytes, pos: nat)
    requires pos <= |file|
    ensures Replay(Through(f, ok, to, from), file, pos) ==
            (MapAll(from, Replay(f, file, pos).0), Replay(f, file, pos).1)
    decreases |file| - pos
  {
    var o := f.parse(file, pos);
    if o.Some? && pos < o.value.1 <= |file| {
      ReplayThrough(f, ok, to, from, file, o.value.1);
      var xs := Replay(f, file, o.value.1).0;
      assert MapAll(from, [o.value.0] + xs) == [from(o.value.0)] + MapAll(from, xs);
    }
  }

  /** Tombstones carry no value. */
  predicate WellFormed(e: Entry) {
    e.key.Valid() && (e.key.kind == KIND_DELETE ==> e.value == [])
  }

  function ToRecord(e: Entry): Wal.Record { Wal.Record(Encode(e.key), e.value) }

  /** Replay restores sequence number and kind from the key; a delete is put
      back without a value. */
  function FromRecord(r: Wal.Record): Entry {
    var key := Decode(r.key);
    Entry(key, if key.kind == KIND_DELETE then [] else r.value)
  }

  function Entries(crc: Wal.Checksum): Format<Entry> {
    Through(Wal.Records(crc), WellFormed, ToRecord, FromRecord)
  }

  lemma RecordRoundTrip(e: Entry)
    ensures WellFormed(e) ==> FromRecord(ToRecord(e)) == e
  {
    KeyRoundTrip(e.key, []);
  }

  lemma EntriesAreLawful(crc: Wal.Checksum)
    ensures Lawful(Entries(crc))
  {
    Wal.RecordsAreLawful(crc);
    forall e: Entry ensures WellFormed(e) ==> FromRecord(ToRecord(e)) == e { RecordRoundTrip(e); }
    ThroughIsLawful(Wal.Records(crc), WellFormed, ToRecord, FromRecord);
  }

  /** What the engine accepts is exactly what its log can give back. */
  lemma AcceptedFits(crc: Wal.Checksum, e: Entry)
    requires WellFormed(e)
    ensures Entries(crc).fits(e) <==> |e.key.user| <= Wal.MAX_KEY_LENGTH && |e.value| <= Wal.MAX_VALUE_LENGTH
  {
    var f, r := Wal.Records(crc), ToRecord(e);
    assert Entries(crc).fits(e) <==> f.fits(r);
    assert f.fits(r) <==> Wal.Fits(r);
    assert |r.key| == |e.key.user| + TRAILER_LEN;
  }
}
