/** Versioned keys: internal/base/internal.go.

    A stored key is a user key followed by an 8-byte trailer
    (sequence number << 8) | kind.  A decoded key keeps the two halves of the
    trailer as separate fields. */
module InternalKeys {
  import opened Bytes

  const SEQ_NUM_MAX: u64 := 0xFF_FFFF_FFFF_FFFF
  type SeqNum = n: int | 0 <= n <= SEQ_NUM_MAX

  const KIND_DELETE: byte := 0
  const KIND_SET: byte := 1
  const KIND_MAX: byte := 1
  const KIND_INVALID: byte := 255
  const TRAILER_LEN := 8

  datatype InternalKey = InternalKey(user: bytes, num: SeqNum, kind: byte) {
    function Trailer(): u64 { num * 0x100 + kind }
    predicate Visible(snapshot: SeqNum) { num <= snapshot }
    predicate Valid() { kind <= KIND_MAX }
    function Size(): nat { |user| + TRAILER_LEN }
  }

  /** (seqNum << 8) | kind on 64 bits: the top eight bits of seqNum are lost. */
  function MakeTrailer(seqNum: u64, kind: byte): u64 {
    seqNum * 0x100 % 0x1_0000_0000_0000_0000 + kind
  }

  /** Packing and unpacking agree exactly on the 56-bit sequence numbers. */
  lemma TrailerRoundTrip(seqNum: u64, kind: byte)
    ensures MakeTrailer(seqNum, kind) % 0x100 == kind
    ensures MakeTrailer(seqNum, kind) / 0x100 == seqNum <==> seqNum <= SEQ_NUM_MAX
  {
    var low := seqNum % 0x100_0000_0000_0000;
    assert seqNum * 0x100 % 0x1_0000_0000_0000_0000 == low * 0x100;
  }

  function SearchKeyAt(user: bytes, snapshot: SeqNum): InternalKey {
    InternalKey(user, snapshot, KIND_MAX)
  }

  // ---------------------------------------------------------------- codec

  function Encode(k: InternalKey): (b: bytes)
    ensures |b| == k.Size()
  {
    k.user + PutUint64(k.Trailer())
  }

  function Decode(b: bytes): InternalKey {
    var n := |b| - TRAILER_LEN;
    if n >= 0 then
      var t := GetUint64(b[n..]);
      InternalKey(b[..n], t / 0x100, t % 0x100)
    else
      InternalKey([], 0, KIND_INVALID)
  }

  /** Decode undoes Encode, and Encode undoes Decode on every long enough string. */
  lemma KeyRoundTrip(k: InternalKey, b: bytes)
    ensures Decode(Encode(k)) == k
    ensures |b| >= TRAILER_LEN ==> Encode(Decode(b)) == b
  {
    assert Encode(k)[..|k.user|] == k.user;
    assert Encode(k)[|k.user|..] == PutUint64(k.Trailer());
    if |b| >= TRAILER_LEN {
      var n := |b| - TRAILER_LEN;
      Uint64Bytes(b[n..]);
      assert Decode(b).Trailer() == GetUint64(b[n..]);
      assert b == b[..n] + b[n..];
    }
  }

  /** Encode writes into a buffer supplied by the caller. */
  method EncodeInto(k: InternalKey, buf: array<byte>)
    requires k.Size() <= buf.Length
    modifies buf
    ensures buf[..k.Size()] == Encode(k)
    ensures buf[k.Size()..] == old(buf[k.Size()..])
  {
    var n := |k.user|;
    for i := 0 to n
      invariant buf[..i] == k.user[..i]
      invariant buf[i..] == old(buf[i..])
    {
      buf[i] := k.user[i];
    }
    var t := PutUint64(k.Trailer());
    for i := 0 to TRAILER_LEN
      invariant buf[..n] == k.user
      invariant buf[n..n + i] == t[..i]
      invariant buf[n + i..] == old(buf[n + i..])
    {
      buf[n + i] := t[i];
    }
    assert buf[..n + TRAILER_LEN] == buf[..n] + buf[n..n + TRAILER_LEN];
  }

  // ---------------------------------------------------------------- order

  /** User key ascending, then trailer descending. */
  function InternalCompare(a: InternalKey, b: InternalKey): (r: int)
    ensures r == 0 <==> a == b
  {
    var c := Compare(a.user, b.user);
    if c != 0 then c
    else if b.Trailer() < a.Trailer() then -1
    else if b.Trailer() > a.Trailer() then 1
    else 0
  }

  predicate KeyLess(a: InternalKey, b: InternalKey) { InternalCompare(a, b) < 0 }
  predicate KeyLeq(a: InternalKey, b: InternalKey) { InternalCompare(a, b) <= 0 }

  lemma KeyOrderTotal(a: InternalKey, b: InternalKey)
    ensures InternalCompare(b, a) == -InternalCompare(a, b)
    ensures KeyLeq(a, b) || KeyLeq(b, a)
  {
    CompareFlips(a.user, b.user);
  }

  lemma KeyOrderTransitive(a: InternalKey, b: InternalKey, c: InternalKey)
    requires KeyLeq(a, b) && KeyLeq(b, c)
    ensures KeyLeq(a, c)
    ensures KeyLess(a, b) || KeyLess(b, c) ==> KeyLess(a, c)
  {
    CompareTransitive(a.user, b.user, c.user);
  }

  /** A search key cuts the versions of its user key into the invisible ones,
      which sort before it, and the visible ones, which do not. */
  lemma SearchKeyCuts(user: bytes, snapshot: SeqNum, k: InternalKey)
    requires k.user == user && k.Valid()
    ensures KeyLeq(SearchKeyAt(user, snapshot), k) <==> k.Visible(snapshot)
    ensures KeyLess(k, SearchKeyAt(user, snapshot)) <==> !KeyLeq(SearchKeyAt(user, snapshot), k)
  {
    KeyOrderTotal(SearchKeyAt(user, snapshot), k);
  }

  /** The cut is exact at every snapshot for exactly the keys of a valid kind. */
  lemma SearchKeyCutsIff(k: InternalKey)
    ensures k.Valid() <==>
            forall s: SeqNum :: KeyLeq(SearchKeyAt(k.user, s), k) <==> k.Visible(s)
  {
    if k.Valid() {
      forall s: SeqNum
        ensures KeyLeq(SearchKeyAt(k.user, s), k) <==> k.Visible(s)
      {
        SearchKeyCuts(k.user, s, k);
      }
    } else {
      assert k.Visible(k.num) && !KeyLeq(SearchKeyAt(k.user, k.num), k);
    }
  }
}
