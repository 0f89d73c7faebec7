/** The Bloom filter: bloomfilter/bloomfilter_operations.go and
    bloomfilter/hash.go.  The two hash functions are arbitrary. */
module Bloom {
  import opened Bytes

  datatype Hashes = Hashes(h1: bytes -> u64, h2: bytes -> u32)

  /** The bits and the number of probes; the size is the number of bits. */
  datatype Filter = Filter(bits: seq<bool>, numHash: nat)

  /** h1 + seed * h2 on 64 bits, reduced to a position. */
  function Position(h: Hashes, key: bytes, seed: nat, size: nat): (p: nat)
    requires size > 0
    ensures p < size
  {
    (h.h1(key) + seed * h.h2(key)) % 0x1_0000_0000_0000_0000 % size
  }

  // ----------------------------------------------------------- add and test

  function SetBits(h: Hashes, bits: seq<bool>, key: bytes, n: nat): (r: seq<bool>)
    requires |bits| > 0
    ensures |r| == |bits|
  {
    if n == 0 then bits else SetBits(h, bits, key, n - 1)[Position(h, key, n - 1, |bits|) := true]
  }

  function Add(h: Hashes, f: Filter, key: bytes): Filter
    requires |f.bits| > 0
  {
    Filter(SetBits(h, f.bits, key, f.numHash), f.numHash)
  }

  predicate MightContain(h: Hashes, f: Filter, key: bytes)
    requires |f.bits| > 0
  {
    forall i | 0 <= i < f.numHash :: f.bits[Position(h, key, i, |f.bits|)]
  }

  function AddAll(h: Hashes, f: Filter, keys: seq<bytes>): (r: Filter)
    requires |f.bits| > 0
    ensures |r.bits| == |f.bits| && r.numHash == f.numHash
    decreases |keys|
  {
    if keys == [] then f else AddAll(h, Add(h, f, keys[0]), keys[1..])
  }

  lemma {:induction false} SetBitsMeaning(h: Hashes, bits: seq<bool>, key: bytes, n: nat)
    requires |bits| > 0
    ensures forall p | 0 <= p < |bits| && bits[p] :: SetBits(h, bits, key, n)[p]
    ensures forall i | 0 <= i < n :: SetBits(h, bits, key, n)[Position(h, key, i, |bits|)]
  {
    if n > 0 { SetBitsMeaning(h, bits, key, n - 1); }
  }

  /** p is probe i of the key: the i-th value of double hashing, in 64 bits. */
  ghost predicate IsProbe(h: Hashes, key: bytes, i: nat, size: nat, p: nat)
    requires size > 0
  {
    p == (h.h1(key) + i * h.h2(key)) % 0x1_0000_0000_0000_0000 % size
  }

  ghost predicate Probed(h: Hashes, key: bytes, n: nat, size: nat, p: nat)
    requires size > 0
  {
    exists i: nat :: i < n && IsProbe(h, key, i, size, p)
  }

  lemma {:induction false} SetBitsExactly(h: Hashes, bits: seq<bool>, key: bytes, n: nat, p: nat)
    requires p < |bits|
    ensures SetBits(h, bits, key, n)[p] <==> bits[p] || Probed(h, key, n, |bits|, p)
  {
    if n > 0 {
      SetBitsExactly(h, bits, key, n - 1, p);
      assert IsProbe(h, key, n - 1, |bits|, p) <==> p == Position(h, key, n - 1, |bits|);
      if Probed(h, key, n - 1, |bits|, p) {
        var i: nat :| i < n - 1 && IsProbe(h, key, i, |bits|, p);
        assert i < n && IsProbe(h, key, i, |bits|, p);
      }
    }
  }

  /** After any additions the bits that are set are those set before and exactly
      the probes of the keys. */
  lemma {:induction false} BitsAreProbes(h: Hashes, f: Filter, keys: seq<bytes>, p: nat)
    requires p < |f.bits|
    ensures AddAll(h, f, keys).bits[p]
       <==> f.bits[p] || exists k :: k in keys && Probed(h, k, f.numHash, |f.bits|, p)
    decreases |keys|
  {
    if keys != [] {
      SetBitsExactly(h, f.bits, keys[0], f.numHash, p);
      BitsAreProbes(h, Add(h, f, keys[0]), keys[1..], p);
      assert forall k :: k in keys <==> k == keys[0] || k in keys[1..];
    }
  }

  /** And a key is answered for exactly when all its probes are set. */
  lemma ContainsProbes(h: Hashes, f: Filter, key: bytes)
    requires |f.bits| > 0
    ensures MightContain(h, f, key)
       <==> forall i: nat, p: nat | i < f.numHash && p < |f.bits| && IsProbe(h, key, i, |f.bits|, p) :: f.bits[p]
  {
    forall i: nat, p: nat | i < f.numHash && p < |f.bits|
      ensures IsProbe(h, key, i, |f.bits|, p) <==> p == Position(h, key, i, |f.bits|)
    {
    }
    if forall i: nat, p: nat | i < f.numHash && p < |f.bits| && IsProbe(h, key, i, |f.bits|, p) :: f.bits[p] {
      forall i | 0 <= i < f.numHash
        ensures f.bits[Position(h, key, i, |f.bits|)]
      {
        assert IsProbe(h, key, i, |f.bits|, Position(h, key, i, |f.bits|));
      }
    }
  }

  lemma AddKeeps(h: Hashes, f: Filter, key: bytes, other: bytes)
    requires |f.bits| > 0
    ensures MightContain(h, Add(h, f, key), key)
    ensures MightContain(h, f, other) ==> MightContain(h, Add(h, f, key), other)
  {
    SetBitsMeaning(h, f.bits, key, f.numHash);
  }

  /** No false negatives, after any sequence of additions. */
  lemma {:induction false} NoFalseNegatives(h: Hashes, f: Filter, keys: seq<bytes>, key: bytes)
    requires |f.bits| > 0 && (key in keys || MightContain(h, f, key))
    ensures MightContain(h, AddAll(h, f, keys), key)
    decreases |keys|
  {
    if keys != [] {
      assert key in keys <==> key == keys[0] || key in keys[1..];
      AddKeeps(h, f, keys[0], keys[0]);
      AddKeeps(h, f, keys[0], key);
      NoFalseNegatives(h, Add(h, f, keys[0]), keys[1..], key);
    }
  }

  class BloomFilter {
    const h: Hashes
    const bits: array<bool>
    const numHash: nat

    ghost predicate Valid() { bits.Length > 0 }

    ghost function View(): Filter
      reads bits
    {
      Filter(bits[..], numHash)
    }

    constructor (h: Hashes, size: nat, numHash: nat)
      requires size > 0
      ensures Valid() && fresh(bits) && this.h == h && this.numHash == numHash
      ensures View() == Filter(seq(size, _ => false), numHash)
    {
      this.h, this.numHash := h, numHash;
      bits := new bool[size](_ => false);
    }

    method AddKey(key: bytes)
      requires Valid()
      modifies bits
      ensures View() == Add(h, old(View()), key)
    {
      ghost var was := bits[..];
      for i := 0 to numHash
        invariant bits[..] == SetBits(h, was, key, i)
      {
        var pos := Position(h, key, i, bits.Length);
        bits[pos] := true;
      }
    }

    method Test(key: bytes) returns (r: bool)
      requires Valid()
      ensures r == MightContain(h, View(), key)
    {
      for i := 0 to numHash
        invariant forall j | 0 <= j < i :: bits[Position(h, key, j, bits.Length)]
      {
        var pos := Position(h, key, i, bits.Length);
        if !bits[pos] { return false; }
      }
      return true;
    }
  }

  // --------------------------------------------------------- serialisation

  function Pow2(k: nat): (p: nat)
    ensures p > 0
  {
    if k == 0 then 1 else 2 * Pow2(k - 1)
  }

  /** Bit k of a byte. */
  predicate Bit(b: nat, k: nat) { b / Pow2(k) % 2 == 1 }

  /** The low n bits of byte j of the packed bit array, as a number. */
  function PackLow(bits: seq<bool>, j: nat, n: nat): nat {
    if n == 0 then 0
    else PackLow(bits, j, n - 1) + if 8 * j + n - 1 < |bits| && bits[8 * j + n - 1] then Pow2(n - 1) else 0
  }

  lemma {:induction false} PackLowBound(bits: seq<bool>, j: nat, n: nat)
    ensures PackLow(bits, j, n) < Pow2(n)
  {
    if n > 0 { PackLowBound(bits, j, n - 1); }
  }

  /** b = low + bit * 2^k + high * 2^(k+1) has bit k equal to `bit`. */
  lemma BitOfSum(low: nat, bit: nat, high: nat, k: nat)
    requires low < Pow2(k) && bit < 2
    ensures Bit(low + bit * Pow2(k) + high * Pow2(k + 1), k) <==> bit == 1
  {
    var p := Pow2(k);
    var b := low + bit * p + high * (2 * p);
    assert b == p * (bit + 2 * high) + low;
    DivUnique(b, p, bit + 2 * high, low);
  }

  lemma DivUnique(b: nat, p: nat, q: nat, r: nat)
    requires p > 0 && r < p && b == p * q + r
    ensures b / p == q
  {
    var q', r' := b / p, b % p;
    assert b == p * q' + r' && 0 <= r' < p;
    assert q' < q ==> p * (q' + 1) <= p * q;
    assert q < q' ==> p * (q + 1) <= p * q';
  }

  /** Every bit of the packed byte is the bit of the filter. */
  lemma {:induction false} PackedBit(bits: seq<bool>, j: nat, n: nat, k: nat)
    requires k < n
    ensures Bit(PackLow(bits, j, n), k) <==> 8 * j + k < |bits| && bits[8 * j + k]
  {
    var high := HighPart(bits, j, k + 1, n);
    PackLowBound(bits, j, k);
    BitOfSum(PackLow(bits, j, k), if 8 * j + k < |bits| && bits[8 * j + k] then 1 else 0, high, k);
  }

  lemma {:induction false} HighPart(bits: seq<bool>, j: nat, k: nat, n: nat) returns (high: nat)
    requires k <= n
    ensures PackLow(bits, j, n) == PackLow(bits, j, k) + high * Pow2(k)
  {
    if n == k {
      high := 0;
    } else {
      high := HighPart(bits, j, k, n - 1);
      if 8 * j + n - 1 < |bits| && bits[8 * j + n - 1] {
        var c := PowSplits(k, n - 1);
        assert (high + c) * Pow2(k) == high * Pow2(k) + c * Pow2(k);
        high := high + c;
      }
    }
  }

  lemma {:induction false} PowSplits(k: nat, n: nat) returns (c: nat)
    requires k <= n
    ensures Pow2(n) == c * Pow2(k)
  {
    if n == k {
      c := 1;
    } else {
      c := PowSplits(k, n - 1);
      assert 2 * (c * Pow2(k)) == (2 * c) * Pow2(k);
      c := 2 * c;
    }
  }

  function PackByte(bits: seq<bool>, j: nat): byte {
    PackLowBound(bits, j, 8);
    assert Pow2(8) == 256 by { assert Pow2(4) == 16; }
    PackLow(bits, j, 8)
  }

  /** Sizes are stored on 32 bits. */
  function Serialize(f: Filter): (b: bytes)
    ensures |b| == 8 + (|f.bits| + 7) / 8
  {
    PutUint32(|f.bits| % 0x1_0000_0000) + PutUint32(f.numHash % 0x1_0000_0000)
    + seq((|f.bits| + 7) / 8, j requires 0 <= j => PackByte(f.bits, j))
  }

  function Deserialize(data: bytes): Filter
    requires |data| >= 8
  {
    var size := GetUint32(data[0..4]);
    Filter(seq(size, i requires 0 <= i => 8 + i / 8 < |data| && Bit(data[8 + i / 8], i % 8)), GetUint32(data[4..8]))
  }

  lemma SerializeParts(f: Filter)
    ensures Serialize(f)[0..4] == PutUint32(|f.bits| % 0x1_0000_0000)
    ensures Serialize(f)[4..8] == PutUint32(f.numHash % 0x1_0000_0000)
    ensures forall j | 0 <= j < (|f.bits| + 7) / 8 :: Serialize(f)[8 + j] == PackByte(f.bits, j)
  {
  }

  /** A filter survives the disk exactly when its sizes fit 32 bits. */
  lemma SerializeRoundTrip(f: Filter)
    ensures Deserialize(Serialize(f)) == f <==> |f.bits| < 0x1_0000_0000 && f.numHash < 0x1_0000_0000
  {
    SerializeParts(f);
    var data := Serialize(f);
    if |f.bits| < 0x1_0000_0000 && f.numHash < 0x1_0000_0000 {
      forall i | 0 <= i < |f.bits|
        ensures Deserialize(data).bits[i] == f.bits[i]
      {
        assert data[8 + i / 8] == PackByte(f.bits, i / 8);
        PackedBit(f.bits, i / 8, 8, i % 8);
      }
      assert Deserialize(data).bits == f.bits;
    } else {
      assert |Deserialize(data).bits| == |f.bits| % 0x1_0000_0000;
    }
  }

  // ------------------------------------------------------ the loops on bits

  /** b with bit k switched on. */
  function Or(b: nat, k: nat): nat { if Bit(b, k) then b else b + Pow2(k) }

  /** One more bit changes one packed byte, by that bit's weight. */
  lemma {:induction false} PackGrows(bits: seq<bool>, i: nat, j: nat, n: nat)
    requires i < |bits| && n <= 8
    ensures PackLow(bits[..i + 1], j, n)
         == PackLow(bits[..i], j, n) + if bits[i] && j == i / 8 && i % 8 < n then Pow2(i % 8) else 0
  {
    if n > 0 { PackGrows(bits, i, j, n - 1); }
  }

  lemma PackStep(bits: seq<bool>, i: nat, j: nat)
    requires i < |bits|
    ensures PackByte(bits[..i + 1], j)
         == if bits[i] && j == i / 8 then Or(PackByte(bits[..i], j), i % 8) else PackByte(bits[..i], j)
  {
    PackGrows(bits, i, j, 8);
    if j == i / 8 { PackedBit(bits[..i], j, 8, i % 8); }
  }

  lemma {:induction false} PackNothing(j: nat, n: nat)
    ensures PackLow([], j, n) == 0
  {
    if n > 0 { PackNothing(j, n - 1); }
  }

  method SerializeFilter(f: Filter) returns (b: bytes)
    ensures b == Serialize(f)
  {
    var numBytes := (|f.bits| + 7) / 8;
    var out := new byte[numBytes](_ => 0);
    forall j | 0 <= j < numBytes ensures out[j] == PackByte(f.bits[..0], j) { PackNothing(j, 8); }
    for i := 0 to |f.bits|
      invariant forall j | 0 <= j < numBytes :: out[j] == PackByte(f.bits[..i], j)
    {
      forall j | 0 <= j < numBytes ensures PackByte(f.bits[..i + 1], j)
          == if f.bits[i] && j == i / 8 then Or(PackByte(f.bits[..i], j), i % 8) else PackByte(f.bits[..i], j) {
        PackStep(f.bits, i, j);
      }
      if f.bits[i] {
        out[i / 8] := Or(out[i / 8], i % 8);
      }
    }
    assert f.bits[..|f.bits|] == f.bits;
    b := PutUint32(|f.bits| % 0x1_0000_0000) + PutUint32(f.numHash % 0x1_0000_0000) + out[..];
    assert out[..] == seq(numBytes, j requires 0 <= j => PackByte(f.bits, j));
  }

  method DeserializeFilter(data: bytes) returns (f: Filter)
    requires |data| >= 8
    ensures f == Deserialize(data)
  {
    var size := GetUint32(data[0..4]);
    var bits := new bool[size](_ => false);
    for i := 0 to size
      invariant forall k | 0 <= k < i :: bits[k] == (8 + k / 8 < |data| && Bit(data[8 + k / 8], k % 8))
      invariant forall k | i <= k < size :: !bits[k]
    {
      if 8 + i / 8 < |data| {
        bits[i] := Bit(data[8 + i / 8], i % 8);
      }
    }
    f := Filter(bits[..], GetUint32(data[4..8]));
    assert f.bits == Deserialize(data).bits;
  }
}
