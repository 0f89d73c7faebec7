/** Byte strings, their lexicographic order, and the little-endian integers
    that every file format of the engine is built from. */
module Bytes {

  type byte = n: int | 0 <= n < 0x100
  type bytes = seq<byte>
  type u32 = n: int | 0 <= n < 0x1_0000_0000
  type u64 = n: int | 0 <= n < 0x1_0000_0000_0000_0000

  datatype Option<+T> = None | Some(value: T)

  // ---------------------------------------------------------------- order

  /** Lexicographic comparison: -1, 0 or +1. */
  function Compare(a: bytes, b: bytes): (r: int)
    ensures -1 <= r <= 1
    ensures r == 0 <==> a == b
  {
    if a == [] && b == [] then 0
    else if a == [] then -1
    else if b == [] then 1
    else if a[0] < b[0] then -1
    else if a[0] > b[0] then 1
    else
      assert a == [a[0]] + a[1..] && b == [b[0]] + b[1..];
      Compare(a[1..], b[1..])
  }

  predicate Before(a: bytes, b: bytes) { Compare(a, b) < 0 }

  lemma {:induction false} CompareFlips(a: bytes, b: bytes)
    ensures Compare(b, a) == -Compare(a, b)
  {
    if a != [] && b != [] && a[0] == b[0] {
      CompareFlips(a[1..], b[1..]);
    }
  }

  lemma {:induction false} CompareTransitive(a: bytes, b: bytes, c: bytes)
    requires Compare(a, b) <= 0 && Compare(b, c) <= 0
    ensures Compare(a, c) <= 0
    ensures Before(a, b) || Before(b, c) ==> Before(a, c)
  {
    if a != [] && b != [] && c != [] && a[0] == b[0] == c[0] {
      CompareTransitive(a[1..], b[1..], c[1..]);
      assert a == [a[0]] + a[1..] && c == [c[0]] + c[1..];
    }
  }

  /** The lexicographic order: a is a proper prefix of b, or it has the smaller
      byte where the two first differ. */
  ghost predicate LexLess(a: bytes, b: bytes) {
    a < b || exists i: nat :: SmallerAt(a, b, i)
  }

  ghost predicate SmallerAt(a: bytes, b: bytes, i: nat) {
    i < |a| && i < |b| && a[..i] == b[..i] && a[i] < b[i]
  }

  lemma {:induction false} CompareIsLexicographic(a: bytes, b: bytes)
    ensures Compare(a, b) < 0 <==> LexLess(a, b)
  {
    if a == [] || b == [] {
      assert a < b <==> a == [] && b != [];
    } else if a[0] != b[0] {
      assert a[..0] == b[..0];
      assert a[0] < b[0] ==> SmallerAt(a, b, 0);
    } else {
      CompareIsLexicographic(a[1..], b[1..]);
      LexTail(a, b);
    }
  }

  lemma LexTail(a: bytes, b: bytes)
    requires a != [] && b != [] && a[0] == b[0]
    ensures LexLess(a, b) <==> LexLess(a[1..], b[1..])
  {
    var c, d := a[1..], b[1..];
    assert a == [a[0]] + c && b == [b[0]] + d;
    assert a < b <==> c < d;
    forall i: nat
      ensures SmallerAt(c, d, i) <==> SmallerAt(a, b, i + 1)
    {
      assert i <= |c| ==> a[..i + 1] == [a[0]] + c[..i];
      assert i <= |d| ==> b[..i + 1] == [b[0]] + d[..i];
      if SmallerAt(a, b, i + 1) { assert a[..i + 1][1..] == b[..i + 1][1..]; }
    }
    if exists i: nat :: SmallerAt(c, d, i) {
      var i: nat :| SmallerAt(c, d, i);
      assert SmallerAt(a, b, i + 1);
    }
    if exists i: nat :: SmallerAt(a, b, i) {
      var i: nat :| SmallerAt(a, b, i);
      assert i > 0 && SmallerAt(c, d, i - 1);
    }
  }

  // ------------------------------------------------ little-endian integers

  /** The number that bytes spell, the least significant one first. */
  function Little(b: bytes): nat {
    if b == [] then 0 else b[0] + 0x100 * Little(b[1..])
  }

  lemma {:induction false} LittleAppend(a: bytes, b: bytes)
    requires |a| == 4
    ensures Little(a + b) == Little(a) + 0x1_0000_0000 * Little(b)
  {
    var x, y, z := a[1..], a[2..], a[3..];
    assert a[1..][1..] == y && y[1..] == z && z[1..] == [];
    assert (a + b)[1..] == x + b && (x + b)[1..] == y + b && (y + b)[1..] == z + b && (z + b)[1..] == b;
    assert Little(z + b) == z[0] + 0x100 * Little(b) && Little(z) == z[0];
    assert Little(y + b) == y[0] + 0x100 * Little(z + b) && Little(y) == y[0] + 0x100 * Little(z);
    assert Little(x + b) == x[0] + 0x100 * Little(y + b) && Little(x) == x[0] + 0x100 * Little(y);
    assert Little(a + b) == a[0] + 0x100 * Little(x + b) && Little(a) == a[0] + 0x100 * Little(x);
  }

  function PutUint32(n: u32): (b: bytes)
    ensures |b| == 4 && GetUint32(b) == n
  {
    var n1 := n / 0x100;
    var n2 := n1 / 0x100;
    [n % 0x100, n1 % 0x100, n2 % 0x100, n2 / 0x100]
  }

  function GetUint32(b: bytes): u32
    requires |b| == 4
  {
    var b0: int, b1: int, b2: int, b3: int := b[0], b[1], b[2], b[3];
    b0 + 0x100 * (b1 + 0x100 * (b2 + 0x100 * b3))
  }

  lemma Uint32Bytes(b: bytes)
    requires |b| == 4
    ensures PutUint32(GetUint32(b)) == b
  {
    var b1: int, b2: int, b3: int := b[1], b[2], b[3];
    var n := GetUint32(b);
    assert n / 0x100 == b1 + 0x100 * (b2 + 0x100 * b3);
    assert n / 0x100 / 0x100 == b2 + 0x100 * b3;
  }

  function PutUint64(n: u64): (b: bytes)
    ensures |b| == 8 && GetUint64(b) == n
  {
    PutUint32(n % 0x1_0000_0000) + PutUint32(n / 0x1_0000_0000)
  }

  function GetUint64(b: bytes): u64
    requires |b| == 8
  {
    GetUint32(b[..4]) + 0x1_0000_0000 * GetUint32(b[4..])
  }

  lemma Uint64Bytes(b: bytes)
    requires |b| == 8
    ensures PutUint64(GetUint64(b)) == b
  {
    Uint32Bytes(b[..4]);
    Uint32Bytes(b[4..]);
    var n := GetUint64(b);
    assert n % 0x1_0000_0000 == GetUint32(b[..4]) && n / 0x1_0000_0000 == GetUint32(b[4..]);
  }

  /** Both integers are stored least significant byte first. */
  lemma PutIsLittle(n: u32, m: u64)
    ensures Little(PutUint32(n)) == n && Little(PutUint64(m)) == m
  {
    Put32IsLittle(n);
    Put32IsLittle(m % 0x1_0000_0000);
    Put32IsLittle(m / 0x1_0000_0000);
    LittleAppend(PutUint32(m % 0x1_0000_0000), PutUint32(m / 0x1_0000_0000));
  }

  lemma Put32IsLittle(n: u32)
    ensures Little(PutUint32(n)) == n
  {
    var b := PutUint32(n);
    var b1: int, b2: int, b3: int := b[1], b[2], b[3];
    assert b[1..][1..] == b[2..] && b[2..][1..] == b[3..] && b[3..][1..] == [];
    assert Little(b[3..]) == b3;
    assert Little(b[2..]) == b2 + 0x100 * b3;
    assert Little(b[1..]) == b1 + 0x100 * (b2 + 0x100 * b3);
  }

  // ------------------------------------------------------- streams of bytes

  /** Four bytes at `pos` as an integer, or None when the stream ends first. */
  function ReadUint32(data: bytes, pos: nat): Option<u32> {
    if pos + 4 <= |data| then Some(GetUint32(data[pos..pos + 4])) else None
  }

  function ReadUint64(data: bytes, pos: nat): Option<u64> {
    if pos + 8 <= |data| then Some(GetUint64(data[pos..pos + 8])) else None
  }

  /** Exactly `n` bytes at `pos`, or None when the stream ends first. */
  function ReadFull(data: bytes, pos: nat, n: nat): Option<bytes> {
    if pos + n <= |data| then Some(data[pos..pos + n]) else None
  }

  /** `part` stands in `data` at `pos`. */
  predicate At(data: bytes, pos: nat, part: bytes) {
    pos + |part| <= |data| && data[pos..pos + |part|] == part
  }

  lemma AtAppend(data: bytes, pos: nat, p: bytes, q: bytes)
    requires At(data, pos, p + q)
    ensures At(data, pos, p) && At(data, pos + |p|, q)
  {
    var w := data[pos..pos + |p| + |q|];
    assert data[pos..pos + |p|] == w[..|p|] == p;
    assert data[pos + |p|..pos + |p| + |q|] == w[|p|..] == q;
  }
}
