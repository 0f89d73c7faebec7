/** The order in which a reopen finds the table files: sstable/reader.go
    (OpenAllInDir), with the names that sstable/writer.go and
    compaction/merge.go give. */
module FileNames {
  import opened Bytes
  import opened Decimal

  const SUFFIX: bytes := [46, 115, 115, 116]   // ".sst"

  function FileName(time: nat): bytes { PrintNat(time) + SUFFIX }

  // ----------------------------------------------------- comparing the names

  lemma {:induction false} CompareAppend(a: bytes, b: bytes, x: bytes, y: bytes)
    requires |a| == |b|
    ensures Compare(a + x, b + y) == if a == b then Compare(x, y) else Compare(a, b)
    ensures a != b ==> Compare(a, b) != 0
  {
    if a == [] {
      assert a + x == x && b + y == y;
    } else {
      assert (a + x)[1..] == a[1..] + x && (b + y)[1..] == b[1..] + y;
      assert a == [a[0]] + a[1..] && b == [b[0]] + b[1..];
      CompareAppend(a[1..], b[1..], x, y);
    }
  }

  /** With as many digits, names compare as numbers. */
  lemma {:induction false} DigitsCompare(a: nat, b: nat)
    requires |PrintNat(a)| == |PrintNat(b)|
    ensures Compare(PrintNat(a), PrintNat(b)) < 0 <==> a < b
    ensures PrintNat(a) == PrintNat(b) <==> a == b
  {
    PrintNatBack(a);
    PrintNatBack(b);
    if a >= 10 && b >= 10 {
      DigitsCompare(a / 10, b / 10);
      CompareAppend(PrintNat(a / 10), PrintNat(b / 10), [ZERO + a % 10], [ZERO + b % 10]);
    }
  }

  lemma {:induction false} DigitsGrow(a: nat, b: nat)
    requires a <= b
    ensures |PrintNat(a)| <= |PrintNat(b)|
  {
    if a >= 10 { DigitsGrow(a / 10, b / 10); }
  }

  /** b without its last digits, so that at most k are left. */
  function Leading(b: nat, k: nat): nat {
    if |PrintNat(b)| <= k || b < 10 then b else Leading(b / 10, k)
  }

  lemma {:induction false} LeadingDigits(b: nat, k: nat)
    requires 0 < k <= |PrintNat(b)|
    ensures PrintNat(Leading(b, k)) == PrintNat(b)[..k]
  {
    if k < |PrintNat(b)| { LeadingDigits(b / 10, k); }
  }

  /** Of two creation times the earlier sorts first exactly when it is at most
      the later one cut to as many digits. */
  lemma NameOrderIff(a: nat, b: nat)
    requires a < b
    ensures Compare(FileName(a), FileName(b)) < 0 <==> a <= Leading(b, |PrintNat(a)|)
  {
    var s, t := PrintNat(a), PrintNat(b);
    DigitsGrow(a, b);
    LeadingDigits(b, |s|);
    PrintNatBack(a);
    PrintNatBack(b);
    SuffixOrder(s, t);
    DigitsCompare(a, Leading(b, |s|));
  }

  /** A digit sorts after the dot that ends a shorter name. */
  lemma SuffixOrder(s: bytes, t: bytes)
    requires |s| <= |t| && s != t && AllDigits(t)
    ensures Compare(s + SUFFIX, t + SUFFIX) < 0 <==> Compare(s, t[..|s|]) <= 0
  {
    var head, tail := t[..|s|], t[|s|..] + SUFFIX;
    assert t + SUFFIX == head + tail;
    CompareAppend(s, head, SUFFIX, tail);
    if s == head { assert tail[0] == t[|s|] && IsDigit(t[|s|]); }
  }

  /** Times of as many digits, as nanoseconds have from 2001 to 2286, sort by
      age; the ninth and the tenth tick do not. */
  lemma NamesSortByTime(a: nat, b: nat)
    requires a < b
    ensures |PrintNat(a)| == |PrintNat(b)| ==> Compare(FileName(a), FileName(b)) < 0
    ensures Compare(FileName(9), FileName(10)) > 0
  {
    if |PrintNat(a)| == |PrintNat(b)| { NameOrderIff(a, b); }
    assert PrintNat(10) == PrintNat(1) + [ZERO];
    assert FileName(9)[0] == 57 && FileName(10)[0] == 49;
  }
}
