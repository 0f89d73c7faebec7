/** Decimal numbers as text, as strconv and fmt print and parse them. */
module Decimal {
  import opened Bytes

  const ZERO: byte := 48
  const MINUS: byte := 45
  const PLUS: byte := 43

  predicate IsDigit(b: byte) { ZERO <= b <= ZERO + 9 }

  predicate AllDigits(s: bytes) { forall i | 0 <= i < |s| :: IsDigit(s[i]) }

  function PrintNat(n: nat): (s: bytes)
    ensures s != [] && AllDigits(s)
  {
    if n < 10 then [ZERO + n] else PrintNat(n / 10) + [ZERO + n % 10]
  }

  function DigitsValue(s: bytes): nat
    requires AllDigits(s)
  {
    if s == [] then 0 else 10 * DigitsValue(s[..|s| - 1]) + (s[|s| - 1] - ZERO)
  }

  lemma {:induction false} PrintNatBack(n: nat)
    ensures DigitsValue(PrintNat(n)) == n
  {
    var s := PrintNat(n);
    if n < 10 {
      assert s[..0] == [];
    } else {
      PrintNatBack(n / 10);
      assert s[..|s| - 1] == PrintNat(n / 10);
    }
  }

  /** n without its last i digits. */
  function Shifted(n: nat, i: nat): nat {
    if i == 0 then n else Shifted(n / 10, i - 1)
  }

  /** The text of n: the digits '0' to '9' of its decimal places, the last one
      last, and none in front that could be left out. */
  lemma {:induction false} PrintNatPlaces(n: nat)
    ensures var s := PrintNat(n);
            && (forall i | 0 <= i < |s| :: s[|s| - 1 - i] == 48 + Shifted(n, i) % 10)
            && Shifted(n, |s|) == 0 && (|s| > 1 ==> Shifted(n, |s| - 1) > 0)
  {
    var s := PrintNat(n);
    if n < 10 {
      assert Shifted(n, 1) == Shifted(n / 10, 0);
    } else {
      var t := PrintNat(n / 10);
      PrintNatPlaces(n / 10);
      forall i | 0 <= i < |s|
        ensures s[|s| - 1 - i] == 48 + Shifted(n, i) % 10
      {
        if i > 0 { assert s[|s| - 1 - i] == t[|t| - 1 - (i - 1)]; }
      }
    }
  }

  function PrintInt(n: int): bytes {
    if n < 0 then [MINUS] + PrintNat(-n) else PrintNat(n)
  }

  /** A signed 64-bit number: optional sign, at least one digit, within range. */
  function ParseInt(s: bytes): (o: Option<int>)
    ensures o.Some? ==> Int64(o.value)
  {
    var signed := s != [] && (s[0] == MINUS || s[0] == PLUS);
    var digits := if signed then s[1..] else s;
    if digits == [] || !AllDigits(digits) then None
    else
      var value: int := DigitsValue(digits);
      var n := if signed && s[0] == MINUS then -value else value;
      if Int64(n) then Some(n) else None
  }

  predicate Int64(n: int) { -0x8000_0000_0000_0000 <= n < 0x8000_0000_0000_0000 }

  lemma ParseUnsigned(s: bytes)
    requires s != [] && AllDigits(s)
    ensures ParseInt(s) == if Int64(DigitsValue(s)) then Some(DigitsValue(s)) else None
  {
    assert IsDigit(s[0]);
  }

  lemma ParseNegative(s: bytes)
    requires s != [] && AllDigits(s)
    ensures ParseInt([MINUS] + s) == if Int64(-(DigitsValue(s) as int)) then Some(-(DigitsValue(s) as int)) else None
  {
    assert ([MINUS] + s)[1..] == s;
  }

  /** '+' and '-' are the signs. */
  lemma SignsAre(s: bytes, n: int)
    requires s != [] && AllDigits(s) && DigitsValue(s) == n
    ensures ParseInt(s) == ParseInt([43] + s) == if n <= 9223372036854775807 then Some(n) else None
    ensures ParseInt([45] + s) == if n <= 9223372036854775808 then Some(-n) else None
  {
    ParseUnsigned(s);
    ParseNegative(s);
    assert ([43] + s)[1..] == s;
  }

  /** Anything but '0' to '9' after a first sign, or nothing, is no number. */
  lemma NoNumber(s: bytes, i: nat)
    requires i < |s| && (i > 0 || s[0] !in {43, 45}) && !(48 <= s[i] <= 57)
    ensures ParseInt(s) == None && ParseInt([]) == None
  {
    var signed := s[0] == MINUS || s[0] == PLUS;
    assert signed ==> s[1..][i - 1] == s[i];
    assert !IsDigit(s[i]);
  }

  lemma PrintIntBack(n: int)
    ensures ParseInt(PrintInt(n)) == if Int64(n) then Some(n) else None
  {
    if n < 0 {
      PrintNatBack(-n);
      ParseNegative(PrintNat(-n));
    } else {
      PrintNatBack(n);
      ParseUnsigned(PrintNat(n));
    }
  }
}
