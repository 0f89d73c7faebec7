/** The wire protocol byte by byte: which text stands for which value. */
module Wires {
  import opened Bytes
  import opened Decimal
  import opened Resp

  /** Read as v, with what follows left over. */
  ghost predicate Spells(b: bytes, v: Value) {
    forall rest: bytes :: SpellsBefore(b, v, rest)
  }

  ghost predicate SpellsBefore(b: bytes, v: Value, rest: bytes) { Read(b + rest) == Ok(v, rest) }

  /** A line of the type byte and an argument. */
  lemma LineReads(kind: byte, arg: bytes, rest: bytes)
    requires kind != 10 && 10 !in arg
    ensures Read([kind] + arg + [13, 10] + rest) == ReadTyped(kind, arg, rest)
  {
    assert Line([kind] + arg) == [kind] + arg + [13, 10];
    TypedBack(kind, arg, rest);
  }

  // ------------------------------------------------------------ each type

  /** '+' starts a simple string and '-' an error. */
  lemma TextOnWire(s: bytes)
    requires 10 !in s
    ensures Spells([43] + s + [13, 10], Simple(s)) && Spells([45] + s + [13, 10], Failure(s))
  {
    forall rest: bytes
      ensures SpellsBefore([43] + s + [13, 10], Simple(s), rest)
      ensures SpellsBefore([45] + s + [13, 10], Failure(s), rest)
    {
      LineReads(43, s, rest);
      LineReads(45, s, rest);
    }
  }

  /** ':' starts a number. */
  lemma IntegerOnWire(digits: bytes, n: int)
    requires 10 !in digits && ParseInt(digits) == Some(n)
    ensures Spells([58] + digits + [13, 10], Integer(n))
  {
    forall rest: bytes
      ensures SpellsBefore([58] + digits + [13, 10], Integer(n), rest)
    {
      LineReads(58, digits, rest);
    }
  }

  /** '$' starts a string of the given length, which any two bytes follow; a
      negative length stands for no string. */
  lemma BulkOnWire(digits: bytes, s: bytes, x: byte, y: byte)
    requires 10 !in digits && ParseInt(digits) == Some(|s|) && |s| + 2 < 0x8000_0000_0000_0000
    ensures Spells([36] + digits + [13, 10] + s + [x, y], Bulk(s))
  {
    forall rest: bytes
      ensures SpellsBefore([36] + digits + [13, 10] + s + [x, y], Bulk(s), rest)
    {
      BulkBefore(digits, s, x, y, rest);
    }
  }

  lemma BulkBefore(digits: bytes, s: bytes, x: byte, y: byte, rest: bytes)
    requires 10 !in digits && ParseInt(digits) == Some(|s|) && |s| + 2 < 0x8000_0000_0000_0000
    ensures SpellsBefore([36] + digits + [13, 10] + s + [x, y], Bulk(s), rest)
  {
    var head, tail := [36] + digits + [13, 10], s + [x, y] + rest;
    LineReads(36, digits, tail);
    Regroup(head + s, [x, y], rest);
    Regroup(head, s, [x, y] + rest);
    Regroup(s, [x, y], rest);
    assert tail[..|s|] == s && tail[|s| + 2..] == rest;
  }

  lemma NullOnWire(digits: bytes, n: int)
    requires 10 !in digits && ParseInt(digits) == Some(n) && n < 0
    ensures Spells([36] + digits + [13, 10], NullBulk) && Spells([42] + digits + [13, 10], NullArray)
  {
    forall rest: bytes
      ensures SpellsBefore([36] + digits + [13, 10], NullBulk, rest)
      ensures SpellsBefore([42] + digits + [13, 10], NullArray, rest)
    {
      LineReads(36, digits, rest);
      LineReads(42, digits, rest);
      ArrayOf(digits, n, rest);
    }
  }

  function Joined(parts: seq<bytes>): bytes {
    if parts == [] then [] else parts[0] + Joined(parts[1..])
  }

  ghost predicate AllSpell(parts: seq<bytes>, vs: seq<Value>) {
    |parts| == |vs| && forall i | 0 <= i < |vs| :: Spells(parts[i], vs[i])
  }

  lemma {:induction false} ElemsOnWire(parts: seq<bytes>, vs: seq<Value>, rest: bytes)
    requires AllSpell(parts, vs)
    ensures ReadElems(|vs|, Joined(parts) + rest) == Ok(vs, rest)
    decreases |vs|
  {
    if vs == [] {
      assert Joined(parts) + rest == rest;
    } else {
      var others := Joined(parts[1..]);
      assert AllSpell(parts[1..], vs[1..]);
      ElemsOnWire(parts[1..], vs[1..], rest);
      assert SpellsBefore(parts[0], vs[0], others + rest);
      ConsBack(parts[0], others, vs[0], vs[1..], rest);
      assert [vs[0]] + vs[1..] == vs;
    }
  }

  /** '*' starts an array of as many values, one after the other. */
  lemma ArrayOnWire(digits: bytes, parts: seq<bytes>, vs: seq<Value>)
    requires 10 !in digits && ParseInt(digits) == Some(|vs|) && AllSpell(parts, vs)
    ensures Spells([42] + digits + [13, 10] + Joined(parts), Array(vs))
  {
    forall rest: bytes
      ensures SpellsBefore([42] + digits + [13, 10] + Joined(parts), Array(vs), rest)
    {
      ElemsOnWire(parts, vs, rest);
      ArrayBefore(digits, Joined(parts), vs, rest);
    }
  }

  lemma ArrayBefore(digits: bytes, elems: bytes, vs: seq<Value>, rest: bytes)
    requires 10 !in digits && ParseInt(digits) == Some(|vs|) && ReadElems(|vs|, elems + rest) == Ok(vs, rest)
    ensures SpellsBefore([42] + digits + [13, 10] + elems, Array(vs), rest)
  {
    LineReads(42, digits, elems + rest);
    ArrayOf(digits, |vs|, elems + rest);
    Regroup([42] + digits + [13, 10], elems, rest);
  }

  // ------------------------------------------------------------- refusals

  /** Any other first byte, a number that is none, and an empty line are refused. */
  lemma RefusedOnWire(kind: byte, arg: bytes, rest: bytes)
    requires kind != 10 && 10 !in arg
    ensures kind !in {43, 45, 58, 36, 42} ==> Read([kind] + arg + [13, 10] + rest) == Err(UnknownType)
    ensures kind in {58, 36, 42} && ParseInt(arg).None? ==> Read([kind] + arg + [13, 10] + rest) == Err(BadNumber)
    ensures Read([13, 10] + rest) == Err(EmptyLine)
  {
    LineReads(kind, arg, rest);
    LineBack([], rest);
    assert Line([]) == [13, 10];
  }

  /** A line may end without a carriage return. */
  lemma BareLine(s: bytes, rest: bytes)
    requires 10 !in s && (s != [] ==> s[|s| - 1] != 13)
    ensures Read([43] + s + [10] + rest) == Ok(Simple(s), rest)
  {
    var b := [43] + s + [10] + rest;
    LineEndIs(b, |s| + 1);
    assert b[..|s| + 1] == [43] + s && b[|s| + 2..] == rest;
    assert Strip([43] + s) == [43] + s;
    assert ([43] + s)[1..] == s;
  }

  // -------------------------------------------------------------- writing

  /** Every value is written in the shortest of these ways. */
  lemma WrittenAs(v: Value)
    ensures match v
            case Simple(s) => Write(v) == [43] + s + [13, 10]
            case Failure(s) => Write(v) == [45] + s + [13, 10]
            case Integer(n) => Write(v) == [58] + PrintInt(n) + [13, 10]
            case Bulk(s) => Write(v) == [36] + PrintInt(|s|) + [13, 10] + s + [13, 10]
            case NullBulk => Write(v) == [36, 45, 49, 13, 10]
            case Array(elems) => Write(v) == [42] + PrintInt(|elems|) + [13, 10] + Joined(Texts(elems))
            case NullArray => Write(v) == [42, 45, 49, 13, 10]
  {
    match v
    case Bulk(s) =>
      assert Line([36] + PrintInt(|s|)) + (s + [13, 10]) == [36] + PrintInt(|s|) + [13, 10] + s + [13, 10];
    case Array(elems) => WriteAllJoins(elems);
    case _ => assert PrintInt(-1) == [45, 49];
  }

  function Texts(vs: seq<Value>): (r: seq<bytes>)
    ensures |r| == |vs| && forall i | 0 <= i < |vs| :: r[i] == Write(vs[i])
  {
    seq(|vs|, i requires 0 <= i < |vs| => Write(vs[i]))
  }

  lemma {:induction false} WriteAllJoins(vs: seq<Value>)
    ensures WriteAll(vs) == Joined(Texts(vs))
    decreases |vs|
  {
    if vs != [] {
      WriteAllJoins(vs[1..]);
      assert Texts(vs)[1..] == Texts(vs[1..]);
    }
  }
}
