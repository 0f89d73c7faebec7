/** The wire protocol: resp/reader.go and resp/writer.go. */
module Resp {
  import opened Bytes
  import opened Decimal

  const CR: byte := 13
  const LF: byte := 10
  const SIMPLE: byte := 43
  const ERROR: byte := 45
  const INTEGER: byte := 58
  const BULK: byte := 36
  const ARRAY: byte := 42

  datatype Value =
    | Simple(str: bytes)
    | Failure(str: bytes)
    | Integer(num: int)
    | Bulk(str: bytes)
    | NullBulk
    | Array(elems: seq<Value>)
    | NullArray

  /** Short: the input ended before the value did.  TooLong: the length of a bulk
      string and its line end wraps around, and there is no buffer of it. */
  datatype Error = Short | EmptyLine | BadNumber | TooLong | UnknownType

  datatype Parsed<T> = Ok(value: T, rest: bytes) | Err(error: Error)

  // ---------------------------------------------------------------- writing

  function Line(s: bytes): bytes { s + [CR, LF] }

  function Write(v: Value): bytes
    decreases v
  {
    match v
    case Simple(s) => Line([SIMPLE] + s)
    case Failure(s) => Line([ERROR] + s)
    case Integer(n) => Line([INTEGER] + PrintInt(n))
    case Bulk(s) => Line([BULK] + PrintInt(|s|)) + Line(s)
    case NullBulk => Line([BULK] + PrintInt(-1))
    case Array(elems) => Line([ARRAY] + PrintInt(|elems|)) + WriteAll(elems)
    case NullArray => Line([ARRAY] + PrintInt(-1))
  }

  function WriteAll(vs: seq<Value>): bytes
    decreases vs
  {
    if vs == [] then [] else Write(vs[0]) + WriteAll(vs[1..])
  }

  // ---------------------------------------------------------------- reading

  function LineEnd(b: bytes): (n: nat)
    ensures n <= |b|
  {
    if b == [] || b[0] == LF then 0 else 1 + LineEnd(b[1..])
  }

  lemma {:induction false} LineEndIsFirst(b: bytes)
    ensures LineEnd(b) < |b| ==> b[LineEnd(b)] == LF
    ensures forall i | 0 <= i < LineEnd(b) :: b[i] != LF
  {
    if b != [] && b[0] != LF {
      LineEndIsFirst(b[1..]);
      forall i | 0 < i < LineEnd(b)
        ensures b[i] != LF
      {
        assert b[i] == b[1..][i - 1];
      }
    }
  }

  function Strip(line: bytes): bytes {
    if line != [] && line[|line| - 1] == CR then line[..|line| - 1] else line
  }

  /** Up to a line feed, without it and without a carriage return before it. */
  function ReadLine(b: bytes): (r: Parsed<bytes>)
    ensures r.Ok? ==> |r.rest| < |b|
  {
    var n := LineEnd(b);
    if n == |b| then Err(Short) else Ok(Strip(b[..n]), b[n + 1..])
  }

  function Read(b: bytes): (r: Parsed<Value>)
    ensures r.Ok? ==> |r.rest| < |b|
    decreases |b|, 0
  {
    match ReadLine(b)
    case Err(e) => Err(e)
    case Ok(line, rest) =>
      if line == [] then Err(EmptyLine) else ReadTyped(line[0], line[1..], rest)
  }

  function ReadTyped(kind: byte, arg: bytes, rest: bytes): (r: Parsed<Value>)
    ensures r.Ok? ==> |r.rest| <= |rest|
    decreases |rest|, 2
  {
    if kind == SIMPLE then Ok(Simple(arg), rest)
    else if kind == ERROR then Ok(Failure(arg), rest)
    else if kind == INTEGER then
      match ParseInt(arg) case None => Err(BadNumber) case Some(n) => Ok(Integer(n), rest)
    else if kind == BULK then
      match ParseInt(arg) case None => Err(BadNumber) case Some(n) => ReadBulk(n, rest)
    else if kind == ARRAY then
      match ParseInt(arg) case None => Err(BadNumber) case Some(n) => ReadArray(n, rest)
    else Err(UnknownType)
  }

  /** The two bytes after the payload are skipped, whatever they are. */
  function ReadBulk(n: int, rest: bytes): (r: Parsed<Value>)
    ensures r.Ok? ==> |r.rest| <= |rest|
  {
    if n < 0 then Ok(NullBulk, rest)
    else if !Int64(n + 2) then Err(TooLong)
    else if |rest| < n + 2 then Err(Short)
    else Ok(Bulk(rest[..n]), rest[n + 2..])
  }

  function ReadArray(n: int, rest: bytes): (r: Parsed<Value>)
    ensures r.Ok? ==> |r.rest| <= |rest|
    decreases |rest|, 1, 1
  {
    if n < 0 then Ok(NullArray, rest)
    else match ReadElems(n, rest)
      case Err(e) => Err(e)
      case Ok(vs, left) => Ok(Array(vs), left)
  }

  function ReadElems(n: nat, b: bytes): (r: Parsed<seq<Value>>)
    ensures r.Ok? ==> |r.rest| <= |b| && |r.value| == n
    decreases |b|, 1, 0
  {
    if n == 0 then Ok([], b)
    else match Read(b)
      case Err(e) => Err(e)
      case Ok(v, rest) => Prepend([v], ReadElems(n - 1, rest))
  }

  function Prepend(vs: seq<Value>, r: Parsed<seq<Value>>): Parsed<seq<Value>> {
    if r.Ok? then Ok(vs + r.value, r.rest) else r
  }

  lemma PrependNone(r: Parsed<seq<Value>>)
    ensures Prepend([], r) == r
  {
    if r.Ok? { assert [] + r.value == r.value; }
  }

  lemma ElemsStep(n: nat, b: bytes)
    requires n > 0
    ensures ReadElems(n, b) ==
            if Read(b).Err? then Err(Read(b).error) else Prepend([Read(b).value], ReadElems(n - 1, Read(b).rest))
  {
  }

  lemma PrependAppend(vs: seq<Value>, v: Value, r: Parsed<seq<Value>>)
    ensures Prepend(vs, Prepend([v], r)) == Prepend(vs + [v], r)
  {
    if r.Ok? { assert vs + ([v] + r.value) == vs + [v] + r.value; }
  }

  // ------------------------------------------------------------- round trip

  /** What a line-based value can carry: lengths and numbers within 64 bits, and
      no line feed in simple strings and errors. */
  predicate WellFormed(v: Value) {
    match v
    case Simple(s) => LF !in s
    case Failure(s) => LF !in s
    case Integer(n) => Int64(n)
    case Bulk(s) => Int64(|s| + 2)
    case NullBulk => true
    case Array(elems) => |elems| < 0x8000_0000_0000_0000 && forall i | 0 <= i < |elems| :: WellFormed(elems[i])
    case NullArray => true
  }

  predicate AllWellFormed(vs: seq<Value>) { forall i | 0 <= i < |vs| :: WellFormed(vs[i]) }

  lemma {:induction false} LineEndIs(b: bytes, n: nat)
    requires n < |b| && b[n] == LF && forall i | 0 <= i < n :: b[i] != LF
    ensures LineEnd(b) == n
  {
    if n > 0 { LineEndIs(b[1..], n - 1); }
  }

  lemma LineBack(s: bytes, rest: bytes)
    requires LF !in s
    ensures ReadLine(Line(s) + rest) == Ok(s, rest)
  {
    var b := Line(s) + rest;
    LineEndIs(b, |s| + 1);
    assert b[..|s| + 1] == s + [CR];
    assert b[|s| + 2..] == rest;
  }

  lemma {:induction false} PrintNatPlain(n: nat)
    ensures LF !in PrintNat(n)
  {
    var s := PrintNat(n);
    assert forall i | 0 <= i < |s| :: IsDigit(s[i]);
  }

  lemma PrintIntPlain(n: int)
    ensures LF !in PrintInt(n)
  {
    if n < 0 { PrintNatPlain(-n); } else { PrintNatPlain(n); }
  }

  /** A line that starts with its type. */
  lemma TypedBack(kind: byte, arg: bytes, rest: bytes)
    requires LF !in arg && kind != LF
    ensures Read(Line([kind] + arg) + rest) == ReadTyped(kind, arg, rest)
  {
    LineBack([kind] + arg, rest);
    assert ([kind] + arg)[1..] == arg;
  }

  lemma NumberBack(kind: byte, n: int, rest: bytes)
    requires kind != LF
    ensures Read(Line([kind] + PrintInt(n)) + rest) == ReadTyped(kind, PrintInt(n), rest)
    ensures ParseInt(PrintInt(n)) == if Int64(n) then Some(n) else None
  {
    PrintIntPlain(n);
    PrintIntBack(n);
    TypedBack(kind, PrintInt(n), rest);
  }

  lemma {:induction false} ReadBack(v: Value, rest: bytes)
    requires WellFormed(v)
    ensures Read(Write(v) + rest) == Ok(v, rest)
    decreases v
  {
    match v
    case Simple(s) => TypedBack(SIMPLE, s, rest);
    case Failure(s) => TypedBack(ERROR, s, rest);
    case Integer(n) => NumberBack(INTEGER, n, rest);
    case Bulk(s) => BulkBack(s, rest);
    case NullBulk => NumberBack(BULK, -1, rest);
    case Array(elems) => {
      ReadElemsBack(elems, rest);
      ArrayBack(elems, rest);
    }
    case NullArray => NumberBack(ARRAY, -1, rest);
  }

  lemma Regroup(a: bytes, b: bytes, c: bytes)
    ensures (a + b) + c == a + (b + c)
  {
  }

  lemma ArrayOf(arg: bytes, n: int, rest: bytes)
    requires ParseInt(arg) == Some(n)
    ensures ReadTyped(ARRAY, arg, rest) == ReadArray(n, rest)
  {
  }

  lemma BulkBack(s: bytes, rest: bytes)
    requires Int64(|s| + 2)
    ensures Read(Write(Bulk(s)) + rest) == Ok(Bulk(s), rest)
  {
    var tail := Line(s) + rest;
    NumberBack(BULK, |s|, tail);
    Regroup(Line([BULK] + PrintInt(|s|)), Line(s), rest);
    assert tail[..|s|] == s && tail[|s| + 2..] == rest;
  }

  lemma ArrayBack(elems: seq<Value>, rest: bytes)
    requires |elems| < 0x8000_0000_0000_0000
    requires ReadElems(|elems|, WriteAll(elems) + rest) == Ok(elems, rest)
    ensures Read(Write(Array(elems)) + rest) == Ok(Array(elems), rest)
  {
    var tail := WriteAll(elems) + rest;
    NumberBack(ARRAY, |elems|, tail);
    Regroup(Line([ARRAY] + PrintInt(|elems|)), WriteAll(elems), rest);
    ArrayOf(PrintInt(|elems|), |elems|, tail);
  }

  /** Pipelined values come back one after the other. */
  lemma {:induction false} ReadElemsBack(vs: seq<Value>, rest: bytes)
    requires AllWellFormed(vs)
    ensures ReadElems(|vs|, WriteAll(vs) + rest) == Ok(vs, rest)
    decreases vs
  {
    if vs != [] {
      ReadBack(vs[0], WriteAll(vs[1..]) + rest);
      ReadElemsBack(vs[1..], rest);
      ConsBack(Write(vs[0]), WriteAll(vs[1..]), vs[0], vs[1..], rest);
      assert [vs[0]] + vs[1..] == vs;
    }
  }

  lemma ConsBack(first: bytes, others: bytes, v: Value, vs: seq<Value>, rest: bytes)
    requires Read(first + (others + rest)) == Ok(v, others + rest)
    requires ReadElems(|vs|, others + rest) == Ok(vs, rest)
    ensures ReadElems(|vs| + 1, (first + others) + rest) == Ok([v] + vs, rest)
  {
    Regroup(first, others, rest);
    ElemsStep(|vs| + 1, first + (others + rest));
  }

  // ------------------------------------------------- only those come back

  lemma {:induction false} ReadIsWellFormed(b: bytes)
    ensures Read(b).Ok? ==> WellFormed(Read(b).value)
    decreases |b|, 0
  {
    if Read(b).Ok? {
      var line, rest := ReadLine(b).value, ReadLine(b).rest;
      LineIsPlain(b);
      var kind, arg := line[0], line[1..];
      assert Read(b) == ReadTyped(kind, arg, rest);
      var n := ParseInt(arg);
      if kind == ARRAY && n.Some? && n.value >= 0 {
        ReadElemsWellFormed(n.value, rest);
        assert ReadTyped(kind, arg, rest) == ReadArray(n.value, rest);
      }
    }
  }

  lemma LineIsPlain(b: bytes)
    requires ReadLine(b).Ok?
    ensures LF !in ReadLine(b).value
  {
    LineEndIsFirst(b);
  }

  lemma {:induction false} ReadElemsWellFormed(n: nat, b: bytes)
    ensures ReadElems(n, b).Ok? ==> AllWellFormed(ReadElems(n, b).value)
    decreases |b|, 1
  {
    if n > 0 && Read(b).Ok? {
      ReadIsWellFormed(b);
      ReadElemsWellFormed(n - 1, Read(b).rest);
    }
  }

  /** A value survives the wire, whatever follows it, exactly when it is well
      formed. */
  lemma RoundTripIff(v: Value, rest: bytes)
    ensures Read(Write(v) + rest) == Ok(v, rest) <==> WellFormed(v)
  {
    if WellFormed(v) { ReadBack(v, rest); }
    ReadIsWellFormed(Write(v) + rest);
  }

  // --------------------------------------------------------- partial input

  function Extended<T>(r: Parsed<T>, more: bytes): Parsed<T> {
    if r.Ok? then Ok(r.value, r.rest + more) else r
  }

  lemma LineLocal(b: bytes, more: bytes)
    requires ReadLine(b).Ok?
    ensures ReadLine(b + more) == Extended(ReadLine(b), more)
  {
    var n := LineEnd(b);
    LineEndIsFirst(b);
    LineEndIs(b + more, n);
    assert (b + more)[..n] == b[..n];
    assert (b + more)[n + 1..] == b[n + 1..] + more;
  }

  ghost predicate LocalAt(b: bytes, more: bytes) {
    Read(b) != Err(Short) ==> Read(b + more) == Extended(Read(b), more)
  }

  /** Unless the input ended too early, what follows does not matter. */
  lemma {:induction false} ReadLocal(b: bytes, more: bytes)
    ensures LocalAt(b, more)
    decreases |b|, 0
  {
    if ReadLine(b).Ok? {
      LineLocal(b, more);
      var line, rest := ReadLine(b).value, ReadLine(b).rest;
      if line != [] {
        var kind, arg := line[0], line[1..];
        assert Read(b) == ReadTyped(kind, arg, rest) && Read(b + more) == ReadTyped(kind, arg, rest + more);
        var n := ParseInt(arg);
        if kind == ARRAY && n.Some? {
          ArrayOf(arg, n.value, rest);
          ArrayOf(arg, n.value, rest + more);
          if n.value >= 0 { ReadElemsLocal(n.value, rest, more); }
        } else {
          PlainLocal(kind, arg, rest, more);
        }
      }
    }
  }

  lemma PlainLocal(kind: byte, arg: bytes, rest: bytes, more: bytes)
    requires kind == ARRAY ==> ParseInt(arg).None?
    ensures ReadTyped(kind, arg, rest) != Err(Short) ==>
              ReadTyped(kind, arg, rest + more) == Extended(ReadTyped(kind, arg, rest), more)
  {
    var n := ParseInt(arg);
    if n.Some? { BulkLocal(n.value, rest, more); }
  }

  lemma BulkLocal(n: int, rest: bytes, more: bytes)
    ensures ReadBulk(n, rest) != Err(Short) ==> ReadBulk(n, rest + more) == Extended(ReadBulk(n, rest), more)
  {
    if 0 <= n && Int64(n + 2) && |rest| >= n + 2 {
      assert (rest + more)[..n] == rest[..n];
      assert (rest + more)[n + 2..] == rest[n + 2..] + more;
    }
  }

  ghost predicate ElemsLocalAt(n: nat, b: bytes, more: bytes) {
    ReadElems(n, b) != Err(Short) ==> ReadElems(n, b + more) == Extended(ReadElems(n, b), more)
  }

  lemma {:induction false} ReadElemsLocal(n: nat, b: bytes, more: bytes)
    ensures ElemsLocalAt(n, b, more)
    decreases |b|, 1
  {
    if n > 0 {
      ReadLocal(b, more);
      if Read(b).Ok? { ReadElemsLocal(n - 1, Read(b).rest, more); }
      ElemsLocalStep(n, b, more);
    }
  }

  lemma ElemsLocalStep(n: nat, b: bytes, more: bytes)
    requires n > 0 && LocalAt(b, more) && (Read(b).Ok? ==> ElemsLocalAt(n - 1, Read(b).rest, more))
    ensures ElemsLocalAt(n, b, more)
  {
    var first := Read(b);
    ElemsStep(n, b);
    ElemsStep(n, b + more);
    if first.Ok? {
      PrependLocal(first.value, ReadElems(n - 1, first.rest), ReadElems(n - 1, first.rest + more), more);
    }
  }

  lemma PrependLocal(v: Value, r: Parsed<seq<Value>>, extended: Parsed<seq<Value>>, more: bytes)
    requires r != Err(Short) ==> extended == Extended(r, more)
    ensures Prepend([v], r) != Err(Short) ==> Prepend([v], extended) == Extended(Prepend([v], r), more)
  {
  }

  /** A value cut anywhere before its end is neither accepted nor refused: the
      reader asks for more input. */
  lemma CutIsShort(v: Value, k: nat)
    requires WellFormed(v) && k < |Write(v)|
    ensures Read(Write(v)[..k]) == Err(Short)
  {
    var b, more := Write(v)[..k], Write(v)[k..];
    assert b + more == Write(v) == Write(v) + [];
    ReadBack(v, []);
    ReadLocal(b, more);
  }

  // --------------------------------------------------- the reader and writer

  class Reader {
    var input: bytes

    constructor (input: bytes)
      ensures this.input == input
    {
      this.input := input;
    }

    method TakeLine() returns (r: Option<bytes>)
      modifies this
      ensures r.Some? == ReadLine(old(input)).Ok?
      ensures r.Some? ==> ReadLine(old(input)) == Ok(r.value, input)
    {
      var n := 0;
      while n < |input| && input[n] != LF
        invariant n <= |input| && input == old(input)
        invariant forall i | 0 <= i < n :: input[i] != LF
      {
        n := n + 1;
      }
      LineEndIsFirst(input);
      if n == |input| { return None; }
      LineEndIs(input, n);
      r := Some(Strip(input[..n]));
      input := input[n + 1..];
    }

    /** The recursive reader consumes exactly one value. */
    method Take() returns (r: Parsed<Value>)
      modifies this
      ensures r == Read(old(input)) && (r.Ok? ==> input == r.rest)
      decreases |input|, 0
    {
      var line := TakeLine();
      if line.None? { return Err(Short); }
      if line.value == [] { return Err(EmptyLine); }
      var kind, arg := line.value[0], line.value[1..];
      if kind == SIMPLE { return Ok(Simple(arg), input); }
      if kind == ERROR { return Ok(Failure(arg), input); }
      if kind != INTEGER && kind != BULK && kind != ARRAY { return Err(UnknownType); }
      var n := ParseInt(arg);
      if n.None? { return Err(BadNumber); }
      if kind == INTEGER { return Ok(Integer(n.value), input); }
      if kind == BULK {
        r := ReadBulk(n.value, input);
        if r.Ok? { input := r.rest; }
        return;
      }
      assert Read(old(input)) == ReadTyped(kind, arg, input) == ReadArray(n.value, input);
      if n.value < 0 { return Ok(NullArray, input); }
      var elems := TakeElems(n.value);
      return if elems.Ok? then Ok(Array(elems.value), input) else Err(elems.error);
    }

    method TakeElems(n: nat) returns (r: Parsed<seq<Value>>)
      modifies this
      ensures r == ReadElems(n, old(input)) && (r.Ok? ==> input == r.rest)
      decreases |input|, 2
    {
      var elems := [];
      ghost var goal := ReadElems(n, input);
      PrependNone(goal);
      while |elems| < n
        invariant |elems| <= n && |input| <= |old(input)|
        invariant goal == Prepend(elems, ReadElems(n - |elems|, input))
        decreases n - |elems|
      {
        var v := TakeNext(goal, n, elems);
        if v.Err? { return Err(v.error); }
        elems := elems + [v.value];
      }
      assert goal == Prepend(elems, Ok([], input)) && elems + [] == elems;
      return Ok(elems, input);
    }

    method TakeNext(ghost goal: Parsed<seq<Value>>, n: nat, elems: seq<Value>) returns (v: Parsed<Value>)
      requires |elems| < n && goal == Prepend(elems, ReadElems(n - |elems|, input))
      modifies this
      ensures v.Err? ==> goal == Err(v.error)
      ensures v.Ok? ==> goal == Prepend(elems + [v.value], ReadElems(n - |elems| - 1, input))
      ensures v.Ok? ==> |input| <= |old(input)|
      decreases |input|, 1
    {
      ElemsStep(n - |elems|, input);
      v := Take();
      if v.Ok? { PrependAppend(elems, v.value, ReadElems(n - |elems| - 1, input)); }
    }
  }

  class Writer {
    var output: bytes

    constructor ()
      ensures output == []
    {
      output := [];
    }

    method Put(v: Value)
      modifies this
      ensures output == old(output) + Write(v)
      decreases v
    {
      match v
      case Array(elems) =>
        var header := Line([ARRAY] + PrintInt(|elems|));
        output := output + header;
        PutAll(elems);
        Regroup(old(output), header, WriteAll(elems));
      case _ => output := output + Write(v);
    }

    method PutAll(elems: seq<Value>)
      modifies this
      ensures output == old(output) + WriteAll(elems)
      decreases elems
    {
      ghost var start := output;
      for i := 0 to |elems|
        invariant output == start + WriteAll(elems[..i])
      {
        WriteAllSnoc(elems, i);
        Put(elems[i]);
      }
      assert elems[..|elems|] == elems;
    }
  }

  lemma WriteAllSnoc(vs: seq<Value>, i: nat)
    requires i < |vs|
    ensures WriteAll(vs[..i + 1]) == WriteAll(vs[..i]) + Write(vs[i])
  {
    WriteAllAppend(vs[..i], vs[i]);
    assert vs[..i + 1] == vs[..i] + [vs[i]];
  }

  lemma {:induction false} WriteAllAppend(vs: seq<Value>, v: Value)
    ensures WriteAll(vs + [v]) == WriteAll(vs) + Write(v)
    decreases |vs|
  {
    if vs == [] {
      assert vs + [v] == [v] && [v][1..] == [];
    } else {
      WriteAllAppend(vs[1..], v);
      assert (vs + [v])[1..] == vs[1..] + [v];
      Regroup(Write(vs[0]), WriteAll(vs[1..]), Write(v));
    }
  }
}
