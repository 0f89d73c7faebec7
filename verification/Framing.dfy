/** Streams of self-delimiting items, over any item format.

    A format writes an item as bytes and reads the item that starts at a
    position.  The laws say what the engine's formats have in common; the
    results say what a log of such items means after a crash. */
module Framing {
  import opened Bytes

  datatype Format<!T> = Format(fits: T -> bool, encode: T -> bytes, parse: (bytes, nat) -> Option<(T, nat)>)

  /** The n bytes of a at p are the n bytes of b at q. */
  ghost predicate SameBytes(a: bytes, p: nat, b: bytes, q: nat, n: nat) {
    p + n <= |a| && q + n <= |b| && a[p..p + n] == b[q..q + n]
  }

  /** b ends inside `part`, which starts at p. */
  ghost predicate EndsInside(b: bytes, p: nat, part: bytes) {
    p <= |b| < p + |part| && b[p..] == part[..|b| - p]
  }

  ghost predicate AdvancesAt<T>(f: Format<T>, b: bytes, p: nat) {
    f.parse(b, p).Some? ==> p < f.parse(b, p).value.1 <= |b|
  }

  ghost predicate ReadsBackAt<T>(f: Format<T>, x: T, b: bytes, p: nat) {
    f.fits(x) && At(b, p, f.encode(x)) ==> f.parse(b, p) == Some((x, p + |f.encode(x)|))
  }

  ghost predicate RejectsTornAt<T>(f: Format<T>, x: T, b: bytes, p: nat) {
    f.fits(x) && EndsInside(b, p, f.encode(x)) ==> f.parse(b, p) == None
  }

  ghost predicate ReadsLocallyAt<T>(f: Format<T>, a: bytes, p: nat, b: bytes, q: nat, n: nat) {
    SameBytes(a, p, b, q, n) && f.parse(a, p).Some? && f.parse(a, p).value.1 <= p + n ==>
      f.parse(b, q) == Some((f.parse(a, p).value.0, q + (f.parse(a, p).value.1 - p)))
  }

  ghost predicate Advances<T(!new)>(f: Format<T>) {
    forall b: bytes, p: nat :: AdvancesAt(f, b, p)
  }

  /** An item that fits is read back, wherever it stands. */
  ghost predicate ReadsBack<T(!new)>(f: Format<T>) {
    forall x: T, b: bytes, p: nat :: ReadsBackAt(f, x, b, p)
  }

  /** An item cut short is not read. */
  ghost predicate RejectsTorn<T(!new)>(f: Format<T>) {
    forall x: T, b: bytes, p: nat :: RejectsTornAt(f, x, b, p)
  }

  /** Reading depends on nothing but the bytes that are read. */
  ghost predicate ReadsLocally<T(!new)>(f: Format<T>) {
    forall a: bytes, p: nat, b: bytes, q: nat, n: nat :: ReadsLocallyAt(f, a, p, b, q, n)
  }

  ghost predicate Lawful<T(!new)>(f: Format<T>) {
    Advances(f) && ReadsBack(f) && RejectsTorn(f) && ReadsLocally(f)
  }

  // ------------------------------------------------------------------ logs

  /** So many writes make the log durable. */
  const SYNC_THRESHOLD := 10

  function EncodeAll<T>(f: Format<T>, xs: seq<T>): bytes {
    if xs == [] then [] else f.encode(xs[0]) + EncodeAll(f, xs[1..])
  }

  lemma {:induction false} EncodeAllAppend<T>(f: Format<T>, a: seq<T>, b: seq<T>)
    ensures EncodeAll(f, a + b) == EncodeAll(f, a) + EncodeAll(f, b)
  {
    if a == [] {
      assert a + b == b;
    } else {
      EncodeAllAppend(f, a[1..], b);
      assert (a + b)[1..] == a[1..] + b;
    }
  }

  lemma EncodeAllSnoc<T>(f: Format<T>, a: seq<T>, x: T)
    ensures EncodeAll(f, a + [x]) == EncodeAll(f, a) + f.encode(x)
  {
    EncodeAllAppend(f, a, [x]);
    assert EncodeAll(f, [x]) == f.encode(x) + [];
  }

  ghost predicate AllFit<T>(f: Format<T>, xs: seq<T>) {
    forall i | 0 <= i < |xs| :: f.fits(xs[i])
  }

  /** Items from `pos` on, up to the first that cannot be read, and the offset
      at which the file is cut. */
  function Replay<T>(f: Format<T>, file: bytes, pos: nat): (r: (seq<T>, nat))
    requires pos <= |file|
    ensures pos <= r.1 <= |file|
    decreases |file| - pos
  {
    var o := f.parse(file, pos);
    if o.None? || o.value.1 <= pos || |file| < o.value.1 then ([], pos)
    else
      var (xs, end) := Replay(f, file, o.value.1);
      ([o.value.0] + xs, end)
  }

  /** The replay loop. */
  method ReplayFile<T>(f: Format<T>, file: bytes) returns (items: seq<T>, end: nat)
    ensures (items, end) == Replay(f, file, 0)
  {
    items, end := [], 0;
    var reading := true;
    while reading
      invariant end <= |file|
      invariant reading ==> items + Replay(f, file, end).0 == Replay(f, file, 0).0
      invariant reading ==> Replay(f, file, end).1 == Replay(f, file, 0).1
      invariant !reading ==> (items, end) == Replay(f, file, 0)
      decreases reading, |file| - end
    {
      var o := f.parse(file, end);
      if o.None? || o.value.1 <= end || |file| < o.value.1 {
        reading := false;
        assert items + [] == items;
      } else {
        items := items + [o.value.0];
        end := o.value.1;
      }
    }
  }

  // ------------------------------------------------------------ torn tails

  /** How many items of the log lie wholly within its first `cut` bytes. */
  function Whole<T>(f: Format<T>, xs: seq<T>, cut: nat): (n: nat)
    ensures n <= |xs|
  {
    if xs == [] || cut < |f.encode(xs[0])| then 0
    else 1 + Whole(f, xs[1..], cut - |f.encode(xs[0])|)
  }

  lemma {:induction false} WholeIsMaximal<T>(f: Format<T>, xs: seq<T>, cut: nat)
    ensures |EncodeAll(f, xs[..Whole(f, xs, cut)])| <= cut
    ensures Whole(f, xs, cut) < |xs| ==> cut < |EncodeAll(f, xs[..Whole(f, xs, cut) + 1])|
  {
    var n := Whole(f, xs, cut);
    if xs != [] && |f.encode(xs[0])| <= cut {
      WholeIsMaximal(f, xs[1..], cut - |f.encode(xs[0])|);
      assert xs[..n][1..] == xs[1..][..n - 1];
      if n < |xs| { assert xs[..n + 1][1..] == xs[1..][..n]; }
    } else if xs != [] {
      assert xs[..1][1..] == [];
    }
  }

  /** After any cut, replay returns exactly the items wholly before the cut and
      truncates the file to the end of the last of them. */
  lemma {:induction false} TornTailFrom<T(!new)>(f: Format<T>, xs: seq<T>, file: bytes, pos: nat)
    requires Lawful(f) && AllFit(f, xs) && pos <= |file| <= pos + |EncodeAll(f, xs)|
    requires file[pos..] == EncodeAll(f, xs)[..|file| - pos]
    ensures Replay(f, file, pos).0 == xs[..Whole(f, xs, |file| - pos)]
    ensures Replay(f, file, pos).1 == pos + |EncodeAll(f, xs[..Whole(f, xs, |file| - pos)])|
  {
    if xs == [] {
      NothingAtEnd(f, file);
      assert |file| == pos;
    } else if |file| - pos < |f.encode(xs[0])| {
      assert file[pos..] == f.encode(xs[0])[..|file| - pos];
      assert RejectsTornAt(f, xs[0], file, pos);
    } else {
      var next := pos + |f.encode(xs[0])|;
      CutAfter(file, pos, f.encode(xs[0]), EncodeAll(f, xs[1..]));
      assert ReadsBackAt(f, xs[0], file, pos) && AdvancesAt(f, file, pos);
      assert pos < next <= |file|;
      TornTailFrom(f, xs[1..], file, next);
      WholeStep(f, xs, |file| - pos);
      assert Replay(f, file, pos).0 == [xs[0]] + Replay(f, file, next).0;
    }
  }

  lemma WholeStep<T>(f: Format<T>, xs: seq<T>, cut: nat)
    requires xs != [] && |f.encode(xs[0])| <= cut
    ensures var n := Whole(f, xs[1..], cut - |f.encode(xs[0])|);
            && xs[..Whole(f, xs, cut)] == [xs[0]] + xs[1..][..n]
            && |EncodeAll(f, xs[..Whole(f, xs, cut)])| == |f.encode(xs[0])| + |EncodeAll(f, xs[1..][..n])|
  {
    var n := Whole(f, xs[1..], cut - |f.encode(xs[0])|);
    assert xs[..n + 1] == [xs[0]] + xs[1..][..n];
    assert xs[..n + 1][1..] == xs[1..][..n];
  }

  lemma CutAfter(file: bytes, pos: nat, a: bytes, b: bytes)
    requires pos + |a| <= |file| <= pos + |a + b| && file[pos..] == (a + b)[..|file| - pos]
    ensures At(file, pos, a)
    ensures file[pos + |a|..] == b[..|file| - (pos + |a|)]
  {
    assert file[pos..pos + |a|] == file[pos..][..|a|] == a;
    assert file[pos + |a|..] == file[pos..][|a|..];
  }

  lemma NothingAtEnd<T(!new)>(f: Format<T>, file: bytes)
    requires Advances(f)
    ensures f.parse(file, |file|) == None
  {
    assert AdvancesAt(f, file, |file|);
  }

  lemma TornTail<T(!new)>(f: Format<T>, xs: seq<T>, cut: nat)
    requires Lawful(f) && AllFit(f, xs) && cut <= |EncodeAll(f, xs)|
    ensures var n := Whole(f, xs, cut);
            Replay(f, EncodeAll(f, xs)[..cut], 0) == (xs[..n], |EncodeAll(f, xs[..n])|)
  {
    var file := EncodeAll(f, xs)[..cut];
    assert file[0..] == EncodeAll(f, xs)[..|file|];
    TornTailFrom(f, xs, file, 0);
  }

  lemma ReplayWholeLog<T(!new)>(f: Format<T>, xs: seq<T>)
    requires Lawful(f) && AllFit(f, xs)
    ensures Replay(f, EncodeAll(f, xs), 0) == (xs, |EncodeAll(f, xs)|)
  {
    var file := EncodeAll(f, xs);
    assert file[..|file|] == file;
    TornTail(f, xs, |file|);
    WholeIsMaximal(f, xs, |file|);
    var n := Whole(f, xs, |file|);
    if n < |xs| {
      assert xs == xs[..n + 1] + xs[n + 1..];
      EncodeAllAppend(f, xs[..n + 1], xs[n + 1..]);
    }
    assert xs[..n] == xs;
  }

  /** Items that fit, and then bytes that do not start with an item: replay
      returns the items and cuts after them, whatever the bytes are. */
  lemma {:induction false} ReplayStops<T(!new)>(f: Format<T>, xs: seq<T>, front: bytes, tail: bytes)
    requires Lawful(f) && AllFit(f, xs)
    requires f.parse(front + EncodeAll(f, xs) + tail, |front + EncodeAll(f, xs)|) == None
    ensures Replay(f, front + EncodeAll(f, xs) + tail, |front|) == (xs, |front + EncodeAll(f, xs)|)
    decreases |xs|
  {
    var file := front + EncodeAll(f, xs) + tail;
    if xs == [] {
      assert |front + EncodeAll(f, xs)| == |front|;
    } else {
      var first, rest := f.encode(xs[0]), EncodeAll(f, xs[1..]);
      assert front + (first + rest) + tail == front + first + rest + tail;
      assert |front + (first + rest)| == |front + first + rest|;
      assert At(file, |front|, first);
      assert ReadsBackAt(f, xs[0], file, |front|) && AdvancesAt(f, file, |front|);
      ReplayStops(f, xs[1..], front + first, tail);
      assert [xs[0]] + xs[1..] == xs;
    }
  }

  // ------------------------------------------------------- arbitrary bytes

  lemma {:induction false} ReplayShift<T(!new)>(f: Format<T>, front: bytes, tail: bytes, pos: nat)
    requires Lawful(f) && pos <= |tail|
    ensures Replay(f, front + tail, |front| + pos).0 == Replay(f, tail, pos).0
    ensures Replay(f, front + tail, |front| + pos).1 == |front| + Replay(f, tail, pos).1
    decreases |tail| - pos
  {
    var file, n := front + tail, |tail| - pos;
    var o, shifted := f.parse(tail, pos), f.parse(file, |front| + pos);
    assert SameBytes(tail, pos, file, |front| + pos, n) && SameBytes(file, |front| + pos, tail, pos, n);
    assert ReadsLocallyAt(f, tail, pos, file, |front| + pos, n);
    assert ReadsLocallyAt(f, file, |front| + pos, tail, pos, n);
    assert AdvancesAt(f, tail, pos) && AdvancesAt(f, file, |front| + pos);
    if o.Some? {
      ReplayShift(f, front, tail, o.value.1);
    }
  }

  lemma {:induction false} ReplayExtendsFrom<T(!new)>(f: Format<T>, file: bytes, pos: nat, tail: bytes)
    requires Lawful(f) && pos <= |file|
    ensures var end := Replay(f, file, pos).1;
            && Replay(f, file[..end] + tail, pos).0 == Replay(f, file, pos).0 + Replay(f, tail, 0).0
            && Replay(f, file[..end] + tail, pos).1 == end + Replay(f, tail, 0).1
    decreases |file| - pos
  {
    var end := Replay(f, file, pos).1;
    var cut, o := file[..end] + tail, f.parse(file, pos);
    assert AdvancesAt(f, file, pos) && AdvancesAt(f, cut, pos);
    if o.None? {
      assert Replay(f, file, pos) == ([], pos);
      ReplayShift(f, file[..end], tail, 0);
      assert [] + Replay(f, tail, 0).0 == Replay(f, tail, 0).0;
    } else {
      ParsesSame(f, file, cut, pos);
      ReplayExtendsFrom(f, file, o.value.1, tail);
      ReplayStep(f, file, pos);
      ReplayStep(f, cut, pos);
      var xs, ys := Replay(f, file, o.value.1).0, Replay(f, tail, 0).0;
      assert [o.value.0] + (xs + ys) == [o.value.0] + xs + ys;
    }
  }

  lemma ReplayStep<T>(f: Format<T>, file: bytes, pos: nat)
    requires pos <= |file| && f.parse(file, pos).Some? && pos < f.parse(file, pos).value.1 <= |file|
    ensures var (x, next) := f.parse(file, pos).value;
            Replay(f, file, pos) == ([x] + Replay(f, file, next).0, Replay(f, file, next).1)
  {
  }

  /** An item is read the same from a file with the same bytes up to its end. */
  lemma ParsesSame<T(!new)>(f: Format<T>, file: bytes, other: bytes, pos: nat)
    requires Lawful(f) && pos <= |file| && f.parse(file, pos).Some?
    requires var next := f.parse(file, pos).value.1; next <= |file| && next <= |other| && file[..next] == other[..next]
    ensures f.parse(other, pos) == f.parse(file, pos)
  {
    var next := f.parse(file, pos).value.1;
    assert AdvancesAt(f, file, pos);
    forall j | pos <= j < next
      ensures file[j] == other[j]
    {
      assert file[..next][j] == other[..next][j];
    }
    assert SameBytes(file, pos, other, pos, next - pos);
    assert ReadsLocallyAt(f, file, pos, other, pos, next - pos);
  }

  /** Whatever the file held, replaying the truncated file again changes
      nothing. */
  lemma ReplayIdempotent<T(!new)>(f: Format<T>, file: bytes)
    requires Lawful(f)
    ensures Replay(f, file[..Replay(f, file, 0).1], 0) == Replay(f, file, 0)
  {
    var (xs, end) := Replay(f, file, 0);
    ReplayExtendsFrom(f, file, 0, []);
    NothingAtEnd(f, []);
    assert Replay(f, [], 0) == ([], 0);
    assert file[..end] + [] == file[..end] && xs + [] == xs;
  }

  /** Whatever the file held, items appended to the truncated file are replayed
      after the old ones. */
  lemma ReplayExtends<T(!new)>(f: Format<T>, file: bytes, more: seq<T>)
    requires Lawful(f) && AllFit(f, more)
    ensures Replay(f, file[..Replay(f, file, 0).1] + EncodeAll(f, more), 0)
         == (Replay(f, file, 0).0 + more, Replay(f, file, 0).1 + |EncodeAll(f, more)|)
  {
    ReplayExtendsFrom(f, file, 0, EncodeAll(f, more));
    ReplayWholeLog(f, more);
  }

  // ---------------------------------------------- a counted run of items

  /** Exactly `count` items from `pos` on, and the position after them. */
  function ReadMany<T>(f: Format<T>, file: bytes, pos: nat, count: nat): Option<(seq<T>, nat)>
    decreases count
  {
    if count == 0 then Some(([], pos))
    else
      var o := f.parse(file, pos);
      if o.None? then None
      else
        var rest := ReadMany(f, file, o.value.1, count - 1);
        if rest.None? then None else Some(([o.value.0] + rest.value.0, rest.value.1))
  }

  lemma {:induction false} ReadManyBack<T(!new)>(f: Format<T>, xs: seq<T>, file: bytes, pos: nat)
    requires ReadsBack(f) && AllFit(f, xs) && At(file, pos, EncodeAll(f, xs))
    ensures ReadMany(f, file, pos, |xs|) == Some((xs, pos + |EncodeAll(f, xs)|))
  {
    if xs != [] {
      var e := f.encode(xs[0]);
      AtAppend(file, pos, e, EncodeAll(f, xs[1..]));
      assert ReadsBackAt(f, xs[0], file, pos);
      ReadManyBack(f, xs[1..], file, pos + |e|);
      assert xs == [xs[0]] + xs[1..];
    }
  }
}
