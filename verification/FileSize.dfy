/** What sizes table files can have, and what compactions of tables of given
    sizes do to lookups (compaction/group_by_similar_size.go looks at nothing
    but the sizes of the files). */
module FileSizes {
  import opened Bytes
  import opened InternalKeys
  import opened Versions
  import opened Merging
  import opened Grouping
  import opened Compaction
  import opened Levels
  import opened Framing
  import opened Bloom
  import opened Tables
  import opened TableFiles
  import opened TableWriters
  import opened SSTables
  import opened FileNames
  import opened ReopenOrders

  /** `size` is how many bytes the file of a table has, under this checksum, these
      hashes and this empty filter. */
  ghost predicate IsFileSize(size: Level -> nat, crc: Wal.Checksum, h: Hashes, empty: Filter) {
    |empty.bits| > 0 && forall entries: Level :: FileSizeAt(size, crc, h, empty, entries)
  }

  ghost predicate FileSizeAt(size: Level -> nat, crc: Wal.Checksum, h: Hashes, empty: Filter, entries: Level)
    requires |empty.bits| > 0
  {
    size(entries) == |TableBytes(TableCodec(crc), h, empty, entries)|
  }

  // --------------------------------------- tables of one entry to the block

  function Singles(entries: seq<Entry>): seq<Level> {
    if entries == [] then [] else [[entries[0]]] + Singles(entries[1..])
  }

  lemma {:induction false} SplitSingles(entries: seq<Entry>)
    requires OneToTheBlock(entries)
    ensures Split(entries, [], 0) == Singles(entries)
  {
    if entries != [] {
      var e, rest := entries[0], entries[1..];
      SplitSingles(rest);
      assert [] + [e] == [e];
      if EntrySize(e) < BLOCK_SIZE {
        assert rest == [];
        assert Split(rest, [e], EntrySize(e)) == [[e]];
      }
    }
  }

  /** What an entry in a block of its own takes, index entry included. */
  function UnitSize(e: Entry): nat { 48 + 2 * |e.key.user| + |e.value| }

  function Units(entries: seq<Entry>): nat {
    if entries == [] then 0 else UnitSize(entries[0]) + Units(entries[1..])
  }

  ghost predicate SingleSized(c: Codec) {
    && SizedIndex(c)
    && (forall e: Entry :: |c.encode([e])| == EntrySize(e) + 8)
    && (forall k: InternalKey :: |c.head(k)| == k.Size())
  }

  lemma TableCodecSized(crc: Wal.Checksum)
    ensures SingleSized(TableCodec(crc)) && FixedFooter(TableCodec(crc))
  {
    TableCodecLawful(crc);
    forall e: Entry
      ensures |TableCodec(crc).encode([e])| == EntrySize(e) + 8
    {
      BlockBytes(crc, [e]);
      TotalSnoc([], e);
      assert [] + [e] == [e];
    }
  }

  lemma {:induction false} SinglesBytes(c: Codec, entries: seq<Entry>, offset: nat)
    requires SingleSized(c)
    ensures |BlocksBytes(c, Singles(entries))| + |EncodeAll(c.index, IndexOf(c, Singles(entries), offset))|
         == Units(entries)
  {
    if entries != [] {
      var e, blocks := entries[0], Singles(entries);
      var next := offset + |c.encode([e])|;
      assert blocks[0] == [e] && blocks[1..] == Singles(entries[1..]);
      SinglesBytes(c, entries[1..], next);
      var x, rest := IndexEntryFor(c, [e], offset), IndexOf(c, Singles(entries[1..]), next);
      assert IndexOf(c, blocks, offset) == [x] + rest;
      assert ([x] + rest)[1..] == rest;
      assert |c.index.encode(x)| == 16 + e.key.Size();
    }
  }

  /** Filter and footer. */
  function Overhead(empty: Filter): nat { 32 + (|empty.bits| + 7) / 8 }

  ghost predicate OneToTheBlock(entries: seq<Entry>) {
    forall i | 0 <= i < |entries| - 1 :: EntrySize(entries[i]) >= BLOCK_SIZE
  }

  ghost predicate MeasuredAt(size: Level -> nat, overhead: nat, entries: Level) {
    OneToTheBlock(entries) ==> size(entries) == overhead + Units(entries)
  }

  /** A size of tables that is exact for one entry to the block. */
  ghost predicate Measures(size: Level -> nat, overhead: nat) {
    forall entries: Level :: MeasuredAt(size, overhead, entries)
  }

  lemma FileSizeMeasures(size: Level -> nat, crc: Wal.Checksum, h: Hashes, empty: Filter)
    requires IsFileSize(size, crc, h, empty)
    ensures Measures(size, Overhead(empty))
  {
    forall entries: Level
      ensures MeasuredAt(size, Overhead(empty), entries)
    {
      assert FileSizeAt(size, crc, h, empty, entries);
      if OneToTheBlock(entries) { SinglesSize(crc, h, empty, entries); }
    }
  }

  lemma SinglesSize(crc: Wal.Checksum, h: Hashes, empty: Filter, entries: seq<Entry>)
    requires |empty.bits| > 0 && OneToTheBlock(entries)
    ensures |TableBytes(TableCodec(crc), h, empty, entries)| == Overhead(empty) + Units(entries)
  {
    SplitSingles(entries);
    TableCodecSized(crc);
    var c, bloom := TableCodec(crc), Serialize(AddAll(h, empty, UserKeys(entries)));
    SinglesBytes(c, entries, 0);
    SectionSizes(c, Singles(entries), bloom);
    assert |c.bloom.encode(bloom)| == 4 + |bloom|;
  }

  lemma SectionSizes(c: Codec, blocks: seq<Level>, bloom: bytes)
    requires FixedFooter(c)
    ensures |FileBytes(c, blocks, bloom)|
         == |BlocksBytes(c, blocks)| + |EncodeAll(c.index, IndexOf(c, blocks, 0))| + |c.bloom.encode(bloom)| + 20
  {
  }

  // ------------------------------------------------ tables of any given size

  /** What a filler takes, in a block of its own. */
  const STEP := 8192

  function Zeros(n: nat): (r: bytes)
    ensures |r| == n
  {
    seq(n, _ => 0)
  }

  function BigEndian(n: nat, width: nat): (r: bytes)
    ensures |r| == width
  {
    if width == 0 then [] else BigEndian(n / 256, width - 1) + [n % 256]
  }

  predicate FitsWidth(n: nat, width: nat) {
    if width == 0 then n == 0 else FitsWidth(n / 256, width - 1)
  }

  lemma {:induction false} BigEndianOrder(a: nat, b: nat, width: nat)
    requires a < b && FitsWidth(b, width)
    ensures Compare(BigEndian(a, width), BigEndian(b, width)) < 0
  {
    var x, y := BigEndian(a / 256, width - 1), BigEndian(b / 256, width - 1);
    CompareAppend(x, y, [a % 256], [b % 256]);
    if a / 256 < b / 256 { BigEndianOrder(a / 256, b / 256, width - 1); }
  }

  lemma EightBytes(n: nat)
    requires n < 0x1_0000_0000_0000_0000
    ensures FitsWidth(n, 8)
  {
    var a, b, c := n / 0x100, n / 0x1_0000, n / 0x100_0000;
    var d, e, f, g := n / 0x1_0000_0000, n / 0x100_0000_0000, n / 0x1_0000_0000_0000, n / 0x100_0000_0000_0000;
    assert b == a / 256 && c == b / 256 && d == c / 256 && e == d / 256 && f == e / 256 && g == f / 256;
    assert FitsWidth(g / 256, 0);
    assert FitsWidth(g, 1) && FitsWidth(f, 2) && FitsWidth(e, 3) && FitsWidth(d, 4);
    assert FitsWidth(c, 5) && FitsWidth(b, 6) && FitsWidth(a, 7);
  }

  function FillerKey(j: nat): bytes { [0] + BigEndian(j, 8) }

  function Filler(j: nat, num: SeqNum): Entry {
    Entry(InternalKey(FillerKey(j), num, KIND_SET), Zeros(STEP - 66))
  }

  /** Fillers, with the numbers that follow `after`. */
  function Fillers(m: nat, after: nat): (r: Level)
    requires after + m <= SEQ_NUM_MAX
    ensures |r| == m
  {
    if m == 0 then [] else Fillers(m - 1, after) + [Filler(m - 1, after + m)]
  }

  lemma {:induction false} FillersAt(m: nat, after: nat, j: nat)
    requires after + m <= SEQ_NUM_MAX && j < m
    ensures Fillers(m, after)[j] == Filler(j, after + j + 1)
  {
    if j < m - 1 { FillersAt(m - 1, after, j); }
  }

  /** A one-byte key in a table that takes `extra` bytes more than it needs. */
  function Last(user: bytes, extra: nat, num: SeqNum): Entry {
    Entry(InternalKey(user, num, KIND_SET), Zeros(extra % STEP))
  }

  function Padded(user: bytes, extra: nat, after: nat): (r: Level)
    requires after + extra / STEP + 1 <= SEQ_NUM_MAX
    ensures |r| == extra / STEP + 1
  {
    Fillers(extra / STEP, after) + [Last(user, extra, after + extra / STEP + 1)]
  }

  lemma PaddedAt(user: bytes, extra: nat, after: nat, j: nat)
    requires after + extra / STEP + 1 <= SEQ_NUM_MAX && j <= extra / STEP
    ensures var e := Padded(user, extra, after)[j];
            && e.key.num == after + j + 1 && e.key.kind == KIND_SET
            && e == if j < extra / STEP then Filler(j, after + j + 1) else Last(user, extra, after + j + 1)
  {
    if j < extra / STEP { FillersAt(extra / STEP, after, j); }
  }

  lemma {:induction false} UnitsSnoc(entries: seq<Entry>, e: Entry)
    ensures Units(entries + [e]) == Units(entries) + UnitSize(e)
  {
    if entries == [] {
      assert [] + [e] == [e] && [e][1..] == [];
    } else {
      UnitsSnoc(entries[1..], e);
      assert (entries + [e])[1..] == entries[1..] + [e];
    }
  }

  lemma {:induction false} FillersUnits(m: nat, after: nat)
    requires after + m <= SEQ_NUM_MAX
    ensures Units(Fillers(m, after)) == m * STEP
  {
    if m > 0 {
      FillersUnits(m - 1, after);
      UnitsSnoc(Fillers(m - 1, after), Filler(m - 1, after + m));
    }
  }

  /** What one entry with a one-byte key and no value takes. */
  const SMALLEST := 50

  lemma PaddedUnits(user: bytes, extra: nat, after: nat)
    requires |user| == 1 && after + extra / STEP + 1 <= SEQ_NUM_MAX
    ensures Units(Padded(user, extra, after)) == SMALLEST + extra
    ensures OneToTheBlock(Padded(user, extra, after))
  {
    var entries, m := Padded(user, extra, after), extra / STEP;
    forall i | 0 <= i < |entries| - 1
      ensures EntrySize(entries[i]) >= BLOCK_SIZE
    {
      PaddedAt(user, extra, after, i);
    }
    FillersUnits(m, after);
    UnitsSnoc(Fillers(m, after), Last(user, extra, after + m + 1));
  }

  /** A table that the engine could have written: its entries are strictly
      sorted, accepted by Put, and numbered one by one after `after`. */
  ghost predicate Authentic(level: Level, after: nat) {
    && StrictlySorted(level)
    && forall j | 0 <= j < |level| ::
         level[j].key.num == after + j + 1 && level[j].key.kind == KIND_SET && EntryFits(level[j])
  }

  lemma PaddedAuthentic(user: bytes, extra: nat, after: nat)
    requires after + extra / STEP + 1 <= SEQ_NUM_MAX && |user| == 1 && user[0] > 0
    ensures Authentic(Padded(user, extra, after), after)
    ensures forall e | e in Padded(user, extra, after) ::
              |e.key.user| == 1 ==> e == Last(user, extra, after + extra / STEP + 1)
  {
    var level, m := Padded(user, extra, after), extra / STEP;
    forall j | 0 <= j < |level|
      ensures level[j].key.num == after + j + 1 && level[j].key.kind == KIND_SET && EntryFits(level[j])
      ensures |level[j].key.user| == 1 ==> level[j] == Last(user, extra, after + m + 1)
    {
      PaddedAt(user, extra, after, j);
    }
    forall i, j | 0 <= i < j < |level|
      ensures KeyLess(level[i].key, level[j].key)
    {
      PaddedAt(user, extra, after, i);
      PaddedAt(user, extra, after, j);
      if j < m {
        EightBytes(j);
        BigEndianOrder(i, j, 8);
        CompareAppend([0], [0], BigEndian(i, 8), BigEndian(j, 8));
      } else {
        assert FillerKey(i)[0] == 0;
      }
    }
  }

  // --------------------------------------------- table lists of given sizes

  function Total(sizes: seq<nat>): nat {
    if sizes == [] then 0 else sizes[0] + Total(sizes[1..])
  }

  /** Sizes that files can have: that of a table without entries, or at least
      that of one entry with a one-byte key; together below 2^56 bytes. */
  ghost predicate Attainable(small: nat, sizes: seq<nat>) {
    && small > SMALLEST && Total(sizes) < 0x100_0000_0000_0000
    && forall i | 0 <= i < |sizes| :: sizes[i] + SMALLEST == small || small <= sizes[i]
  }

  /** How many entries a file of this size has room for. */
  function Room(small: nat, n: nat): nat { if n < small then 0 else (n - small) / STEP + 1 }

  function Entries(small: nat, sizes: seq<nat>): nat {
    if sizes == [] then 0 else Entries(small, sizes[1..]) + Room(small, sizes[0])
  }

  lemma {:induction false} EntriesBounded(small: nat, sizes: seq<nat>)
    requires small > 0
    ensures Entries(small, sizes) <= Total(sizes)
  {
    if sizes != [] { EntriesBounded(small, sizes[1..]); }
  }

  lemma {:induction false} EntriesFall(small: nat, sizes: seq<nat>, i: nat, j: nat)
    requires i <= j <= |sizes|
    ensures Entries(small, sizes[j..]) <= Entries(small, sizes[i..])
    decreases j - i
  {
    if i < j {
      EntriesFall(small, sizes, i + 1, j);
      assert sizes[i..][1..] == sizes[i + 1..];
    }
  }

  lemma EntriesAt(small: nat, sizes: seq<nat>, i: nat)
    requires Attainable(small, sizes) && i < |sizes|
    ensures Entries(small, sizes[i + 1..]) + Room(small, sizes[i]) == Entries(small, sizes[i..]) <= SEQ_NUM_MAX
  {
    EntriesFall(small, sizes, 0, i);
    EntriesBounded(small, sizes);
    assert sizes[0..] == sizes && sizes[i..][1..] == sizes[i + 1..];
  }

  /** Tables of these sizes, each with its one-byte key; the last is the oldest,
      and together they hold the writes 1, 2, 3 and so on. */
  ghost function Stock(small: nat, users: seq<bytes>, sizes: seq<nat>): (r: seq<Level>)
    requires |users| == |sizes| && Attainable(small, sizes)
    ensures |r| == |sizes|
  {
    seq(|sizes|, i requires 0 <= i < |sizes| => StockOf(small, users[i], sizes, i))
  }

  ghost function StockOf(small: nat, user: bytes, sizes: seq<nat>, i: nat): Level
    requires Attainable(small, sizes) && i < |sizes|
  {
    EntriesAt(small, sizes, i);
    if sizes[i] < small then [] else Padded(user, sizes[i] - small, Entries(small, sizes[i + 1..]))
  }

  ghost predicate OneByte(users: seq<bytes>) {
    forall i | 0 <= i < |users| :: |users[i]| == 1 && users[i][0] > 0
  }

  /** Tables that together hold the writes 1, 2, 3 and so on, each as a flush
      would write it: strictly sorted, and accepted by Put. */
  ghost predicate Consecutive(tables: seq<Level>) {
    tables == [] || (Consecutive(tables[1..]) && Authentic(tables[0], |Concat(tables[1..])|))
  }

  lemma {:induction false} StockIsConsecutive(small: nat, users: seq<bytes>, sizes: seq<nat>, i: nat)
    requires |users| == |sizes| && Attainable(small, sizes) && OneByte(users) && i <= |sizes|
    ensures var tables := Stock(small, users, sizes)[i..];
            Consecutive(tables) && |Concat(tables)| == Entries(small, sizes[i..])
    decreases |sizes| - i
  {
    if i < |sizes| {
      var tables := Stock(small, users, sizes);
      StockIsConsecutive(small, users, sizes, i + 1);
      StockIsAuthentic(small, users[i], sizes, i);
      EntriesAt(small, sizes, i);
      assert tables[i..][0] == StockOf(small, users[i], sizes, i) && tables[i..][1..] == tables[i + 1..];
    }
  }

  lemma StockIsAuthentic(small: nat, user: bytes, sizes: seq<nat>, i: nat)
    requires Attainable(small, sizes) && i < |sizes| && |user| == 1 && user[0] > 0
    ensures Authentic(StockOf(small, user, sizes, i), Entries(small, sizes[i + 1..]))
    ensures |StockOf(small, user, sizes, i)| == Room(small, sizes[i])
  {
    EntriesAt(small, sizes, i);
    if small <= sizes[i] { PaddedAuthentic(user, sizes[i] - small, Entries(small, sizes[i + 1..])); }
  }

  lemma StockIsSized(size: Level -> nat, overhead: nat, users: seq<bytes>, sizes: seq<nat>)
    requires Measures(size, overhead) && |users| == |sizes| && Attainable(overhead + SMALLEST, sizes) && OneByte(users)
    ensures Sized(size, Stock(overhead + SMALLEST, users, sizes), sizes)
  {
    var small := overhead + SMALLEST;
    forall i | 0 <= i < |sizes|
      ensures size(Stock(small, users, sizes)[i]) == sizes[i]
    {
      var table := Stock(small, users, sizes)[i];
      StockUnits(small, users[i], sizes, i);
      assert MeasuredAt(size, overhead, table);
    }
  }

  lemma StockUnits(small: nat, user: bytes, sizes: seq<nat>, i: nat)
    requires Attainable(small, sizes) && i < |sizes| && |user| == 1
    ensures OneToTheBlock(StockOf(small, user, sizes, i))
    ensures Units(StockOf(small, user, sizes, i)) == SMALLEST + sizes[i] - small
  {
    EntriesAt(small, sizes, i);
    if small <= sizes[i] { PaddedUnits(user, sizes[i] - small, Entries(small, sizes[i + 1..])); }
  }

  lemma {:induction false} ConsecutiveNumbers(tables: seq<Level>, e: Entry)
    requires Consecutive(tables) && e in All(tables)
    ensures 1 <= e.key.num <= |Concat(tables)|
  {
    assert tables == [tables[0]] + tables[1..];
    AllCons(tables[0], tables[1..]);
    if e in tables[0] {
      var j :| 0 <= j < |tables[0]| && tables[0][j] == e;
    } else {
      ConsecutiveNumbers(tables[1..], e);
    }
  }

  /** Such a list satisfies the level invariant. */
  lemma {:induction false} ConsecutiveLayered(tables: seq<Level>)
    requires Consecutive(tables)
    ensures Layered(tables)
  {
    if tables != [] {
      var top, rest := tables[0], tables[1..];
      ConsecutiveLayered(rest);
      assert tables == [top] + rest;
      AllCons(top, rest);
      forall e | e in All(rest)
        ensures e.key.num <= |Concat(rest)|
      {
        ConsecutiveNumbers(rest, e);
      }
      assert forall e | e in top :: e.key.num > |Concat(rest)|;
      OverNewer(top, rest, |Concat(rest)|);
      PairwiseCons(top, rest);
      SortedIsNewestFirst(top);
      AuthenticAgrees(top, |Concat(rest)|);
    }
  }

  lemma OverNewer(top: Level, rest: seq<Level>, n: nat)
    requires forall e | e in top :: e.key.num > n
    requires forall e | e in All(rest) :: e.key.num <= n
    ensures Over(top, rest)
  {
    forall i | 0 <= i < |rest|
      ensures Dominates(Elems(top), top, rest[i])
    {
      assert rest[i] in rest;
      assert forall e | e in rest[i] :: e in All(rest);
    }
  }

  lemma AuthenticAgrees(level: Level, after: nat)
    requires Authentic(level, after)
    ensures Agree(Elems(level))
  {
    forall a, b | a in Elems(level) && b in Elems(level) && a.key.num == b.key.num
      ensures a == b
    {
      var i :| 0 <= i < |level| && level[i] == a;
      var j :| 0 <= j < |level| && level[j] == b;
    }
  }

  // ----------------------------------------------- exactly when lookups stay

  const SHARED: bytes := [255]
  const OTHER: bytes := [254]

  ghost function Users(n: nat, x: nat, y: nat): (r: seq<bytes>)
    ensures |r| == n && OneByte(r)
    ensures forall i | 0 <= i < n :: r[i] == if i == x || i == y then SHARED else OTHER
  {
    seq(n, i requires 0 <= i < n => if i == x || i == y then SHARED else OTHER)
  }

  /** For any attainable sizes there are tables with exactly these file sizes, and
      with a key in x and, newer, in y. */
  lemma CrossingOfSizes(small: nat, sizes: seq<nat>, x: nat, y: nat)
    returns (tables: seq<Level>, older: Entry, newer: Entry)
    requires Attainable(small, sizes) && y < x < |sizes| && small <= sizes[x] && small <= sizes[y]
    ensures tables == Stock(small, Users(|sizes|, x, y), sizes)
    ensures Consecutive(tables) && Crossing(tables, x, y, older, newer)
  {
    StockLayered(small, Users(|sizes|, x, y), sizes);
    older, newer := StockCrossing(small, sizes, x, y);
    tables := Stock(small, Users(|sizes|, x, y), sizes);
  }

  lemma StockLayered(small: nat, users: seq<bytes>, sizes: seq<nat>)
    requires |users| == |sizes| && Attainable(small, sizes) && OneByte(users)
    ensures Consecutive(Stock(small, users, sizes)) && Layered(Stock(small, users, sizes))
  {
    var tables := Stock(small, users, sizes);
    StockIsConsecutive(small, users, sizes, 0);
    WholeList(tables);
    ConsecutiveLayered(tables);
  }

  lemma WholeList(tables: seq<Level>)
    ensures tables[0..] == tables
  {
  }

  lemma StockCrossing(small: nat, sizes: seq<nat>, x: nat, y: nat) returns (older: Entry, newer: Entry)
    requires Attainable(small, sizes) && y < x < |sizes| && small <= sizes[x] && small <= sizes[y]
    ensures Newer(newer, older) && Apart(Stock(small, Users(|sizes|, x, y), sizes), x, y, older, newer)
  {
    var users := Users(|sizes|, x, y);
    var tables := Stock(small, users, sizes);
    older, newer := LastOf(small, sizes, x), LastOf(small, sizes, y);
    HoldsLast(small, users, sizes, x);
    HoldsLast(small, users, sizes, y);
    EntriesFall(small, sizes, y + 1, x);
    EntriesAt(small, sizes, y);
    forall i, e: Entry | 0 <= i < |tables| && e in tables[i] && e.key.user == SHARED
      ensures (i == x && e == older) || (i == y && e == newer)
    {
      OneByteKey(small, users, sizes, i, e);
    }
  }

  lemma HoldsLast(small: nat, users: seq<bytes>, sizes: seq<nat>, i: nat)
    requires |users| == |sizes| && Attainable(small, sizes) && i < |sizes| && users[i] == SHARED && small <= sizes[i]
    ensures LastOf(small, sizes, i) in Stock(small, users, sizes)[i]
  {
    EntriesAt(small, sizes, i);
    var m := (sizes[i] - small) / STEP;
    assert Padded(SHARED, sizes[i] - small, Entries(small, sizes[i + 1..]))[m] == LastOf(small, sizes, i);
  }

  /** A table holds no other one-byte key than its own. */
  lemma OneByteKey(small: nat, users: seq<bytes>, sizes: seq<nat>, i: nat, e: Entry)
    requires |users| == |sizes| && Attainable(small, sizes) && OneByte(users) && i < |sizes|
    requires e in Stock(small, users, sizes)[i] && |e.key.user| == 1
    ensures small <= sizes[i] && e.key.user == users[i] && (users[i] == SHARED ==> e == LastOf(small, sizes, i))
  {
    EntriesAt(small, sizes, i);
    PaddedAuthentic(users[i], sizes[i] - small, Entries(small, sizes[i + 1..]));
  }

  ghost function LastOf(small: nat, sizes: seq<nat>, i: nat): Entry
    requires Attainable(small, sizes) && i < |sizes| && small <= sizes[i]
  {
    EntriesAt(small, sizes, i);
    Last(SHARED, sizes[i] - small, Entries(small, sizes[i..]))
  }

  /** Tables whose files have these sizes. */
  ghost predicate Sized(size: Level -> nat, tables: seq<Level>, sizes: seq<nat>) {
    |tables| == |sizes| && forall i | 0 <= i < |sizes| :: size(tables[i]) == sizes[i]
  }

  /** The stock of these sizes has these sizes. */
  ghost predicate SizedAt(size: Level -> nat, small: nat, sizes: seq<nat>, x: nat, y: nat)
    requires Attainable(small, sizes)
  {
    Sized(size, Stock(small, Users(|sizes|, x, y), sizes), sizes)
  }

  ghost predicate Reached(size: Level -> nat, small: nat, sizes: seq<nat>) {
    Attainable(small, sizes) && forall x: nat, y: nat :: SizedAt(size, small, sizes, x, y)
  }

  lemma StockReached(size: Level -> nat, overhead: nat, sizes: seq<nat>)
    requires Measures(size, overhead) && Attainable(overhead + SMALLEST, sizes)
    ensures Reached(size, overhead + SMALLEST, sizes)
  {
    var small := overhead + SMALLEST;
    forall x: nat, y: nat
      ensures SizedAt(size, small, sizes, x, y)
    {
      StockIsSized(size, overhead, Users(|sizes|, x, y), sizes);
    }
  }

  lemma FilesReach(size: Level -> nat, crc: Wal.Checksum, h: Hashes, empty: Filter, sizes: seq<nat>)
    requires IsFileSize(size, crc, h, empty) && Attainable(SmallestFile(empty), sizes)
    ensures Reached(size, SmallestFile(empty), sizes)
  {
    var overhead := Overhead(empty);
    assert Measures(size, overhead) by { FileSizeMeasures(size, crc, h, empty); }
    StockReached(size, overhead, sizes);
  }

  /** The file of one entry with a one-byte key and no value. */
  function SmallestFile(empty: Filter): nat { Overhead(empty) + SMALLEST }

  /** No other table is as short as one without entries. */
  ghost predicate EmptyIsShortest(size: Level -> nat, small: nat) {
    forall table: Level :: size(table) + SMALLEST == small ==> table == []
  }

  /** Lookups survive when the outcomes of these groups, in this order, replace
      tables of these sizes, whatever they hold. */
  ghost predicate KeepsLookupsAs(size: Level -> nat, sizes: seq<nat>, groups: seq<seq<nat>>, floor: SeqNum)
    requires AllIndexes(groups, |sizes|)
  {
    forall tables: seq<Level>, k: bytes, s: SeqNum |
      Sized(size, tables, sizes) && Layered(tables) && floor <= s ::
      FirstHit(Outcomes(tables, groups, floor), k, s) == FirstHit(tables, k, s)
  }

  /** Tables that hold anything are in table order. */
  ghost predicate FullSizesInOrder(small: nat, sizes: seq<nat>, groups: seq<seq<nat>>)
    requires AllIndexes(groups, |sizes|)
  {
    forall g, h, x, y | 0 <= g < h < |groups| && x in groups[g] && y in groups[h]
                     && small <= sizes[x] && small <= sizes[y] :: x < y
  }

  lemma KeepsLookupsAsIff(size: Level -> nat, small: nat, sizes: seq<nat>, groups: seq<seq<nat>>, floor: SeqNum)
    requires Reached(size, small, sizes) && EmptyIsShortest(size, small)
    requires AllIndexes(groups, |sizes|) && Partition(groups, |sizes|)
    ensures KeepsLookupsAs(size, sizes, groups, floor) <==> FullSizesInOrder(small, sizes, groups)
  {
    if FullSizesInOrder(small, sizes, groups) {
      forall tables: seq<Level>, k: bytes, s: SeqNum |
        Sized(size, tables, sizes) && Layered(tables) && floor <= s
        ensures FirstHit(Outcomes(tables, groups, floor), k, s) == FirstHit(tables, k, s)
      {
        SizesTell(size, small, sizes, groups, tables);
        OutcomesSameHit(tables, groups, floor, k, s);
      }
    } else {
      var tables, older, newer := OutOfOrderTables(size, small, sizes, groups, floor);
    }
  }

  lemma SizesTell(size: Level -> nat, small: nat, sizes: seq<nat>, groups: seq<seq<nat>>, tables: seq<Level>)
    requires EmptyIsShortest(size, small) && Attainable(small, sizes) && Sized(size, tables, sizes)
    requires AllIndexes(groups, |sizes|) && FullSizesInOrder(small, sizes, groups)
    ensures FullInOrder(tables, groups)
  {
    forall x | 0 <= x < |tables| && tables[x] != []
      ensures small <= sizes[x]
    {
      assert size(tables[x]) == sizes[x];
    }
  }

  /** Groups out of order: tables of these very sizes whose lookup answers with a
      version that a newer one had replaced. */
  lemma OutOfOrderTables(size: Level -> nat, small: nat, sizes: seq<nat>, groups: seq<seq<nat>>, floor: SeqNum)
    returns (tables: seq<Level>, older: Entry, newer: Entry)
    requires Reached(size, small, sizes) && AllIndexes(groups, |sizes|) && Partition(groups, |sizes|)
    requires !FullSizesInOrder(small, sizes, groups)
    ensures Sized(size, tables, sizes) && Consecutive(tables) && Layered(tables) && Newer(newer, older)
    ensures FirstHit(tables, older.key.user, SEQ_NUM_MAX) == Some(newer)
    ensures FirstHit(Outcomes(tables, groups, floor), older.key.user, SEQ_NUM_MAX) == Some(older)
  {
    var g, h', x, y :| 0 <= g < h' < |groups| && x in groups[g] && y in groups[h']
                    && small <= sizes[x] && small <= sizes[y] && !(x < y);
    assert x != y;
    tables, older, newer := CrossingOfSizes(small, sizes, x, y);
    assert SizedAt(size, small, sizes, x, y);
    OutOfOrderFails(tables, groups, floor, g, h', x, y, older, newer);
  }

  /** Lookups survive compaction of tables of these sizes, whatever they hold. */
  ghost predicate KeepsLookups(size: Level -> nat, sizes: seq<nat>, floor: SeqNum) {
    forall tables: seq<Level>, k: bytes, s: SeqNum |
      Sized(size, tables, sizes) && Layered(tables) && floor <= s ::
      FirstHit(Compact(tables, sizes, floor), k, s) == FirstHit(tables, k, s)
  }

  /** Compaction keeps every lookup at or above floor exactly when it does not
      reach the threshold or its groups, empty tables apart, come out in table
      order. */
  lemma KeepsLookupsIff(size: Level -> nat, small: nat, sizes: seq<nat>, floor: SeqNum)
    requires Reached(size, small, sizes) && EmptyIsShortest(size, small)
    ensures AllIndexes(Groups(sizes), |sizes|)
    ensures KeepsLookups(size, sizes, floor)
       <==> |sizes| < COMPACTION_THRESHOLD || FullSizesInOrder(small, sizes, Groups(sizes))
  {
    GroupsIndex(sizes);
    KeepsLookupsAsIff(size, small, sizes, Groups(sizes), floor);
    if |sizes| >= COMPACTION_THRESHOLD { CompactsAs(size, sizes, floor); }
  }

  lemma CompactsAs(size: Level -> nat, sizes: seq<nat>, floor: SeqNum)
    requires |sizes| >= COMPACTION_THRESHOLD && AllIndexes(Groups(sizes), |sizes|)
    ensures KeepsLookups(size, sizes, floor) <==> KeepsLookupsAs(size, sizes, Groups(sizes), floor)
  {
    assert forall tables | Sized(size, tables, sizes) ::
        Compact(tables, sizes, floor) == Outcomes(tables, Groups(sizes), floor);
  }

  /** Lookups survive the compaction and a reopen, whatever the tables hold. */
  ghost predicate KeepsLookupsReopened(size: Level -> nat, sizes: seq<nat>, floor: SeqNum) {
    GroupsIndex(sizes);
    forall tables: seq<Level>, k: bytes, s: SeqNum |
      Sized(size, tables, sizes) && Layered(tables) && floor <= s ::
      FirstHit(Reopened(tables, Groups(sizes), floor), k, s) == FirstHit(tables, k, s)
  }

  /** The same with the order in which a reopen finds the outcomes. */
  lemma KeepsLookupsReopenedIff(size: Level -> nat, small: nat, sizes: seq<nat>, floor: SeqNum)
    requires Reached(size, small, sizes) && EmptyIsShortest(size, small) && |sizes| >= COMPACTION_THRESHOLD
    ensures AllIndexes(ReopenOrder(Groups(sizes)), |sizes|)
    ensures KeepsLookupsReopened(size, sizes, floor)
       <==> FullSizesInOrder(small, sizes, ReopenOrder(Groups(sizes)))
  {
    GroupsIndex(sizes);
    OrderPartition(Groups(sizes), |sizes|);
    KeepsLookupsAsIff(size, small, sizes, ReopenOrder(Groups(sizes)), floor);
    ReopensAs(size, sizes, floor);
  }

  lemma ReopensAs(size: Level -> nat, sizes: seq<nat>, floor: SeqNum)
    requires AllIndexes(Groups(sizes), |sizes|) && AllIndexes(ReopenOrder(Groups(sizes)), |sizes|)
    ensures KeepsLookupsReopened(size, sizes, floor)
       <==> KeepsLookupsAs(size, sizes, ReopenOrder(Groups(sizes)), floor)
  {
    forall tables | Sized(size, tables, sizes)
      ensures Reopened(tables, Groups(sizes), floor) == Outcomes(tables, ReopenOrder(Groups(sizes)), floor)
    {
      ReopenedIsOrder(tables, Groups(sizes), floor);
    }
  }

  /** Without empty tables, that is to say that the groups are in order and, for a
      reopen, that no group after the first merges. */
  lemma FullOrderIff(small: nat, sizes: seq<nat>)
    requires forall i | 0 <= i < |sizes| :: small <= sizes[i]
    ensures AllIndexes(Groups(sizes), |sizes|) && AllIndexes(ReopenOrder(Groups(sizes)), |sizes|)
    ensures FullSizesInOrder(small, sizes, Groups(sizes)) <==> InOrder(Groups(sizes))
    ensures FullSizesInOrder(small, sizes, ReopenOrder(Groups(sizes)))
       <==> InOrder(Groups(sizes)) && OnlyFirstMerges(Groups(sizes))
  {
    GroupsIndex(sizes);
    OrderPartition(Groups(sizes), |sizes|);
    OrderIff(Groups(sizes), |sizes|);
    FullIsAll(small, sizes, Groups(sizes));
    FullIsAll(small, sizes, ReopenOrder(Groups(sizes)));
  }

  lemma FullIsAll(small: nat, sizes: seq<nat>, groups: seq<seq<nat>>)
    requires AllIndexes(groups, |sizes|) && forall i | 0 <= i < |sizes| :: small <= sizes[i]
    ensures FullSizesInOrder(small, sizes, groups) <==> InOrder(groups)
  {
    if FullSizesInOrder(small, sizes, groups) {
      forall g, h, x, y | 0 <= g < h < |groups| && x in groups[g] && y in groups[h]
        ensures x < y
      {
        assert small <= sizes[x] && small <= sizes[y];
      }
    }
  }

  lemma EngineEmptyIsShortest(size: Level -> nat, crc: Wal.Checksum, h: Hashes, empty: Filter)
    requires IsFileSize(size, crc, h, empty)
    ensures EmptyIsShortest(size, SmallestFile(empty))
  {
    forall table: Level | table != []
      ensures size(table) > Overhead(empty)
    {
      assert FileSizeAt(size, crc, h, empty, table);
      FileOfSome(crc, h, empty, table);
    }
  }

  lemma FileOfSome(crc: Wal.Checksum, h: Hashes, empty: Filter, entries: seq<Entry>)
    requires |empty.bits| > 0 && entries != []
    ensures |TableBytes(TableCodec(crc), h, empty, entries)| > Overhead(empty)
  {
    TableCodecSized(crc);
    var c, blocks := TableCodec(crc), Split(entries, [], 0);
    var bloom := Serialize(AddAll(h, empty, UserKeys(entries)));
    SplitPartitions(entries, [], 0);
    SectionSizes(c, blocks, bloom);
    var index := IndexOf(c, blocks, 0);
    assert |EncodeAll(c.index, index)| >= |c.index.encode(index[0])| >= 16;
    assert |c.bloom.encode(bloom)| == 4 + |bloom|;
  }

  /** All this for the files that the engine writes. */
  lemma CompactionKeepsLookupsIff(size: Level -> nat, crc: Wal.Checksum, h: Hashes, empty: Filter,
                                  sizes: seq<nat>, floor: SeqNum)
    requires IsFileSize(size, crc, h, empty) && Attainable(SmallestFile(empty), sizes)
    ensures AllIndexes(Groups(sizes), |sizes|) && AllIndexes(ReopenOrder(Groups(sizes)), |sizes|)
    ensures KeepsLookups(size, sizes, floor)
       <==> |sizes| < COMPACTION_THRESHOLD || FullSizesInOrder(SmallestFile(empty), sizes, Groups(sizes))
    ensures |sizes| >= COMPACTION_THRESHOLD ==>
              (KeepsLookupsReopened(size, sizes, floor)
          <==> FullSizesInOrder(SmallestFile(empty), sizes, ReopenOrder(Groups(sizes))))
  {
    FilesReach(size, crc, h, empty, sizes);
    EngineEmptyIsShortest(size, crc, h, empty);
    KeepsLookupsIff(size, SmallestFile(empty), sizes, floor);
    GroupsIndex(sizes);
    OrderPartition(Groups(sizes), |sizes|);
    if |sizes| >= COMPACTION_THRESHOLD { KeepsLookupsReopenedIff(size, SmallestFile(empty), sizes, floor); }
  }

  // ------------------------------------------------------------ one instance

  /** Four tables, short and long by turns, group as 0 with 2 and 1 with 3. */
  lemma ShortLongShortLong(short: nat)
    requires short > 0
    ensures Groups([short, 3 * short, short, 3 * short]) == [[0, 2], [1, 3]]
  {
    var sizes := [short, 3 * short, short, 3 * short];
    IsSimilarSizeMeaning(short, short);
    IsSimilarSizeMeaning(short, 3 * short);
    IsSimilarSizeMeaning(3 * short, short);
    IsSimilarSizeMeaning(3 * short, 3 * short);
    ByTurns(SimilarIn(sizes));
  }

  lemma ByTurns(close: Relation)
    requires close(0, 2) && close(1, 3) && !close(0, 1) && !close(0, 3) && !close(1, 2)
    ensures GroupsFrom(close, NoneUsed(4), 0) == [[0, 2], [1, 3]]
  {
    var none, once, all := NoneUsed(4), [true, false, true, false], [true, true, true, true];
    assert Taken(close, none, 0) == once;
    assert Taken(close, once, 1) == all;
    TwoTaken(close, none, 0, 2);
    TwoTaken(close, once, 1, 3);
    assert GroupsFrom(close, all, 4) == [];
    assert GroupsFrom(close, all, 3) == [];
    assert GroupsFrom(close, all, 2) == [];
    assert GroupsFrom(close, once, 1) == [[1, 3]] by { assert [1] + [3] == [1, 3]; }
    assert GroupsFrom(close, none, 0) == [[0, 2]] + [[1, 3]] by { assert [0] + [2] == [0, 2]; }
  }

  lemma TwoTaken(close: Relation, used: seq<bool>, seed: nat, other: nat)
    requires |used| == 4 && seed < other < 4 && !used[other] && close(seed, other)
    requires forall j | seed < j < 4 && j != other && !used[j] :: !close(seed, j)
    ensures Members(close, used, seed, seed + 1) == [other]
  {
    NoneTaken(close, used, seed, other + 1);
    assert Members(close, used, seed, other) == [other] + [];
    SkipTo(close, used, seed, seed + 1, other);
  }

  lemma {:induction false} NoneTaken(close: Relation, used: seq<bool>, seed: nat, j: nat)
    requires forall i | j <= i < |used| && !used[i] :: !close(seed, i)
    ensures Members(close, used, seed, j) == []
    decreases |used| - j
  {
    if j < |used| { NoneTaken(close, used, seed, j + 1); }
  }

  lemma {:induction false} SkipTo(close: Relation, used: seq<bool>, seed: nat, j: nat, other: nat)
    requires j <= other <= |used| && forall i | j <= i < other && !used[i] :: !close(seed, i)
    ensures Members(close, used, seed, j) == Members(close, used, seed, other)
    decreases other - j
  {
    if j < other { SkipTo(close, used, seed, j + 1, other); }
  }

  /** Written to files as the engine writes them, such tables read stale after
      the compaction: the key's first version in place of its second. */
  lemma StaleRead(size: Level -> nat, crc: Wal.Checksum, h: Hashes, empty: Filter, floor: SeqNum)
    returns (tables: seq<Level>, older: Entry, newer: Entry, sizes: seq<nat>)
    requires IsFileSize(size, crc, h, empty) && |empty.bits| < 0x1_0000_0000
    ensures |tables| == 4 && Consecutive(tables) && older in tables[2] && newer in tables[1] && Newer(newer, older)
    ensures Sized(size, tables, sizes) && Groups(sizes) == [[0, 2], [1, 3]]
    ensures FirstHit(tables, older.key.user, SEQ_NUM_MAX) == Some(newer)
    ensures FirstHit(Compact(tables, sizes, floor), older.key.user, SEQ_NUM_MAX) == Some(older)
  {
    var short := SmallestFile(empty);
    sizes := [short, 3 * short, short, 3 * short];
    TotalOfFour(short, 3 * short);
    FilesReach(size, crc, h, empty, sizes);
    tables, older, newer := StaleTables(size, short, floor);
  }

  lemma TotalOfFour(a: nat, b: nat)
    ensures Total([a, b, a, b]) == 2 * a + 2 * b
  {
    assert [b][1..] == [] && [a, b][1..] == [b] && [b, a, b][1..] == [a, b] && [a, b, a, b][1..] == [b, a, b];
    assert Total([b]) == b + Total([]) == b;
    assert Total([a, b]) == a + Total([b]);
    assert Total([b, a, b]) == b + Total([a, b]);
  }

  lemma StaleTables(size: Level -> nat, short: nat, floor: SeqNum)
    returns (tables: seq<Level>, older: Entry, newer: Entry)
    requires Reached(size, short, [short, 3 * short, short, 3 * short])
    ensures |tables| == 4 && Consecutive(tables) && older in tables[2] && newer in tables[1] && Newer(newer, older)
    ensures var sizes := [short, 3 * short, short, 3 * short];
            && Sized(size, tables, sizes) && Groups(sizes) == [[0, 2], [1, 3]]
            && FirstHit(tables, older.key.user, SEQ_NUM_MAX) == Some(newer)
            && FirstHit(Compact(tables, sizes, floor), older.key.user, SEQ_NUM_MAX) == Some(older)
  {
    var sizes := [short, 3 * short, short, 3 * short];
    ShortLongShortLong(short);
    tables, older, newer := CrossingOfSizes(short, sizes, 2, 1);
    assert SizedAt(size, short, sizes, 2, 1);
    GroupsIndex(sizes);
    OutOfOrderFails(tables, Groups(sizes), floor, 0, 1, 2, 1, older, newer);
  }
}
