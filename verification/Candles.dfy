/**
 The gap-filling candle builder (src/modules/tokens/token-query.service.ts:798-896), the presenter
 that turns square-root prices into ETH prices (898-919) and the order in which `candles` returns
 them (584). Decimal strings of the source are the integers they denote; a minute row whose time does
 not parse has no time.
 */
module Candles {
  import opened Arithmetic
  import opened BinaryLog

  datatype Volume = Volume(buy: int, sell: int, swaps: int)

  const NOTHING := Volume(0, 0, 0)

  function Plus(a: Volume, b: Volume): Volume {
    Volume(a.buy + b.buy, a.sell + b.sell, a.swaps + b.swaps)
  }

  /** A database row; the time in milliseconds is missing when it does not parse. */
  datatype Raw = Raw(t: Option<int>, open: int, close: int, high: int, low: int, volume: Volume)

  datatype Minute = Minute(at: int, open: int, close: int, high: int, low: int, volume: Volume)

  /** A candle; `minute` is its bucket's start in minutes. */
  datatype Candle = Candle(minute: int, open: int, close: int, high: int, low: int, volume: Volume)

  // ----- keeping and sorting rows -----

  predicate Keeps(row: Raw) {
    row.t.Some? && !(row.open == 0 && row.close == 0)
  }

  function Kept(rows: seq<Raw>): seq<Minute> {
    if rows == [] then []
    else
      var row := rows[|rows| - 1];
      Kept(rows[..|rows| - 1])
      + if Keeps(row) then [Minute(row.t.value, row.open, row.close, row.high, row.low, row.volume)] else []
  }

  /** A row that counts: its time parses, and its open or its close is not zero. */
  ghost predicate Counts(row: Raw) {
    row.t.Some? && (row.open != 0 || row.close != 0)
  }

  /** A parsed minute carries what its row says. */
  ghost predicate Copies(m: Minute, row: Raw) {
    && row.t == Some(m.at) && m.open == row.open && m.close == row.close && m.high == row.high && m.low == row.low
    && m.volume == row.volume
  }

  ghost predicate CopyOfSome(m: Minute, rows: seq<Raw>) {
    exists j :: 0 <= j < |rows| && Counts(rows[j]) && Copies(m, rows[j])
  }

  /** Exactly the rows that count are kept. */
  lemma {:induction false} KeptIff(rows: seq<Raw>, m: Minute)
    ensures m in Kept(rows) <==> CopyOfSome(m, rows)
  {
    if rows != [] {
      var n := |rows| - 1;
      KeptIff(rows[..n], m);
      if CopyOfSome(m, rows[..n]) {
        var j :| 0 <= j < n && Counts(rows[..n][j]) && Copies(m, rows[..n][j]);
        assert rows[j] == rows[..n][j];
      }
      if CopyOfSome(m, rows) && !(Counts(rows[n]) && Copies(m, rows[n])) {
        var j :| 0 <= j < |rows| && Counts(rows[j]) && Copies(m, rows[j]);
        assert rows[..n][j] == rows[j];
      }
    }
  }

  method Parse(rows: seq<Raw>) returns (parsed: seq<Minute>)
    ensures parsed == Kept(rows)
    ensures forall m :: m in parsed <==> CopyOfSome(m, rows)
  {
    hide CopyOfSome;
    forall m: Minute ensures m in Kept(rows) <==> CopyOfSome(m, rows) {
      KeptIff(rows, m);
    }
    parsed := [];
    for i := 0 to |rows|
      invariant parsed == Kept(rows[..i])
    {
      var row := rows[i];
      assert rows[..i + 1][..i] == rows[..i];
      if row.t.Some? {
        if !(row.open == 0 && row.close == 0) {
          parsed := parsed + [Minute(row.t.value, row.open, row.close, row.high, row.low, row.volume)];
        }
      }
    }
    assert rows[..|rows|] == rows;
  }

  /** Stable insertion: after everything that is not greater. */
  function Insert<T>(s: seq<T>, x: T, key: T -> int): seq<T> {
    if s == [] || key(s[|s| - 1]) <= key(x) then s + [x]
    else Insert(s[..|s| - 1], x, key) + [s[|s| - 1]]
  }

  /** JavaScript's stable sort by a numeric key. */
  function SortBy<T>(s: seq<T>, key: T -> int): seq<T> {
    if s == [] then [] else Insert(SortBy(s[..|s| - 1], key), s[|s| - 1], key)
  }

  predicate Ascending<T>(s: seq<T>, key: T -> int) {
    forall i, j | 0 <= i < j < |s| :: key(s[i]) <= key(s[j])
  }

  /** The elements with a given key, in their order. */
  function WithKey<T>(s: seq<T>, key: T -> int, v: int): seq<T> {
    if s == [] then []
    else WithKey(s[..|s| - 1], key, v) + if key(s[|s| - 1]) == v then [s[|s| - 1]] else []
  }

  lemma {:induction false} InsertElements<T>(s: seq<T>, x: T, key: T -> int)
    ensures multiset(Insert(s, x, key)) == multiset(s) + multiset{x}
  {
    if s != [] && !(key(s[|s| - 1]) <= key(x)) {
      InsertElements(s[..|s| - 1], x, key);
      assert s == s[..|s| - 1] + [s[|s| - 1]];
    }
  }

  lemma {:induction false} InsertBounded<T>(s: seq<T>, x: T, key: T -> int, bound: int)
    requires key(x) <= bound && forall i | 0 <= i < |s| :: key(s[i]) <= bound
    ensures forall i | 0 <= i < |Insert(s, x, key)| :: key(Insert(s, x, key)[i]) <= bound
  {
    if s != [] && !(key(s[|s| - 1]) <= key(x)) {
      InsertBounded(s[..|s| - 1], x, key, bound);
    }
  }

  lemma {:induction false} InsertSorts<T>(s: seq<T>, x: T, key: T -> int)
    requires Ascending(s, key)
    ensures Ascending(Insert(s, x, key), key)
  {
    if s != [] && !(key(s[|s| - 1]) <= key(x)) {
      var rest := s[..|s| - 1];
      InsertSorts(rest, x, key);
      InsertBounded(rest, x, key, key(s[|s| - 1]));
    }
  }

  lemma {:induction false} InsertStable<T>(s: seq<T>, x: T, key: T -> int, v: int)
    ensures WithKey(Insert(s, x, key), key, v) == WithKey(s, key, v) + if key(x) == v then [x] else []
  {
    if s == [] || key(s[|s| - 1]) <= key(x) {
      assert (s + [x])[..|s|] == s;
    } else {
      var rest := s[..|s| - 1];
      InsertStable(rest, x, key, v);
      var r := Insert(rest, x, key) + [s[|s| - 1]];
      assert r[..|r| - 1] == Insert(rest, x, key);
    }
  }

  /** The sort is an ascending permutation that keeps equal elements in order, which determines it. */
  lemma {:induction false} SortIsStable<T>(s: seq<T>, key: T -> int, v: int)
    ensures Ascending(SortBy(s, key), key)
    ensures multiset(SortBy(s, key)) == multiset(s)
    ensures WithKey(SortBy(s, key), key, v) == WithKey(s, key, v)
  {
    if s != [] {
      var rest := s[..|s| - 1];
      assert s == rest + [s[|s| - 1]];
      SortIsStable(rest, key, v);
      InsertElements(SortBy(rest, key), s[|s| - 1], key);
      InsertSorts(SortBy(rest, key), s[|s| - 1], key);
      InsertStable(SortBy(rest, key), s[|s| - 1], key, v);
    }
  }

  lemma {:induction false} SortedStays<T>(s: seq<T>, key: T -> int)
    requires Ascending(s, key)
    ensures SortBy(s, key) == s
  {
    if s != [] {
      SortedStays(s[..|s| - 1], key);
    }
  }

  function Time(m: Minute): int {
    m.at
  }

  function Itself(k: int): int {
    k
  }

  function Timeline(rows: seq<Raw>): (p: seq<Minute>) {
    SortBy(Kept(rows), Time)
  }

  // ----- buckets -----

  /** Start of a row's bucket, in minutes. */
  function Key(m: Minute, size: int): int
    requires size > 0
  {
    m.at / (size * MINUTE_MS) * size
  }

  ghost predicate Sorted(p: seq<Minute>) {
    forall i, j | 0 <= i < j < |p| :: p[i].at <= p[j].at
  }

  lemma TimelineSorted(rows: seq<Raw>)
    ensures Sorted(Timeline(rows))
  {
    SortIsStable(Kept(rows), Time, 0);
    var p := Timeline(rows);
    forall i, j | 0 <= i < j < |p| ensures p[i].at <= p[j].at {
      assert Time(p[i]) <= Time(p[j]);
    }
  }

  lemma KeyMonotone(a: Minute, b: Minute, size: int)
    requires size > 0 && a.at <= b.at
    ensures Key(a, size) <= Key(b, size)
  {
    FloorMonotone(a.at, b.at, size * MINUTE_MS);
    MulMonotone(a.at / (size * MINUTE_MS), b.at / (size * MINUTE_MS), size);
  }

  lemma KeyMultiple(m: Minute, size: int)
    requires size > 0
    ensures Key(m, size) % size == 0
  {
    var q := m.at / (size * MINUTE_MS);
    FloorIs(q * size, size, q);
  }

  lemma Multiples(a: int, b: int, size: int)
    requires size > 0 && a % size == 0 && b % size == 0
    ensures a < b ==> a + size <= b
    ensures (a + size) % size == 0
    ensures (b - a) / size * size == b - a
  {
    var x, y := a / size, b / size;
    assert a == x * size && b == y * size;
    Scaled(x, y, size);
  }

  lemma Scaled(x: int, y: int, size: int)
    requires size > 0
    ensures x * size < y * size ==> x * size + size <= y * size
    ensures (x * size + size) % size == 0
    ensures (y * size - x * size) / size == y - x
    ensures (y - x) * size == y * size - x * size
  {
    assert (x + 1) * size == x * size + size && (y - x) * size == y * size - x * size;
    if y <= x {
      MulMonotone(y, x, size);
    } else {
      MulMonotone(x + 1, y, size);
    }
    FloorIs(x * size + size, size, x + 1);
    FloorIs(y * size - x * size, size, y - x);
  }

  /** The rows of one bucket. */
  function InBucket(p: seq<Minute>, size: int, key: int): (r: seq<Minute>)
    requires size > 0
    ensures p != [] && Key(p[0], size) == key ==> r != []
  {
    if p == [] then []
    else
      var m := p[|p| - 1];
      InBucket(p[..|p| - 1], size, key) + if Key(m, size) == key then [m] else []
  }

  /** The rows of all buckets before one. */
  function Earlier(p: seq<Minute>, size: int, key: int): (r: seq<Minute>)
    requires size > 0
    ensures p != [] && Key(p[0], size) < key ==> r != []
  {
    if p == [] then []
    else
      var m := p[|p| - 1];
      Earlier(p[..|p| - 1], size, key) + if Key(m, size) < key then [m] else []
  }

  /** The rows of a bucket and all buckets after it. */
  function Since(p: seq<Minute>, size: int, key: int): seq<Minute>
    requires size > 0
  {
    if p == [] then []
    else
      var m := p[|p| - 1];
      Since(p[..|p| - 1], size, key) + if key <= Key(m, size) then [m] else []
  }

  lemma {:induction false} BucketRow(p: seq<Minute>, size: int, key: int, i: nat)
    requires size > 0 && i < |InBucket(p, size, key)|
    ensures InBucket(p, size, key)[i] in p && Key(InBucket(p, size, key)[i], size) == key
  {
    hide Key;
    if i < |InBucket(p[..|p| - 1], size, key)| {
      BucketRow(p[..|p| - 1], size, key, i);
    }
  }

  lemma {:induction false} EarlierRow(p: seq<Minute>, size: int, key: int, i: nat)
    requires size > 0 && i < |Earlier(p, size, key)|
    ensures Earlier(p, size, key)[i] in p && Key(Earlier(p, size, key)[i], size) < key
  {
    hide Key;
    if i < |Earlier(p[..|p| - 1], size, key)| {
      EarlierRow(p[..|p| - 1], size, key, i);
    }
  }

  lemma NoRows(size: int, key: int)
    requires size > 0
    ensures Earlier([], size, key) == [] == InBucket([], size, key)
  {}

  lemma OneMore(p: seq<Minute>, size: int, key: int)
    requires size > 0 && p != []
    ensures var rest, m := p[..|p| - 1], p[|p| - 1];
      && Earlier(p, size, key) == Earlier(rest, size, key) + (if Key(m, size) < key then [m] else [])
      && InBucket(p, size, key) == InBucket(rest, size, key) + (if Key(m, size) == key then [m] else [])
  {
    hide Key;
  }

  /** In time order, what precedes bucket b is what precedes bucket a, then a's rows, if no row lies between. */
  lemma {:induction false} EarlierSplit(p: seq<Minute>, size: int, a: int, b: int)
    requires size > 0 && Sorted(p) && a < b
    requires forall i | 0 <= i < |p| :: !(a < Key(p[i], size) < b)
    ensures Earlier(p, size, b) == Earlier(p, size, a) + InBucket(p, size, a)
  {
    hide Key, Earlier, InBucket;
    if p == [] {
      NoRows(size, a);
      NoRows(size, b);
    } else {
      var rest, m := p[..|p| - 1], p[|p| - 1];
      EarlierSplit(rest, size, a, b);
      OneMore(p, size, a);
      OneMore(p, size, b);
      if Key(m, size) < a {
        NothingAt(rest, size, a, m);
      }
    }
  }

  lemma {:induction false} NothingAt(p: seq<Minute>, size: int, a: int, m: Minute)
    requires size > 0 && Key(m, size) < a && forall i | 0 <= i < |p| :: p[i].at <= m.at
    ensures InBucket(p, size, a) == []
  {
    hide Key;
    if p != [] {
      NothingAt(p[..|p| - 1], size, a, m);
      KeyMonotone(p[|p| - 1], m, size);
    }
  }

  lemma BucketStep(p: seq<Minute>, size: int, key: int)
    requires size > 0 && Sorted(p) && key % size == 0
    ensures Earlier(p, size, key + size) == Earlier(p, size, key) + InBucket(p, size, key)
  {
    forall i | 0 <= i < |p| ensures !(key < Key(p[i], size) < key + size) {
      KeyMultiple(p[i], size);
      Multiples(key, Key(p[i], size), size);
    }
    EarlierSplit(p, size, key, key + size);
  }

  // ----- what a candle is -----

  function Last<T>(s: seq<T>): T
    requires s != []
  {
    s[|s| - 1]
  }

  function MaxHigh(rows: seq<Minute>): int
    requires rows != []
  {
    if |rows| == 1 then rows[0].high else Max(MaxHigh(rows[..|rows| - 1]), Last(rows).high)
  }

  function MinLow(rows: seq<Minute>): int
    requires rows != []
  {
    if |rows| == 1 then rows[0].low else Min(MinLow(rows[..|rows| - 1]), Last(rows).low)
  }

  /** The extremes bound every row and are attained. */
  lemma {:induction false} Extremes(rows: seq<Minute>) returns (top: nat, bottom: nat)
    requires rows != []
    ensures top < |rows| && rows[top].high == MaxHigh(rows)
    ensures bottom < |rows| && rows[bottom].low == MinLow(rows)
    ensures forall i | 0 <= i < |rows| :: rows[i].high <= MaxHigh(rows) && MinLow(rows) <= rows[i].low
  {
    var n := |rows| - 1;
    if n == 0 {
      top, bottom := 0, 0;
    } else {
      top, bottom := Extremes(rows[..n]);
      assert forall i | 0 <= i < n :: rows[..n][i] == rows[i];
      top := if rows[top].high < rows[n].high then n else top;
      bottom := if rows[bottom].low < rows[n].low then bottom else n;
    }
  }

  function Total(rows: seq<Minute>): Volume {
    if rows == [] then NOTHING else Plus(Total(rows[..|rows| - 1]), Last(rows).volume)
  }

  /** The close of the last row before a bucket. */
  function Previous(p: seq<Minute>, size: int, key: int): Option<int>
    requires size > 0
  {
    var e := Earlier(p, size, key);
    if e == [] then None else Some(Last(e).close)
  }

  /**
   The candle of a bucket, described from the whole timeline: it opens at the last close before the
   bucket (or at the bucket's own first open when there is none), closes at the bucket's last close,
   spans the bucket's extremes and its open, and is flat when the bucket has no rows.
   */
  function CandleAt(p: seq<Minute>, size: int, key: int): Candle
    requires size > 0 && p != [] && Key(p[0], size) <= key
  {
    var rows := InBucket(p, size, key);
    if rows == [] then
      var close := Previous(p, size, key).value;
      Candle(key, close, close, close, close, NOTHING)
    else Joined(rows, key, Previous(p, size, key))
  }

  function Joined(rows: seq<Minute>, key: int, previous: Option<int>): Candle
    requires rows != []
  {
    var open := match previous case Some(c) => c case None => rows[0].open;
    Candle(key, open, Last(rows).close, Max(MaxHigh(rows), open), Min(MinLow(rows), open), Total(rows))
  }

  /** n candles in a row. */
  function From(p: seq<Minute>, size: int, key: int, n: nat): seq<Candle>
    requires size > 0 && p != [] && Key(p[0], size) <= key
    decreases n
  {
    if n == 0 then [] else [CandleAt(p, size, key)] + From(p, size, key + size, n - 1)
  }

  function BucketCount(p: seq<Minute>, size: int): int
    requires size > 0 && p != []
  {
    (Key(Last(p), size) - Key(p[0], size)) / size + 1
  }

  /** The unbounded run: one candle for every bucket from the first row's to the last row's. */
  function Unbounded(rows: seq<Raw>, size: int): seq<Candle>
    requires size > 0
  {
    var p := Timeline(rows);
    if p == [] then [] else From(p, size, Key(p[0], size), Max(0, BucketCount(p, size)))
  }

  function LastN<T>(s: seq<T>, n: int): seq<T>
    requires 0 <= n
  {
    if |s| <= n then s else s[|s| - n..]
  }

  /** What the builder must return: the trailing candles of the unbounded run. */
  function Filled(rows: seq<Raw>, size: int, limit: int): seq<Candle>
    requires size > 0
  {
    LastN(Unbounded(rows, size), Max(limit, 1))
  }

  lemma Ends(p: seq<Minute>, size: int)
    requires size > 0 && p != [] && Sorted(p)
    ensures Key(p[0], size) % size == 0 && Key(Last(p), size) % size == 0
    ensures BucketCount(p, size) >= 1
    ensures Key(Last(p), size) == Key(p[0], size) + (BucketCount(p, size) - 1) * size
  {
    KeyMultiple(p[0], size);
    KeyMultiple(Last(p), size);
    KeyMonotone(p[0], Last(p), size);
    Multiples(Key(p[0], size), Key(Last(p), size), size);
    FloorAtLeast(Key(Last(p), size) - Key(p[0], size), size, 0);
  }

  /** A candle's close is the price the next bucket starts from. */
  lemma CloseCarries(p: seq<Minute>, size: int, key: int)
    requires size > 0 && p != [] && Sorted(p) && Key(p[0], size) <= key && key % size == 0
    ensures Previous(p, size, key + size) == Some(CandleAt(p, size, key).close)
  {
    hide Key;
    BucketStep(p, size, key);
  }

  lemma {:induction false} FromDrop(p: seq<Minute>, size: int, key: int, n: nat, k: nat, later: int)
    requires size > 0 && p != [] && Key(p[0], size) <= key && k <= n && later == key + k * size
    decreases n
    ensures |From(p, size, key, n)| == n && Key(p[0], size) <= later
    ensures From(p, size, key, n)[k..] == From(p, size, later, n - k)
  {
    hide Key, CandleAt;
    FromLength(p, size, key, n);
    if k > 0 {
      assert later == key + size + (k - 1) * size;
      FromDrop(p, size, key + size, n - 1, k - 1, later);
      assert From(p, size, key, n)[k..] == From(p, size, key + size, n - 1)[k - 1..];
    }
  }

  lemma {:induction false} FromLength(p: seq<Minute>, size: int, key: int, n: nat)
    requires size > 0 && p != [] && Key(p[0], size) <= key
    decreases n
    ensures |From(p, size, key, n)| == n
  {
    hide Key, CandleAt;
    if n > 0 {
      FromLength(p, size, key + size, n - 1);
    }
  }

  // ----- the builder -----

  /** The bucket map agrees with the rows. */
  ghost predicate Lists(p: seq<Minute>, size: int, lists: map<int, seq<Minute>>)
    requires size > 0
  {
    forall key :: if key in lists then lists[key] == InBucket(p, size, key) != [] else InBucket(p, size, key) == []
  }

  /** The map's keys in insertion order: strictly ascending, from the first row's to the last row's. */
  ghost predicate Order(p: seq<Minute>, size: int, lists: map<int, seq<Minute>>, order: seq<int>)
    requires size > 0
  {
    && KeysOf(lists, order)
    && (p != [] ==> order != [] && order[0] == Key(p[0], size) && Last(order) == Key(Last(p), size))
    && (p == [] ==> order == [])
  }

  ghost predicate KeysOf(lists: map<int, seq<Minute>>, order: seq<int>) {
    && (forall i | 0 <= i < |order| :: order[i] in lists)
    && (forall key | key in lists :: key in order)
    && (forall i, j | 0 <= i < j < |order| :: order[i] < order[j])
  }

  method Group(p: seq<Minute>, size: int) returns (lists: map<int, seq<Minute>>, order: seq<int>)
    requires size > 0 && Sorted(p)
    ensures Lists(p, size, lists) && Order(p, size, lists, order)
  {
    hide Key, Lists, Order, InBucket;
    lists, order := map[], [];
    NothingGrouped(size);
    for i := 0 to |p|
      invariant Lists(p[..i], size, lists) && Order(p[..i], size, lists, order)
    {
      var row := p[i];
      var key := Key(row, size);
      assert p[..i + 1] == p[..i] + [row];
      RowGrouped(p[..i], row, size, lists, order);
      if key in lists {
        lists := lists[key := lists[key] + [row]];
      } else {
        lists := lists[key := [row]];
        order := order + [key];
      }
    }
    assert p[..|p|] == p;
  }

  lemma NothingGrouped(size: int)
    requires size > 0
    ensures Lists([], size, map[]) && Order([], size, map[], [])
  {}

  /** The bucket map after one more row. */
  function Added(lists: map<int, seq<Minute>>, key: int, row: Minute): map<int, seq<Minute>> {
    if key in lists then lists[key := lists[key] + [row]] else lists[key := [row]]
  }

  lemma RowListedToo(p: seq<Minute>, row: Minute, size: int, lists: map<int, seq<Minute>>)
    requires size > 0 && Lists(p, size, lists)
    ensures Lists(p + [row], size, Added(lists, Key(row, size), row))
  {
    hide Key;
    var key, q := Key(row, size), p + [row];
    assert q[..|p|] == p;
    var lists' := Added(lists, key, row);
    forall k ensures if k in lists' then lists'[k] == InBucket(q, size, k) != [] else InBucket(q, size, k) == [] {
      assert InBucket(q, size, k) == InBucket(p, size, k) + if key == k then [row] else [];
    }
  }

  lemma RowGrouped(p: seq<Minute>, row: Minute, size: int, lists: map<int, seq<Minute>>, order: seq<int>)
    requires size > 0 && Sorted(p + [row]) && Lists(p, size, lists) && Order(p, size, lists, order)
    ensures var key, q := Key(row, size), p + [row];
      && Lists(q, size, Added(lists, key, row))
      && Order(q, size, Added(lists, key, row), if key in lists then order else order + [key])
  {
    RowListedToo(p, row, size, lists);
    hide Key, InBucket, Lists;
    var key, q := Key(row, size), p + [row];
    if p != [] {
      assert Last(p) == q[|p| - 1] && row == q[|p|];
      KeyMonotone(Last(p), row, size);
    }
    hide Sorted, KeysOf, Added;
    OrderGrows(lists, order, key, row);
    assert Last(q) == row && q[0] == if p == [] then row else p[0];
  }

  lemma OrderGrows(lists: map<int, seq<Minute>>, order: seq<int>, key: int, row: Minute)
    requires KeysOf(lists, order)
    requires order != [] ==> Last(order) <= key
    ensures var lists', order' := Added(lists, key, row), if key in lists then order else order + [key];
      && KeysOf(lists', order')
      && order' != [] && Last(order') == key
      && (order != [] ==> order'[0] == order[0])
  {
    if key in lists {
      var i :| 0 <= i < |order| && order[i] == key;
    } else {
      var order' := order + [key];
      assert order != [] ==> order[|order| - 1] in lists;
      assert forall i | 0 <= i < |order| :: order'[i] == order[i] < key;
      forall k | k in lists || k == key ensures k in order' {
        assert k in order || order'[|order|] == k;
      }
    }
  }

  method Summarize(rows: seq<Minute>) returns (high: int, low: int, volume: Volume)
    requires rows != []
    ensures high == MaxHigh(rows) && low == MinLow(rows) && volume == Total(rows)
  {
    high, low, volume := rows[0].high, rows[0].low, NOTHING;
    for i := 0 to |rows|
      invariant i == 0 ==> high == rows[0].high && low == rows[0].low
      invariant i > 0 ==> high == MaxHigh(rows[..i]) && low == MinLow(rows[..i])
      invariant volume == Total(rows[..i])
    {
      var r := rows[i];
      assert rows[..i + 1][..i] == rows[..i];
      if high < r.high { high := r.high; }
      if low > r.low { low := r.low; }
      volume := Plus(volume, r.volume);
    }
    assert rows[..|rows|] == rows;
  }

  /** A bucket's candle: the wick stretches to cover the chained open. */
  method Join(rowsIn: seq<Minute>, key: int, prevClose: Option<int>) returns (c: Candle)
    requires rowsIn != []
    ensures c == Joined(rowsIn, key, prevClose)
  {
    hide MaxHigh, MinLow, Total;
    var high, low, volume := Summarize(rowsIn);
    var open := match prevClose case Some(p) => p case None => rowsIn[0].open;
    if high < open { high := open; }
    if low > open { low := open; }
    c := Candle(key, open, rowsIn[|rowsIn| - 1].close, high, low, volume);
  }

  /** The walk over the window, carrying the previous close. */
  method Walk(ghost p: seq<Minute>, lists: map<int, seq<Minute>>, size: int, start: int, last: int, seed: Option<int>, ghost n: nat)
      returns (out: seq<Candle>)
    requires size > 0 && p != [] && Sorted(p) && Lists(p, size, lists)
    requires Key(p[0], size) <= start && start % size == 0 && seed == Previous(p, size, start)
    requires last == start + (n - 1) * size
    ensures out == From(p, size, start, n)
  {
    hide Key, Lists, CandleAt, Previous;
    out := [];
    var prevClose := seed;
    var key := start;
    ghost var left: nat := n;
    while key <= last
      invariant Key(p[0], size) <= key && key % size == 0 && prevClose == Previous(p, size, key)
      invariant last == key + (left - 1) * size
      invariant out + From(p, size, key, left) == From(p, size, start, n)
      decreases last - key
    {
      StepsLeft(left, size);
      CandleCases(p, size, lists, key);
      CloseCarries(p, size, key);
      Multiples(key, key, size);
      ghost var was := out;
      if key in lists && |lists[key]| > 0 {
        var rowsIn := lists[key];
        var c := Join(rowsIn, key, prevClose);
        prevClose := Some(c.close);
        out := out + [c];
      } else if prevClose.Some? {
        out := out + [Candle(key, prevClose.value, prevClose.value, prevClose.value, prevClose.value, NOTHING)];
      }
      assert out == was + [CandleAt(p, size, key)];
      assert was + ([CandleAt(p, size, key)] + From(p, size, key + size, left - 1)) == out + From(p, size, key + size, left - 1);
      key := key + size;
      left := left - 1;
    }
    StepsLeft(left, size);
  }

  lemma StepsLeft(left: nat, size: int)
    requires size > 0
    ensures left == 0 ==> (left - 1) * size < 0
    ensures left > 0 ==> (left - 1) * size == (left - 2) * size + size >= 0
  {}

  /** The candle of a bucket from what the walk knows: the bucket's list, if any, and the previous close. */
  lemma CandleCases(p: seq<Minute>, size: int, lists: map<int, seq<Minute>>, key: int)
    requires size > 0 && p != [] && Key(p[0], size) <= key && Lists(p, size, lists)
    ensures var prev := Previous(p, size, key);
      if key in lists then lists[key] != [] && CandleAt(p, size, key) == Joined(lists[key], key, prev)
      else prev.Some? && CandleAt(p, size, key) == Candle(key, prev.value, prev.value, prev.value, prev.value, NOTHING)
  {
    hide Key, MaxHigh, MinLow, Total;
  }

  function Below(keys: seq<int>, start: int): (r: seq<int>)
    ensures forall i | 0 <= i < |r| :: r[i] in keys && r[i] < start
  {
    if keys == [] then []
    else Below(keys[..|keys| - 1], start) + if Last(keys) < start then [Last(keys)] else []
  }

  /** For ascending keys the last one below a bound is the greatest below it. */
  lemma {:induction false} BelowLast(keys: seq<int>, start: int)
    requires forall i, j | 0 <= i < j < |keys| :: keys[i] < keys[j]
    ensures forall k | k in keys && k < start :: Below(keys, start) != [] && k <= Last(Below(keys, start))
  {
    if keys != [] {
      var rest := keys[..|keys| - 1];
      BelowLast(rest, start);
      forall k | k in keys && k < start ensures Below(keys, start) != [] && k <= Last(Below(keys, start)) {
        assert k in rest || k == Last(keys);
      }
    }
  }

  /** The seed: the last close of the last bucket before the window. */
  method Seed(ghost p: seq<Minute>, size: int, lists: map<int, seq<Minute>>, keys: seq<int>, start: int) returns (seed: Option<int>)
    requires size > 0 && p != [] && Sorted(p) && Lists(p, size, lists) && Order(p, size, lists, keys)
    ensures seed == Previous(p, size, start)
  {
    hide Key;
    seed := None;
    var before := Below(keys, start);
    BelowLast(keys, start);
    forall i | 0 <= i < |p| ensures Key(p[i], size) in keys {
      RowListed(p, size, i);
    }
    if |before| > 0 {
      var rowsBefore := lists[before[|before| - 1]];
      seed := Some(rowsBefore[|rowsBefore| - 1].close);
      EarlierSplit(p, size, before[|before| - 1], start);
    } else {
      assert Earlier(p, size, start) == [] by {
        if Earlier(p, size, start) != [] {
          EarlierRow(p, size, start, 0);
        }
      }
    }
  }

  lemma {:induction false} RowListed(p: seq<Minute>, size: int, i: nat)
    requires size > 0 && i < |p|
    ensures InBucket(p, size, Key(p[i], size)) != []
  {
    hide Key;
    if i < |p| - 1 {
      RowListed(p[..|p| - 1], size, i);
    }
  }

  /** `fillJoinedCandles` returns the trailing candles of the unbounded run, though it only walks the window. */
  method FillJoinedCandles(minutes: seq<Raw>, size: int, limit: int) returns (out: seq<Candle>)
    requires size > 0
    ensures out == Filled(minutes, size, limit)
  {
    hide Key, From, CandleAt, BucketCount, SortBy, InBucket, Earlier;
    var parsed := Parse(minutes);
    var p := SortBy(parsed, Time);
    TimelineSorted(minutes);
    if |p| == 0 { return []; }
    var lists, order := Group(p, size);
    var keys := SortBy(order, Itself);
    SortedStays(order, Itself);
    var first, last := keys[0], keys[|keys| - 1];
    var maxBuckets := Max(limit, 1);
    var startKey := Max(first, last - (maxBuckets - 1) * size);
    ghost var count := BucketCount(p, size);
    ghost var skip := Max(0, count - maxBuckets);
    Ends(p, size);
    WindowStart(first, last, size, count, maxBuckets);
    FromDrop(p, size, first, count, skip, startKey);
    FromLength(p, size, startKey, count - skip);
    var seed := Seed(p, size, lists, keys, startKey);
    out := Walk(p, lists, size, startKey, last, seed, count - skip);
    out := LastN(out, maxBuckets);
  }

  lemma WindowStart(first: int, last: int, size: int, count: int, maxBuckets: int)
    requires size > 0 && count >= 1 && maxBuckets >= 1
    requires last == first + (count - 1) * size && first % size == 0
    ensures var start, skip := Max(first, last - (maxBuckets - 1) * size), Max(0, count - maxBuckets);
      && start == first + skip * size
      && last == start + (count - skip - 1) * size
      && start % size == 0 && first <= start
  {
    var skip := Max(0, count - maxBuckets);
    assert (count - 1) * size - (maxBuckets - 1) * size == (count - maxBuckets) * size;
    if count >= maxBuckets {
      MulMonotone(0, count - maxBuckets, size);
    } else {
      MulMonotone(count - maxBuckets, 0, size);
    }
    assert (count - 1) * size == skip * size + (count - skip - 1) * size;
    assert first == first / size * size;
    assert first + skip * size == (first / size + skip) * size;
    FloorIs(first + skip * size, size, first / size + skip);
  }

  // ----- what the chart promises -----

  /** Where the window starts. */
  function WindowKey(rows: seq<Raw>, size: int, limit: int): int
    requires size > 0 && Timeline(rows) != []
  {
    var p := Timeline(rows);
    Max(Key(p[0], size), Key(Last(p), size) - (Max(limit, 1) - 1) * size)
  }

  /** The returned window as consecutive candles of the timeline. */
  lemma FilledIsWindow(rows: seq<Raw>, size: int, limit: int) returns (n: nat)
    requires size > 0 && Timeline(rows) != []
    ensures var p, start := Timeline(rows), WindowKey(rows, size, limit);
      && Sorted(p) && Key(p[0], size) <= start && start % size == 0
      && 1 <= n <= Max(limit, 1)
      && Filled(rows, size, limit) == From(p, size, start, n) && |From(p, size, start, n)| == n
      && Key(Last(p), size) == start + (n - 1) * size
  {
    hide Key, From, CandleAt, BucketCount, SortBy;
    TimelineSorted(rows);
    var p := Timeline(rows);
    var count := BucketCount(p, size);
    var skip := Max(0, count - Max(limit, 1));
    Ends(p, size);
    WindowStart(Key(p[0], size), Key(Last(p), size), size, count, Max(limit, 1));
    FromDrop(p, size, Key(p[0], size), count, skip, WindowKey(rows, size, limit));
    FromLength(p, size, WindowKey(rows, size, limit), count - skip);
    n := count - skip;
  }

  /** A limit is only a window: it returns the trailing candles of what any larger limit returns. */
  lemma LimitIsWindow(rows: seq<Raw>, size: int, limit: int, larger: int)
    requires size > 0 && limit <= larger
    ensures Filled(rows, size, limit) == LastN(Filled(rows, size, larger), Max(limit, 1))
    ensures |Unbounded(rows, size)| <= larger ==> Filled(rows, size, larger) == Unbounded(rows, size)
  {
    hide Unbounded;
    var u := Unbounded(rows, size);
  }

  lemma {:induction false} FromSteps(p: seq<Minute>, size: int, key: int, n: nat)
    requires size > 0 && p != [] && Sorted(p) && Key(p[0], size) <= key && key % size == 0
    decreases n
    ensures var cs := From(p, size, key, n);
      && |cs| == n
      && (n > 0 ==> cs[0] == CandleAt(p, size, key) && cs[0].minute == key)
      && (forall i | 0 <= i < n - 1 :: cs[i + 1].minute == cs[i].minute + size && cs[i + 1].open == cs[i].close)
  {
    hide Key, InBucket, Previous, MaxHigh, MinLow, Total;
    if n > 0 {
      Multiples(key, key, size);
      FromSteps(p, size, key + size, n - 1);
      CloseCarries(p, size, key);
      var cs := From(p, size, key, n);
      var rest := From(p, size, key + size, n - 1);
      assert forall i | 0 <= i < n - 1 :: cs[i + 1] == rest[i];
    }
  }

  /** The chart has no gaps: ascending, one candle per bucket, each opening where the previous closed, ending at the last row's bucket and close. */
  lemma FilledJoins(rows: seq<Raw>, size: int, limit: int)
    requires size > 0 && Timeline(rows) != []
    ensures var cs, p := Filled(rows, size, limit), Timeline(rows);
      && 1 <= |cs| <= Max(limit, 1)
      && cs[0].minute == WindowKey(rows, size, limit)
      && (forall i | 0 <= i < |cs| - 1 :: cs[i + 1].minute == cs[i].minute + size && cs[i + 1].open == cs[i].close)
      && Last(cs).minute == Key(Last(p), size) && Last(cs).close == Last(p).close
  {
    hide Key, From, CandleAt, Filled, SortBy, Earlier;
    var n := FilledIsWindow(rows, size, limit);
    var p, start := Timeline(rows), WindowKey(rows, size, limit);
    FromSteps(p, size, start, n);
    var end := Key(Last(p), size);
    FromDrop(p, size, start, n, n - 1, end);
    KeyMultiple(Last(p), size);
    assert From(p, size, start, n)[n - 1..][0] == From(p, size, start, n)[n - 1];
    FromSteps(p, size, end, 1);
    CloseCarries(p, size, end);
    EverythingEarlier(p, size, end + size);
  }

  lemma {:induction false} EverythingEarlier(p: seq<Minute>, size: int, key: int)
    requires size > 0 && Sorted(p) && (p != [] ==> Key(Last(p), size) < key)
    ensures Earlier(p, size, key) == p
  {
    hide Key;
    if |p| > 1 {
      KeyMonotone(p[|p| - 2], Last(p), size);
      EverythingEarlier(p[..|p| - 1], size, key);
    }
  }

  // ----- volumes -----

  function Traded(cs: seq<Candle>): Volume {
    if cs == [] then NOTHING else Plus(cs[0].volume, Traded(cs[1..]))
  }

  lemma {:induction false} TotalAppend(a: seq<Minute>, b: seq<Minute>)
    ensures Total(a + b) == Plus(Total(a), Total(b))
  {
    if b == [] {
      assert a + b == a;
    } else {
      TotalAppend(a, b[..|b| - 1]);
      assert (a + b)[..|a + b| - 1] == a + b[..|b| - 1];
    }
  }

  lemma {:induction false} FromTraded(p: seq<Minute>, size: int, key: int, n: nat, end: int)
    requires size > 0 && p != [] && Sorted(p) && Key(p[0], size) <= key && key % size == 0
    requires end == key + n * size
    decreases n
    ensures Plus(Total(Earlier(p, size, key)), Traded(From(p, size, key, n))) == Total(Earlier(p, size, end))
  {
    hide Key, Earlier, InBucket, CandleAt, Total;
    if n > 0 {
      Multiples(key, key, size);
      assert end == key + size + (n - 1) * size;
      FromTraded(p, size, key + size, n - 1, end);
      BucketStep(p, size, key);
      TotalAppend(Earlier(p, size, key), InBucket(p, size, key));
      assert From(p, size, key, n)[1..] == From(p, size, key + size, n - 1);
      CandleVolume(p, size, key);
    }
  }

  lemma CandleVolume(p: seq<Minute>, size: int, key: int)
    requires size > 0 && p != [] && Key(p[0], size) <= key
    ensures CandleAt(p, size, key).volume == Total(InBucket(p, size, key))
  {
    hide Key, Earlier, InBucket, Previous, MaxHigh, MinLow;
  }

  lemma {:induction false} TotalSplits(p: seq<Minute>, size: int, key: int)
    requires size > 0
    ensures Plus(Total(Earlier(p, size, key)), Total(Since(p, size, key))) == Total(p)
  {
    hide Key;
    if p != [] {
      var rest := p[..|p| - 1];
      TotalSplits(rest, size, key);
      TotalOne(Last(p));
      if Key(Last(p), size) < key {
        TotalAppend(Earlier(rest, size, key), [Last(p)]);
        assert Since(p, size, key) == Since(rest, size, key);
      } else {
        TotalAppend(Since(rest, size, key), [Last(p)]);
        assert Earlier(p, size, key) == Earlier(rest, size, key);
      }
    }
  }

  lemma TotalOne(m: Minute)
    ensures Total([m]) == m.volume
  {
    assert [m][..0] == [];
    assert Total([]) == NOTHING;
  }

  lemma {:induction false} InsertTotal(s: seq<Minute>, x: Minute, size: int, key: int)
    requires size > 0
    ensures Total(Since(Insert(s, x, Time), size, key)) == Plus(Total(Since(s, size, key)), Total(Since([x], size, key)))
  {
    hide Key, Total, Since;
    if s == [] || s[|s| - 1].at <= x.at {
      SinceAppend(s, [x], size, key);
      TotalAppend(Since(s, size, key), Since([x], size, key));
    } else {
      var rest, l := s[..|s| - 1], s[|s| - 1];
      InsertTotal(rest, x, size, key);
      assert s == rest + [l];
      SinceAppend(rest, [l], size, key);
      TotalAppend(Since(rest, size, key), Since([l], size, key));
      SinceAppend(Insert(rest, x, Time), [l], size, key);
      TotalAppend(Since(Insert(rest, x, Time), size, key), Since([l], size, key));
    }
  }

  lemma {:induction false} SinceAppend(a: seq<Minute>, b: seq<Minute>, size: int, key: int)
    requires size > 0
    ensures Since(a + b, size, key) == Since(a, size, key) + Since(b, size, key)
  {
    hide Key;
    if b == [] {
      assert a + b == a;
    } else {
      SinceAppend(a, b[..|b| - 1], size, key);
      assert (a + b)[..|a + b| - 1] == a + b[..|b| - 1];
    }
  }

  lemma {:induction false} SortTotal(s: seq<Minute>, size: int, key: int)
    requires size > 0
    ensures Total(Since(SortBy(s, Time), size, key)) == Total(Since(s, size, key))
  {
    hide Key, Insert, Since, Total;
    if s != [] {
      var rest := s[..|s| - 1];
      SortTotal(rest, size, key);
      InsertTotal(SortBy(rest, Time), Last(s), size, key);
      assert s == rest + [Last(s)];
      SinceAppend(rest, [Last(s)], size, key);
      TotalAppend(Since(rest, size, key), Since([Last(s)], size, key));
    }
  }

  /** The candles' buys, sells and swap counts are those of the kept rows from the window's start on. */
  lemma KeptConserve(rows: seq<Raw>, size: int, limit: int)
    requires size > 0 && Timeline(rows) != []
    ensures Traded(Filled(rows, size, limit)) == Total(Since(Kept(rows), size, WindowKey(rows, size, limit)))
  {
    hide Key, From, CandleAt, Filled, SortBy, Earlier, Since, Total, Traded, WindowKey;
    var n := FilledIsWindow(rows, size, limit);
    var p, start := Timeline(rows), WindowKey(rows, size, limit);
    var end := Key(Last(p), size) + size;
    assert end == start + n * size;
    FromTraded(p, size, start, n, end);
    EverythingEarlier(p, size, end);
    TotalSplits(p, size, start);
    SortTotal(Kept(rows), size, start);
  }

  // ----- price consistency -----

  ghost predicate ConsistentRow(m: Minute) {
    0 < m.low && m.low <= m.open <= m.high && m.low <= m.close <= m.high
  }

  predicate ConsistentCandle(c: Candle) {
    0 < c.low && c.low <= c.open <= c.high && c.low <= c.close <= c.high
  }

  lemma ConsistentAt(p: seq<Minute>, size: int, key: int)
    requires size > 0 && p != [] && Key(p[0], size) <= key
    requires forall m | m in p :: ConsistentRow(m)
    ensures ConsistentCandle(CandleAt(p, size, key))
  {
    hide Key, Total;
    var rows := InBucket(p, size, key);
    var e := Earlier(p, size, key);
    if e != [] {
      EarlierRow(p, size, key, |e| - 1);
    }
    if rows != [] {
      var _, bottom := Extremes(rows);
      BucketRow(p, size, key, 0);
      BucketRow(p, size, key, bottom);
      BucketRow(p, size, key, |rows| - 1);
      assert Last(rows).high <= MaxHigh(rows) && MinLow(rows) <= Last(rows).low;
    }
  }

  lemma {:induction false} FromConsistent(p: seq<Minute>, size: int, key: int, n: nat)
    requires size > 0 && p != [] && Key(p[0], size) <= key
    requires forall m | m in p :: ConsistentRow(m)
    decreases n
    ensures forall c | c in From(p, size, key, n) :: ConsistentCandle(c)
  {
    hide Key, CandleAt, ConsistentRow, ConsistentCandle;
    if n > 0 {
      ConsistentAt(p, size, key);
      FromConsistent(p, size, key + size, n - 1);
    }
  }

  /** If every kept row has positive prices with its open and close between its extremes, so has every candle. */
  lemma KeptConsistent(rows: seq<Raw>, size: int, limit: int)
    requires size > 0
    requires forall m | m in Kept(rows) :: ConsistentRow(m)
    ensures forall c | c in Filled(rows, size, limit) :: ConsistentCandle(c)
  {
    hide Key, From, ConsistentRow, ConsistentCandle, SortBy;
    SortIsStable(Kept(rows), Time, 0);
    var p := Timeline(rows);
    forall m | m in p ensures ConsistentRow(m) {
      assert m in multiset(p);
    }
    if p != [] {
      FromConsistent(p, size, Key(p[0], size), Max(0, BucketCount(p, size)));
    }
  }

  // ----- presentation -----

  /** `sqrtToEthString` before formatting: the ETH price of a whole token, in units of 10^-18. */
  function EthScaled(sqrt: int): Option<int> {
    if sqrt == 0 then None else SquarePositive(sqrt); Some(TruncDiv(Q192 * WAD, sqrt * sqrt))
  }

  /** A scaled price: 2^192 times 10^18 over the squared sqrt price, rounded down; none without a positive sqrt price. */
  ghost predicate IsEthPrice(v: Option<int>, sqrt: int) {
    if sqrt > 0
    then v.Some? && v.value * (sqrt * sqrt) <= Pow2(192) * 1_000_000_000_000_000_000 < (v.value + 1) * (sqrt * sqrt)
    else v == None
  }

  lemma EthScaledIs(sqrt: int)
    requires sqrt > 0
    ensures IsEthPrice(EthScaled(sqrt), sqrt)
  {
    hide Pow2, TruncDiv;
    FixedPointScales();
    SquarePositive(sqrt);
    var x := Q192 * WAD;
    TruncIsFloor(x, sqrt * sqrt);
    FloorIs(x, sqrt * sqrt, x / (sqrt * sqrt));
  }

  datatype Shown = Shown(minute: int, openEth: Option<int>, closeEth: Option<int>, highEth: Option<int>, lowEth: Option<int>, volume: Volume)

  /** The ETH axis is inverted: the highest ETH price comes from the lowest square root. */
  function Present(c: Candle): Shown {
    Shown(c.minute,
          if c.open > 0 then EthScaled(c.open) else None,
          if c.close > 0 then EthScaled(c.close) else None,
          if c.low > 0 then EthScaled(c.low) else None,
          if c.high > 0 then EthScaled(c.high) else None,
          c.volume)
  }

  lemma EthAntitone(a: int, b: int)
    requires 0 < a <= b
    ensures EthScaled(a).Some? && EthScaled(b).Some? && 0 <= EthScaled(b).value <= EthScaled(a).value
  {
    var x := Q192 * WAD;
    MulMonotone(a, b, a);
    MulMonotone(a, b, b);
    SquarePositive(a);
    SquarePositive(b);
    QuotientAntitone(x, a * a, b * b);
  }

  lemma QuotientAntitone(x: int, d: int, e: int)
    requires 0 <= x && 0 < d <= e
    ensures 0 <= TruncDiv(x, e) <= TruncDiv(x, d)
  {
    TruncIsFloor(x, d);
    TruncIsFloor(x, e);
    var q := x / e;
    FloorAtLeast(x, e, 0);
    FloorAtLeast(x, e, q);
    MulMonotone(d, e, q);
    FloorAtLeast(x, d, q);
  }

  predicate ConsistentShown(s: Shown) {
    && s.openEth.Some? && s.closeEth.Some? && s.highEth.Some? && s.lowEth.Some?
    && s.lowEth.value <= s.openEth.value <= s.highEth.value
    && s.lowEth.value <= s.closeEth.value <= s.highEth.value
  }

  lemma PresentConsistent(c: Candle)
    requires ConsistentCandle(c)
    ensures ConsistentShown(Present(c))
  {
    hide EthScaled;
    EthAntitone(c.low, c.open);
    EthAntitone(c.open, c.high);
    EthAntitone(c.low, c.close);
    EthAntitone(c.close, c.high);
  }

  /** The list the `candles` endpoint returns. */
  method Chart(minutes: seq<Raw>, size: int, limit: int) returns (shown: seq<Shown>)
    requires size > 0
    ensures var cs := Filled(minutes, size, limit);
      |shown| == |cs| && forall i | 0 <= i < |cs| :: shown[i] == Present(cs[|cs| - 1 - i])
  {
    hide Filled, Present;
    var rows := FillJoinedCandles(minutes, size, limit);
    shown := [];
    for i := 0 to |rows|
      invariant |shown| == i && forall j | 0 <= j < i :: shown[j] == Present(rows[|rows| - 1 - j])
    {
      shown := shown + [Present(rows[|rows| - 1 - i])];
    }
  }

  lemma EmptyChart(rows: seq<Raw>, size: int, limit: int)
    requires size > 0 && Timeline(rows) == []
    ensures Filled(rows, size, limit) == []
  {}
}
