/**
 The chart described from the database rows themselves: for every candle, which rows it stands for by
 their time in milliseconds, and that its prices and volumes are theirs.
 */
module RawCandles {
  import opened Arithmetic
  import opened BinaryLog
  import opened Candles

  /** A row that counts and lies in [from, to), in milliseconds. */
  ghost predicate Between(row: Raw, from: int, to: int) {
    Counts(row) && from <= row.t.value < to
  }

  /** The last counting row before a moment: the latest time, and of equal times the one listed last. */
  ghost predicate Latest(rows: seq<Raw>, to: int, k: nat) {
    && k < |rows| && Counts(rows[k]) && rows[k].t.value < to
    && forall j | 0 <= j < |rows| && Counts(rows[j]) && rows[j].t.value < to ::
         rows[j].t.value < rows[k].t.value || (rows[j].t == rows[k].t && j <= k)
  }

  /** The first counting row: the earliest time, and of equal times the one listed first. */
  ghost predicate Earliest(rows: seq<Raw>, k: nat) {
    && k < |rows| && Counts(rows[k])
    && forall j | 0 <= j < |rows| && Counts(rows[j]) ::
         rows[k].t.value < rows[j].t.value || (rows[j].t == rows[k].t && k <= j)
  }

  /** Traded in [from, to) by the rows that count. */
  ghost function RawVolume(rows: seq<Raw>, from: int, to: int): Volume {
    if rows == [] then Volume(0, 0, 0)
    else
      var row, rest := rows[|rows| - 1], RawVolume(rows[..|rows| - 1], from, to);
      if Between(row, from, to)
      then Volume(rest.buy + row.volume.buy, rest.sell + row.volume.sell, rest.swaps + row.volume.swaps)
      else rest
  }

  // ----- buckets in milliseconds -----

  lemma KeyBound(m: Minute, size: int, key: int)
    requires size > 0 && key % size == 0
    ensures Key(m, size) < key <==> m.at < key * 60_000
    ensures Key(m, size) == key <==> key * 60_000 <= m.at < (key + size) * 60_000
  {
    KeyBelow(m, size, key);
    Multiples(key, key, size);
    KeyBelow(m, size, key + size);
    KeyMultiple(m, size);
    Multiples(key, Key(m, size), size);
    hide Key;
  }

  lemma KeyBelow(m: Minute, size: int, key: int)
    requires size > 0 && key % size == 0
    ensures Key(m, size) < key <==> m.at < key * 60_000
  {
    var k, q, s := key / size, m.at / (size * 60_000), size * 60_000;
    assert key == k * size;
    FloorAtLeast(m.at, s, k);
    assert k * s == key * 60_000;
    if q < k {
      MulStrict(q, k, size);
    } else {
      MulMonotone(k, q, size);
    }
  }

  /** The timeline holds exactly the copies of the rows that count. */
  lemma TimelineIff(rows: seq<Raw>, m: Minute)
    ensures m in Timeline(rows) <==> CopyOfSome(m, rows)
  {
    hide SortBy, CopyOfSome;
    SortIsStable(Kept(rows), Time, 0);
    KeptIff(rows, m);
    assert m in multiset(Timeline(rows)) <==> m in multiset(Kept(rows));
  }

  function Copy(row: Raw): Minute
    requires row.t.Some?
  {
    Minute(row.t.value, row.open, row.close, row.high, row.low, row.volume)
  }

  lemma RowInTimeline(rows: seq<Raw>, j: nat)
    requires j < |rows| && Counts(rows[j])
    ensures Copy(rows[j]) in Timeline(rows)
  {
    hide SortBy;
    TimelineIff(rows, Copy(rows[j]));
    assert Copies(Copy(rows[j]), rows[j]);
  }

  // ----- the row a price comes from -----

  /** In time order the last row before a bucket is the last of all rows of its time. */
  lemma {:induction false} LastOfItsTime(p: seq<Minute>, size: int, key: int)
    requires size > 0 && Sorted(p) && key % size == 0 && Earlier(p, size, key) != []
    ensures var m := Last(Earlier(p, size, key));
      WithKey(p, Time, m.at) != [] && Last(WithKey(p, Time, m.at)) == m && m.at < key * 60_000
    ensures forall x | x in p && x.at < key * 60_000 :: x.at <= Last(Earlier(p, size, key)).at
  {
    hide Key;
    var n := |p| - 1;
    var l, rest := p[n], p[..n];
    KeyBound(l, size, key);
    if Key(l, size) < key {
      forall x | x in p ensures x.at <= l.at {
        var i :| 0 <= i < |p| && p[i] == x;
      }
    } else {
      LastOfItsTime(rest, size, key);
      forall x | x in p && x.at < key * 60_000 ensures x in rest {
        var i :| 0 <= i < |p| && p[i] == x;
        assert i != n;
        assert rest[i] == x;
      }
    }
  }

  lemma {:induction false} LastRaw(rows: seq<Raw>, v: int) returns (k: nat)
    requires WithKey(Kept(rows), Time, v) != []
    ensures k < |rows| && Counts(rows[k]) && rows[k].t == Some(v) && Copies(Last(WithKey(Kept(rows), Time, v)), rows[k])
    ensures forall j | k < j < |rows| :: !(Counts(rows[j]) && rows[j].t == Some(v))
  {
    var n := |rows| - 1;
    var row, rest := rows[n], rows[..n];
    WithKeySnoc(Kept(rest), v);
    if Counts(row) {
      assert Kept(rows)[..|Kept(rest)|] == Kept(rest);
    } else {
      assert Kept(rows) == Kept(rest);
    }
    if Counts(row) && row.t == Some(v) {
      k := n;
    } else {
      k := LastRaw(rest, v);
      assert rest[k] == rows[k];
      forall j | k < j < |rows| ensures !(Counts(rows[j]) && rows[j].t == Some(v)) {
        assert j < n ==> rest[j] == rows[j];
      }
    }
  }

  lemma WithKeySnoc(s: seq<Minute>, v: int)
    ensures forall m :: WithKey(s + [m], Time, v) == WithKey(s, Time, v) + if m.at == v then [m] else []
  {
    forall m: Minute ensures WithKey(s + [m], Time, v) == WithKey(s, Time, v) + if m.at == v then [m] else [] {
      assert (s + [m])[..|s|] == s;
    }
  }

  lemma {:induction false} FirstRaw(rows: seq<Raw>, v: int) returns (k: nat)
    requires WithKey(Kept(rows), Time, v) != []
    ensures k < |rows| && Counts(rows[k]) && rows[k].t == Some(v) && Copies(WithKey(Kept(rows), Time, v)[0], rows[k])
    ensures forall j | 0 <= j < k :: !(Counts(rows[j]) && rows[j].t == Some(v))
  {
    var n := |rows| - 1;
    var row, rest := rows[n], rows[..n];
    WithKeySnoc(Kept(rest), v);
    if Counts(row) {
      assert Kept(rows)[..|Kept(rest)|] == Kept(rest);
    } else {
      assert Kept(rows) == Kept(rest);
    }
    if WithKey(Kept(rest), Time, v) == [] {
      k := n;
      forall j | 0 <= j < n ensures !(Counts(rows[j]) && rows[j].t == Some(v)) {
        NoneKept(rest, v, j);
        assert rest[j] == rows[j];
      }
    } else {
      k := FirstRaw(rest, v);
      assert rest[k] == rows[k];
      assert forall j | 0 <= j < k :: rest[j] == rows[j];
    }
  }

  lemma {:induction false} NoneKept(rows: seq<Raw>, v: int, j: nat)
    requires WithKey(Kept(rows), Time, v) == [] && j < |rows|
    ensures !(Counts(rows[j]) && rows[j].t == Some(v))
  {
    var n := |rows| - 1;
    var row, rest := rows[n], rows[..n];
    WithKeySnoc(Kept(rest), v);
    if Counts(row) {
      assert Kept(rows)[..|Kept(rest)|] == Kept(rest);
    } else {
      assert Kept(rows) == Kept(rest);
    }
    if j < n {
      NoneKept(rest, v, j);
    }
  }

  /** The close carried into a bucket is that of the latest counting row before it. */
  lemma PreviousIsLatest(rows: seq<Raw>, size: int, key: int) returns (k: nat)
    requires size > 0 && key % size == 0 && Earlier(Timeline(rows), size, key) != []
    ensures Latest(rows, key * 60_000, k) && Last(Earlier(Timeline(rows), size, key)).close == rows[k].close
  {
    hide Key, SortBy, Earlier, WithKey, Kept;
    TimelineSorted(rows);
    var p := Timeline(rows);
    LastOfItsTime(p, size, key);
    var v := Last(Earlier(p, size, key)).at;
    SortIsStable(Kept(rows), Time, v);
    k := LastRaw(rows, v);
    forall j | 0 <= j < |rows| && Counts(rows[j]) && rows[j].t.value < key * 60_000
      ensures rows[j].t.value < rows[k].t.value || (rows[j].t == rows[k].t && j <= k)
    {
      RowInTimeline(rows, j);
      assert Copy(rows[j]).at <= v;
    }
  }

  lemma {:induction false} FirstOfItsTime(p: seq<Minute>, size: int)
    requires size > 0 && p != []
    ensures WithKey(p, Time, p[0].at) != [] && WithKey(p, Time, p[0].at)[0] == p[0]
    ensures InBucket(p, size, Key(p[0], size))[0] == p[0]
  {
    hide Key;
    if |p| > 1 {
      FirstOfItsTime(p[..|p| - 1], size);
    } else {
      assert p[..0] == [];
      assert WithKey([], Time, p[0].at) == [] && InBucket([], size, Key(p[0], size)) == [];
    }
  }

  lemma OpeningIsEarliest(rows: seq<Raw>, size: int) returns (k: nat)
    requires size > 0 && Timeline(rows) != []
    ensures var p := Timeline(rows);
      Earliest(rows, k) && InBucket(p, size, Key(p[0], size))[0].open == rows[k].open
  {
    hide Key, SortBy, WithKey, Kept, InBucket;
    TimelineSorted(rows);
    var p := Timeline(rows);
    FirstOfItsTime(p, size);
    SortIsStable(Kept(rows), Time, p[0].at);
    k := FirstRaw(rows, p[0].at);
    forall j | 0 <= j < |rows| && Counts(rows[j]) ensures rows[k].t.value < rows[j].t.value || (rows[j].t == rows[k].t && k <= j) {
      RowInTimeline(rows, j);
      var i :| 0 <= i < |p| && p[i] == Copy(rows[j]);
      assert p[0].at <= p[i].at;
    }
  }

  // ----- volumes -----

  lemma {:induction false} SinceRaw(rows: seq<Raw>, size: int, key: int, to: int)
    requires size > 0 && key % size == 0
    requires forall j | 0 <= j < |rows| && rows[j].t.Some? :: rows[j].t.value < to
    ensures Total(Since(Kept(rows), size, key)) == RawVolume(rows, key * 60_000, to)
  {
    hide Key, Since, Total;
    if rows == [] {
      SinceNothing(size, key);
    } else {
      var n := |rows| - 1;
      var row, rest := rows[n], rows[..n];
      SinceRaw(rest, size, key, to);
      if Counts(row) {
        assert Kept(rows) == Kept(rest) + [Copy(row)];
        KeyBound(Copy(row), size, key);
        SinceOneMore(Kept(rest), Copy(row), size, key);
      } else {
        assert Kept(rows) == Kept(rest);
      }
    }
  }

  lemma SinceNothing(size: int, key: int)
    requires size > 0
    ensures Total(Since([], size, key)) == NOTHING
  {}

  lemma SinceOneMore(s: seq<Minute>, m: Minute, size: int, key: int)
    requires size > 0
    ensures Total(Since(s + [m], size, key))
         == if key <= Key(m, size) then Plus(Total(Since(s, size, key)), m.volume) else Total(Since(s, size, key))
  {
    hide Key;
    assert (s + [m])[..|s|] == s;
    TotalAppend(Since(s, size, key), [m]);
    TotalOne(m);
    assert Since(s, size, key) + [] == Since(s, size, key);
    hide Total;
  }

  lemma {:induction false} VolumeSplits(rows: seq<Raw>, a: int, b: int, to: int)
    requires a <= b <= to
    ensures Plus(RawVolume(rows, a, b), RawVolume(rows, b, to)) == RawVolume(rows, a, to)
  {
    if rows != [] {
      VolumeSplits(rows[..|rows| - 1], a, b, to);
    }
  }

  /** A moment after every row. */
  lemma {:induction false} AfterAll(rows: seq<Raw>, least: int) returns (to: int)
    ensures least <= to && forall j | 0 <= j < |rows| && rows[j].t.Some? :: rows[j].t.value < to
  {
    to := least;
    if rows != [] {
      var n := |rows| - 1;
      to := AfterAll(rows[..n], least);
      if rows[n].t.Some? {
        to := Max(to, rows[n].t.value + 1);
      }
      forall j | 0 <= j < |rows| && rows[j].t.Some? ensures rows[j].t.value < to {
        assert j < n ==> rows[..n][j] == rows[j];
      }
    }
  }

  /** A bucket's volume is what its rows traded. */
  lemma BucketVolume(rows: seq<Raw>, size: int, key: int)
    requires size > 0 && key % size == 0
    ensures Total(InBucket(Timeline(rows), size, key)) == RawVolume(rows, key * 60_000, (key + size) * 60_000)
  {
    hide Key, SortBy, Total, InBucket, Earlier, Since, RawVolume, Kept;
    TimelineSorted(rows);
    var p := Timeline(rows);
    var to := AfterAll(rows, (key + size) * 60_000);
    Multiples(key, key, size);
    BucketStep(p, size, key);
    TotalAppend(Earlier(p, size, key), InBucket(p, size, key));
    TotalSplits(p, size, key);
    TotalSplits(p, size, key + size);
    SortTotal(Kept(rows), size, key);
    SortTotal(Kept(rows), size, key + size);
    SinceRaw(rows, size, key, to);
    SinceRaw(rows, size, key + size, to);
    VolumeSplits(rows, key * 60_000, (key + size) * 60_000, to);
  }

  // ----- candles -----

  /**
   A candle told from the rows: it covers the extremes of every row of its bucket, and its own extremes are
   a row's or its open; it trades what they traded; it closes at the latest close up to its end, and opens at
   the latest close before it, or at the very first open when there is none.
   */
  ghost predicate Tells(c: Candle, rows: seq<Raw>, size: int) {
    var from, to := c.minute * 60_000, (c.minute + size) * 60_000;
    && (forall j | 0 <= j < |rows| && Between(rows[j], from, to) :: c.low <= rows[j].low && rows[j].high <= c.high)
    && (c.high == c.open || exists j :: 0 <= j < |rows| && Between(rows[j], from, to) && rows[j].high == c.high)
    && (c.low == c.open || exists j :: 0 <= j < |rows| && Between(rows[j], from, to) && rows[j].low == c.low)
    && c.volume == RawVolume(rows, from, to)
    && (exists k: nat :: Latest(rows, to, k) && c.close == rows[k].close)
    && ((exists k: nat :: Latest(rows, from, k) && c.open == rows[k].close)
        || ((forall j | 0 <= j < |rows| && Counts(rows[j]) :: from <= rows[j].t.value)
            && exists k: nat :: Earliest(rows, k) && c.open == rows[k].open))
  }

  lemma {:induction false} BucketHas(p: seq<Minute>, size: int, x: Minute)
    requires size > 0 && x in p
    ensures exists i :: 0 <= i < |InBucket(p, size, Key(x, size))| && InBucket(p, size, Key(x, size))[i] == x
  {
    hide Key;
    var n := |p| - 1;
    var key, rest := Key(x, size), p[..n];
    var b := InBucket(p, size, key);
    if x in rest {
      BucketHas(rest, size, x);
      var i :| 0 <= i < |InBucket(rest, size, key)| && InBucket(rest, size, key)[i] == x;
      assert b[i] == x;
    } else {
      assert p[n] == x;
      assert b[|b| - 1] == x;
    }
  }

  lemma Covered(rows: seq<Raw>, size: int, key: int, j: nat)
    requires size > 0 && key % size == 0 && j < |rows| && Between(rows[j], key * 60_000, (key + size) * 60_000)
    ensures var b := InBucket(Timeline(rows), size, key);
      b != [] && MinLow(b) <= rows[j].low && rows[j].high <= MaxHigh(b)
  {
    hide Key, SortBy, InBucket, MaxHigh, MinLow;
    RowInTimeline(rows, j);
    KeyBound(Copy(rows[j]), size, key);
    BucketHas(Timeline(rows), size, Copy(rows[j]));
    var b := InBucket(Timeline(rows), size, key);
    var _, _ := Extremes(b);
  }

  lemma Attained(rows: seq<Raw>, size: int, key: int) returns (top: nat, bottom: nat)
    requires size > 0 && key % size == 0 && InBucket(Timeline(rows), size, key) != []
    ensures var b, from, to := InBucket(Timeline(rows), size, key), key * 60_000, (key + size) * 60_000;
      && top < |rows| && Between(rows[top], from, to) && rows[top].high == MaxHigh(b)
      && bottom < |rows| && Between(rows[bottom], from, to) && rows[bottom].low == MinLow(b)
  {
    hide Key, SortBy, InBucket, MaxHigh, MinLow;
    var b := InBucket(Timeline(rows), size, key);
    var t, l := Extremes(b);
    top := Origin(rows, size, key, t);
    bottom := Origin(rows, size, key, l);
  }

  /** The row a bucket's entry was copied from. */
  lemma Origin(rows: seq<Raw>, size: int, key: int, i: nat) returns (j: nat)
    requires size > 0 && key % size == 0 && i < |InBucket(Timeline(rows), size, key)|
    ensures j < |rows| && Between(rows[j], key * 60_000, (key + size) * 60_000)
    ensures Copies(InBucket(Timeline(rows), size, key)[i], rows[j])
  {
    hide Key, SortBy, InBucket;
    BucketRow(Timeline(rows), size, key, i);
    var m := InBucket(Timeline(rows), size, key)[i];
    TimelineIff(rows, m);
    KeyBound(m, size, key);
    j :| 0 <= j < |rows| && Counts(rows[j]) && Copies(m, rows[j]);
  }

  lemma CandleTells(rows: seq<Raw>, size: int, key: int)
    requires size > 0 && key % size == 0 && Timeline(rows) != [] && Key(Timeline(rows)[0], size) <= key
    ensures Tells(CandleAt(Timeline(rows), size, key), rows, size)
  {
    var p := Timeline(rows);
    var c := CandleAt(p, size, key);
    CandleSpans(rows, size, key);
    CandleVolume(p, size, key);
    BucketVolume(rows, size, key);
    CandleOpens(rows, size, key);
    CandleCloses(rows, size, key);
    assert c.minute == key by { hide SortBy, Key, InBucket, Previous, MaxHigh, MinLow, Total; }
    hide CandleAt, SortBy, Key, RawVolume, Latest, Earliest, InBucket, Total;
  }

  lemma CandleSpans(rows: seq<Raw>, size: int, key: int)
    requires size > 0 && key % size == 0 && Timeline(rows) != [] && Key(Timeline(rows)[0], size) <= key
    ensures var c, from, to := CandleAt(Timeline(rows), size, key), key * 60_000, (key + size) * 60_000;
      && (forall j | 0 <= j < |rows| && Between(rows[j], from, to) :: c.low <= rows[j].low && rows[j].high <= c.high)
      && (c.high == c.open || exists j :: 0 <= j < |rows| && Between(rows[j], from, to) && rows[j].high == c.high)
      && (c.low == c.open || exists j :: 0 <= j < |rows| && Between(rows[j], from, to) && rows[j].low == c.low)
  {
    hide Key, SortBy, InBucket, MaxHigh, MinLow, Total, Between;
    var p := Timeline(rows);
    forall j | 0 <= j < |rows| && Between(rows[j], key * 60_000, (key + size) * 60_000)
      ensures CandleAt(p, size, key).low <= rows[j].low && rows[j].high <= CandleAt(p, size, key).high
    {
      Covered(rows, size, key, j);
    }
    if InBucket(p, size, key) != [] {
      var top, bottom := Attained(rows, size, key);
    }
  }

  lemma CandleOpens(rows: seq<Raw>, size: int, key: int)
    requires size > 0 && key % size == 0 && Timeline(rows) != [] && Key(Timeline(rows)[0], size) <= key
    ensures var c, from := CandleAt(Timeline(rows), size, key), key * 60_000;
      (exists k: nat :: Latest(rows, from, k) && c.open == rows[k].close)
      || ((forall j | 0 <= j < |rows| && Counts(rows[j]) :: from <= rows[j].t.value)
          && exists k: nat :: Earliest(rows, k) && c.open == rows[k].open)
  {
    hide Key, SortBy, InBucket, MaxHigh, MinLow, Total, Latest, Earliest, Earlier;
    var p := Timeline(rows);
    if Earlier(p, size, key) != [] {
      var k := PreviousIsLatest(rows, size, key);
    } else {
      assert Key(p[0], size) == key;
      var k := OpeningIsEarliest(rows, size);
      forall j | 0 <= j < |rows| && Counts(rows[j]) ensures key * 60_000 <= rows[j].t.value {
        RowInTimeline(rows, j);
        TimelineSorted(rows);
        var i :| 0 <= i < |p| && p[i] == Copy(rows[j]);
        KeyBound(p[0], size, key);
        assert p[0].at <= p[i].at;
      }
    }
  }

  lemma CandleCloses(rows: seq<Raw>, size: int, key: int)
    requires size > 0 && key % size == 0 && Timeline(rows) != [] && Key(Timeline(rows)[0], size) <= key
    ensures exists k: nat :: Latest(rows, (key + size) * 60_000, k) && CandleAt(Timeline(rows), size, key).close == rows[k].close
  {
    hide Key, SortBy, InBucket, MaxHigh, MinLow, Total, Latest, CandleAt, Earlier;
    TimelineSorted(rows);
    CloseCarries(Timeline(rows), size, key);
    Multiples(key, key, size);
    var k := PreviousIsLatest(rows, size, key + size);
  }

  // ----- what the chart promises of the rows -----

  lemma FilledAt(rows: seq<Raw>, size: int, limit: int, i: nat) returns (key: int)
    requires size > 0 && i < |Filled(rows, size, limit)|
    ensures Timeline(rows) != [] && Key(Timeline(rows)[0], size) <= key && key % size == 0
    ensures Filled(rows, size, limit)[i] == CandleAt(Timeline(rows), size, key)
  {
    hide Key, From, CandleAt, Filled, SortBy, WindowKey;
    if Timeline(rows) == [] {
      EmptyChart(rows, size, limit);
    }
    var n := FilledIsWindow(rows, size, limit);
    var p, start := Timeline(rows), WindowKey(rows, size, limit);
    key := start + i * size;
    FromDrop(p, size, start, n, i, key);
    FromHead(p, size, key, n - i);
    assert From(p, size, start, n)[i..][0] == From(p, size, start, n)[i];
    MultipleOffset(start, i, size);
  }

  lemma FromHead(p: seq<Minute>, size: int, key: int, n: nat)
    requires size > 0 && p != [] && Key(p[0], size) <= key && n > 0
    ensures From(p, size, key, n) != [] && From(p, size, key, n)[0] == CandleAt(p, size, key)
  {
    hide Key, CandleAt;
  }

  lemma MultipleOffset(start: int, i: nat, size: int)
    requires size > 0 && start % size == 0
    ensures (start + i * size) % size == 0
  {
    var q := start / size;
    assert start + i * size == (q + i) * size;
    FloorIs(start + i * size, size, q + i);
  }

  /** Every candle of the chart is told from the rows, whatever the limit. */
  lemma FilledTells(rows: seq<Raw>, size: int, limit: int, i: nat)
    requires size > 0 && i < |Filled(rows, size, limit)|
    ensures Tells(Filled(rows, size, limit)[i], rows, size)
  {
    hide Key, CandleAt, Filled, SortBy, Tells;
    var key := FilledAt(rows, size, limit, i);
    CandleTells(rows, size, key);
  }

  /** The chart is empty exactly when no row counts; otherwise it ends with the bucket of the latest row, and it begins with the bucket of the earliest unless the limit cuts it. */
  lemma FilledReaches(rows: seq<Raw>, size: int, limit: int)
    requires size > 0
    ensures Filled(rows, size, limit) == [] <==> forall j | 0 <= j < |rows| :: !Counts(rows[j])
    ensures var cs := Filled(rows, size, limit);
      cs != [] ==>
        && (exists k: nat :: Latest(rows, (Last(cs).minute + size) * 60_000, k) && Last(cs).minute * 60_000 <= rows[k].t.value)
        && (forall j | 0 <= j < |rows| && Counts(rows[j]) :: rows[j].t.value < (Last(cs).minute + size) * 60_000)
        && |cs| <= Max(limit, 1)
        && (|cs| == Max(limit, 1) || forall j | 0 <= j < |rows| && Counts(rows[j]) :: cs[0].minute * 60_000 <= rows[j].t.value)
  {
    hide Key, SortBy, Filled, WindowKey, Latest;
    var p := Timeline(rows);
    if p == [] {
      EmptyChart(rows, size, limit);
      forall j | 0 <= j < |rows| ensures !Counts(rows[j]) {
        if Counts(rows[j]) {
          RowInTimeline(rows, j);
        }
      }
    } else {
      TimelineIff(rows, p[0]);
      FilledJoins(rows, size, limit);
      LastBucket(rows, size, Filled(rows, size, limit));
      FirstBucket(rows, size, limit);
    }
  }

  lemma LastBucket(rows: seq<Raw>, size: int, cs: seq<Candle>)
    requires size > 0 && Timeline(rows) != [] && cs != [] && Last(cs).minute == Key(Last(Timeline(rows)), size)
    ensures exists k: nat :: Latest(rows, (Last(cs).minute + size) * 60_000, k) && Last(cs).minute * 60_000 <= rows[k].t.value
    ensures forall j | 0 <= j < |rows| && Counts(rows[j]) :: rows[j].t.value < (Last(cs).minute + size) * 60_000
  {
    hide Key, SortBy, Earlier;
    var p := Timeline(rows);
    var key := Last(cs).minute;
    TimelineSorted(rows);
    KeyMultiple(Last(p), size);
    KeyBound(Last(p), size, key);
    forall j | 0 <= j < |rows| && Counts(rows[j]) ensures rows[j].t.value < (key + size) * 60_000 {
      RowInTimeline(rows, j);
      var i :| 0 <= i < |p| && p[i] == Copy(rows[j]);
    }
    Multiples(key, key, size);
    EverythingEarlier(p, size, key + size);
    var k := PreviousIsLatest(rows, size, key + size);
    TimelineIff(rows, Last(p));
    var o :| 0 <= o < |rows| && Counts(rows[o]) && Copies(Last(p), rows[o]);
    assert rows[o].t.value <= rows[k].t.value;
  }

  lemma FirstBucket(rows: seq<Raw>, size: int, limit: int)
    requires size > 0 && Timeline(rows) != []
    ensures var cs := Filled(rows, size, limit);
      cs != [] && (|cs| == Max(limit, 1) || forall j | 0 <= j < |rows| && Counts(rows[j]) :: cs[0].minute * 60_000 <= rows[j].t.value)
  {
    hide Key, SortBy, Filled, From;
    var p, start := Timeline(rows), WindowKey(rows, size, limit);
    var n := FilledIsWindow(rows, size, limit);
    FilledJoins(rows, size, limit);
    if n < Max(limit, 1) {
      MulMonotone(n, Max(limit, 1) - 1, size);
      assert (n - 1) * size == n * size - size;
      assert start == Key(p[0], size);
      KeyMultiple(p[0], size);
      KeyBound(p[0], size, start);
      forall j | 0 <= j < |rows| && Counts(rows[j]) ensures start * 60_000 <= rows[j].t.value {
        RowInTimeline(rows, j);
        var i :| 0 <= i < |p| && p[i] == Copy(rows[j]);
      }
    }
  }

  /** Conservation: the candles together traded what the counting rows from the first candle on traded. */
  lemma FilledConserves(rows: seq<Raw>, size: int, limit: int, to: int)
    requires size > 0 && Filled(rows, size, limit) != []
    requires forall j | 0 <= j < |rows| && rows[j].t.Some? :: rows[j].t.value < to
    ensures Traded(Filled(rows, size, limit)) == RawVolume(rows, Filled(rows, size, limit)[0].minute * 60_000, to)
  {
    hide Key, SortBy, Filled, WindowKey, Traded, Total, Since, RawVolume;
    if Timeline(rows) == [] {
      EmptyChart(rows, size, limit);
    }
    KeptConserve(rows, size, limit);
    FilledJoins(rows, size, limit);
    var n := FilledIsWindow(rows, size, limit);
    SinceRaw(rows, size, WindowKey(rows, size, limit), to);
  }

  /** Positive prices with the open and the close between the extremes. */
  ghost predicate ConsistentRaw(row: Raw) {
    0 < row.low && row.low <= row.open <= row.high && row.low <= row.close <= row.high
  }

  /** If that holds of every row that counts, it holds of every candle, despite the chained open. */
  lemma FilledConsistent(rows: seq<Raw>, size: int, limit: int, i: nat)
    requires size > 0 && i < |Filled(rows, size, limit)|
    requires forall j | 0 <= j < |rows| && Counts(rows[j]) :: ConsistentRaw(rows[j])
    ensures var c := Filled(rows, size, limit)[i];
      0 < c.low && c.low <= c.open <= c.high && c.low <= c.close <= c.high
  {
    hide Filled;
    forall m | m in Kept(rows) ensures ConsistentRow(m) {
      KeptIff(rows, m);
      var j :| 0 <= j < |rows| && Counts(rows[j]) && Copies(m, rows[j]);
    }
    KeptConsistent(rows, size, limit);
    assert Filled(rows, size, limit)[i] in Filled(rows, size, limit);
  }

  /**
   What the endpoint promises: newest first, one candle per bucket, each opening at the close of the next
   one in the list; every figure is its candle's, prices on the inverted ETH axis; and, for consistent rows,
   ETH extremes around every open and close.
   */
  lemma ChartPromise(rows: seq<Raw>, size: int, limit: int, shown: seq<Shown>)
    requires size > 0
    requires var cs := Filled(rows, size, limit);
      |shown| == |cs| && forall i | 0 <= i < |cs| :: shown[i] == Present(cs[|cs| - 1 - i])
    ensures forall i | 0 <= i < |shown| - 1 :: shown[i + 1].minute == shown[i].minute - size && shown[i].openEth == shown[i + 1].closeEth
    ensures var cs := Filled(rows, size, limit);
      forall i | 0 <= i < |shown| :: Figures(shown[i], cs[|cs| - 1 - i])
    ensures (forall j | 0 <= j < |rows| && Counts(rows[j]) :: ConsistentRaw(rows[j]))
            ==> forall i | 0 <= i < |shown| :: ConsistentShown(shown[i])
  {
    hide Filled, Key, ConsistentRaw, ConsistentShown, EthScaled, SortBy, Figures;
    var cs := Filled(rows, size, limit);
    var n := |cs|;
    forall i | 0 <= i < n ensures Figures(shown[i], cs[n - 1 - i]) {
      FiguresOf(cs[n - 1 - i]);
    }
    if Timeline(rows) == [] {
      EmptyChart(rows, size, limit);
    } else {
      FilledJoins(rows, size, limit);
      forall i | 0 <= i < n - 1 ensures shown[i + 1].minute == shown[i].minute - size && shown[i].openEth == shown[i + 1].closeEth {
        var k := n - 2 - i;
        assert cs[k + 1].open == cs[k].close && shown[i] == Present(cs[k + 1]) && shown[i + 1] == Present(cs[k]);
      }
    }
    if forall j | 0 <= j < |rows| && Counts(rows[j]) :: ConsistentRaw(rows[j]) {
      forall i | 0 <= i < n ensures ConsistentShown(shown[i]) {
        FilledConsistent(rows, size, limit, n - 1 - i);
        PresentConsistent(cs[n - 1 - i]);
      }
    }
  }

  /** Each figure of a presented candle: the high comes from the lowest sqrt price and the low from the highest. */
  ghost predicate Figures(s: Shown, c: Candle) {
    && s.minute == c.minute && s.volume == c.volume
    && IsEthPrice(s.openEth, c.open) && IsEthPrice(s.closeEth, c.close)
    && IsEthPrice(s.highEth, c.low) && IsEthPrice(s.lowEth, c.high)
  }

  lemma FiguresOf(c: Candle)
    ensures Figures(Present(c), c)
  {
    hide EthScaled, Pow2;
    if c.open > 0 { EthScaledIs(c.open); }
    if c.close > 0 { EthScaledIs(c.close); }
    if c.low > 0 { EthScaledIs(c.low); }
    if c.high > 0 { EthScaledIs(c.high); }
  }
}
