/**
 The live one-minute bars and the ring of recent ticks (src/modules/trading/broadcaster.ts:207-282, 304-320).
 The object identity a timer compares with is a number given to each bar when it is created; a timer may
 fire at any moment, even one that was cleared. Pools are already lower-cased, timestamps are whole seconds.
 */
module LiveBars {
  import opened Arithmetic
  import Candles

  const BAR_THROTTLE_MS := 250
  const RING: nat := 30

  datatype Trade = Trade(pool: string, sqrt: int, isBuy: bool, eth: int, ts: int)

  datatype Bar = Bar(id: nat, start: int, open: int, close: int, high: int, low: int, buy: int, sell: int, trades: nat,
                     lastPush: int, timer: Option<int>)

  /** What goes out to a pool's subscribers. */
  datatype Message = Tick(trade: Trade) | Push(pool: string, bar: Bar, at: int) | Close(pool: string, bar: Bar)

  datatype State = State(bars: map<string, Bar>, ring: map<string, seq<Trade>>, nextId: nat, sent: seq<Message>)

  datatype Action = Arrives(trade: Trade, now: int) | Fires(pool: string, id: nat)

  function MinuteOf(ts: int): int {
    ts * 1000 - TruncRem(ts * 1000, MINUTE_MS)
  }

  /**
   A trade's second lies in the minute that starts at `start`: a multiple of 60 000 ms, at most a minute
   before it. Seconds before the epoch are rounded towards it, as the remainder operator does.
   */
  predicate InMinute(start: int, ts: int) {
    && start % 60_000 == 0
    && if ts >= 0 then start <= ts * 1000 < start + 60_000 else start - 60_000 < ts * 1000 <= start
  }

  /** A second lies in exactly one minute, the computed one. */
  lemma MinuteIs(ts: int, start: int)
    ensures InMinute(start, ts) <==> start == MinuteOf(ts)
  {
    if ts >= 0 {
      TruncIsFloor(ts * 1000, MINUTE_MS);
    }
  }

  function NewBar(id: nat, start: int, sqrt: int): Bar {
    Bar(id, start, sqrt, sqrt, sqrt, sqrt, 0, 0, 0, 0, None)
  }

  function Absorb(b: Bar, t: Trade): Bar {
    b.(close := t.sqrt,
       high := if t.sqrt > b.high then t.sqrt else b.high,
       low := if t.sqrt < b.low then t.sqrt else b.low,
       buy := if t.isBuy then b.buy + t.eth else b.buy,
       sell := if t.isBuy then b.sell else b.sell + t.eth,
       trades := b.trades + 1)
  }

  predicate Due(b: Bar, now: int) {
    now - b.lastPush >= BAR_THROTTLE_MS
  }

  /** Push bookkeeping and the one timer of a bar. */
  function Touched(b: Bar, now: int): Bar {
    b.(lastPush := if Due(b, now) then now else b.lastPush,
       timer := if b.timer.Some? then b.timer else Some(now + Max(b.start + MINUTE_MS - now + 50, 100)))
  }

  predicate Continues(bars: map<string, Bar>, t: Trade) {
    t.pool in bars && bars[t.pool].start == MinuteOf(t.ts)
  }

  function Ringed(ring: seq<Trade>, t: Trade): seq<Trade> {
    if |ring + [t]| > RING then (ring + [t])[1..] else ring + [t]
  }

  function RingOf(ring: map<string, seq<Trade>>, pool: string): seq<Trade> {
    if pool in ring then ring[pool] else []
  }

  /** The bar a trade goes into, before the trade. */
  function BarFor(bars: map<string, Bar>, nextId: nat, t: Trade): Bar {
    if Continues(bars, t) then bars[t.pool] else NewBar(nextId, MinuteOf(t.ts), t.sqrt)
  }

  function Replaced(bars: map<string, Bar>, t: Trade): seq<Message> {
    if !Continues(bars, t) && t.pool in bars then [Close(t.pool, bars[t.pool])] else []
  }

  /** What a trade sends: its tick, the close of the bar it replaces, and a push when one is due. */
  function Outgoing(s: State, t: Trade, now: int): seq<Message> {
    var b := Absorb(BarFor(s.bars, s.nextId, t), t);
    [Tick(t)] + Replaced(s.bars, t) + (if Due(b, now) then [Push(t.pool, b.(lastPush := now), now)] else [])
  }

  function Next(s: State, a: Action): State {
    match a
    case Arrives(t, now) =>
      State(s.bars[t.pool := Touched(Absorb(BarFor(s.bars, s.nextId, t), t), now)],
            s.ring[t.pool := Ringed(RingOf(s.ring, t.pool), t)],
            if Continues(s.bars, t) then s.nextId else s.nextId + 1,
            s.sent + Outgoing(s, t, now))
    case Fires(pool, id) =>
      if pool in s.bars && s.bars[pool].id == id
      then s.(bars := s.bars - {pool}, sent := s.sent + [Close(pool, s.bars[pool])])
      else s
  }

  const START := State(map[], map[], 0, [])

  function Run(actions: seq<Action>): State {
    if actions == [] then START else Next(Run(actions[..|actions| - 1]), actions[|actions| - 1])
  }

  // ----- the object -----

  class Broadcaster {
    var bars: map<string, Bar>
    var recentTicks: map<string, seq<Trade>>
    var nextId: nat
    var sent: seq<Message>

    ghost function View(): State
      reads this
    {
      State(bars, recentTicks, nextId, sent)
    }

    constructor ()
      ensures View() == START
    {
      bars, recentTicks, nextId, sent := map[], map[], 0, [];
    }

    /** The ring of the last thirty ticks. */
    method Remember(t: Trade)
      modifies this`recentTicks
      ensures recentTicks == old(recentTicks)[t.pool := Ringed(RingOf(old(recentTicks), t.pool), t)]
    {
      if t.pool in recentTicks {
        var ring := recentTicks[t.pool] + [t];
        if |ring| > RING { ring := ring[1..]; }
        recentTicks := recentTicks[t.pool := ring];
      } else {
        recentTicks := recentTicks[t.pool := [t]];
        assert [] + [t] == [t];
      }
    }

    /** Roll-over: close the pool's bar if it is of another minute and open a new one. */
    method Roll(t: Trade)
      modifies this`bars, this`sent, this`nextId
      ensures bars == old(bars)[t.pool := BarFor(old(bars), old(nextId), t)]
      ensures sent == old(sent) + Replaced(old(bars), t)
      ensures nextId == if Continues(old(bars), t) then old(nextId) else old(nextId) + 1
    {
      hide TruncRem;
      var bucketMs := t.ts * 1000 - TruncRem(t.ts * 1000, MINUTE_MS);
      if t.pool !in bars || bars[t.pool].start != bucketMs {
        if t.pool in bars {
          sent := sent + [Close(t.pool, bars[t.pool])];
        }
        bars := bars[t.pool := Bar(nextId, bucketMs, t.sqrt, t.sqrt, t.sqrt, t.sqrt, 0, 0, 0, 0, None)];
        nextId := nextId + 1;
      }
    }

    method Update(before: Bar, t: Trade) returns (bar: Bar)
      ensures bar == Absorb(before, t)
    {
      bar := before;
      bar := bar.(close := t.sqrt);
      bar := bar.(high := if t.sqrt > bar.high then t.sqrt else bar.high);
      bar := bar.(low := if t.sqrt < bar.low then t.sqrt else bar.low);
      if t.isBuy {
        bar := bar.(buy := bar.buy + t.eth);
      } else {
        bar := bar.(sell := bar.sell + t.eth);
      }
      bar := bar.(trades := bar.trades + 1);
    }

    /** `onTrade`. */
    method OnTrade(t: Trade, now: int)
      modifies this
      ensures View() == Next(old(View()), Arrives(t, now))
    {
      hide Ringed, RingOf, BarFor, Replaced, Continues, Absorb;
      var pool := t.pool;
      ghost var was := View();
      Remember(t);
      sent := sent + [Tick(t)];
      Roll(t);
      var bar := bars[pool];
      bar := Update(bar, t);
      assert bar == Absorb(BarFor(was.bars, was.nextId, t), t);
      if now - bar.lastPush >= BAR_THROTTLE_MS {
        bar := bar.(lastPush := now);
        sent := sent + [Push(pool, bar, now)];
      }
      assert sent == was.sent + Outgoing(was, t, now);
      if bar.timer.None? {
        var ms := bar.start + MINUTE_MS - now + 50;
        bar := bar.(timer := Some(now + Max(ms, 100)));
      }
      assert bar == Touched(Absorb(BarFor(was.bars, was.nextId, t), t), now);
      bars := bars[pool := bar];
      assert bars == was.bars[pool := bar];
    }

    /** The timer callback of bar `id`. */
    method TimerFires(pool: string, id: nat)
      modifies this
      ensures View() == Next(old(View()), Fires(pool, id))
    {
      if pool in bars && bars[pool].id == id {
        sent := sent + [Close(pool, bars[pool])];
        bars := bars - {pool};
      }
    }
  }

  // ----- partition -----

  /** The trades of a pool, in arrival order. */
  function Arrived(actions: seq<Action>, pool: string): seq<Trade> {
    if actions == [] then []
    else
      var a := actions[|actions| - 1];
      Arrived(actions[..|actions| - 1], pool) + if a.Arrives? && a.trade.pool == pool then [a.trade] else []
  }

  /** The closed bars of a pool, in sending order. */
  function Closes(sent: seq<Message>, pool: string): seq<Bar> {
    if sent == [] then []
    else
      var m := sent[|sent| - 1];
      Closes(sent[..|sent| - 1], pool) + if m.Close? && m.pool == pool then [m.bar] else []
  }

  function Current(bars: map<string, Bar>, pool: string): seq<Bar> {
    if pool in bars then [bars[pool]] else []
  }

  function Volume(ts: seq<Trade>, buys: bool): int {
    if ts == [] then 0
    else Volume(ts[..|ts| - 1], buys) + if ts[|ts| - 1].isBuy == buys then ts[|ts| - 1].eth else 0
  }

  /** A bar is the exact summary of a non-empty group of trades of one minute. */
  ghost predicate Summarizes(b: Bar, ts: seq<Trade>) {
    && ts != [] && b.trades == |ts|
    && b.open == ts[0].sqrt && b.close == ts[|ts| - 1].sqrt
    && (forall i | 0 <= i < |ts| :: InMinute(b.start, ts[i].ts) && b.low <= ts[i].sqrt <= b.high)
    && (exists i | 0 <= i < |ts| :: ts[i].sqrt == b.high)
    && (exists i | 0 <= i < |ts| :: ts[i].sqrt == b.low)
    && b.buy == Volume(ts, true) && b.sell == Volume(ts, false)
  }

  /** Consecutive bars summarize consecutive groups that together are exactly the trades. */
  ghost predicate Covers(bars: seq<Bar>, ts: seq<Trade>) {
    if bars == [] then ts == []
    else
      var b := bars[|bars| - 1];
      && b.trades <= |ts|
      && Summarizes(b, ts[|ts| - b.trades..])
      && Covers(bars[..|bars| - 1], ts[..|ts| - b.trades])
  }

  lemma SummaryGrows(b: Bar, ts: seq<Trade>, t: Trade)
    requires Summarizes(b, ts) && InMinute(b.start, t.ts)
    ensures Summarizes(Absorb(b, t), ts + [t])
  {
    hide InMinute;
    var us := ts + [t];
    assert us[..|ts|] == ts;
    var h :| 0 <= h < |ts| && ts[h].sqrt == b.high;
    var l :| 0 <= l < |ts| && ts[l].sqrt == b.low;
    assert us[h] == ts[h] && us[l] == ts[l] && us[|ts|] == t && us[0] == ts[0];
    assert us[if t.sqrt > b.high then |ts| else h].sqrt == Absorb(b, t).high;
    assert us[if t.sqrt < b.low then |ts| else l].sqrt == Absorb(b, t).low;
  }

  lemma SummaryStarts(id: nat, t: Trade)
    ensures Summarizes(Absorb(NewBar(id, MinuteOf(t.ts), t.sqrt), t), [t])
  {
    hide MinuteOf, InMinute;
    MinuteIs(t.ts, MinuteOf(t.ts));
    var us := [t];
    assert us[..0] == [] && us[0].sqrt == t.sqrt;
    assert Volume([], true) == 0 == Volume([], false);
    assert Volume(us, true) == if t.isBuy then t.eth else 0;
    assert Volume(us, false) == if t.isBuy then 0 else t.eth;
  }

  lemma SameSummary(b: Bar, now: int, ts: seq<Trade>)
    requires Summarizes(b, ts)
    ensures Summarizes(Touched(b, now), ts)
  {}

  lemma CoverAppend(bars: seq<Bar>, ts: seq<Trade>, b: Bar, group: seq<Trade>)
    requires Covers(bars, ts) && Summarizes(b, group)
    ensures Covers(bars + [b], ts + group)
  {
    hide Summarizes;
    assert b.trades == |group| by { SummaryCount(b, group); }
    assert (bars + [b])[..|bars|] == bars;
    assert (ts + group)[..|ts|] == ts && (ts + group)[|ts|..] == group;
  }

  lemma SummaryCount(b: Bar, group: seq<Trade>)
    requires Summarizes(b, group)
    ensures b.trades == |group|
  {}

  /** The bars of a pool after a trade: the last one absorbs it, or a new one starts. */
  lemma CoverTrade(closed: seq<Bar>, s: State, ts: seq<Trade>, t: Trade, now: int)
    requires Covers(closed + Current(s.bars, t.pool), ts)
    ensures var b := Touched(Absorb(BarFor(s.bars, s.nextId, t), t), now);
      Covers((if Continues(s.bars, t) then closed else closed + Current(s.bars, t.pool)) + [b], ts + [t])
  {
    hide Summarizes, MinuteOf, InMinute, Absorb, Touched;
    var b := Absorb(BarFor(s.bars, s.nextId, t), t);
    if Continues(s.bars, t) {
      var c := s.bars[t.pool];
      assert (closed + [c])[..|closed|] == closed;
      var cut := |ts| - c.trades;
      var group := ts[cut..];
      MinuteIs(t.ts, c.start);
      SummaryGrows(c, group, t);
      SameSummary(b, now, group + [t]);
      CoverAppend(closed, ts[..cut], Touched(b, now), group + [t]);
      assert ts[..cut] + (group + [t]) == ts + [t];
    } else {
      SummaryStarts(s.nextId, t);
      SameSummary(b, now, [t]);
      CoverAppend(closed + Current(s.bars, t.pool), ts, Touched(b, now), [t]);
    }
  }

  lemma ClosesOne(sent: seq<Message>, m: Message, pool: string)
    ensures Closes(sent + [m], pool) == Closes(sent, pool) + if m.Close? && m.pool == pool then [m.bar] else []
  {
    assert (sent + [m])[..|sent|] == sent;
  }

  lemma {:induction false} ClosesAppend(sent: seq<Message>, more: seq<Message>, pool: string)
    ensures Closes(sent + more, pool) == Closes(sent, pool) + Closes(more, pool)
  {
    if more == [] {
      assert sent + more == sent;
    } else {
      ClosesAppend(sent, more[..|more| - 1], pool);
      assert sent + more == (sent + more[..|more| - 1]) + [more[|more| - 1]];
      ClosesOne(sent + more[..|more| - 1], more[|more| - 1], pool);
    }
  }

  /** What a trade's messages close: the replaced bar, in its own pool only. */
  lemma OutgoingCloses(s: State, t: Trade, now: int, pool: string)
    ensures Closes(Outgoing(s, t, now), pool)
         == if pool == t.pool && !Continues(s.bars, t) then Current(s.bars, pool) else []
  {
    hide Absorb, MinuteOf, Closes, Continues, Due;
    var b := Absorb(BarFor(s.bars, s.nextId, t), t);
    var one := [Tick(t)];
    var two := if !Continues(s.bars, t) && t.pool in s.bars then [Close(t.pool, s.bars[t.pool])] else [];
    var three := if Due(b, now) then [Push(t.pool, b.(lastPush := now), now)] else [];
    assert Outgoing(s, t, now) == one + two + three;
    ClosesAppend(one + two, three, pool);
    ClosesAppend(one, two, pool);
    NoMessages(pool);
    ClosesSingle(Tick(t), pool);
    ClosesSingle(Close(t.pool, if t.pool in s.bars then s.bars[t.pool] else b), pool);
    ClosesSingle(Push(t.pool, b.(lastPush := now), now), pool);
  }

  lemma NoMessages(pool: string)
    ensures Closes([], pool) == []
  {}

  lemma ClosesSingle(m: Message, pool: string)
    ensures Closes([m], pool) == if m.Close? && m.pool == pool then [m.bar] else []
  {
    assert [m] == [] + [m];
    ClosesOne([], m, pool);
    NoMessages(pool);
  }

  lemma CoversStep(s: State, a: Action, ts: seq<Trade>, pool: string)
    requires Covers(Closes(s.sent, pool) + Current(s.bars, pool), ts)
    ensures var s' := Next(s, a);
      Covers(Closes(s'.sent, pool) + Current(s'.bars, pool), ts + if a.Arrives? && a.trade.pool == pool then [a.trade] else [])
  {
    hide Covers, Closes, Absorb, Touched, Outgoing, Continues, BarFor;
    var s' := Next(s, a);
    var cs := Closes(s.sent, pool);
    match a
    case Arrives(t, now) =>
      ClosesAppend(s.sent, Outgoing(s, t, now), pool);
      OutgoingCloses(s, t, now, pool);
      assert cs + [] == cs && ts + [] == ts;
      if pool == t.pool {
        CoverTrade(cs, s, ts, t, now);
      }
    case Fires(p, id) =>
      assert ts + [] == ts;
      if p in s.bars && s.bars[p].id == id {
        ClosesOne(s.sent, Close(p, s.bars[p]), pool);
        assert (cs + [s.bars[p]]) + [] == cs + [s.bars[p]];
        assert cs + [] == cs;
      }
  }

  /**
   Partition. After every run, the bars closed so far of a pool, followed by the bar now in the map if
   there is one, summarize consecutive non-empty groups of its trades, each of one minute, and these
   groups together are exactly the pool's trades in arrival order.
   */
  lemma {:induction false} BarsPartitionTrades(actions: seq<Action>, pool: string)
    ensures Covers(Closes(Run(actions).sent, pool) + Current(Run(actions).bars, pool), Arrived(actions, pool))
  {
    hide Next, Covers;
    if actions == [] {
      NothingCovered(pool);
    } else {
      var n := |actions| - 1;
      BarsPartitionTrades(actions[..n], pool);
      CoversStep(Run(actions[..n]), actions[n], Arrived(actions[..n], pool), pool);
    }
  }

  lemma NothingCovered(pool: string)
    ensures Covers(Closes(START.sent, pool) + Current(START.bars, pool), [])
  {}

  function TradesIn(bars: seq<Bar>): nat {
    if bars == [] then 0 else TradesIn(bars[..|bars| - 1]) + bars[|bars| - 1].trades
  }

  lemma {:induction false} CoversCount(bars: seq<Bar>, ts: seq<Trade>)
    requires Covers(bars, ts)
    ensures TradesIn(bars) == |ts|
  {
    hide Summarizes;
    if bars != [] {
      CoversCount(bars[..|bars| - 1], ts[..|ts| - bars[|bars| - 1].trades]);
    }
  }

  /** Every trade of a pool is in exactly one of its bars: the bars' counts add up to the trades that arrived. */
  lemma EveryTradeInOneBar(actions: seq<Action>, pool: string)
    ensures TradesIn(Closes(Run(actions).sent, pool) + Current(Run(actions).bars, pool)) == |Arrived(actions, pool)|
  {
    hide Run, Closes, Current, Arrived;
    BarsPartitionTrades(actions, pool);
    CoversCount(Closes(Run(actions).sent, pool) + Current(Run(actions).bars, pool), Arrived(actions, pool));
  }

  // ----- what one trade does -----

  /**
   A trade stays in the pool's bar exactly when it is of that bar's minute; otherwise the bar is replaced by
   a new one of the trade's minute, whose timer is due 50 ms after the minute ends and no sooner than in 100 ms.
   */
  lemma RollsIff(s: State, t: Trade, now: int)
    requires IdsOk(s)
    ensures var bars' := Next(s, Arrives(t, now)).bars;
      && t.pool in bars' && InMinute(bars'[t.pool].start, t.ts)
      && (t.pool in s.bars ==> (bars'[t.pool].id == s.bars[t.pool].id <==> InMinute(s.bars[t.pool].start, t.ts)))
      && (if t.pool in s.bars && InMinute(s.bars[t.pool].start, t.ts)
          then bars'[t.pool].trades == s.bars[t.pool].trades + 1 && bars'[t.pool].timer == s.bars[t.pool].timer
          else bars'[t.pool].id == s.nextId && bars'[t.pool].trades == 1
               && bars'[t.pool].timer == Some(Max(bars'[t.pool].start + 60_050, now + 100)))
      && (forall p | p != t.pool :: p in bars' <==> p in s.bars)
      && (forall p | p != t.pool && p in s.bars :: bars'[p] == s.bars[p])
  {
    hide MinuteOf, InMinute, Ringed, RingOf, Outgoing;
    MinuteIs(t.ts, MinuteOf(t.ts));
    if t.pool in s.bars {
      MinuteIs(t.ts, s.bars[t.pool].start);
    }
  }

  /** Same figures, whatever the push and timer bookkeeping. */
  ghost predicate SameFigures(a: Bar, b: Bar) {
    a.(lastPush := b.lastPush, timer := b.timer) == b
  }

  /**
   What a trade sends, in order: its tick; the close of the bar it replaces, as that bar stood; and the
   new state of its bar, exactly when at least 250 ms have passed since the bar's last push.
   */
  lemma TradeSends(s: State, t: Trade, now: int)
    ensures var s' := Next(s, Arrives(t, now));
      var sent := s'.sent[|s.sent|..];
      var rolled := t.pool in s.bars && !InMinute(s.bars[t.pool].start, t.ts);
      var last := if t.pool in s.bars && !rolled then s.bars[t.pool].lastPush else 0;
      && |s'.sent| >= |s.sent| && s'.sent[..|s.sent|] == s.sent
      && |sent| == 1 + (if rolled then 1 else 0) + (if now - last >= 250 then 1 else 0)
      && sent[0] == Tick(t)
      && (rolled ==> sent[1] == Close(t.pool, s.bars[t.pool]))
      && (now - last >= 250 ==>
            var m := sent[|sent| - 1];
            m.Push? && m.pool == t.pool && m.at == now && SameFigures(m.bar, s'.bars[t.pool]))
  {
    hide MinuteOf, InMinute, Ringed, RingOf, Absorb;
    if t.pool in s.bars {
      MinuteIs(t.ts, s.bars[t.pool].start);
    }
    AbsorbKeeps(BarFor(s.bars, s.nextId, t), t);
    var s' := Next(s, Arrives(t, now));
    assert s'.sent[|s.sent|..] == Outgoing(s, t, now);
  }

  lemma AbsorbKeeps(b: Bar, t: Trade)
    ensures Absorb(b, t).lastPush == b.lastPush && Absorb(b, t).timer == b.timer && Absorb(b, t).id == b.id && Absorb(b, t).start == b.start
  {}

  // ----- the ring -----

  /** The ring of a pool is exactly its last thirty trades, or all of them if there were fewer. */
  lemma {:induction false} RingIsRecent(actions: seq<Action>, pool: string)
    ensures var ts := Arrived(actions, pool);
      RingOf(Run(actions).ring, pool) == if |ts| <= 30 then ts else ts[|ts| - 30..]
  {
    hide Absorb, Touched, Outgoing, Continues, BarFor;
    if actions != [] {
      RingIsRecent(actions[..|actions| - 1], pool);
    }
  }

  // ----- one close per bar -----

  function CloseCount(sent: seq<Message>, id: nat): nat {
    if sent == [] then 0
    else
      var m := sent[|sent| - 1];
      CloseCount(sent[..|sent| - 1], id) + if m.Close? && m.bar.id == id then 1 else 0
  }

  ghost predicate Open(bars: map<string, Bar>, id: nat) {
    exists p :: p in bars && bars[p].id == id
  }

  ghost predicate IdsOk(s: State) {
    && (forall p | p in s.bars :: s.bars[p].id < s.nextId && s.bars[p].timer.Some?)
    && (forall p, q | p in s.bars && q in s.bars && p != q :: s.bars[p].id != s.bars[q].id)
  }

  /** Closed exactly once if it has left the map, never while it is in it. */
  ghost predicate ClosedOk(s: State) {
    forall id: nat :: CloseCount(s.sent, id) == if id < s.nextId && !Open(s.bars, id) then 1 else 0
  }

  lemma CountOne(sent: seq<Message>, m: Message, id: nat)
    ensures CloseCount(sent + [m], id) == CloseCount(sent, id) + if m.Close? && m.bar.id == id then 1 else 0
  {
    assert (sent + [m])[..|sent|] == sent;
  }

  lemma OutgoingCount(s: State, t: Trade, now: int, id: nat)
    ensures CloseCount(s.sent + Outgoing(s, t, now), id) == CloseCount(s.sent, id)
         + if !Continues(s.bars, t) && t.pool in s.bars && s.bars[t.pool].id == id then 1 else 0
  {
    hide Absorb, Continues, Due, CloseCount;
    var b := Absorb(BarFor(s.bars, s.nextId, t), t);
    var one := s.sent + [Tick(t)];
    CountOne(s.sent, Tick(t), id);
    var two := if !Continues(s.bars, t) && t.pool in s.bars then one + [Close(t.pool, s.bars[t.pool])] else one;
    if !Continues(s.bars, t) && t.pool in s.bars {
      CountOne(one, Close(t.pool, s.bars[t.pool]), id);
    }
    CountOne(two, Push(t.pool, b.(lastPush := now), now), id);
    var three := if Due(b, now) then two + [Push(t.pool, b.(lastPush := now), now)] else two;
    assert s.sent + Outgoing(s, t, now) == three;
  }

  lemma IdsStep(s: State, a: Action)
    requires IdsOk(s)
    ensures IdsOk(Next(s, a))
  {
    hide Outgoing, MinuteOf, Ringed, RingOf;
  }

  lemma ClosedStep(s: State, a: Action)
    requires IdsOk(s) && ClosedOk(s)
    ensures ClosedOk(Next(s, a))
  {
    hide Outgoing, MinuteOf, Ringed, RingOf, CloseCount, Due, Open, Continues;
    var s' := Next(s, a);
    forall id: nat ensures CloseCount(s'.sent, id) == if id < s'.nextId && !Open(s'.bars, id) then 1 else 0 {
      match a
      case Arrives(t, now) =>
        OutgoingCount(s, t, now, id);
        OpenAfterTrade(s, t, now, id);
        OpenBelow(s, id);
      case Fires(p, i) =>
        if p in s.bars && s.bars[p].id == i {
          CountOne(s.sent, Close(p, s.bars[p]), id);
          OpenAfterClose(s, p, id);
          OpenBelow(s, id);
        }
    }
  }

  lemma OpenBelow(s: State, id: nat)
    requires IdsOk(s)
    ensures Open(s.bars, id) ==> id < s.nextId
  {}

  lemma OpenAfterClose(s: State, p: string, id: nat)
    requires IdsOk(s) && p in s.bars
    ensures Open(s.bars - {p}, id) <==> Open(s.bars, id) && s.bars[p].id != id
    ensures Open(s.bars, s.bars[p].id)
  {
    if Open(s.bars, id) && s.bars[p].id != id {
      var q :| q in s.bars && s.bars[q].id == id;
      assert q in s.bars - {p};
    }
  }

  lemma OpenAfterTrade(s: State, t: Trade, now: int, id: nat)
    requires IdsOk(s)
    ensures Open(Next(s, Arrives(t, now)).bars, id)
       <==> if Continues(s.bars, t) then Open(s.bars, id)
            else id == s.nextId || (Open(s.bars, id) && !(t.pool in s.bars && s.bars[t.pool].id == id))
    ensures t.pool in s.bars ==> Open(s.bars, s.bars[t.pool].id)
  {
    hide Outgoing, MinuteOf, Ringed, RingOf, Due;
    var bars' := Next(s, Arrives(t, now)).bars;
    assert bars'[t.pool].id == if Continues(s.bars, t) then s.bars[t.pool].id else s.nextId;
    if Open(s.bars, id) {
      var q :| q in s.bars && s.bars[q].id == id;
      assert q in bars';
      assert q != t.pool ==> bars'[q] == s.bars[q];
    }
    assert t.pool in bars';
    if Open(bars', id) {
      var q :| q in bars' && bars'[q].id == id;
      assert q != t.pool ==> bars'[q] == s.bars[q];
    }
  }

  /**
   After every run, a bar that was ever opened (its number is below nextId) has been closed exactly
   once if it is no longer in the map and not at all if it still is; every bar in the map has a timer.
   */
  lemma {:induction false} ClosedExactlyOnce(actions: seq<Action>)
    ensures IdsOk(Run(actions)) && ClosedOk(Run(actions))
  {
    hide Next, IdsOk, ClosedOk;
    if actions == [] {
      NothingClosed();
    } else {
      var n := |actions| - 1;
      ClosedExactlyOnce(actions[..n]);
      IdsStep(Run(actions[..n]), actions[n]);
      ClosedStep(Run(actions[..n]), actions[n]);
    }
  }

  lemma NothingClosed()
    ensures IdsOk(START) && ClosedOk(START)
  {}

  // ----- throttling -----

  /** When the pushes of a bar were sent. */
  function Pushes(sent: seq<Message>, id: nat): seq<int> {
    if sent == [] then []
    else
      var m := sent[|sent| - 1];
      Pushes(sent[..|sent| - 1], id) + if m.Push? && m.bar.id == id then [m.at] else []
  }

  ghost predicate Spaced(times: seq<int>) {
    forall i | 0 <= i < |times| - 1 :: times[i + 1] - times[i] >= 250
  }

  /** The last push of an open bar is on record, and a bar not opened yet has none. */
  ghost predicate PushesOk(s: State) {
    && (forall id: nat :: Spaced(Pushes(s.sent, id)))
    && (forall id: nat | id >= s.nextId :: Pushes(s.sent, id) == [])
    && (forall p | p in s.bars :: LastPush(s.bars[p].lastPush, Pushes(s.sent, s.bars[p].id)))
  }

  ghost predicate LastPush(lastPush: int, times: seq<int>) {
    times != [] ==> times[|times| - 1] == lastPush
  }

  lemma PushesOne(sent: seq<Message>, m: Message, id: nat)
    ensures Pushes(sent + [m], id) == Pushes(sent, id) + if m.Push? && m.bar.id == id then [m.at] else []
  {
    assert (sent + [m])[..|sent|] == sent;
  }

  lemma OutgoingPushes(s: State, t: Trade, now: int, id: nat)
    ensures Pushes(s.sent + Outgoing(s, t, now), id) == Pushes(s.sent, id)
         + if Due(BarFor(s.bars, s.nextId, t), now) && BarFor(s.bars, s.nextId, t).id == id then [now] else []
  {
    hide Continues, BarFor, Pushes;
    var b := Absorb(BarFor(s.bars, s.nextId, t), t);
    assert Due(b, now) <==> Due(BarFor(s.bars, s.nextId, t), now);
    var one := s.sent + [Tick(t)];
    PushesOne(s.sent, Tick(t), id);
    var two := if !Continues(s.bars, t) && t.pool in s.bars then one + [Close(t.pool, s.bars[t.pool])] else one;
    if !Continues(s.bars, t) && t.pool in s.bars {
      PushesOne(one, Close(t.pool, s.bars[t.pool]), id);
    }
    PushesOne(two, Push(t.pool, b.(lastPush := now), now), id);
    var three := if Due(b, now) then two + [Push(t.pool, b.(lastPush := now), now)] else two;
    assert s.sent + Outgoing(s, t, now) == three;
    assert Pushes(s.sent, id) + [] == Pushes(s.sent, id);
  }

  lemma SpacedAppend(times: seq<int>, now: int)
    requires Spaced(times) && (times != [] ==> now - times[|times| - 1] >= 250)
    ensures Spaced(times + [now])
  {}

  lemma PushesOfBar(s: State, t: Trade, now: int, id: nat)
    requires IdsOk(s) && PushesOk(s)
    ensures var s' := Next(s, Arrives(t, now));
      Spaced(Pushes(s'.sent, id)) && (id >= s'.nextId ==> Pushes(s'.sent, id) == [])
  {
    hide Outgoing, MinuteOf, Ringed, RingOf, Pushes;
    OutgoingPushes(s, t, now, id);
    var b := BarFor(s.bars, s.nextId, t);
    assert Spaced(Pushes(s.sent, id));
    assert LastPush(b.lastPush, Pushes(s.sent, b.id));
    assert Pushes(s.sent, id) + [] == Pushes(s.sent, id);
    if Due(b, now) && b.id == id {
      SpacedAppend(Pushes(s.sent, id), now);
    }
  }

  lemma PushesOfPool(s: State, t: Trade, now: int, p: string)
    requires IdsOk(s) && PushesOk(s) && p in Next(s, Arrives(t, now)).bars
    ensures var s' := Next(s, Arrives(t, now));
      LastPush(s'.bars[p].lastPush, Pushes(s'.sent, s'.bars[p].id))
  {
    hide Outgoing, MinuteOf, Ringed, RingOf, Pushes, Spaced;
    var s' := Next(s, Arrives(t, now));
    var b := BarFor(s.bars, s.nextId, t);
    var id := s'.bars[p].id;
    OutgoingPushes(s, t, now, id);
    assert Pushes(s.sent, id) + [] == Pushes(s.sent, id);
    assert LastPush(b.lastPush, Pushes(s.sent, b.id));
    if p != t.pool {
      assert s'.bars[p] == s.bars[p] && s.bars[p].id != b.id;
    }
  }

  lemma PushesTrade(s: State, t: Trade, now: int)
    requires IdsOk(s) && PushesOk(s)
    ensures PushesOk(Next(s, Arrives(t, now)))
  {
    hide Next, Pushes, Spaced, LastPush;
    var s' := Next(s, Arrives(t, now));
    forall id: nat ensures Spaced(Pushes(s'.sent, id)) && (id >= s'.nextId ==> Pushes(s'.sent, id) == []) {
      PushesOfBar(s, t, now, id);
    }
    forall p | p in s'.bars ensures LastPush(s'.bars[p].lastPush, Pushes(s'.sent, s'.bars[p].id)) {
      PushesOfPool(s, t, now, p);
    }
  }

  lemma PushesFire(s: State, pool: string, id: nat)
    requires PushesOk(s)
    ensures PushesOk(Next(s, Fires(pool, id)))
  {
    hide Pushes;
    if pool in s.bars && s.bars[pool].id == id {
      forall i: nat ensures Pushes(s.sent + [Close(pool, s.bars[pool])], i) == Pushes(s.sent, i) {
        PushesOne(s.sent, Close(pool, s.bars[pool]), i);
      }
    }
  }

  /** Throttling: over every run, whatever the clock does, consecutive pushes of one bar are at least 250 ms apart. */
  lemma {:induction false} PushesAreSpaced(actions: seq<Action>)
    ensures PushesOk(Run(actions))
  {
    hide Next, PushesOk;
    if actions == [] {
      NothingPushed();
    } else {
      var n := |actions| - 1;
      PushesAreSpaced(actions[..n]);
      ClosedExactlyOnce(actions[..n]);
      match actions[n]
      case Arrives(t, now) => PushesTrade(Run(actions[..n]), t, now);
      case Fires(pool, id) => PushesFire(Run(actions[..n]), pool, id);
    }
  }

  lemma NothingPushed()
    ensures PushesOk(START)
  {}

  // ----- what subscribers see -----

  /** `barMessage`: the start in seconds, and prices on the inverted ETH axis. */
  datatype Shown = Shown(start: int, open: Option<int>, high: Option<int>, low: Option<int>, close: Option<int>,
                         volume: int, buyVolume: int, sellVolume: int, trades: nat)

  function BarMessage(b: Bar): Shown {
    Shown(b.start / 1000, Candles.EthScaled(b.open), Candles.EthScaled(b.low), Candles.EthScaled(b.high), Candles.EthScaled(b.close),
          b.buy + b.sell, b.buy, b.sell, b.trades)
  }

  /**
   The message of a summary of trades at positive prices: its minute in seconds, the ETH prices of the
   first, last, lowest and highest sqrt price with the extremes around open and close, and what was traded.
   */
  lemma MessageConsistent(b: Bar, ts: seq<Trade>)
    requires Summarizes(b, ts) && forall i | 0 <= i < |ts| :: ts[i].sqrt > 0
    ensures var m := BarMessage(b);
      && m.start * 1000 == b.start && m.start % 60 == 0 && m.trades == |ts|
      && Candles.IsEthPrice(m.open, ts[0].sqrt) && Candles.IsEthPrice(m.close, ts[|ts| - 1].sqrt)
      && Candles.IsEthPrice(m.high, b.low) && Candles.IsEthPrice(m.low, b.high) && 0 < b.low
      && m.open.Some? && m.high.Some? && m.low.Some? && m.close.Some?
      && m.low.value <= m.open.value <= m.high.value && m.low.value <= m.close.value <= m.high.value
      && m.buyVolume == Volume(ts, true) && m.sellVolume == Volume(ts, false) && m.volume == m.buyVolume + m.sellVolume
  {
    var l :| 0 <= l < |ts| && ts[l].sqrt == b.low;
    assert InMinute(b.start, ts[0].ts);
    StartSeconds(b.start);
    hide Candles.EthScaled, Candles.IsEthPrice, Volume, InMinute;
    assert b.low <= ts[0].sqrt <= b.high && b.low <= ts[|ts| - 1].sqrt <= b.high;
    MessagePrices(b);
  }

  lemma StartSeconds(start: int)
    requires start % 60_000 == 0
    ensures start / 1000 * 1000 == start && start / 1000 % 60 == 0
  {}

  lemma MessagePrices(b: Bar)
    requires 0 < b.low && b.low <= b.open <= b.high && b.low <= b.close <= b.high
    ensures var m := BarMessage(b);
      && Candles.IsEthPrice(m.open, b.open) && Candles.IsEthPrice(m.close, b.close)
      && Candles.IsEthPrice(m.high, b.low) && Candles.IsEthPrice(m.low, b.high)
      && m.open.Some? && m.high.Some? && m.low.Some? && m.close.Some?
      && m.low.value <= m.open.value <= m.high.value && m.low.value <= m.close.value <= m.high.value
  {
    hide Candles.EthScaled, Candles.IsEthPrice;
    Candles.EthAntitone(b.low, b.open);
    Candles.EthAntitone(b.open, b.high);
    Candles.EthAntitone(b.low, b.close);
    Candles.EthAntitone(b.close, b.high);
    Candles.EthScaledIs(b.open);
    Candles.EthScaledIs(b.close);
    Candles.EthScaledIs(b.low);
    Candles.EthScaledIs(b.high);
  }
}
