/**
 The comment cache protocol as interleaved atomic steps: transactions that bump a generation and
 write an outbox row (src/modules/comments/comment-cache-generation.ts), best-effort and leased
 at-least-once delivery of generations to Redis, and readers that cache pages under the generation
 they saw (src/modules/comments/comments.service.ts:119-154, 237-245). Any Redis call may fail, any
 batch may crash, leases expire with the clock, and cached pages may vanish at any time; generation
 keys are never lost.
 */
module CacheProtocol {
  import opened Arithmetic
  import opened Outbox

  /** What one statement of a query saw: the content of a domain at some version. */
  datatype Snapshot<C> = Snapshot(version: nat, query: string, content: C)

  /** A page is built by several statements, each of which may see a later version than the one before. */
  type Page<C> = seq<Snapshot<C>>

  datatype Phase<C> =
    | NeedKey                            // Redis had no generation: ask the database
    | HaveKey(key: nat)                  // look the page up under this generation
    | Reading(key: nat, parts: Page<C>)  // cache miss: query the database, then store and answer
    | Answered(page: Page<C>)

  /** One `list` call. `floor` records the Redis generation when the call began. */
  datatype Reader<C> = Reader(domain: string, query: string, floor: nat, phase: Phase<C>)

  datatype Status = Running | Returned | Crashed

  /** One `dispatchBatch` call; its lease owner is its position in the list of batches. */
  datatype Batch = Batch(queue: seq<nat>, applied: bool, count: nat, status: Status)

  datatype State<C> = State(
    clock: int,
    initial: C,
    db: map<string, seq<C>>,             // per domain, the content after each generation
    rows: seq<Event>,
    redis: map<string, nat>,
    delivered: seq<(string, nat)>,       // every generation the script was given
    batches: seq<Batch>,
    pages: map<(string, nat, string), Page<C>>,
    readers: seq<Reader<C>>)

  datatype Action<C> =
    | Commit(domain: string, content: C)
    | OtherTopic(domain: string)
    | Direct(domain: string, generation: nat)
    | Tick(ms: nat)
    | Claim
    | ApplyHead(batch: nat)
    | FinalizeHead(batch: nat)
    | FailHead(batch: nat)
    | Return(batch: nat)
    | Crash(batch: nat)
    | StartRead(domain: string, query: string, redisUp: bool)
    | ReadPersisted(reader: nat)
    | Lookup(reader: nat, redisUp: bool)
    | QueryDatabase(reader: nat)
    | StorePage(reader: nat, redisUp: bool)
    | Expire(entry: (string, nat, string))

  function History<C>(db: map<string, seq<C>>, domain: string): seq<C> {
    if domain in db then db[domain] else []
  }

  /** The persisted generation; no row counts as zero. */
  function Generation<C>(db: map<string, seq<C>>, domain: string): nat {
    |History(db, domain)|
  }

  function ContentAt<C>(initial: C, db: map<string, seq<C>>, domain: string, version: nat): C
    requires version <= Generation(db, domain)
  {
    if version == 0 then initial else History(db, domain)[version - 1]
  }

  function NewEvent(domain: string, generation: nat, supported: bool, now: int): Event {
    Event(domain, generation, supported, now, None, None, false, 0)
  }

  predicate RunningBatch(batches: seq<Batch>, b: nat) {
    b < |batches| && batches[b].status == Running
  }

  predicate HasHead(batches: seq<Batch>, b: nat) {
    RunningBatch(batches, b) && batches[b].queue != []
  }

  /** One atomic step; an action that is not enabled changes nothing. */
  function Next<C>(s: State<C>, a: Action<C>): State<C> {
    match a
    case Commit(d, content) =>
      var g := Generation(s.db, d) + 1;
      s.(db := s.db[d := History(s.db, d) + [content]], rows := s.rows + [NewEvent(d, g, true, s.clock)])
    case OtherTopic(d) =>
      s.(rows := s.rows + [NewEvent(d, 0, false, s.clock)])
    case Direct(d, g) =>
      if 1 <= g <= Generation(s.db, d) then Deliver(s, d, g) else s
    case Tick(ms) => s.(clock := s.clock + ms)
    case Claim =>
      var ids := ClaimIds(s.rows, s.clock, 0, BATCH_SIZE);
      s.(rows := ClaimRows(s.rows, ids, |s.batches|, s.clock), batches := s.batches + [Batch(ids, false, 0, Running)])
    case ApplyHead(b) =>
      if HasHead(s.batches, b) && s.batches[b].queue[0] < |s.rows| && s.rows[s.batches[b].queue[0]].supported then
        var e := s.rows[s.batches[b].queue[0]];
        Deliver(s, e.domain, e.generation).(batches := s.batches[b := s.batches[b].(applied := true)])
      else s
    case FinalizeHead(b) =>
      if HasHead(s.batches, b) && s.batches[b].applied then
        var id := s.batches[b].queue[0];
        var one := if Holds(s.rows, id, b) then 1 else 0;
        s.(rows := FinalizeRow(s.rows, id, b),
           batches := s.batches[b := Batch(s.batches[b].queue[1..], false, s.batches[b].count + one, Running)])
      else s
    case FailHead(b) =>
      if HasHead(s.batches, b) then
        s.(rows := FailRow(s.rows, s.batches[b].queue[0], b),
           batches := s.batches[b := Batch(s.batches[b].queue[1..], false, s.batches[b].count, Running)])
      else s
    case Return(b) =>
      if RunningBatch(s.batches, b) && s.batches[b].queue == []
      then s.(batches := s.batches[b := s.batches[b].(status := Returned)]) else s
    case Crash(b) =>
      if RunningBatch(s.batches, b) then s.(batches := s.batches[b := s.batches[b].(status := Crashed)]) else s
    case StartRead(d, q, redisUp) =>
      var g := if redisUp then RedisGeneration(s.redis, d) else 0;
      s.(readers := s.readers + [Reader(d, q, RedisGeneration(s.redis, d), if g > 0 then HaveKey(g) else NeedKey)])
    case ReadPersisted(r) =>
      if r < |s.readers| && s.readers[r].phase.NeedKey?
      then Moved(s, r, HaveKey(Generation(s.db, s.readers[r].domain))) else s
    case Lookup(r, redisUp) =>
      if r < |s.readers| && s.readers[r].phase.HaveKey? then
        var entry := (s.readers[r].domain, s.readers[r].phase.key, s.readers[r].query);
        Moved(s, r, if redisUp && entry in s.pages then Answered(s.pages[entry]) else Reading(s.readers[r].phase.key, []))
      else s
    case QueryDatabase(r) =>
      if r < |s.readers| && s.readers[r].phase.Reading? then
        var d := s.readers[r].domain;
        var v := Generation(s.db, d);
        Moved(s, r, Reading(s.readers[r].phase.key, s.readers[r].phase.parts + [Snapshot(v, s.readers[r].query, ContentAt(s.initial, s.db, d, v))]))
      else s
    case StorePage(r, redisUp) =>
      if r < |s.readers| && s.readers[r].phase.Reading? && s.readers[r].phase.parts != [] then
        var x := s.readers[r];
        var entry := (x.domain, x.phase.key, x.query);
        Moved(if redisUp then s.(pages := s.pages[entry := x.phase.parts]) else s, r, Answered(x.phase.parts))
      else s
    case Expire(entry) => s.(pages := s.pages - {entry})
  }

  function Deliver<C>(s: State<C>, d: string, g: nat): State<C> {
    s.(redis := Apply(s.redis, d, g), delivered := s.delivered + [(d, g)])
  }

  function Moved<C>(s: State<C>, r: nat, phase: Phase<C>): State<C>
    requires r < |s.readers|
  {
    s.(readers := s.readers[r := s.readers[r].(phase := phase)])
  }

  ghost predicate Init<C(!new)>(s: State<C>) {
    s.db == map[] && s.rows == [] && s.redis == map[] && s.delivered == [] && s.batches == [] && s.pages == map[] && s.readers == []
  }

  function Run<C>(s: State<C>, actions: seq<Action<C>>): State<C> {
    if actions == [] then s else Next(Run(s, actions[..|actions| - 1]), actions[|actions| - 1])
  }

  // ----- invariants, one per part of the state -----

  /** Redis holds exactly the greatest generation delivered, and never one the database has not reached. */
  ghost predicate RedisOk<C(!new)>(redis: map<string, nat>, delivered: seq<(string, nat)>, db: map<string, seq<C>>) {
    && (forall d :: RedisGeneration(redis, d) == Greatest(delivered, d))
    && (forall d :: RedisGeneration(redis, d) <= Generation(db, d))
  }

  function Greatest(delivered: seq<(string, nat)>, domain: string): nat {
    if delivered == [] then 0
    else
      var (d, g) := delivered[|delivered| - 1];
      var rest := Greatest(delivered[..|delivered| - 1], domain);
      if d == domain then Max(rest, g) else rest
  }

  /** Every row of ours carries a committed generation. */
  ghost predicate RowsOk<C(!new)>(rows: seq<Event>, db: map<string, seq<C>>) {
    forall i | 0 <= i < |rows| && rows[i].supported :: 1 <= rows[i].generation <= Generation(db, rows[i].domain)
  }

  /** Every committed generation has its own row. */
  ghost predicate Covered<C(!new)>(rows: seq<Event>, db: map<string, seq<C>>) {
    forall d, g | 1 <= g <= Generation(db, d) :: HasRow(rows, d, g)
  }

  ghost predicate HasRow(rows: seq<Event>, d: string, g: nat) {
    exists i :: 0 <= i < |rows| && rows[i].supported && rows[i].domain == d && rows[i].generation == g
  }

  /** Published means delivered. */
  ghost predicate PublishedOk(rows: seq<Event>, redis: map<string, nat>) {
    forall i | 0 <= i < |rows| && rows[i].published ::
      rows[i].supported && rows[i].generation <= RedisGeneration(redis, rows[i].domain)
  }

  /** A batch that applied its head event did deliver that event's generation. */
  ghost predicate BatchesOk(batches: seq<Batch>, rows: seq<Event>, redis: map<string, nat>) {
    && (forall b | 0 <= b < |batches| :: forall k | 0 <= k < |batches[b].queue| :: batches[b].queue[k] < |rows|)
    && (forall b | 0 <= b < |batches| && batches[b].applied && batches[b].queue != [] ::
          AppliedHead(batches[b].queue[0], rows, redis))
  }

  ghost predicate AppliedHead(id: nat, rows: seq<Event>, redis: map<string, nat>) {
    id < |rows| && rows[id].supported && rows[id].generation <= RedisGeneration(redis, rows[id].domain)
  }

  function CountAll(batches: seq<Batch>): nat {
    if batches == [] then 0 else CountAll(batches[..|batches| - 1]) + batches[|batches| - 1].count
  }

  /** A page filed under generation g shows the domain at versions no older than g. */
  ghost predicate PagesOk<C(!new)>(pages: map<(string, nat, string), Page<C>>, initial: C, db: map<string, seq<C>>) {
    forall e | e in pages :: pages[e] != [] && Built(pages[e], e.1, e.2, initial, db, e.0)
  }

  /** Every part of a page answers the query with what its domain held at some version, from `low` on, in ascending order. */
  ghost predicate Built<C(!new)>(page: Page<C>, low: nat, q: string, initial: C, db: map<string, seq<C>>, d: string) {
    && (forall i | 0 <= i < |page| :: low <= page[i].version && Genuine(page[i], q, initial, db, d))
    && (forall i, j | 0 <= i < j < |page| :: page[i].version <= page[j].version)
  }

  ghost predicate Genuine<C(!new)>(p: Snapshot<C>, q: string, initial: C, db: map<string, seq<C>>, d: string) {
    p.query == q && p.version <= Generation(db, d) && p.content == ContentAt(initial, db, d, p.version)
  }

  /** A reader's key is at least its floor, and every part of its page at least its key. */
  ghost predicate ReaderOk<C(!new)>(r: Reader<C>, initial: C, redis: map<string, nat>, db: map<string, seq<C>>) {
    && r.floor <= RedisGeneration(redis, r.domain)
    && match r.phase
       case NeedKey => true
       case HaveKey(key) => r.floor <= key <= Generation(db, r.domain)
       case Reading(key, parts) => r.floor <= key <= Generation(db, r.domain) && Built(parts, key, r.query, initial, db, r.domain)
       case Answered(page) => page != [] && Built(page, r.floor, r.query, initial, db, r.domain)
  }

  ghost predicate ReadersOk<C(!new)>(readers: seq<Reader<C>>, initial: C, redis: map<string, nat>, db: map<string, seq<C>>) {
    forall i | 0 <= i < |readers| :: ReaderOk(readers[i], initial, redis, db)
  }

  ghost predicate Inv<C(!new)>(s: State<C>) {
    && RedisOk(s.redis, s.delivered, s.db)
    && RowsOk(s.rows, s.db)
    && Covered(s.rows, s.db)
    && PublishedOk(s.rows, s.redis)
    && BatchesOk(s.batches, s.rows, s.redis)
    && CountAll(s.batches) == CountPublished(s.rows)
    && PagesOk(s.pages, s.initial, s.db)
    && ReadersOk(s.readers, s.initial, s.redis, s.db)
  }

  lemma InitInv<C(!new)>(s: State<C>)
    requires Init(s)
    ensures Inv(s)
  {}

  // ----- commits -----

  lemma CommitHistory<C>(db: map<string, seq<C>>, d: string, content: C, other: string)
    ensures var db' := db[d := History(db, d) + [content]];
      && History(db, other) <= History(db', other)
      && Generation(db', other) == Generation(db, other) + (if other == d then 1 else 0)
  {}

  lemma BuiltStays<C(!new)>(page: Page<C>, low: nat, q: string, initial: C, db: map<string, seq<C>>, db': map<string, seq<C>>, d: string)
    requires Built(page, low, q, initial, db, d) && History(db, d) <= History(db', d)
    ensures Built(page, low, q, initial, db', d)
  {
    forall i | 0 <= i < |page| ensures Genuine(page[i], q, initial, db', d) {
      assert Genuine(page[i], q, initial, db, d);
    }
  }

  /** One more statement sees the current version. */
  lemma BuiltGrows<C(!new)>(page: Page<C>, low: nat, q: string, initial: C, db: map<string, seq<C>>, d: string)
    requires Built(page, low, q, initial, db, d) && low <= Generation(db, d)
    ensures Built(page + [Snapshot(Generation(db, d), q, ContentAt(initial, db, d, Generation(db, d)))], low, q, initial, db, d)
  {
    hide Generation, ContentAt;
    var more := page + [Snapshot(Generation(db, d), q, ContentAt(initial, db, d, Generation(db, d)))];
    forall i | 0 <= i < |more| ensures low <= more[i].version && Genuine(more[i], q, initial, db, d) {
      if i < |page| {
        assert Genuine(page[i], q, initial, db, d);
      }
    }
  }

  lemma BuiltWeakens<C(!new)>(page: Page<C>, low: nat, lower: nat, q: string, initial: C, db: map<string, seq<C>>, d: string)
    requires Built(page, low, q, initial, db, d) && lower <= low
    ensures Built(page, lower, q, initial, db, d)
  {}

  lemma CommitKeeps<C(!new)>(s: State<C>, d: string, content: C)
    requires Inv(s)
    ensures Inv(Next(s, Commit(d, content)))
  {
    var t := Next(s, Commit(d, content));
    CommitRows(s, d, content);
    CommitReads(s, d, content);
    hide RedisOk, RowsOk, Covered, PublishedOk, BatchesOk, PagesOk, ReadersOk;
    CountAppend(s.rows, NewEvent(d, Generation(s.db, d) + 1, true, s.clock));
  }

  lemma CommitRows<C(!new)>(s: State<C>, d: string, content: C)
    requires RowsOk(s.rows, s.db) && Covered(s.rows, s.db) && PublishedOk(s.rows, s.redis)
    requires BatchesOk(s.batches, s.rows, s.redis) && RedisOk(s.redis, s.delivered, s.db)
    ensures var t := Next(s, Commit(d, content));
      && RowsOk(t.rows, t.db) && Covered(t.rows, t.db) && PublishedOk(t.rows, t.redis)
      && BatchesOk(t.batches, t.rows, t.redis) && RedisOk(t.redis, t.delivered, t.db)
  {
    hide History, Generation, Greatest;
    var t := Next(s, Commit(d, content));
    var n := |s.rows|;
    forall e: string ensures Generation(t.db, e) == Generation(s.db, e) + (if e == d then 1 else 0) {
      CommitHistory(s.db, d, content, e);
    }
    forall e: string, g: nat | 1 <= g <= Generation(t.db, e) ensures HasRow(t.rows, e, g) {
      if g <= Generation(s.db, e) {
        assert HasRow(s.rows, e, g);
        var i :| 0 <= i < n && s.rows[i].supported && s.rows[i].domain == e && s.rows[i].generation == g;
        assert t.rows[i] == s.rows[i];
      } else {
        assert t.rows[n] == NewEvent(d, g, true, s.clock);
      }
    }
  }

  lemma CommitReads<C(!new)>(s: State<C>, d: string, content: C)
    requires PagesOk(s.pages, s.initial, s.db) && ReadersOk(s.readers, s.initial, s.redis, s.db)
    ensures var t := Next(s, Commit(d, content));
      PagesOk(t.pages, t.initial, t.db) && ReadersOk(t.readers, t.initial, t.redis, t.db)
  {
    hide History, Built;
    var t := Next(s, Commit(d, content));
    forall e: string ensures History(s.db, e) <= History(t.db, e) {
      CommitHistory(s.db, d, content, e);
    }
    forall e | e in s.pages ensures Built(t.pages[e], e.1, e.2, t.initial, t.db, e.0) {
      BuiltStays(s.pages[e], e.1, e.2, s.initial, s.db, t.db, e.0);
    }
    forall i | 0 <= i < |s.readers| ensures ReaderOk(t.readers[i], t.initial, t.redis, t.db) {
      ReaderStays(s.readers[i], s.initial, s.redis, s.db, t.db);
    }
  }

  lemma ReaderStays<C(!new)>(r: Reader<C>, initial: C, redis: map<string, nat>, db: map<string, seq<C>>, db': map<string, seq<C>>)
    requires ReaderOk(r, initial, redis, db) && History(db, r.domain) <= History(db', r.domain)
    ensures ReaderOk(r, initial, redis, db')
  {
    hide Built;
    match r.phase
    case Reading(key, parts) => BuiltStays(parts, key, r.query, initial, db, db', r.domain);
    case Answered(page) => BuiltStays(page, r.floor, r.query, initial, db, db', r.domain);
    case _ =>
  }

  lemma OtherTopicKeeps<C(!new)>(s: State<C>, d: string)
    requires Inv(s)
    ensures Inv(Next(s, OtherTopic(d)))
  {
    hide PagesOk, ReadersOk, RedisOk, Generation, CountPublished, CountAll;
    var t := Next(s, OtherTopic(d));
    CountAppend(s.rows, NewEvent(d, 0, false, s.clock));
    forall e: string, g: nat | 1 <= g <= Generation(t.db, e) ensures HasRow(t.rows, e, g) {
      assert HasRow(s.rows, e, g);
      var i :| 0 <= i < |s.rows| && s.rows[i].supported && s.rows[i].domain == e && s.rows[i].generation == g;
      assert t.rows[i] == s.rows[i];
    }
  }

  // ----- deliveries -----

  lemma GreatestSnoc(delivered: seq<(string, nat)>, d: string, g: nat, e: string)
    ensures Greatest(delivered + [(d, g)], e) == if d == e then Max(Greatest(delivered, e), g) else Greatest(delivered, e)
  {
    assert (delivered + [(d, g)])[..|delivered|] == delivered;
  }

  /** Delivering a committed generation only moves Redis up, within the database. */
  lemma DeliverKeeps<C(!new)>(s: State<C>, d: string, g: nat)
    requires Inv(s) && 1 <= g <= Generation(s.db, d)
    ensures Inv(Deliver(s, d, g)) && Grows(s.redis, Deliver(s, d, g).redis)
    ensures g <= RedisGeneration(Deliver(s, d, g).redis, d)
  {
    hide Generation, Greatest, RowsOk, Covered, PagesOk, CountPublished, CountAll;
    var t := Deliver(s, d, g);
    forall e: string
      ensures RedisGeneration(t.redis, e) == Greatest(t.delivered, e)
      ensures RedisGeneration(s.redis, e) <= RedisGeneration(t.redis, e) <= Generation(t.db, e)
    {
      GreatestSnoc(s.delivered, d, g, e);
    }
    GrowsKeeps(s, t.redis);
  }

  lemma GrowsKeeps<C(!new)>(s: State<C>, redis: map<string, nat>)
    requires Grows(s.redis, redis)
    ensures PublishedOk(s.rows, s.redis) ==> PublishedOk(s.rows, redis)
    ensures BatchesOk(s.batches, s.rows, s.redis) ==> BatchesOk(s.batches, s.rows, redis)
    ensures ReadersOk(s.readers, s.initial, s.redis, s.db) ==> ReadersOk(s.readers, s.initial, redis, s.db)
  {
    hide RedisGeneration, Built, Generation;
    assert forall d :: RedisGeneration(s.redis, d) <= RedisGeneration(redis, d);
  }

  // ----- leases and publication -----

  /** The same events, whatever happened to their leases and flags. */
  ghost predicate SameEvents(a: seq<Event>, b: seq<Event>) {
    |a| == |b| && forall i | 0 <= i < |a| ::
      a[i].domain == b[i].domain && a[i].generation == b[i].generation && a[i].supported == b[i].supported
  }

  lemma SameEventsKeep<C(!new)>(s: State<C>, rows: seq<Event>)
    requires SameEvents(s.rows, rows)
    ensures RowsOk(s.rows, s.db) ==> RowsOk(rows, s.db)
    ensures Covered(s.rows, s.db) ==> Covered(rows, s.db)
    ensures BatchesOk(s.batches, s.rows, s.redis) ==> BatchesOk(s.batches, rows, s.redis)
  {
    hide Generation, RedisGeneration;
    if Covered(s.rows, s.db) {
      forall d: string, g: nat | 1 <= g <= Generation(s.db, d) ensures HasRow(rows, d, g) {
        assert HasRow(s.rows, d, g);
        var i :| 0 <= i < |s.rows| && s.rows[i].supported && s.rows[i].domain == d && s.rows[i].generation == g;
        assert rows[i].supported && rows[i].domain == d && rows[i].generation == g;
      }
    }
  }

  lemma {:induction false} CountAllUpdate(batches: seq<Batch>, b: nat, x: Batch)
    requires b < |batches|
    ensures CountAll(batches[b := x]) == CountAll(batches) - batches[b].count + x.count
  {
    var n := |batches| - 1;
    if b == n {
      assert batches[b := x][..n] == batches[..n];
    } else {
      assert batches[b := x][..n] == batches[..n][b := x];
      CountAllUpdate(batches[..n], b, x);
    }
  }

  lemma CountAllAppend(batches: seq<Batch>, x: Batch)
    ensures CountAll(batches + [x]) == CountAll(batches) + x.count
  {
    assert (batches + [x])[..|batches|] == batches;
  }

  lemma ClaimKeeps<C(!new)>(s: State<C>)
    requires Inv(s)
    ensures Inv(Next(s, Claim))
  {
    hide RowsOk, Covered, PagesOk, ReadersOk, RedisOk, CountPublished, CountAll, RedisGeneration, ClaimIds;
    var t := Next(s, Claim);
    var ids := ClaimIds(s.rows, s.clock, 0, BATCH_SIZE);
    CountSame(s.rows, t.rows);
    CountAllAppend(s.batches, Batch(ids, false, 0, Running));
    LeasesSame(s.rows, ids, |s.batches|, s.clock);
    SameEventsKeep(s, t.rows);
    assert forall i | 0 <= i < |s.rows| :: t.rows[i].published == s.rows[i].published;
    assert forall b | 0 <= b < |s.batches| :: t.batches[b] == s.batches[b];
  }

  lemma ApplyHeadKeeps<C(!new)>(s: State<C>, b: nat)
    requires Inv(s)
    ensures Inv(Next(s, ApplyHead(b)))
  {
    hide Covered, PagesOk, ReadersOk, RedisOk, CountPublished, CountAll, RedisGeneration, PublishedOk, Deliver, Generation;
    if HasHead(s.batches, b) && s.batches[b].queue[0] < |s.rows| && s.rows[s.batches[b].queue[0]].supported {
      var e := s.rows[s.batches[b].queue[0]];
      DeliverKeeps(s, e.domain, e.generation);
      DeliverRest(s, e.domain, e.generation);
      CountAllUpdate(s.batches, b, s.batches[b].(applied := true));
    }
  }

  lemma DeliverRest<C>(s: State<C>, d: string, g: nat)
    ensures var t := Deliver(s, d, g);
      && t.rows == s.rows && t.batches == s.batches && t.db == s.db && t.initial == s.initial && t.pages == s.pages
      && t.readers == s.readers && t.clock == s.clock
  {}

  lemma FinalizeKeeps<C(!new)>(s: State<C>, b: nat)
    requires Inv(s)
    ensures Inv(Next(s, FinalizeHead(b)))
  {
    hide RowsOk, Covered, PagesOk, ReadersOk, RedisOk, CountPublished, CountAll, RedisGeneration;
    if HasHead(s.batches, b) && s.batches[b].applied {
      var t := Next(s, FinalizeHead(b));
      var id := s.batches[b].queue[0];
      SameEventsKeep(s, t.rows);
      CountAllUpdate(s.batches, b, t.batches[b]);
      assert AppliedHead(id, s.rows, s.redis);
      if Holds(s.rows, id, b) {
        CountOneMore(s.rows, t.rows, id);
      }
    }
  }

  lemma FailKeeps<C(!new)>(s: State<C>, b: nat)
    requires Inv(s)
    ensures Inv(Next(s, FailHead(b)))
  {
    hide RowsOk, Covered, PagesOk, ReadersOk, RedisOk, CountPublished, CountAll, RedisGeneration;
    if HasHead(s.batches, b) {
      var t := Next(s, FailHead(b));
      SameEventsKeep(s, t.rows);
      CountAllUpdate(s.batches, b, t.batches[b]);
      CountSame(s.rows, t.rows);
    }
  }

  lemma StatusKeeps<C(!new)>(s: State<C>, b: nat)
    requires Inv(s)
    ensures Inv(Next(s, Return(b))) && Inv(Next(s, Crash(b)))
  {
    hide RowsOk, Covered, PagesOk, ReadersOk, RedisOk, CountPublished, CountAll, RedisGeneration, PublishedOk;
    if RunningBatch(s.batches, b) {
      CountAllUpdate(s.batches, b, s.batches[b].(status := Returned));
      CountAllUpdate(s.batches, b, s.batches[b].(status := Crashed));
    }
  }

  // ----- readers -----

  lemma MovedKeeps<C(!new)>(s: State<C>, r: nat, phase: Phase<C>)
    requires Inv(s) && r < |s.readers| && ReaderOk(s.readers[r].(phase := phase), s.initial, s.redis, s.db)
    ensures Inv(Moved(s, r, phase))
  {
    hide RedisOk, RowsOk, Covered, PublishedOk, BatchesOk, CountPublished, CountAll, PagesOk, ReaderOk;
  }

  lemma StartReadKeeps<C(!new)>(s: State<C>, d: string, q: string, redisUp: bool)
    requires Inv(s)
    ensures Inv(Next(s, StartRead(d, q, redisUp)))
  {
    hide RowsOk, Covered, PublishedOk, BatchesOk, CountPublished, CountAll, PagesOk, Built, Greatest, RedisGeneration, Generation;
    assert RedisGeneration(s.redis, d) <= Generation(s.db, d);
  }

  lemma ReadPersistedKeeps<C(!new)>(s: State<C>, r: nat)
    requires Inv(s)
    ensures Inv(Next(s, ReadPersisted(r)))
  {
    hide Greatest, RedisGeneration, Generation, Built, Moved;
    if r < |s.readers| && s.readers[r].phase.NeedKey? {
      assert RedisGeneration(s.redis, s.readers[r].domain) <= Generation(s.db, s.readers[r].domain);
      MovedKeeps(s, r, HaveKey(Generation(s.db, s.readers[r].domain)));
    }
  }

  lemma LookupKeeps<C(!new)>(s: State<C>, r: nat, redisUp: bool)
    requires Inv(s)
    ensures Inv(Next(s, Lookup(r, redisUp)))
  {
    hide RedisGeneration, Generation, Genuine, Moved, RowsOk, Covered, PublishedOk, BatchesOk, CountPublished, CountAll, RedisOk;
    if r < |s.readers| && s.readers[r].phase.HaveKey? {
      var x := s.readers[r];
      assert ReaderOk(x, s.initial, s.redis, s.db);
      var entry := (x.domain, x.phase.key, x.query);
      if entry in s.pages {
        BuiltWeakens(s.pages[entry], x.phase.key, x.floor, x.query, s.initial, s.db, x.domain);
      }
      MovedKeeps(s, r, if redisUp && entry in s.pages then Answered(s.pages[entry]) else Reading(x.phase.key, []));
    }
  }

  lemma QueryKeeps<C(!new)>(s: State<C>, r: nat)
    requires Inv(s)
    ensures Inv(Next(s, QueryDatabase(r)))
  {
    hide RedisGeneration, Generation, Moved, ContentAt, Built, RowsOk, Covered, PublishedOk, BatchesOk, CountPublished, CountAll, RedisOk, PagesOk;
    if r < |s.readers| && s.readers[r].phase.Reading? {
      var x := s.readers[r];
      assert ReaderOk(x, s.initial, s.redis, s.db);
      var v := Generation(s.db, x.domain);
      BuiltGrows(x.phase.parts, x.phase.key, x.query, s.initial, s.db, x.domain);
      MovedKeeps(s, r, Reading(x.phase.key, x.phase.parts + [Snapshot(v, x.query, ContentAt(s.initial, s.db, x.domain, v))]));
    }
  }

  lemma StoreKeeps<C(!new)>(s: State<C>, r: nat, redisUp: bool)
    requires Inv(s)
    ensures Inv(Next(s, StorePage(r, redisUp)))
  {
    hide RedisGeneration, Generation, Built, Moved, RowsOk, Covered, PublishedOk, BatchesOk, CountPublished, CountAll, RedisOk;
    if r < |s.readers| && s.readers[r].phase.Reading? && s.readers[r].phase.parts != [] {
      var x := s.readers[r];
      assert ReaderOk(x, s.initial, s.redis, s.db);
      var entry := (x.domain, x.phase.key, x.query);
      var stored := if redisUp then s.(pages := s.pages[entry := x.phase.parts]) else s;
      BuiltWeakens(x.phase.parts, x.phase.key, x.floor, x.query, s.initial, s.db, x.domain);
      MovedKeeps(stored, r, Answered(x.phase.parts));
    }
  }

  lemma IdleKeeps<C(!new)>(s: State<C>, entry: (string, nat, string), ms: nat)
    requires Inv(s)
    ensures Inv(Next(s, Expire(entry))) && Inv(Next(s, Tick(ms)))
  {
    hide RowsOk, Covered, PublishedOk, BatchesOk, CountPublished, CountAll, RedisOk, ReadersOk, Built;
  }

  /** Every step keeps the invariant. */
  lemma StepKeeps<C(!new)>(s: State<C>, a: Action<C>)
    requires Inv(s)
    ensures Inv(Next(s, a))
  {
    hide Inv;
    match a
    case Commit(d, content) => CommitKeeps(s, d, content);
    case OtherTopic(d) => OtherTopicKeeps(s, d);
    case Direct(d, g) =>
      if 1 <= g <= Generation(s.db, d) {
        DeliverKeeps(s, d, g);
      }
    case Claim => ClaimKeeps(s);
    case ApplyHead(b) => ApplyHeadKeeps(s, b);
    case FinalizeHead(b) => FinalizeKeeps(s, b);
    case FailHead(b) => FailKeeps(s, b);
    case Return(b) => StatusKeeps(s, b);
    case Crash(b) => StatusKeeps(s, b);
    case StartRead(d, q, redisUp) => StartReadKeeps(s, d, q, redisUp);
    case ReadPersisted(r) => ReadPersistedKeeps(s, r);
    case Lookup(r, redisUp) => LookupKeeps(s, r, redisUp);
    case QueryDatabase(r) => QueryKeeps(s, r);
    case StorePage(r, redisUp) => StoreKeeps(s, r, redisUp);
    case Expire(entry) => IdleKeeps(s, entry, 0);
    case Tick(ms) => IdleKeeps(s, ("", 0, ""), ms);
  }

  lemma {:induction false} RunKeeps<C(!new)>(s: State<C>, actions: seq<Action<C>>)
    requires Init(s)
    ensures Inv(Run(s, actions))
  {
    hide Inv;
    if actions == [] {
      InitInv(s);
    } else {
      RunKeeps(s, actions[..|actions| - 1]);
      StepKeeps(Run(s, actions[..|actions| - 1]), actions[|actions| - 1]);
    }
  }

  // ----- what the protocol promises -----

  /** Only commits touch the database. */
  lemma QuietDb<C(!new)>(s: State<C>, a: Action<C>)
    requires !a.Commit?
    ensures Next(s, a).db == s.db && Next(s, a).initial == s.initial
  {
    hide ClaimIds, ClaimRows, Apply, FinalizeRow, FailRow, Holds, History, Generation, ContentAt, RedisGeneration, NewEvent,
      HasHead, RunningBatch;
  }

  /** Rows are only ever appended, by commits and other topics; everything else moves leases and flags. */
  lemma QuietRows<C(!new)>(s: State<C>, a: Action<C>)
    requires !a.Commit? && !a.OtherTopic?
    ensures SameEvents(s.rows, Next(s, a).rows)
  {
    match a
    case Claim => LeasesSame(s.rows, ClaimIds(s.rows, s.clock, 0, BATCH_SIZE), |s.batches|, s.clock);
    case FinalizeHead(b) =>
      if HasHead(s.batches, b) {
        TurnSame(s.rows, s.batches[b].queue[0], b);
      }
    case FailHead(b) =>
      if HasHead(s.batches, b) {
        TurnSame(s.rows, s.batches[b].queue[0], b);
      }
    case _ =>
      hide ClaimIds, ClaimRows, FinalizeRow, FailRow;
  }

  lemma LeasesSame(rows: seq<Event>, ids: seq<nat>, owner: nat, now: int)
    ensures SameEvents(rows, ClaimRows(rows, ids, owner, now))
  {}

  lemma TurnSame(rows: seq<Event>, id: nat, owner: nat)
    ensures SameEvents(rows, FinalizeRow(rows, id, owner)) && SameEvents(rows, FailRow(rows, id, owner))
  {
  }

  /** No claim takes a row from the dispatcher whose lease still runs, nor one that is published or not yet due. */
  lemma ClaimSpares<C(!new)>(s: State<C>, i: nat)
    requires i < |s.rows| && Spared(s.rows[i], s.clock)
    ensures |Next(s, Claim).rows| == |s.rows| && Next(s, Claim).rows[i] == s.rows[i]
  {
    ClaimExactly(s.rows, s.clock, |s.batches|, i);
  }

  /** The database's past never changes: a later state extends every domain's history. */
  lemma {:induction false} HistoryExtends<C(!new)>(s: State<C>, actions: seq<Action<C>>, d: string)
    ensures History(s.db, d) <= History(Run(s, actions).db, d) && Run(s, actions).initial == s.initial
  {
    if actions != [] {
      var n := |actions| - 1;
      HistoryExtends(s, actions[..n], d);
      StepHistory(Run(s, actions[..n]), actions[n], d);
    }
  }

  lemma StepHistory<C(!new)>(s: State<C>, a: Action<C>, d: string)
    ensures History(s.db, d) <= History(Next(s, a).db, d) && Next(s, a).initial == s.initial
  {
    if a.Commit? {
      CommitHistory(s.db, a.domain, a.content, d);
    }
  }

  /**
   Freshness. Take any run, any call of `list` that starts when Redis holds generation n for its
   domain, and any continuation: if the call answers, every part of its page answers its query from the domain's
   content at some version that is at least n, so it includes every write up to n; later parts are no older.
   */
  lemma FreshReads<C(!new)>(s: State<C>, before: seq<Action<C>>, d: string, q: string, redisUp: bool, after: seq<Action<C>>)
    requires Init(s)
    ensures var mid := Run(s, before);
      var r := |mid.readers|;
      var end := Run(Next(mid, StartRead(d, q, redisUp)), after);
      && r < |end.readers|
      && (end.readers[r].phase.Answered? ==>
            var page := end.readers[r].phase.page;
            page != [] && Built(page, RedisGeneration(mid.redis, d), q, end.initial, end.db, d))
  {
    hide Next, RedisOk, RowsOk, Covered, PublishedOk, BatchesOk, CountPublished, CountAll, PagesOk;
    var mid := Run(s, before);
    var r := |mid.readers|;
    var first := Next(mid, StartRead(d, q, redisUp));
    StartedReader(mid, d, q, redisUp);
    RunKeeps(s, before);
    StepKeeps(mid, StartRead(d, q, redisUp));
    RunFrom(first, after);
    ReaderPersists(first, after, r);
    var end := Run(first, after);
    assert ReaderOk(end.readers[r], end.initial, end.redis, end.db);
  }

  lemma StartedReader<C(!new)>(s: State<C>, d: string, q: string, redisUp: bool)
    ensures var t := Next(s, StartRead(d, q, redisUp));
      && |t.readers| == |s.readers| + 1
      && t.readers[|s.readers|].domain == d && t.readers[|s.readers|].query == q && t.readers[|s.readers|].floor == RedisGeneration(s.redis, d)
  {}

  lemma {:induction false} RunFrom<C(!new)>(s: State<C>, actions: seq<Action<C>>)
    requires Inv(s)
    ensures Inv(Run(s, actions))
  {
    hide Inv;
    if actions != [] {
      RunFrom(s, actions[..|actions| - 1]);
      StepKeeps(Run(s, actions[..|actions| - 1]), actions[|actions| - 1]);
    }
  }

  /** A call keeps its domain, its query and its floor for good. */
  lemma {:induction false} ReaderPersists<C(!new)>(s: State<C>, actions: seq<Action<C>>, r: nat)
    requires r < |s.readers|
    ensures r < |Run(s, actions).readers|
    ensures var x, y := s.readers[r], Run(s, actions).readers[r];
      y.domain == x.domain && y.query == x.query && y.floor == x.floor
  {
    if actions != [] {
      var n := |actions| - 1;
      ReaderPersists(s, actions[..n], r);
      ReaderSame(Run(s, actions[..n]), actions[n], r);
    }
  }

  lemma ReaderSame<C(!new)>(s: State<C>, a: Action<C>, r: nat)
    requires r < |s.readers|
    ensures r < |Next(s, a).readers|
    ensures var x, y := s.readers[r], Next(s, a).readers[r];
      y.domain == x.domain && y.query == x.query && y.floor == x.floor
  {
    hide ClaimIds, ClaimRows, Apply, FinalizeRow, FailRow, Generation, History, ContentAt;
  }

  /** What one call stored, the next call of the same query under the same generation is answered with. */
  lemma StoredIsServed<C(!new)>(s: State<C>, r: nat, other: nat)
    requires r < |s.readers| && s.readers[r].phase.Reading? && s.readers[r].phase.parts != []
    requires other < |s.readers| && s.readers[other].phase == HaveKey(s.readers[r].phase.key)
    requires s.readers[other].domain == s.readers[r].domain && s.readers[other].query == s.readers[r].query
    ensures var t := Next(Next(s, StorePage(r, true)), Lookup(other, true));
      && other < |t.readers| && t.readers[other].phase == Answered(s.readers[r].phase.parts)
      && t.pages[(s.readers[r].domain, s.readers[r].phase.key, s.readers[r].query)] == s.readers[r].phase.parts
  {}

  /** In every reachable state Redis is the maximum of what was delivered and never ahead of the database. */
  lemma RedisIsMaximum<C(!new)>(s: State<C>, actions: seq<Action<C>>, d: string)
    requires Init(s)
    ensures var t := Run(s, actions);
      RedisGeneration(t.redis, d) == Greatest(t.delivered, d) <= Generation(t.db, d)
  {
    hide RowsOk, Covered, PublishedOk, BatchesOk, CountPublished, CountAll, PagesOk, ReadersOk, Next;
    RunKeeps(s, actions);
  }

  /** Once every event of a domain is published, Redis and the database agree on it. */
  lemma DrainedOutboxConverges<C(!new)>(s: State<C>, actions: seq<Action<C>>, d: string)
    requires Init(s)
    requires var t := Run(s, actions);
      forall i | 0 <= i < |t.rows| && t.rows[i].supported && t.rows[i].domain == d :: t.rows[i].published
    ensures RedisGeneration(Run(s, actions).redis, d) == Generation(Run(s, actions).db, d)
  {
    hide BatchesOk, CountPublished, CountAll, PagesOk, ReadersOk, Next, RedisGeneration, Generation, Greatest;
    RunKeeps(s, actions);
    var t := Run(s, actions);
    assert RedisGeneration(t.redis, d) <= Generation(t.db, d);
    var g := Generation(t.db, d);
    if g > 0 {
      assert HasRow(t.rows, d, g);
      var i :| 0 <= i < |t.rows| && t.rows[i].supported && t.rows[i].domain == d && t.rows[i].generation == g;
    }
  }

  // ----- publication -----

  /** Whether a step publishes row i. */
  ghost predicate Publishes<C(!new)>(s: State<C>, a: Action<C>, i: nat) {
    i < |Next(s, a).rows| && Next(s, a).rows[i].published && !(i < |s.rows| && s.rows[i].published)
  }

  /** Number of steps of a run that publish row i. */
  ghost function Publications<C(!new)>(s: State<C>, actions: seq<Action<C>>, i: nat): nat {
    if actions == [] then 0
    else
      var n := |actions| - 1;
      Publications(s, actions[..n], i) + (if Publishes(Run(s, actions[..n]), actions[n], i) then 1 else 0)
  }

  /** A published row stays published, and only its own batch's finalize publishes it. */
  lemma PublishedStays<C(!new)>(s: State<C>, a: Action<C>, i: nat)
    ensures i < |s.rows| && s.rows[i].published ==> i < |Next(s, a).rows| && Next(s, a).rows[i].published
    ensures Publishes(s, a, i) ==>
              a.FinalizeHead? && HasHead(s.batches, a.batch) && s.batches[a.batch].applied
              && s.batches[a.batch].queue[0] == i && Holds(s.rows, i, a.batch)
  {
    hide ClaimIds, Apply, Generation, History, ContentAt;
  }

  /** Each event is published at most once, and exactly once when it ends published. */
  lemma {:induction false} PublishedOnce<C(!new)>(s: State<C>, actions: seq<Action<C>>, i: nat)
    requires Init(s)
    ensures var t := Run(s, actions);
      Publications(s, actions, i) == if i < |t.rows| && t.rows[i].published then 1 else 0
  {
    hide Next;
    if actions != [] {
      var n := |actions| - 1;
      PublishedOnce(s, actions[..n], i);
      PublishedStays(Run(s, actions[..n]), actions[n], i);
    }
  }

  /** A published event's generation was delivered to Redis. */
  lemma PublishedWasDelivered<C(!new)>(s: State<C>, actions: seq<Action<C>>, i: nat)
    requires Init(s)
    requires i < |Run(s, actions).rows| && Run(s, actions).rows[i].published
    ensures var t := Run(s, actions);
      t.rows[i].supported && 1 <= t.rows[i].generation <= RedisGeneration(t.redis, t.rows[i].domain)
  {
    hide Next, Covered, BatchesOk, CountPublished, CountAll, PagesOk, ReadersOk, RedisOk;
    RunKeeps(s, actions);
  }

  function CountReturned(batches: seq<Batch>): nat {
    if batches == [] then 0
    else
      var b := batches[|batches| - 1];
      CountReturned(batches[..|batches| - 1]) + (if b.status == Returned then b.count else 0)
  }

  lemma {:induction false} ReturnedWithinAll(batches: seq<Batch>)
    ensures CountReturned(batches) <= CountAll(batches)
  {
    if batches != [] {
      ReturnedWithinAll(batches[..|batches| - 1]);
    }
  }

  /** The sum of all batch results is at most the number of published events; crashes can only lose counts. */
  lemma ReturnsWithinPublished<C(!new)>(s: State<C>, actions: seq<Action<C>>)
    requires Init(s)
    ensures var t := Run(s, actions);
      CountReturned(t.batches) <= CountAll(t.batches) == CountPublished(t.rows)
  {
    hide Next, RedisOk, RowsOk, Covered, PublishedOk, BatchesOk, PagesOk, ReadersOk;
    RunKeeps(s, actions);
    ReturnedWithinAll(Run(s, actions).batches);
  }
}
