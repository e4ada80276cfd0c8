/**
 Comments and cache together: every comment transaction is a commit of the cache protocol, so what
 a reader is shown is the comment table as it stood at a version no older than the generation Redis
 held when the reader began.
 */
module CommentCache {
  import opened Arithmetic
  import opened Outbox
  import opened Comments
  import P = CacheProtocol

  type Table = map<string, Comment>

  /** Cache domain of a token. */
  function Domain(token: string): string {
    "comments:" + token
  }

  lemma DomainInjective(a: string, b: string)
    ensures Domain(a) == Domain(b) <==> a == b
  {
    assert Domain(a)[9..] == a && Domain(b)[9..] == b;
  }

  /** Something that happens: a user transaction, or any other step of the protocol. */
  datatype Event = Mutate(op: Op) | Background(action: P.Action<Table>)

  datatype System = System(db: Db, cache: P.State<Table>)

  /** The protocol action an event amounts to. */
  ghost function ActionOf(s: System, e: Event): Option<P.Action<Table>> {
    match e
    case Mutate(op) =>
      (match Changed(s.db, op)
       case None => None
       case Some(t) => Some(P.Commit(Domain(t), Visible(Step(s.db, op).0, t))))
    case Background(a) => if a.Commit? then None else Some(a)
  }

  ghost function After(s: System, e: Event): System {
    System(if e.Mutate? then Step(s.db, e.op).0 else s.db,
           match ActionOf(s, e)
           case None => s.cache
           case Some(a) => P.Next(s.cache, a))
  }

  ghost function RunSystem(s: System, events: seq<Event>): System {
    if events == [] then s else After(RunSystem(s, events[..|events| - 1]), events[|events| - 1])
  }

  ghost function Trace(s: System, events: seq<Event>): seq<P.Action<Table>> {
    if events == [] then []
    else
      var n := |events| - 1;
      Trace(s, events[..n]) + (match ActionOf(RunSystem(s, events[..n]), events[n])
                               case None => []
                               case Some(a) => [a])
  }

  ghost predicate Start(s: System) {
    s.db == EMPTY && P.Init(s.cache) && s.cache.initial == map[]
  }

  /** The protocol's outbox events of the comment topic, in order. */
  function Written(rows: seq<Outbox.Event>): seq<(string, nat)> {
    if rows == [] then []
    else
      var e := rows[|rows| - 1];
      Written(rows[..|rows| - 1]) + if e.supported then [(e.domain, e.generation)] else []
  }

  /** The outbox rows the comment transactions wrote, by cache domain. */
  function Posted(outbox: seq<(string, nat)>): seq<(string, nat)> {
    if outbox == [] then []
    else Posted(outbox[..|outbox| - 1]) + [(Domain(outbox[|outbox| - 1].0), outbox[|outbox| - 1].1)]
  }

  /** The cache protocol's database is the comment database: same generations, same latest content, same outbox. */
  ghost predicate Agrees(s: System) {
    && Written(s.cache.rows) == Posted(s.db.outbox)
    && forall token ::
      && P.Generation(s.cache.db, Domain(token)) == GenerationOf(s.db, token)
      && P.ContentAt(s.cache.initial, s.cache.db, Domain(token), GenerationOf(s.db, token)) == Visible(s.db, token)
  }

  lemma WrittenSnoc(rows: seq<Outbox.Event>, e: Outbox.Event)
    ensures Written(rows + [e]) == Written(rows) + if e.supported then [(e.domain, e.generation)] else []
  {
    assert (rows + [e])[..|rows|] == rows;
  }

  lemma {:induction false} WrittenSame(a: seq<Outbox.Event>, b: seq<Outbox.Event>)
    requires P.SameEvents(a, b)
    ensures Written(a) == Written(b)
  {
    if a != [] {
      WrittenSame(a[..|a| - 1], b[..|b| - 1]);
    }
  }

  lemma PostedSnoc(outbox: seq<(string, nat)>, t: string, g: nat)
    ensures Posted(outbox + [(t, g)]) == Posted(outbox) + [(Domain(t), g)]
  {
    assert (outbox + [(t, g)])[..|outbox|] == outbox;
  }

  /** A run of the system is a run of the protocol. */
  lemma {:induction false} SystemIsProtocol(s: System, events: seq<Event>)
    ensures RunSystem(s, events).cache == P.Run(s.cache, Trace(s, events))
  {
    hide P.Next, ActionOf;
    if events != [] {
      var n := |events| - 1;
      SystemIsProtocol(s, events[..n]);
      var before := RunSystem(s, events[..n]);
      match ActionOf(before, events[n])
      case None =>
        assert Trace(s, events) == Trace(s, events[..n]);
      case Some(a) =>
        var t := Trace(s, events[..n]);
        assert Trace(s, events) == t + [a];
        assert (t + [a])[..|t|] == t;
    }
  }

  lemma {:induction false} SystemDb(s: System, events: seq<Event>)
    requires Start(s)
    ensures Comments.Inv(RunSystem(s, events).db)
  {
    hide Comments.Inv, Step, ActionOf;
    if events == [] {
      EmptyInv();
    } else {
      var n := |events| - 1;
      SystemDb(s, events[..n]);
      if events[n].Mutate? {
        Comments.StepKeeps(RunSystem(s, events[..n]).db, events[n].op);
      }
    }
  }

  lemma CommitAgrees(s: System, after: Db, t: string)
    requires Agrees(s) && OneVersion(s.db, after, Some(t))
    ensures Agrees(System(after, P.Next(s.cache, P.Commit(Domain(t), Visible(after, t)))))
  {
    hide Written, Posted;
    var content := Visible(after, t);
    var cache := P.Next(s.cache, P.Commit(Domain(t), content));
    WrittenSnoc(s.cache.rows, P.NewEvent(Domain(t), GenerationOf(s.db, t) + 1, true, s.cache.clock));
    PostedSnoc(s.db.outbox, t, GenerationOf(s.db, t) + 1);
    forall token
      ensures P.Generation(cache.db, Domain(token)) == GenerationOf(after, token)
      ensures P.ContentAt(cache.initial, cache.db, Domain(token), GenerationOf(after, token)) == Visible(after, token)
    {
      DomainInjective(t, token);
      P.CommitHistory(s.cache.db, Domain(t), content, Domain(token));
    }
  }

  lemma QuietAgrees(s: System, a: P.Action<Table>)
    requires Agrees(s) && !a.Commit?
    ensures Agrees(System(s.db, P.Next(s.cache, a)))
  {
    P.QuietDb(s.cache, a);
    hide Written;
    if a.OtherTopic? {
      WrittenSnoc(s.cache.rows, P.NewEvent(a.domain, 0, false, s.cache.clock));
      assert Written(s.cache.rows) + [] == Written(s.cache.rows);
    } else {
      P.QuietRows(s.cache, a);
      WrittenSame(s.cache.rows, P.Next(s.cache, a).rows);
      hide P.Next;
    }
  }

  lemma {:induction false} SystemAgrees(s: System, events: seq<Event>)
    requires Start(s)
    ensures Agrees(RunSystem(s, events))
  {
    hide Comments.Inv, Step, Changed, OneVersion, P.Next;
    if events == [] {
      assert forall token :: Visible(EMPTY, token) == map[];
    } else {
      var n := |events| - 1;
      SystemAgrees(s, events[..n]);
      SystemDb(s, events[..n]);
      var before := RunSystem(s, events[..n]);
      hide Agrees;
      match events[n]
      case Mutate(op) =>
        StepIsOneVersion(before.db, op);
        match Changed(before.db, op) {
          case None => NoChange(before.db, op);
          case Some(t) => CommitAgrees(before, Step(before.db, op).0, t);
        }
      case Background(a) =>
        if !a.Commit? {
          QuietAgrees(before, a);
        }
    }
  }

  lemma NoChange(db: Db, op: Op)
    requires Changed(db, op).None? && OneVersion(db, Step(db, op).0, Changed(db, op))
    ensures Step(db, op).0 == db
  {}

  /** Every version of a token is the comment table at some earlier moment. */
  ghost predicate Moment(s: System, events: seq<Event>, k: nat, token: string, version: nat, content: Table) {
    k <= |events| && GenerationOf(RunSystem(s, events[..k]).db, token) == version && Visible(RunSystem(s, events[..k]).db, token) == content
  }

  lemma {:induction false} VersionsAreMoments(s: System, events: seq<Event>, token: string, version: nat)
    requires Start(s) && version <= P.Generation(RunSystem(s, events).cache.db, Domain(token))
    ensures var end := RunSystem(s, events).cache;
      exists k: nat :: Moment(s, events, k, token, version, P.ContentAt(end.initial, end.db, Domain(token), version))
  {
    hide After, P.Generation, P.ContentAt, Visible, GenerationOf;
    var end := RunSystem(s, events);
    SystemAgrees(s, events);
    assert events[..|events|] == events;
    if version == P.Generation(end.cache.db, Domain(token)) {
      assert Moment(s, events, |events|, token, version, Visible(end.db, token));
    } else if events == [] {
      StartGeneration(s, token);
    } else {
      var n := |events| - 1;
      var before := RunSystem(s, events[..n]);
      StepContent(before, events[n], token, version);
      VersionsAreMoments(s, events[..n], token, version);
      var content := P.ContentAt(before.cache.initial, before.cache.db, Domain(token), version);
      var k: nat :| Moment(s, events[..n], k, token, version, content);
      assert k <= n && events[..n][..k] == events[..k];
      assert Moment(s, events, k, token, version, content);
    }
  }

  lemma StartGeneration(s: System, token: string)
    requires Start(s)
    ensures P.Generation(s.cache.db, Domain(token)) == 0
  {}

  /** One event keeps every version but possibly adds the next. */
  lemma StepContent(s: System, e: Event, token: string, version: nat)
    requires version < P.Generation(After(s, e).cache.db, Domain(token))
    ensures version <= P.Generation(s.cache.db, Domain(token))
    ensures P.ContentAt(After(s, e).cache.initial, After(s, e).cache.db, Domain(token), version)
         == P.ContentAt(s.cache.initial, s.cache.db, Domain(token), version)
  {
    match ActionOf(s, e)
    case None =>
    case Some(a) =>
      if a.Commit? {
        P.CommitHistory(s.cache.db, a.domain, a.content, Domain(token));
      } else {
        P.QuietDb(s.cache, a);
      }
  }

  lemma {:induction false} RunConcat(s: System, a: seq<Event>, b: seq<Event>)
    ensures RunSystem(s, a + b) == RunSystem(RunSystem(s, a), b)
  {
    hide After;
    if b == [] {
      assert a + b == a;
    } else {
      RunConcat(s, a, b[..|b| - 1]);
      assert (a + b)[..|a + b| - 1] == a + b[..|b| - 1];
    }
  }

  /** The event of a reader calling `list` for a token. */
  function ListCall(token: string, query: string, redisUp: bool): Event {
    Background(P.StartRead(Domain(token), query, redisUp))
  }

  /** The run with a `list` call in it is a run of the protocol with that read in it. */
  lemma ListRun(s: System, before: seq<Event>, token: string, query: string, redisUp: bool, after: seq<Event>)
      returns (rest: seq<P.Action<Table>>)
    ensures RunSystem(s, before + [ListCall(token, query, redisUp)] + after).cache
         == P.Run(P.Next(P.Run(s.cache, Trace(s, before)), P.StartRead(Domain(token), query, redisUp)), rest)
  {
    hide P.Next, P.Run, Trace;
    var call := ListCall(token, query, redisUp);
    RunConcat(s, before + [call], after);
    assert (before + [call])[..|before|] == before;
    SystemIsProtocol(s, before);
    var mid := RunSystem(s, before + [call]);
    assert mid == After(RunSystem(s, before), call);
    SystemIsProtocol(mid, after);
    rest := Trace(mid, after);
  }

  /**
   End to end: take any interleaving of comment transactions, deliveries, dispatchers and readers, a
   `list` call for a token at any point of it, and any continuation. If the call answers, each part of
   the answer serves that query from the token's comments exactly as they stood after some prefix of the run, at a
   version no older than the generation Redis held when the call began.
   */
  lemma CommentsAreFresh(s: System, before: seq<Event>, token: string, query: string, redisUp: bool, after: seq<Event>, i: nat)
    requires Start(s)
    ensures var events := before + [ListCall(token, query, redisUp)] + after;
      var mid, end := RunSystem(s, before).cache, RunSystem(s, events).cache;
      var r := |mid.readers|;
      && r < |end.readers|
      && (end.readers[r].phase.Answered? ==>
            var page := end.readers[r].phase.page;
            && page != []
            && (i < |page| ==>
                  && page[i].query == query && RedisGeneration(mid.redis, Domain(token)) <= page[i].version
                  && exists k: nat :: Moment(s, events, k, token, page[i].version, page[i].content)))
  {
    hide RunSystem, P.Run, P.Next, Moment, P.Generation, P.ContentAt, RedisGeneration;
    var events := before + [ListCall(token, query, redisUp)] + after;
    SystemIsProtocol(s, before);
    var rest := ListRun(s, before, token, query, redisUp, after);
    P.FreshReads(s.cache, Trace(s, before), Domain(token), query, redisUp, rest);
    var mid, end := RunSystem(s, before).cache, RunSystem(s, events).cache;
    var r := |mid.readers|;
    if end.readers[r].phase.Answered? && i < |end.readers[r].phase.page| {
      VersionsAreMoments(s, events, token, end.readers[r].phase.page[i].version);
    }
  }
}
