/**
 Comment and like transactions (src/modules/comments/comments.service.ts,
 src/modules/comments/comment-likes.service.ts). Each serializable transaction is one function on
 the stored tables; the service class performs it statement by statement.
 */
module Comments {
  import opened Arithmetic

  const MAX_DEPTH: nat := 3

  datatype Comment = Comment(token: string, wallet: string, parent: Option<string>, root: string, depth: nat,
                             text: Option<string>, deleted: bool, likeCount: int, replyCount: int)

  /** A completed idempotency record: committed together with the comment it names. */
  datatype Request = Request(hash: string, resource: string)

  datatype Db = Db(
    comments: map<string, Comment>,
    likes: set<(string, string)>,
    requests: map<(string, string), Request>,
    generations: map<string, nat>,
    outbox: seq<(string, nat)>)

  datatype Error =
    | SessionInvalid
    | ParentNotFound
    | ParentDeleted
    | TooDeep
    | CommentNotFound
    | KeyReused
    | Conflict

  datatype Outcome =
    | Created(id: string)
    | Replayed(id: string)
    | Deleted
    | LikeState(liked: bool, likeCount: int)
    | Refused(error: Error)

  function GenerationOf(db: Db, token: string): nat {
    if token in db.generations then db.generations[token] else 0
  }

  /** Bumps a token's generation and writes the matching outbox row, inside the caller's transaction. */
  function Advance(db: Db, token: string): Db {
    var g := GenerationOf(db, token) + 1;
    db.(generations := db.generations[token := g], outbox := db.outbox + [(token, g)])
  }

  function Replay(db: Db, existing: Request, hash: string): Outcome {
    if existing.hash != hash then Refused(KeyReused)
    else if existing.resource !in db.comments then Refused(CommentNotFound)
    else Replayed(existing.resource)
  }

  /** Why a reply may not be attached to a parent. */
  function ParentError(db: Db, token: string, parent: Option<string>): Option<Error> {
    if parent.None? then None
    else if parent.value !in db.comments || db.comments[parent.value].token != token then Some(ParentNotFound)
    else if db.comments[parent.value].deleted then Some(ParentDeleted)
    else if db.comments[parent.value].depth >= MAX_DEPTH then Some(TooDeep)
    else None
  }

  datatype Input = Input(token: string, wallet: string, key: string, hash: string, parent: Option<string>, text: string)

  /** The create transaction; `id` is the random identifier it draws. */
  function Create(db: Db, x: Input, id: string): (Db, Outcome) {
    if x.wallet == "" then (db, Refused(SessionInvalid))
    else if (x.wallet, x.key) in db.requests then (db, Replay(db, db.requests[(x.wallet, x.key)], x.hash))
    else if ParentError(db, x.token, x.parent).Some? then (db, Refused(ParentError(db, x.token, x.parent).value))
    else if id in db.comments then (db, Refused(Conflict))
    else
      var made := Comment(x.token, x.wallet, x.parent, id, 0, Some(x.text), false, 0, 0);
      var comments := db.comments[id := made];
      var counted := if x.parent.None? then comments else Recount(comments, x.parent.value, 1);
      (Advance(db.(comments := counted, requests := db.requests[(x.wallet, x.key) := Request(x.hash, id)]), x.token), Created(id))
  }

  function Recount(comments: map<string, Comment>, id: string, delta: int): map<string, Comment> {
    if id in comments then comments[id := comments[id].(replyCount := comments[id].replyCount + delta)] else comments
  }

  function Delete(db: Db, id: string, wallet: string): (Db, Outcome) {
    if id !in db.comments || db.comments[id].wallet != wallet then (db, Refused(CommentNotFound))
    else if db.comments[id].deleted then (db, Deleted)
    else
      var c := db.comments[id];
      var comments := db.comments[id := c.(deleted := true, text := None)];
      if c.parent.Some? && c.parent.value !in db.comments then (db, Refused(Conflict))
      else
        var counted := if c.parent.None? then comments else Recount(comments, c.parent.value, -1);
        (Advance(db.(comments := counted), c.token), Deleted)
  }

  function Relike(db: Db, id: string, likes: set<(string, string)>, delta: int): Db
    requires id in db.comments
  {
    var c := db.comments[id];
    Advance(db.(comments := db.comments[id := c.(likeCount := c.likeCount + delta)], likes := likes), c.token)
  }

  function Like(db: Db, id: string, wallet: string): (Db, Outcome) {
    if id !in db.comments || db.comments[id].deleted then (db, Refused(CommentNotFound))
    else if (id, wallet) in db.likes then (db, LikeState(true, db.comments[id].likeCount))
    else (Relike(db, id, db.likes + {(id, wallet)}, 1), LikeState(true, db.comments[id].likeCount + 1))
  }

  function Unlike(db: Db, id: string, wallet: string): (Db, Outcome) {
    if id !in db.comments then (db, Refused(CommentNotFound))
    else if (id, wallet) !in db.likes then (db, LikeState(false, db.comments[id].likeCount))
    else (Relike(db, id, db.likes - {(id, wallet)}, -1), LikeState(false, db.comments[id].likeCount - 1))
  }

  /**
   The service over one database. Every method keeps the tables consistent and is one version: it
   leaves every table as it was, or changes what one token shows and advances that token by one.
   */
  class CommentService {
    var db: Db

    ghost predicate Valid()
      reads this
    {
      Inv(db) && Flat(db.comments)
    }

    constructor ()
      ensures Valid() && db == EMPTY
    {
      db := EMPTY;
      EmptyInv();
    }

    method CreateComment(x: Input, id: string) returns (r: Outcome)
      requires Valid()
      modifies this
      ensures Valid() && (db, r) == Create(old(db), x, id)
      ensures CreateMeans(old(db), x, id, db, r)
      ensures OneVersion(old(db), db, Changed(old(db), CreateOp(x, id)))
    {
      hide Inv, Flat, OneVersion, Changed, Create, CreateMeans;
      Kept(db, CreateOp(x, id));
      CreatePromise(db, x, id);
      r := CreateTransaction(x, id);
    }

    method CreateTransaction(x: Input, id: string) returns (r: Outcome)
      modifies this
      ensures (db, r) == Create(old(db), x, id)
    {
      if x.wallet == "" {
        return Refused(SessionInvalid);
      }
      if (x.wallet, x.key) in db.requests {
        return Replay(db, db.requests[(x.wallet, x.key)], x.hash);
      }
      var tx := db;
      tx := tx.(requests := tx.requests[(x.wallet, x.key) := Request(x.hash, id)]);
      if x.parent.Some? {
        var problem := ParentError(tx, x.token, x.parent);
        if problem.Some? {
          return Refused(problem.value);
        }
      }
      if id in tx.comments {
        return Refused(Conflict);
      }
      tx := tx.(comments := tx.comments[id := Comment(x.token, x.wallet, x.parent, id, 0, Some(x.text), false, 0, 0)]);
      if x.parent.Some? {
        tx := tx.(comments := Recount(tx.comments, x.parent.value, 1));
      }
      tx := Advance(tx, x.token);
      db := tx;
      return Created(id);
    }

    method DeleteComment(id: string, wallet: string) returns (r: Outcome)
      requires Valid()
      modifies this
      ensures Valid() && (db, r) == Delete(old(db), id, wallet)
      ensures DeleteMeans(old(db), id, wallet, db, r)
      ensures OneVersion(old(db), db, Changed(old(db), DeleteOp(id, wallet)))
    {
      hide Inv, Flat, OneVersion, Changed, Delete, DeleteMeans;
      Kept(db, DeleteOp(id, wallet));
      DeletePromise(db, id, wallet);
      r := DeleteTransaction(id, wallet);
    }

    method DeleteTransaction(id: string, wallet: string) returns (r: Outcome)
      modifies this
      ensures (db, r) == Delete(old(db), id, wallet)
    {
      if id !in db.comments || db.comments[id].wallet != wallet {
        return Refused(CommentNotFound);
      }
      var comment := db.comments[id];
      if comment.deleted {
        return Deleted;
      }
      var tx := db.(comments := db.comments[id := comment.(deleted := true, text := None)]);
      if comment.parent.Some? {
        if comment.parent.value !in tx.comments {
          return Refused(Conflict);
        }
        tx := tx.(comments := Recount(tx.comments, comment.parent.value, -1));
      }
      db := Advance(tx, comment.token);
      return Deleted;
    }

    method LikeComment(id: string, wallet: string) returns (r: Outcome)
      requires Valid()
      modifies this
      ensures Valid() && (db, r) == Like(old(db), id, wallet)
      ensures LikeMeans(old(db), id, wallet, db, r)
      ensures OneVersion(old(db), db, Changed(old(db), LikeOp(id, wallet)))
    {
      hide Inv, Flat, OneVersion, Changed, Like, LikeMeans;
      Kept(db, LikeOp(id, wallet));
      LikePromise(db, id, wallet);
      r := LikeTransaction(id, wallet);
    }

    method LikeTransaction(id: string, wallet: string) returns (r: Outcome)
      modifies this
      ensures (db, r) == Like(old(db), id, wallet)
    {
      if id !in db.comments || db.comments[id].deleted {
        return Refused(CommentNotFound);
      }
      var comment := db.comments[id];
      var inserted := (id, wallet) !in db.likes;
      if inserted {
        db := db.(likes := db.likes + {(id, wallet)});
        db := db.(comments := db.comments[id := comment.(likeCount := comment.likeCount + 1)]);
        db := Advance(db, comment.token);
      }
      return LikeState(true, db.comments[id].likeCount);
    }

    method UnlikeComment(id: string, wallet: string) returns (r: Outcome)
      requires Valid()
      modifies this
      ensures Valid() && (db, r) == Unlike(old(db), id, wallet)
      ensures UnlikeMeans(old(db), id, wallet, db, r)
      ensures OneVersion(old(db), db, Changed(old(db), UnlikeOp(id, wallet)))
    {
      hide Inv, Flat, OneVersion, Changed, Unlike, UnlikeMeans;
      Kept(db, UnlikeOp(id, wallet));
      UnlikePromise(db, id, wallet);
      r := UnlikeTransaction(id, wallet);
    }

    method UnlikeTransaction(id: string, wallet: string) returns (r: Outcome)
      modifies this
      ensures (db, r) == Unlike(old(db), id, wallet)
    {
      if id !in db.comments {
        return Refused(CommentNotFound);
      }
      var comment := db.comments[id];
      var removed := (id, wallet) in db.likes;
      if removed {
        db := db.(likes := db.likes - {(id, wallet)});
        db := db.(comments := db.comments[id := comment.(likeCount := comment.likeCount - 1)]);
        db := Advance(db, comment.token);
      }
      return LikeState(false, db.comments[id].likeCount);
    }
  }

  // ----- runs -----

  datatype Op =
    | CreateOp(input: Input, id: string)
    | DeleteOp(id: string, wallet: string)
    | LikeOp(id: string, wallet: string)
    | UnlikeOp(id: string, wallet: string)

  function Step(db: Db, op: Op): (Db, Outcome) {
    match op
    case CreateOp(x, id) => Create(db, x, id)
    case DeleteOp(id, wallet) => Delete(db, id, wallet)
    case LikeOp(id, wallet) => Like(db, id, wallet)
    case UnlikeOp(id, wallet) => Unlike(db, id, wallet)
  }

  function Run(db: Db, ops: seq<Op>): Db {
    if ops == [] then db else Step(Run(db, ops[..|ops| - 1]), ops[|ops| - 1]).0
  }

  const EMPTY: Db := Db(map[], {}, map[], map[], [])

  // ----- counters are the sizes of what they count -----

  ghost function Likers(likes: set<(string, string)>, id: string): set<(string, string)> {
    set l | l in likes && l.0 == id
  }

  ghost function LiveReplies(comments: map<string, Comment>, id: string): set<string> {
    set c | c in comments && comments[c].parent == Some(id) && !comments[c].deleted
  }

  ghost predicate LikesCounted(db: Db) {
    && (forall l | l in db.likes :: l.0 in db.comments)
    && (forall id | id in db.comments :: db.comments[id].likeCount == |Likers(db.likes, id)|)
  }

  ghost predicate RepliesCounted(comments: map<string, Comment>) {
    forall id | id in comments :: comments[id].replyCount == |LiveReplies(comments, id)|
  }

  /** A reply's parent exists, is another comment, and is on the same token. */
  ghost predicate ParentsOk(comments: map<string, Comment>) {
    forall id | id in comments && comments[id].parent.Some? ::
      var p := comments[id].parent.value;
      p != id && p in comments && comments[p].token == comments[id].token
  }

  /** Each comment came from exactly one idempotency key, its author's own. */
  ghost predicate RequestsOk(db: Db) {
    && (forall k | k in db.requests :: db.requests[k].resource in db.comments && db.comments[db.requests[k].resource].wallet == k.0)
    && (forall k, l | k in db.requests && l in db.requests && db.requests[k].resource == db.requests[l].resource :: k == l)
    && (forall id | id in db.comments :: HasRequest(db, id))
  }

  ghost predicate HasRequest(db: Db, id: string) {
    exists k :: k in db.requests && db.requests[k].resource == id
  }

  /** Generations written for one token, in order. */
  function RowsOf(outbox: seq<(string, nat)>, token: string): seq<nat> {
    if outbox == [] then []
    else
      var (t, g) := outbox[|outbox| - 1];
      RowsOf(outbox[..|outbox| - 1], token) + (if t == token then [g] else [])
  }

  /** A token's outbox rows are exactly the generations 1, 2, ..., up to its current one. */
  ghost predicate OutboxOk(db: Db) {
    forall token :: RowsOf(db.outbox, token) == Counting(GenerationOf(db, token))
  }

  function Counting(n: nat): seq<nat> {
    seq(n, i => i + 1)
  }

  ghost predicate Inv(db: Db) {
    LikesCounted(db) && RepliesCounted(db.comments) && ParentsOk(db.comments) && RequestsOk(db) && OutboxOk(db)
  }

  /** Every comment, reply or not, is stored at depth zero as its own root. */
  ghost predicate Flat(comments: map<string, Comment>) {
    forall id | id in comments :: comments[id].depth == 0 && comments[id].root == id
  }

  lemma EmptyInv()
    ensures Inv(EMPTY)
  {
    assert forall token :: RowsOf(EMPTY.outbox, token) == Counting(0);
  }

  // ----- preservation -----

  lemma RowsOfSnoc(outbox: seq<(string, nat)>, t: string, g: nat, token: string)
    ensures RowsOf(outbox + [(t, g)], token) == RowsOf(outbox, token) + (if t == token then [g] else [])
  {
    assert (outbox + [(t, g)])[..|outbox|] == outbox;
  }

  /** The bump writes the one missing generation. */
  lemma AdvanceOutbox(db: Db, token: string)
    requires OutboxOk(db)
    ensures OutboxOk(Advance(db, token))
  {
    hide RowsOf;
    var after := Advance(db, token);
    forall t ensures RowsOf(after.outbox, t) == Counting(GenerationOf(after, t)) {
      RowsOfSnoc(db.outbox, token, GenerationOf(db, token) + 1, t);
      assert Counting(GenerationOf(db, token) + 1) == Counting(GenerationOf(db, token)) + [GenerationOf(db, token) + 1];
    }
  }

  lemma AdvanceRest(db: Db, token: string)
    ensures var after := Advance(db, token);
      after.comments == db.comments && after.likes == db.likes && after.requests == db.requests
  {}

  /** A change of counters, text or deletion that leaves parents, tokens and authors alone. */
  ghost predicate SameShape(a: map<string, Comment>, b: map<string, Comment>) {
    a.Keys == b.Keys && forall id | id in a :: a[id].parent == b[id].parent && a[id].token == b[id].token && a[id].wallet == b[id].wallet
  }

  lemma ShapeKeeps(db: Db, comments: map<string, Comment>)
    requires SameShape(db.comments, comments)
    ensures ParentsOk(db.comments) ==> ParentsOk(comments)
    ensures RequestsOk(db) ==> RequestsOk(db.(comments := comments))
  {
    if RequestsOk(db) {
      forall id | id in comments ensures HasRequest(db.(comments := comments), id) {
        assert HasRequest(db, id);
      }
    }
  }

  lemma AdvanceKeeps(db: Db, token: string)
    requires Inv(db)
    ensures Inv(Advance(db, token))
  {
    hide LikesCounted, RepliesCounted, ParentsOk, RequestsOk, OutboxOk, Advance;
    AdvanceRest(db, token);
    AdvanceOutbox(db, token);
    RequestsSame(db, Advance(db, token));
    LikesSame(db, Advance(db, token));
  }

  lemma RelikeKeeps(db: Db, id: string, likes: set<(string, string)>, delta: int)
    requires Inv(db) && id in db.comments
    requires forall l | l in likes :: l.0 in db.comments
    requires |Likers(likes, id)| == |Likers(db.likes, id)| + delta
    requires forall other | other in db.comments && other != id :: Likers(likes, other) == Likers(db.likes, other)
    ensures Inv(Relike(db, id, likes, delta))
  {
    hide LikesCounted, RepliesCounted, ParentsOk, RequestsOk, OutboxOk, Advance;
    var c := db.comments[id];
    var comments := db.comments[id := c.(likeCount := c.likeCount + delta)];
    var next := db.(comments := comments, likes := likes);
    RelikeLikes(db, id, likes, delta);
    RelikeReplies(db.comments, id, c.(likeCount := c.likeCount + delta));
    ShapeKeeps(db, comments);
    OutboxSame(db, next);
    RequestsSame(db.(comments := comments), next);
    AdvanceKeeps(next, c.token);
  }

  lemma RelikeLikes(db: Db, id: string, likes: set<(string, string)>, delta: int)
    requires LikesCounted(db) && id in db.comments
    requires forall l | l in likes :: l.0 in db.comments
    requires |Likers(likes, id)| == |Likers(db.likes, id)| + delta
    requires forall other | other in db.comments && other != id :: Likers(likes, other) == Likers(db.likes, other)
    ensures var c := db.comments[id];
      LikesCounted(db.(comments := db.comments[id := c.(likeCount := c.likeCount + delta)], likes := likes))
  {
    hide Likers;
  }

  lemma RelikeReplies(comments: map<string, Comment>, id: string, c: Comment)
    requires RepliesCounted(comments) && id in comments
    requires c.parent == comments[id].parent && c.deleted == comments[id].deleted && c.replyCount == comments[id].replyCount
    ensures RepliesCounted(comments[id := c])
  {
    var after := comments[id := c];
    forall x | x in after ensures after[x].replyCount == |LiveReplies(after, x)| {
      assert LiveReplies(after, x) == LiveReplies(comments, x);
    }
  }

  lemma OutboxSame(a: Db, b: Db)
    requires a.outbox == b.outbox && a.generations == b.generations
    ensures OutboxOk(a) ==> OutboxOk(b)
  {
    if OutboxOk(a) {
      forall token ensures RowsOf(b.outbox, token) == Counting(GenerationOf(b, token)) {
        assert GenerationOf(a, token) == GenerationOf(b, token);
      }
    }
  }

  lemma RequestsSame(a: Db, b: Db)
    requires a.comments == b.comments && a.requests == b.requests
    ensures RequestsOk(a) ==> RequestsOk(b)
  {
    if RequestsOk(a) {
      forall id | id in b.comments ensures HasRequest(b, id) {
        assert HasRequest(a, id);
      }
    }
  }

  lemma LikeKeeps(db: Db, id: string, wallet: string)
    requires Inv(db)
    ensures Inv(Like(db, id, wallet).0) && Inv(Unlike(db, id, wallet).0)
  {
    hide Inv, Relike;
    assert LikesCounted(db) by { LikesPart(db); }
    if id in db.comments && !db.comments[id].deleted && (id, wallet) !in db.likes {
      var likes := db.likes + {(id, wallet)};
      assert Likers(likes, id) == Likers(db.likes, id) + {(id, wallet)};
      forall other | other in db.comments && other != id ensures Likers(likes, other) == Likers(db.likes, other) {}
      RelikeKeeps(db, id, likes, 1);
    }
    if id in db.comments && (id, wallet) in db.likes {
      var likes := db.likes - {(id, wallet)};
      assert Likers(db.likes, id) == Likers(likes, id) + {(id, wallet)};
      forall other | other in db.comments && other != id ensures Likers(likes, other) == Likers(db.likes, other) {}
      RelikeKeeps(db, id, likes, -1);
    }
  }

  lemma LikesPart(db: Db)
    requires Inv(db)
    ensures LikesCounted(db)
  {}

  // ----- replies -----

  /** Adding or hiding one reply moves exactly its parent's count. */
  lemma RecountKeeps(before: map<string, Comment>, middle: map<string, Comment>, id: string, parent: Option<string>, delta: int)
    requires RepliesCounted(before) && id in middle && middle[id].parent == parent
    requires forall c | c in middle && c != id :: c in before && middle[c] == before[c]
    requires forall c | c in before :: c in middle
    requires middle[id].replyCount == |LiveReplies(middle, id)|
    requires parent.Some? ==> parent.value != id && parent.value in middle
    requires parent.Some? ==> |LiveReplies(middle, parent.value)| == |LiveReplies(before, parent.value)| + delta
    requires forall x | x in middle && x != id && Some(x) != parent :: LiveReplies(middle, x) == LiveReplies(before, x)
    ensures RepliesCounted(if parent.None? then middle else Recount(middle, parent.value, delta))
  {
    var after := if parent.None? then middle else Recount(middle, parent.value, delta);
    forall x | x in after ensures after[x].replyCount == |LiveReplies(after, x)| {
      assert LiveReplies(after, x) == LiveReplies(middle, x);
    }
  }

  lemma CreateReplies(db: Db, id: string, made: Comment)
    requires RepliesCounted(db.comments) && ParentsOk(db.comments) && id !in db.comments
    requires made.replyCount == 0 && !made.deleted && (made.parent.Some? ==> made.parent.value in db.comments)
    ensures var comments := db.comments[id := made];
      RepliesCounted(if made.parent.None? then comments else Recount(comments, made.parent.value, 1))
  {
    var middle := db.comments[id := made];
    assert LiveReplies(middle, id) == {};
    if made.parent.Some? {
      var p := made.parent.value;
      assert LiveReplies(middle, p) == LiveReplies(db.comments, p) + {id};
    }
    forall x | x in middle && x != id && Some(x) != made.parent ensures LiveReplies(middle, x) == LiveReplies(db.comments, x) {}
    RecountKeeps(db.comments, middle, id, made.parent, 1);
  }

  lemma DeleteReplies(db: Db, id: string)
    requires RepliesCounted(db.comments) && ParentsOk(db.comments) && id in db.comments && !db.comments[id].deleted
    ensures var c := db.comments[id];
      var comments := db.comments[id := c.(deleted := true, text := None)];
      RepliesCounted(if c.parent.None? then comments else Recount(comments, c.parent.value, -1))
  {
    var c := db.comments[id];
    var middle := db.comments[id := c.(deleted := true, text := None)];
    assert LiveReplies(middle, id) == LiveReplies(db.comments, id);
    if c.parent.Some? {
      var p := c.parent.value;
      assert LiveReplies(db.comments, p) == LiveReplies(middle, p) + {id};
    }
    forall x | x in middle && x != id && Some(x) != c.parent ensures LiveReplies(middle, x) == LiveReplies(db.comments, x) {}
    RecountKeeps(db.comments, middle, id, c.parent, -1);
  }

  lemma DeleteKeeps(db: Db, id: string, wallet: string)
    requires Inv(db)
    ensures Inv(Delete(db, id, wallet).0)
  {
    hide LikesCounted, RepliesCounted, RequestsOk, OutboxOk, Advance;
    if id in db.comments && db.comments[id].wallet == wallet && !db.comments[id].deleted {
      DeleteReplies(db, id);
      var c := db.comments[id];
      var comments := db.comments[id := c.(deleted := true, text := None)];
      var counted := if c.parent.None? then comments else Recount(comments, c.parent.value, -1);
      var next := db.(comments := counted);
      ShapeKeeps(db, counted);
      OutboxSame(db, next);
      SameLikeCounts(db, counted);
      AdvanceKeeps(next, c.token);
    }
  }

  lemma SameLikeCounts(db: Db, comments: map<string, Comment>)
    requires LikesCounted(db) && comments.Keys == db.comments.Keys
    requires forall id | id in comments :: comments[id].likeCount == db.comments[id].likeCount
    ensures LikesCounted(db.(comments := comments))
  {}

  lemma CreateKeeps(db: Db, x: Input, id: string)
    requires Inv(db)
    ensures Inv(Create(db, x, id).0)
  {
    hide LikesCounted, RepliesCounted, RequestsOk, OutboxOk, Advance, Replay;
    if x.wallet != "" && (x.wallet, x.key) !in db.requests && ParentError(db, x.token, x.parent).None? && id !in db.comments {
      var made := Comment(x.token, x.wallet, x.parent, id, 0, Some(x.text), false, 0, 0);
      CreateReplies(db, id, made);
      CreateLikes(db, id, made);
      var comments := db.comments[id := made];
      var counted := if x.parent.None? then comments else Recount(comments, x.parent.value, 1);
      CreateParents(db.comments, id, made);
      CreateRequests(db, x, id, counted);
      var next := db.(comments := counted, requests := db.requests[(x.wallet, x.key) := Request(x.hash, id)]);
      OutboxSame(db, next);
      LikesSame(db.(comments := counted), next);
      AdvanceKeeps(next, x.token);
    }
  }

  lemma CreateParents(comments: map<string, Comment>, id: string, made: Comment)
    requires ParentsOk(comments) && id !in comments
    requires made.parent.Some? ==> made.parent.value in comments && comments[made.parent.value].token == made.token
    ensures var middle := comments[id := made];
      ParentsOk(if made.parent.None? then middle else Recount(middle, made.parent.value, 1))
  {}

  lemma LikesSame(a: Db, b: Db)
    requires a.comments == b.comments && a.likes == b.likes
    ensures LikesCounted(a) ==> LikesCounted(b)
  {}

  lemma CreateLikes(db: Db, id: string, made: Comment)
    requires LikesCounted(db) && id !in db.comments && made.likeCount == 0
    ensures var comments := db.comments[id := made];
      LikesCounted(db.(comments := if made.parent.None? then comments else Recount(comments, made.parent.value, 1)))
  {
    assert Likers(db.likes, id) == {};
  }

  lemma CreateRequests(db: Db, x: Input, id: string, comments: map<string, Comment>)
    requires RequestsOk(db) && id !in db.comments && (x.wallet, x.key) !in db.requests
    requires comments.Keys == db.comments.Keys + {id} && comments[id].wallet == x.wallet
    requires forall c | c in db.comments :: comments[c].wallet == db.comments[c].wallet
    ensures RequestsOk(db.(comments := comments, requests := db.requests[(x.wallet, x.key) := Request(x.hash, id)]))
  {
    var next := db.(comments := comments, requests := db.requests[(x.wallet, x.key) := Request(x.hash, id)]);
    forall c | c in comments ensures HasRequest(next, c) {
      if c == id {
        assert next.requests[(x.wallet, x.key)].resource == id;
      } else {
        assert HasRequest(db, c);
        var k :| k in db.requests && db.requests[k].resource == c;
        assert k in next.requests && next.requests[k].resource == c;
      }
    }
  }

  lemma StepKeeps(db: Db, op: Op)
    requires Inv(db)
    ensures Inv(Step(db, op).0)
  {
    hide Inv;
    match op
    case CreateOp(x, id) => CreateKeeps(db, x, id);
    case DeleteOp(id, wallet) => DeleteKeeps(db, id, wallet);
    case LikeOp(id, wallet) => LikeKeeps(db, id, wallet);
    case UnlikeOp(id, wallet) => LikeKeeps(db, id, wallet);
  }

  /** Over every sequence of transactions the counters, parents, keys and outbox rows agree. */
  lemma {:induction false} RunKeeps(ops: seq<Op>)
    ensures Inv(Run(EMPTY, ops))
  {
    hide Inv;
    if ops == [] {
      EmptyInv();
    } else {
      RunKeeps(ops[..|ops| - 1]);
      StepKeeps(Run(EMPTY, ops[..|ops| - 1]), ops[|ops| - 1]);
    }
  }

  lemma FlatStep(db: Db, op: Op)
    requires Flat(db.comments)
    ensures Flat(Step(db, op).0.comments)
  {
    hide Replay, ParentError;
  }

  lemma {:induction false} RunFlat(ops: seq<Op>)
    ensures Flat(Run(EMPTY, ops).comments)
  {
    hide Step, Flat;
    if ops == [] {
      assert Flat(EMPTY.comments) by { NothingFlat(); }
    } else {
      RunFlat(ops[..|ops| - 1]);
      FlatStep(Run(EMPTY, ops[..|ops| - 1]), ops[|ops| - 1]);
    }
  }

  lemma NothingFlat()
    ensures Flat(map[])
  {}

  /** The depth check never refuses: in every reachable database a reply to a live comment of its token is attached, however deep. */
  lemma NeverTooDeep(ops: seq<Op>, x: Input, id: string)
    ensures Create(Run(EMPTY, ops), x, id).1 != Refused(TooDeep)
    ensures var db := Run(EMPTY, ops);
      ParentError(db, x.token, x.parent) == None
      <==> (x.parent.Some? ==> x.parent.value in db.comments && db.comments[x.parent.value].token == x.token
                               && !db.comments[x.parent.value].deleted)
  {
    hide Run;
    RunFlat(ops);
  }

  lemma Kept(db: Db, op: Op)
    requires Inv(db) && Flat(db.comments)
    ensures Inv(Step(db, op).0) && Flat(Step(db, op).0.comments) && OneVersion(db, Step(db, op).0, Changed(db, op))
  {
    StepKeeps(db, op);
    FlatStep(db, op);
    StepIsOneVersion(db, op);
    hide *;
  }

  // ----- what each transaction means -----

  /** A parent a reply may name: a comment of the token that is not deleted. */
  ghost predicate Acceptable(db: Db, token: string, parent: Option<string>) {
    parent.Some? ==>
      && parent.value in db.comments
      && db.comments[parent.value].token == token && !db.comments[parent.value].deleted
  }

  /**
   A comment is created exactly by an authenticated wallet under a new key, on an acceptable parent, and
   it is stored as sent; a used key answers with what it made, or is refused for another body.
   */
  ghost predicate CreateMeans(db: Db, x: Input, id: string, after: Db, r: Outcome) {
    var k := (x.wallet, x.key);
    && (r.Created? <==> x.wallet != "" && k !in db.requests && Acceptable(db, x.token, x.parent) && id !in db.comments)
    && (r.Created? ==>
          && r.id == id && id in after.comments && after.likes == db.likes
          && after.comments[id] == Comment(x.token, x.wallet, x.parent, id, 0, Some(x.text), false, 0, 0)
          && after.requests == db.requests[k := Request(x.hash, id)])
    && (!r.Created? ==> after == db)
    && (x.wallet == "" ==> r == Refused(SessionInvalid))
    && (x.wallet != "" && k in db.requests ==>
          r == if db.requests[k].hash == x.hash then Replayed(db.requests[k].resource) else Refused(KeyReused))
    && (x.wallet != "" && k !in db.requests && !Acceptable(db, x.token, x.parent) ==>
          r == Refused(if x.parent.value in db.comments && db.comments[x.parent.value].token == x.token then ParentDeleted else ParentNotFound))
  }

  lemma CreatePromise(db: Db, x: Input, id: string)
    requires Inv(db) && Flat(db.comments)
    ensures CreateMeans(db, x, id, Create(db, x, id).0, Create(db, x, id).1)
  {
    hide LikesCounted, RepliesCounted, ParentsOk, OutboxOk;
  }

  /** Only the author deletes: the comment ends deleted without its text, and anyone else is refused without effect. */
  ghost predicate DeleteMeans(db: Db, id: string, wallet: string, after: Db, r: Outcome) {
    && r == (if id in db.comments && db.comments[id].wallet == wallet then Deleted else Refused(CommentNotFound))
    && (r == Deleted ==> id in after.comments && after.comments[id].deleted)
    && (r == Deleted && !db.comments[id].deleted ==> after.comments[id].text == None)
    && (r != Deleted || db.comments[id].deleted ==> after == db)
    && after.likes == db.likes && after.requests == db.requests
  }

  lemma DeletePromise(db: Db, id: string, wallet: string)
    requires Inv(db) && Flat(db.comments)
    ensures DeleteMeans(db, id, wallet, Delete(db, id, wallet).0, Delete(db, id, wallet).1)
  {
    hide LikesCounted, RepliesCounted, RequestsOk, OutboxOk;
  }

  lemma LikersPlus(likes: set<(string, string)>, id: string, wallet: string)
    requires (id, wallet) !in likes
    ensures |Likers(likes + {(id, wallet)}, id)| == |Likers(likes, id)| + 1
  {
    assert Likers(likes + {(id, wallet)}, id) == Likers(likes, id) + {(id, wallet)};
  }

  lemma RelikeStores(db: Db, id: string, likes: set<(string, string)>, delta: int)
    requires id in db.comments
    ensures Relike(db, id, likes, delta).likes == likes
  {}

  /** A live comment ends liked by the wallet, and the answer is the number of wallets that like it. */
  ghost predicate LikeMeans(db: Db, id: string, wallet: string, after: Db, r: Outcome) {
    if id in db.comments && !db.comments[id].deleted
    then after.likes == db.likes + {(id, wallet)} && r == LikeState(true, |Likers(after.likes, id)|)
    else after == db && r == Refused(CommentNotFound)
  }

  lemma LikePromise(db: Db, id: string, wallet: string)
    requires Inv(db) && Flat(db.comments)
    ensures LikeMeans(db, id, wallet, Like(db, id, wallet).0, Like(db, id, wallet).1)
  {
    hide RepliesCounted, ParentsOk, RequestsOk, OutboxOk, Likers, Advance;
    var likes := db.likes + {(id, wallet)};
    if (id, wallet) in db.likes {
      assert likes == db.likes;
    } else {
      LikersPlus(db.likes, id, wallet);
      if id in db.comments {
        RelikeStores(db, id, likes, 1);
      }
    }
  }

  /** A stored comment ends not liked by the wallet, deleted or not, and the answer is the number of wallets that still like it. */
  ghost predicate UnlikeMeans(db: Db, id: string, wallet: string, after: Db, r: Outcome) {
    if id in db.comments
    then after.likes == db.likes - {(id, wallet)} && r == LikeState(false, |Likers(after.likes, id)|)
    else after == db && r == Refused(CommentNotFound)
  }

  lemma UnlikePromise(db: Db, id: string, wallet: string)
    requires Inv(db) && Flat(db.comments)
    ensures UnlikeMeans(db, id, wallet, Unlike(db, id, wallet).0, Unlike(db, id, wallet).1)
  {
    hide RepliesCounted, ParentsOk, RequestsOk, OutboxOk, Likers, Advance;
    var likes := db.likes - {(id, wallet)};
    if (id, wallet) in db.likes {
      LikersPlus(likes, id, wallet);
      assert likes + {(id, wallet)} == db.likes;
      if id in db.comments {
        RelikeStores(db, id, likes, -1);
      }
    } else {
      assert likes == db.likes;
    }
  }

  // ----- who deletes, and what is stored -----

  /** One step keeps every comment's origin, and deletes a comment exactly when its author asks. */
  lemma CommentFate(db: Db, op: Op, id: string)
    requires Inv(db) && Flat(db.comments) && id in db.comments
    ensures id in Step(db, op).0.comments
    ensures var c, c' := db.comments[id], Step(db, op).0.comments[id];
      && c'.wallet == c.wallet && c'.token == c.token && c'.parent == c.parent
      && (c'.deleted <==> c.deleted || op == DeleteOp(id, c.wallet))
      && c'.text == (if c'.deleted && !c.deleted then None else c.text)
  {
    hide LikesCounted, RepliesCounted, RequestsOk, OutboxOk, Replay, ParentError, Flat;
    match op
    case CreateOp(x, other) => hide Delete, Relike;
    case DeleteOp(other, wallet) => hide Create, Relike;
    case LikeOp(other, wallet) => hide Create, Delete;
    case UnlikeOp(other, wallet) => hide Create, Delete;
  }

  /** A comment comes into being only by a create that names it, and then as it was sent. */
  lemma CommentBirth(db: Db, op: Op, id: string)
    requires Inv(db) && Flat(db.comments) && id !in db.comments && id in Step(db, op).0.comments
    ensures op.CreateOp? && op.id == id
    ensures Sent(Step(db, op).0.comments[id], op.input) && !Step(db, op).0.comments[id].deleted
  {
    hide LikesCounted, RepliesCounted, RequestsOk, OutboxOk, Replay;
  }

  /** A comment as a request sent it, with its text unless it was deleted since. */
  ghost predicate Sent(c: Comment, x: Input) {
    && c.token == x.token && c.wallet == x.wallet && c.parent == x.parent
    && c.text == if c.deleted then None else Some(x.text)
  }

  ghost predicate CreatedAt(ops: seq<Op>, id: string, j: nat) {
    && j < |ops| && ops[j].CreateOp? && ops[j].id == id
    && id in Run(EMPTY, ops).comments && Sent(Run(EMPTY, ops).comments[id], ops[j].input)
  }

  ghost predicate AskedAt(ops: seq<Op>, id: string, wallet: string, j: nat) {
    j < |ops| && id in Run(EMPTY, ops[..j]).comments && ops[j] == DeleteOp(id, wallet)
  }

  /**
   Over every run: a stored comment is what one of the requests sent, and it is deleted exactly if its
   author asked for that while it was there.
   */
  lemma {:induction false} DeletedIffAuthorAsked(ops: seq<Op>, id: string)
    requires id in Run(EMPTY, ops).comments
    ensures exists j: nat :: CreatedAt(ops, id, j)
    ensures var c := Run(EMPTY, ops).comments[id];
      c.deleted <==> exists j: nat :: AskedAt(ops, id, c.wallet, j)
  {
    hide Inv, Flat, Step;
    var n := |ops| - 1;
    var rest, op := ops[..n], ops[n];
    var db := Run(EMPTY, rest);
    RunKeeps(rest);
    RunFlat(rest);
    var c := Run(EMPTY, ops).comments[id];
    if id in db.comments {
      DeletedIffAuthorAsked(rest, id);
      CommentFate(db, op, id);
      var b: nat :| CreatedAt(rest, id, b);
      assert CreatedAt(ops, id, b);
      if j: nat :| AskedAt(rest, id, c.wallet, j) {
        assert rest[..j] == ops[..j];
        assert AskedAt(ops, id, c.wallet, j);
      }
      if op == DeleteOp(id, c.wallet) {
        assert AskedAt(ops, id, c.wallet, n);
      }
      forall j: nat | AskedAt(ops, id, c.wallet, j) ensures c.deleted {
        if j < n {
          assert rest[..j] == ops[..j];
          assert AskedAt(rest, id, c.wallet, j);
        }
      }
    } else {
      CommentBirth(db, op, id);
      assert CreatedAt(ops, id, n);
      forall j: nat | AskedAt(ops, id, c.wallet, j) ensures false {
        if j < n {
          StillThere(ops, id, j, n);
        }
      }
    }
  }

  /** A stored comment stays stored. */
  lemma {:induction false} StillThere(ops: seq<Op>, id: string, j: nat, n: nat)
    requires j <= n <= |ops| && id in Run(EMPTY, ops[..j]).comments
    ensures id in Run(EMPTY, ops[..n]).comments
    decreases n
  {
    hide Inv, Flat, Step;
    if j < n {
      StillThere(ops, id, j, n - 1);
      RunKeeps(ops[..n - 1]);
      RunFlat(ops[..n - 1]);
      assert ops[..n][..n - 1] == ops[..n - 1];
      CommentFate(Run(EMPTY, ops[..n - 1]), ops[n - 1], id);
    }
  }

  // ----- idempotency -----

  /** Whether a step creates a comment under a wallet's key. */
  predicate Makes(db: Db, op: Op, k: (string, string)) {
    op.CreateOp? && (op.input.wallet, op.input.key) == k && Step(db, op).1.Created?
  }

  ghost function Creations(ops: seq<Op>, k: (string, string)): nat {
    if ops == [] then 0
    else Creations(ops[..|ops| - 1], k) + (if Makes(Run(EMPTY, ops[..|ops| - 1]), ops[|ops| - 1], k) then 1 else 0)
  }

  lemma RequestsOnlyGrow(db: Db, op: Op, k: (string, string))
    ensures var after := Step(db, op).0;
      && (k in db.requests ==> k in after.requests && after.requests[k] == db.requests[k] && !Makes(db, op, k))
      && (k !in db.requests ==> (k in after.requests <==> Makes(db, op, k)))
  {
    hide ParentError, Recount;
  }

  /** Over every run a key creates at most one comment: one if it is recorded, none otherwise. */
  lemma {:induction false} OneCommentPerKey(ops: seq<Op>, k: (string, string))
    ensures Creations(ops, k) == if k in Run(EMPTY, ops).requests then 1 else 0
  {
    hide Step, Makes;
    if ops != [] {
      OneCommentPerKey(ops[..|ops| - 1], k);
      RequestsOnlyGrow(Run(EMPTY, ops[..|ops| - 1]), ops[|ops| - 1], k);
    }
  }

  /** Repeating a recorded request changes nothing and answers with the comment it made; another body is refused. */
  lemma RepeatIsReplay(ops: seq<Op>, x: Input, id: string)
    requires x.wallet != "" && (x.wallet, x.key) in Run(EMPTY, ops).requests
    ensures var db := Run(EMPTY, ops);
      var made := db.requests[(x.wallet, x.key)];
      Create(db, x, id) == (db, if made.hash == x.hash then Replayed(made.resource) else Refused(KeyReused))
  {
    hide Run, LikesCounted, RepliesCounted, ParentsOk, OutboxOk;
    RunKeeps(ops);
    var db, k := Run(EMPTY, ops), (x.wallet, x.key);
    assert RequestsOk(db);
    assert db.requests[k].resource in db.comments;
  }

  // ----- versions -----

  /** What readers of a token can see. */
  ghost function Visible(db: Db, token: string): map<string, Comment> {
    map id | id in db.comments && db.comments[id].token == token :: db.comments[id]
  }

  /** The token whose generation a step advances, if any. */
  function Changed(db: Db, op: Op): Option<string> {
    var after := Step(db, op).0;
    if |after.outbox| > |db.outbox| then Some(after.outbox[|after.outbox| - 1].0) else None
  }

  /** A step either changes nothing, or advances one token by one with one row and alters only what that token shows. */
  ghost predicate OneVersion(db: Db, after: Db, changed: Option<string>) {
    match changed
    case None => after == db
    case Some(t) =>
      && after.generations == db.generations[t := GenerationOf(db, t) + 1]
      && after.outbox == db.outbox + [(t, GenerationOf(db, t) + 1)]
      && Visible(after, t) != Visible(db, t)
      && forall u | u != t :: Visible(after, u) == Visible(db, u)
  }

  lemma StepIsOneVersion(db: Db, op: Op)
    requires Inv(db)
    ensures OneVersion(db, Step(db, op).0, Changed(db, op))
  {
    hide LikesCounted, RepliesCounted, RequestsOk, OutboxOk;
    match op
    case CreateOp(x, id) => CreateVersion(db, x, id);
    case DeleteOp(id, wallet) => DeleteVersion(db, id, wallet);
    case LikeOp(id, wallet) =>
      if id in db.comments && !db.comments[id].deleted && (id, wallet) !in db.likes {
        RelikeVersion(db, id, db.likes + {(id, wallet)}, 1);
      }
    case UnlikeOp(id, wallet) =>
      if id in db.comments && (id, wallet) in db.likes {
        RelikeVersion(db, id, db.likes - {(id, wallet)}, -1);
      }
  }

  /** Comments changed only within one token, and one of them really changed. */
  lemma AdvanceVersion(db: Db, next: Db, token: string, id: string)
    requires next.generations == db.generations && next.outbox == db.outbox
    requires forall c | c in db.comments :: c in next.comments && next.comments[c].token == db.comments[c].token
    requires forall c | c in next.comments && next.comments[c].token != token :: c in db.comments && next.comments[c] == db.comments[c]
    requires id in next.comments && next.comments[id].token == token
    requires id in db.comments ==> next.comments[id] != db.comments[id]
    ensures OneVersion(db, Advance(next, token), Some(token))
  {
    var after := Advance(next, token);
    assert id in Visible(after, token) && (id in Visible(db, token) ==> Visible(after, token)[id] != Visible(db, token)[id]);
    forall u | u != token ensures Visible(after, u) == Visible(db, u) {}
  }

  lemma RelikeVersion(db: Db, id: string, likes: set<(string, string)>, delta: int)
    requires id in db.comments && delta != 0
    ensures OneVersion(db, Relike(db, id, likes, delta), Some(db.comments[id].token))
  {
    hide OneVersion, Advance;
    var c := db.comments[id];
    AdvanceVersion(db, db.(comments := db.comments[id := c.(likeCount := c.likeCount + delta)], likes := likes), c.token, id);
  }

  lemma DeleteVersion(db: Db, id: string, wallet: string)
    requires ParentsOk(db.comments)
    ensures OneVersion(db, Delete(db, id, wallet).0, Changed(db, DeleteOp(id, wallet)))
  {
    hide OneVersion;
    if id in db.comments && db.comments[id].wallet == wallet && !db.comments[id].deleted {
      var c := db.comments[id];
      var comments := db.comments[id := c.(deleted := true, text := None)];
      AdvanceVersion(db, db.(comments := if c.parent.None? then comments else Recount(comments, c.parent.value, -1)), c.token, id);
    } else {
      SameIsNone(db);
    }
  }

  lemma SameIsNone(db: Db)
    ensures OneVersion(db, db, None)
  {}

  lemma CreateVersion(db: Db, x: Input, id: string)
    ensures OneVersion(db, Create(db, x, id).0, Changed(db, CreateOp(x, id)))
  {
    hide OneVersion, Replay;
    SameIsNone(db);
    if x.wallet != "" && (x.wallet, x.key) !in db.requests && ParentError(db, x.token, x.parent).None? && id !in db.comments {
      var made := Comment(x.token, x.wallet, x.parent, id, 0, Some(x.text), false, 0, 0);
      var comments := db.comments[id := made];
      var counted := if x.parent.None? then comments else Recount(comments, x.parent.value, 1);
      AdvanceVersion(db, db.(comments := counted, requests := db.requests[(x.wallet, x.key) := Request(x.hash, id)]), x.token, id);
    }
  }
}
