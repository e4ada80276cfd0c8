/**
 Outbox rows and their leases (src/infrastructure/queue/outbox-dispatcher.ts:16-81). Each database
 statement of the dispatcher is one function on the rows; the class below runs one batch alone,
 and the CacheProtocol module interleaves any number of them.
 */
module Outbox {
  import opened Arithmetic

  const LEASE_MS: int := 30_000
  const BATCH_SIZE: nat := 50

  datatype Event = Event(domain: string, generation: nat, supported: bool, availableAt: int,
                         owner: Option<nat>, leaseExpires: Option<int>, published: bool, attempts: nat)

  /** A row a dispatcher may take at `now`: unpublished, available, with no lease or an expired one. */
  predicate Claimable(e: Event, now: int) {
    !e.published && e.availableAt <= now && (e.leaseExpires.None? || e.leaseExpires.value < now)
  }

  /** The first `limit` claimable rows from index `i`, oldest first. */
  function ClaimIds(rows: seq<Event>, now: int, i: nat, limit: nat): (ids: seq<nat>)
    requires i <= |rows|
    ensures |ids| <= limit
    ensures forall a | 0 <= a < |ids| :: i <= ids[a] < |rows| && Claimable(rows[ids[a]], now)
    ensures forall a, b | 0 <= a < b < |ids| :: ids[a] < ids[b]
    decreases |rows| - i
  {
    if i == |rows| || limit == 0 then []
    else if Claimable(rows[i], now) then [i] + ClaimIds(rows, now, i + 1, limit - 1)
    else ClaimIds(rows, now, i + 1, limit)
  }

  /** A claimable row is passed over only by a full batch of older ones. */
  lemma {:induction false} OldestFirst(rows: seq<Event>, now: int, i: nat, limit: nat, k: nat)
    requires i <= k < |rows| && Claimable(rows[k], now)
    ensures var ids := ClaimIds(rows, now, i, limit);
      k in ids || (|ids| == limit && forall a | 0 <= a < limit :: ids[a] < k)
    decreases |rows| - i
  {
    if limit > 0 {
      if Claimable(rows[i], now) {
        if i < k {
          OldestFirst(rows, now, i + 1, limit - 1, k);
        }
      } else {
        OldestFirst(rows, now, i + 1, limit, k);
      }
    }
  }

  /** The claim: every chosen row gets the owner and a fresh lease. */
  function ClaimRows(rows: seq<Event>, ids: seq<nat>, owner: nat, now: int): (r: seq<Event>)
    ensures |r| == |rows|
  {
    seq(|rows|, i requires 0 <= i < |rows| =>
      if i in ids then rows[i].(owner := Some(owner), leaseExpires := Some(now + LEASE_MS)) else rows[i])
  }

  /** A row nobody may claim at `now`: published, not yet available, or under a lease that has not expired. */
  ghost predicate Spared(e: Event, now: int) {
    e.published || e.availableAt > now || (e.leaseExpires.Some? && e.leaseExpires.value >= now)
  }

  /**
   A claim takes at most fifty rows and only ones that are not spared, a row it could have taken is left
   only to fifty older ones, and what it takes is leased to it for thirty seconds; all other rows stay as they are.
   */
  lemma ClaimExactly(rows: seq<Event>, now: int, owner: nat, i: nat)
    requires i < |rows|
    ensures var ids := ClaimIds(rows, now, 0, BATCH_SIZE);
      && |ids| <= 50
      && (i in ids ==> !Spared(rows[i], now))
      && (!Spared(rows[i], now) ==> i in ids || (|ids| == 50 && forall a | 0 <= a < 50 :: ids[a] < i))
      && ClaimRows(rows, ids, owner, now)[i]
         == if i in ids then rows[i].(owner := Some(owner), leaseExpires := Some(now + 30_000)) else rows[i]
  {
    if Claimable(rows[i], now) {
      OldestFirst(rows, now, 0, BATCH_SIZE, i);
    }
  }

  /** A conditional update applies only to the owner's own unpublished row. */
  predicate Holds(rows: seq<Event>, id: nat, owner: nat) {
    id < |rows| && rows[id].owner == Some(owner) && !rows[id].published
  }

  function FinalizeRow(rows: seq<Event>, id: nat, owner: nat): seq<Event> {
    if Holds(rows, id, owner)
    then rows[id := rows[id].(published := true, attempts := rows[id].attempts + 1, owner := None, leaseExpires := None)]
    else rows
  }

  function FailRow(rows: seq<Event>, id: nat, owner: nat): seq<Event> {
    if Holds(rows, id, owner)
    then rows[id := rows[id].(attempts := rows[id].attempts + 1, owner := None, leaseExpires := None)]
    else rows
  }

  function CountPublished(rows: seq<Event>): nat {
    if rows == [] then 0
    else CountPublished(rows[..|rows| - 1]) + (if rows[|rows| - 1].published then 1 else 0)
  }

  /** Same flags row by row, same count. */
  lemma {:induction false} CountSame(a: seq<Event>, b: seq<Event>)
    requires |a| == |b| && forall i | 0 <= i < |a| :: a[i].published == b[i].published
    ensures CountPublished(a) == CountPublished(b)
  {
    if a != [] {
      CountSame(a[..|a| - 1], b[..|b| - 1]);
    }
  }

  lemma {:induction false} CountOneMore(a: seq<Event>, b: seq<Event>, id: nat)
    requires |a| == |b| && id < |a| && !a[id].published && b[id].published
    requires forall i | 0 <= i < |a| && i != id :: a[i].published == b[i].published
    ensures CountPublished(b) == CountPublished(a) + 1
  {
    var n := |a| - 1;
    if id == n {
      CountSame(a[..n], b[..n]);
    } else {
      CountOneMore(a[..n], b[..n], id);
    }
  }

  lemma CountAppend(rows: seq<Event>, e: Event)
    requires !e.published
    ensures CountPublished(rows + [e]) == CountPublished(rows)
  {
    assert (rows + [e])[..|rows|] == rows;
  }

  /** Redis generations by domain; applying takes the maximum. */
  function RedisGeneration(redis: map<string, nat>, domain: string): nat {
    if domain in redis then redis[domain] else 0
  }

  function Apply(redis: map<string, nat>, domain: string, generation: nat): map<string, nat> {
    redis[domain := Max(RedisGeneration(redis, domain), generation)]
  }

  /** How the calls of one event's turn go: all through, the script call fails, or the finalize after it does. */
  datatype Turn = Completes | RedisDown | FinalizeFails

  /** What one event's turn does: apply and finalize, or record the failure. */
  ghost predicate Settled(before: Event, after: Event, turn: Turn) {
    if before.supported && turn.Completes?
    then after == before.(published := true, attempts := before.attempts + 1, owner := None, leaseExpires := None)
    else after == before.(attempts := before.attempts + 1, owner := None, leaseExpires := None)
  }

  ghost predicate Within(ids: seq<nat>, rows: seq<Event>) {
    && (forall a | 0 <= a < |ids| :: ids[a] < |rows|)
    && (forall a, b | 0 <= a < b < |ids| :: ids[a] < ids[b])
  }

  /** The rows once the first k claimed events had their turn: settled, still leased, or untouched. */
  ghost predicate After(before: seq<Event>, ids: seq<nat>, turns: seq<Turn>, owner: nat, now: int, k: nat, rows: seq<Event>)
    requires |ids| == |turns| && Within(ids, before)
  {
    && |rows| == |before|
    && (forall j | 0 <= j < |ids| ::
          if j < k then Settled(before[ids[j]], rows[ids[j]], turns[j])
          else rows[ids[j]] == before[ids[j]].(owner := Some(owner), leaseExpires := Some(now + LEASE_MS)))
    && (forall i | 0 <= i < |rows| && i !in ids :: rows[i] == before[i])
  }

  lemma AfterClaim(before: seq<Event>, ids: seq<nat>, turns: seq<Turn>, owner: nat, now: int)
    requires |ids| == |turns| && Within(ids, before)
    ensures After(before, ids, turns, owner, now, 0, ClaimRows(before, ids, owner, now))
  {}

  lemma AfterTurn(before: seq<Event>, ids: seq<nat>, turns: seq<Turn>, owner: nat, now: int, k: nat,
                  rows: seq<Event>, next: seq<Event>)
    requires |ids| == |turns| && Within(ids, before) && k < |ids|
    requires After(before, ids, turns, owner, now, k, rows)
    requires |next| == |rows| && next == rows[ids[k] := next[ids[k]]] && Settled(rows[ids[k]], next[ids[k]], turns[k])
    ensures After(before, ids, turns, owner, now, k + 1, next)
  {
    assert forall j | 0 <= j < |ids| && j != k :: ids[j] != ids[k];
  }

  /** Published rows of the turns so far have reached Redis. */
  ghost predicate Reached(ids: seq<nat>, k: nat, rows: seq<Event>, redis: map<string, nat>)
    requires k <= |ids| && Within(ids, rows)
  {
    forall j | 0 <= j < k && rows[ids[j]].published :: rows[ids[j]].generation <= RedisGeneration(redis, rows[ids[j]].domain)
  }

  ghost predicate Grows(earlier: map<string, nat>, later: map<string, nat>) {
    forall d :: RedisGeneration(earlier, d) <= RedisGeneration(later, d)
  }

  /** One process's view of the table and of Redis while no other dispatcher runs. */
  class Dispatcher {
    var rows: seq<Event>
    var redis: map<string, nat>

    /**
     One event's turn. A row whose lease was lost meanwhile is left as it is and not counted, though its
     generation may have been applied; a turn that fails, before or after the apply, frees the lease.
     */
    method Settle(id: nat, owner: nat, turn: Turn) returns (one: nat)
      requires id < |rows|
      modifies this
      ensures |rows| == |old(rows)| && rows == old(rows)[id := rows[id]]
      ensures if old(Holds(rows, id, owner)) then Settled(old(rows)[id], rows[id], turn) else rows == old(rows)
      ensures CountPublished(rows) == old(CountPublished(rows)) + one
      ensures one <= 1
      ensures one == 1 <==> old(Holds(rows, id, owner)) && old(rows)[id].supported && turn.Completes?
      ensures one == 1 ==> rows[id].generation <= RedisGeneration(redis, rows[id].domain)
      ensures redis == if old(rows)[id].supported && !turn.RedisDown? then Apply(old(redis), rows[id].domain, rows[id].generation) else old(redis)
      ensures Grows(old(redis), redis)
    {
      one := 0;
      ghost var before := rows;
      var e := rows[id];
      var failed := !e.supported || turn.RedisDown?;
      if !failed {
        redis := Apply(redis, e.domain, e.generation);
        if turn.FinalizeFails? {
          failed := true;
        } else {
          if Holds(rows, id, owner) {
            one := 1;
          }
          rows := FinalizeRow(rows, id, owner);
          if one == 1 {
            CountOneMore(before, rows, id);
          }
        }
      }
      if failed {
        rows := FailRow(rows, id, owner);
        CountSame(before, rows);
      }
    }

    /**
     One batch with no interference. `turns` says, per claimed event, how its calls go. Every claimed row ends settled with no lease, every other row is untouched, and the
     result is the number of rows this batch published, each after its generation reached Redis.
     */
    method DispatchBatch(now: int, owner: nat, turns: seq<Turn>) returns (published: nat)
      requires |turns| == |ClaimIds(rows, now, 0, BATCH_SIZE)|
      modifies this
      ensures Within(ClaimIds(old(rows), now, 0, BATCH_SIZE), old(rows))
      ensures After(old(rows), ClaimIds(old(rows), now, 0, BATCH_SIZE), turns, owner, now, BATCH_SIZE, rows)
      ensures CountPublished(rows) == old(CountPublished(rows)) + published
      ensures Reached(ClaimIds(old(rows), now, 0, BATCH_SIZE), |turns|, rows, redis)
      ensures Grows(old(redis), redis)
      ensures published <= 50 && forall i | 0 <= i < |rows| && Spared(old(rows)[i], now) :: rows[i] == old(rows)[i]
    {
      hide ClaimIds, CountPublished, Apply, After, Settled, ClaimRows, Grows, Spared;
      ghost var before := rows;
      var ids := ClaimIds(rows, now, 0, BATCH_SIZE);
      rows := ClaimRows(rows, ids, owner, now);
      ClaimFacts(before, ids, owner, now);
      AfterClaim(before, ids, turns, owner, now);
      GrowsReflexive(redis);
      published := 0;
      var k := 0;
      while k < |ids|
        invariant 0 <= k <= |ids| && |rows| == |before|
        invariant After(before, ids, turns, owner, now, k, rows)
        invariant CountPublished(rows) == CountPublished(before) + published
        invariant Reached(ids, k, rows, redis)
        invariant Grows(old(redis), redis)
        invariant published <= k
      {
        ghost var rows0, redis0 := rows, redis;
        Leased(before, ids, turns, owner, now, k, rows);
        var one := Settle(ids[k], owner, turns[k]);
        AfterTurn(before, ids, turns, owner, now, k, rows0, rows);
        ReachedTurn(ids, k, rows0, rows, redis0, redis);
        GrowsTransitive(old(redis), redis0, redis);
        published := published + one;
        k := k + 1;
      }
      AfterAll(before, ids, turns, owner, now, rows);
      forall i | 0 <= i < |rows| && Spared(before[i], now) ensures rows[i] == before[i] {
        ClaimExactly(before, now, owner, i);
        Untouched(before, ids, turns, owner, now, rows, i);
      }
    }
  }

  lemma Untouched(before: seq<Event>, ids: seq<nat>, turns: seq<Turn>, owner: nat, now: int, rows: seq<Event>, i: nat)
    requires |ids| == |turns| && Within(ids, before) && After(before, ids, turns, owner, now, BATCH_SIZE, rows)
    requires i < |before| && i !in ids
    ensures i < |rows| && rows[i] == before[i]
  {}

  lemma ClaimFacts(rows: seq<Event>, ids: seq<nat>, owner: nat, now: int)
    requires ids == ClaimIds(rows, now, 0, BATCH_SIZE)
    ensures Within(ids, rows)
    ensures CountPublished(ClaimRows(rows, ids, owner, now)) == CountPublished(rows)
  {
    CountSame(rows, ClaimRows(rows, ids, owner, now));
  }

  lemma Leased(before: seq<Event>, ids: seq<nat>, turns: seq<Turn>, owner: nat, now: int, k: nat, rows: seq<Event>)
    requires |ids| == |turns| && k < |ids| && ids == ClaimIds(before, now, 0, BATCH_SIZE) && Within(ids, before)
    requires After(before, ids, turns, owner, now, k, rows)
    ensures Holds(rows, ids[k], owner)
  {}

  lemma AfterAll(before: seq<Event>, ids: seq<nat>, turns: seq<Turn>, owner: nat, now: int, rows: seq<Event>)
    requires |ids| == |turns| <= BATCH_SIZE && Within(ids, before)
    requires After(before, ids, turns, owner, now, |ids|, rows)
    ensures After(before, ids, turns, owner, now, BATCH_SIZE, rows)
  {}

  lemma ReachedTurn(ids: seq<nat>, k: nat, rows: seq<Event>, next: seq<Event>, redis: map<string, nat>, redis': map<string, nat>)
    requires k < |ids| && Within(ids, rows) && Reached(ids, k, rows, redis)
    requires |next| == |rows| && next == rows[ids[k] := next[ids[k]]] && Grows(redis, redis')
    requires next[ids[k]].published ==> next[ids[k]].generation <= RedisGeneration(redis', next[ids[k]].domain)
    ensures Reached(ids, k + 1, next, redis')
  {
    forall j | 0 <= j < k + 1 && next[ids[j]].published
      ensures next[ids[j]].generation <= RedisGeneration(redis', next[ids[j]].domain)
    {
      if j < k {
        assert ids[j] != ids[k];
      }
    }
  }

  lemma GrowsReflexive(redis: map<string, nat>)
    ensures Grows(redis, redis)
  {}

  lemma GrowsTransitive(a: map<string, nat>, b: map<string, nat>, c: map<string, nat>)
    requires Grows(a, b) && Grows(b, c)
    ensures Grows(a, c)
  {}
}
