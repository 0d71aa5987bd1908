/**
 * What `resolve` and `awaitResult` answer over the Redis store, said by the commands of the run: a
 * DEL wins exactly while the command is pending, and an LPOP gives a winner's outcome exactly from
 * its RPUSH until it is popped, cancelled or expires.
 */
module RedisAnswers {
  import opened Basics
  import opened BridgeTypes
  import opened RedisRuns

  /** The command makes `id` pending. */
  predicate Sets(c: RedisCommand, id: Id) { c.SetPending? && c.pending.id == id }

  /** After the command `id` is not pending. */
  predicate Unsets(c: RedisCommand, id: Id) { (c.DelPending? || c.DelBoth? || c.ExpirePending?) && c.id == id }

  /** After the command nothing of `id` is stored. */
  predicate Empties(c: RedisCommand, id: Id) { (c.PopResult? || c.DelBoth? || c.ExpireResult?) && c.id == id }

  /** Set at `e`, and nothing has ended that before `i`. */
  ghost predicate SetSince(cs: seq<RedisCommand>, e: nat, i: nat, id: Id)
    requires i <= |cs|
  {
    e < i && Sets(cs[e], id) && forall j | e < j < i :: !Unsets(cs[j], id)
  }

  lemma PendingStep(r: Redis, c: RedisCommand, id: Id)
    requires Allowed(r, c)
    ensures id in Step(r, c).0.pendings <==> Sets(c, id) || (id in r.pendings && !Unsets(c, id))
  {
  }

  lemma {:induction false} IsPendingExactly(rs: seq<Redis>, cs: seq<RedisCommand>, i: nat, id: Id)
    requires IsRun(rs, cs) && i <= |cs|
    ensures id in rs[i].pendings <==> exists e: nat :: SetSince(cs, e, i, id)
  {
    if i > 0 {
      var k := i - 1;
      IsPendingExactly(rs, cs, k, id);
      assert StepAt(rs, cs, i - 1);
      PendingStep(rs[i - 1], cs[i - 1], id);
      if Sets(cs[i - 1], id) { assert SetSince(cs, i - 1, i, id); }
      if !Unsets(cs[i - 1], id) {
        if e: nat :| SetSince(cs, e, k, id) { assert SetSince(cs, e, i, id); }
      }
      if e: nat :| SetSince(cs, e, i, id) && e < k { assert SetSince(cs, e, k, id); }
    }
  }

  /** A `resolve` wins exactly if the command was enqueued, and not resolved, cancelled or expired since. */
  lemma WinsExactly(rs: seq<Redis>, cs: seq<RedisCommand>, i: nat, id: Id)
    requires IsRun(rs, cs) && i < |cs| && cs[i].DelPending? && cs[i].id == id
    ensures Wins(rs, cs, i, id) <==> exists e: nat :: SetSince(cs, e, i, id)
  {
    assert StepAt(rs, cs, i);
    IsPendingExactly(rs, cs, i, id);
  }

  /** The client won `id` with `o` at `d`, and has not pushed before `i`. */
  ghost predicate OwesSince(rs: seq<Redis>, cs: seq<RedisCommand>, d: nat, i: nat, client: nat, id: Id, o: Outcome)
    requires IsRun(rs, cs) && i <= |cs|
  {
    d < i && cs[d] == DelPending(client, id, o) && Wins(rs, cs, d, id) && forall j | d < j < i :: cs[j] != PushResult(client)
  }

  lemma WinnerStep(r: Redis, c: RedisCommand, client: nat, id: Id, o: Outcome)
    requires Allowed(r, c)
    ensures var won := c == DelPending(client, id, o) && id in r.pendings;
            Holds(Step(r, c).0, client, id, o) <==> won || (Holds(r, client, id, o) && c != PushResult(client))
    ensures c.DelPending? ==> (Step(r, c).1.Some? <==> c.id in r.pendings)
  {
  }

  /** The client has removed the pending key of `id` and is to push `o`. */
  predicate Holds(r: Redis, client: nat, id: Id, o: Outcome) {
    client in r.winners && r.winners[client] == Winner(id, o)
  }

  lemma {:induction false} OwesExactly(rs: seq<Redis>, cs: seq<RedisCommand>, i: nat, client: nat, id: Id, o: Outcome)
    requires IsRun(rs, cs) && i <= |cs|
    ensures Holds(rs[i], client, id, o) <==> exists d: nat :: OwesSince(rs, cs, d, i, client, id, o)
  {
    if i > 0 {
      var k := i - 1;
      OwesExactly(rs, cs, k, client, id, o);
      assert StepAt(rs, cs, i - 1);
      var c := cs[i - 1];
      WinnerStep(rs[i - 1], c, client, id, o);
      if c == DelPending(client, id, o) && id in rs[i - 1].pendings {
        assert OwesSince(rs, cs, i - 1, i, client, id, o);
      }
      if c != PushResult(client) {
        if d: nat :| OwesSince(rs, cs, d, k, client, id, o) { assert OwesSince(rs, cs, d, i, client, id, o); }
      }
      if d: nat :| OwesSince(rs, cs, d, i, client, id, o) && d < k {
        assert OwesSince(rs, cs, d, k, client, id, o);
      }
    }
  }

  /** A client that won `id` with `o` at `d` pushed it at `p`, and nothing has emptied the key before `i`. */
  ghost predicate StoredSince(rs: seq<Redis>, cs: seq<RedisCommand>, p: nat, i: nat, client: nat, id: Id, o: Outcome)
    requires IsRun(rs, cs) && i <= |cs|
  {
    p < i && cs[p] == PushResult(client) && (exists d: nat :: OwesSince(rs, cs, d, p, client, id, o)) &&
    forall j | p < j < i :: !Empties(cs[j], id)
  }

  lemma PushStores(r: Redis, client: nat, id: Id, o: Outcome)
    requires Inv(r) && client in r.winners
    ensures ResultsOf(Step(r, PushResult(client)).0, id) == [o] <==> Holds(r, client, id, o) || ResultsOf(r, id) == [o]
  {
    var w := r.winners[client];
    assert ResultsOf(r, w.id) == [] && [] + [w.outcome] == [w.outcome];
    assert [w.outcome] == [o] <==> w.outcome == o;
  }

  lemma OtherResultStep(r: Redis, c: RedisCommand, id: Id, o: Outcome)
    requires Inv(r) && Allowed(r, c) && !c.PushResult?
    ensures ResultsOf(Step(r, c).0, id) == [o] <==> ResultsOf(r, id) == [o] && !Empties(c, id)
  {
    assert |ResultsOf(r, id)| <= 1;
  }

  lemma StoredNow(rs: seq<Redis>, cs: seq<RedisCommand>, i: nat, client: nat, id: Id, o: Outcome)
    requires IsRun(rs, cs) && i < |cs| && cs[i] == PushResult(client) && Holds(rs[i], client, id, o)
    ensures StoredSince(rs, cs, i, i + 1, client, id, o)
  {
    OwesExactly(rs, cs, i, client, id, o);
  }

  lemma StoredWas(rs: seq<Redis>, cs: seq<RedisCommand>, p: nat, i: nat, client: nat, id: Id, o: Outcome)
    requires IsRun(rs, cs) && 0 < i <= |cs| && StoredSince(rs, cs, p, i, client, id, o)
    ensures if p == i - 1 then cs[p] == PushResult(client) && Holds(rs[p], client, id, o)
            else StoredSince(rs, cs, p, i - 1, client, id, o) && !Empties(cs[i - 1], id)
  {
    if p == i - 1 { OwesExactly(rs, cs, p, client, id, o); }
  }

  ghost predicate IsStoredSince(rs: seq<Redis>, cs: seq<RedisCommand>, i: nat, id: Id, o: Outcome)
    requires IsRun(rs, cs) && i <= |cs|
  {
    exists p: nat, client: nat :: StoredSince(rs, cs, p, i, client, id, o)
  }

  lemma StoredSinceStep(rs: seq<Redis>, cs: seq<RedisCommand>, i: nat, id: Id, o: Outcome)
    requires IsRun(rs, cs) && i < |cs|
    ensures IsStoredSince(rs, cs, i + 1, id, o) <==>
            || (cs[i].PushResult? && Holds(rs[i], cs[i].client, id, o))
            || (IsStoredSince(rs, cs, i, id, o) && !Empties(cs[i], id))
  {
    if cs[i].PushResult? && Holds(rs[i], cs[i].client, id, o) { StoredNow(rs, cs, i, cs[i].client, id, o); }
    if !Empties(cs[i], id) {
      if p: nat, client: nat :| StoredSince(rs, cs, p, i, client, id, o) {
        assert StoredSince(rs, cs, p, i + 1, client, id, o);
      }
    }
    var n := i + 1;
    if p: nat, client: nat :| StoredSince(rs, cs, p, n, client, id, o) { StoredWas(rs, cs, p, n, client, id, o); }
  }

  lemma {:induction false} IsStoredExactly(rs: seq<Redis>, cs: seq<RedisCommand>, i: nat, id: Id, o: Outcome)
    requires IsRun(rs, cs) && i <= |cs|
    ensures ResultsOf(rs[i], id) == [o] <==> IsStoredSince(rs, cs, i, id, o)
  {
    if i > 0 {
      IsStoredExactly(rs, cs, i - 1, id, o);
      StoredSinceStep(rs, cs, i - 1, id, o);
      assert StepAt(rs, cs, i - 1);
      RunKeepsInv(rs, cs, i - 1);
      ResultStep(rs[i - 1], cs[i - 1], id, o);
    }
  }

  lemma ResultStep(r: Redis, c: RedisCommand, id: Id, o: Outcome)
    requires Inv(r) && Allowed(r, c)
    ensures ResultsOf(Step(r, c).0, id) == [o] <==>
            (c.PushResult? && Holds(r, c.client, id, o)) || (ResultsOf(r, id) == [o] && !Empties(c, id))
  {
    if c.PushResult? { PushStores(r, c.client, id, o); } else { OtherResultStep(r, c, id, o); }
  }

  /** An LPOP gives `o` exactly if a winner of `id` has pushed it and nobody has popped or cancelled it since, and it has not expired. */
  lemma PopsExactly(rs: seq<Redis>, cs: seq<RedisCommand>, i: nat, id: Id, o: Outcome)
    requires IsRun(rs, cs) && i < |cs| && cs[i] == PopResult(id)
    ensures Pops(rs, cs, i, id, o) <==> IsStoredSince(rs, cs, i, id, o)
  {
    assert StepAt(rs, cs, i);
    RunKeepsInv(rs, cs, i);
    IsStoredExactly(rs, cs, i, id, o);
    assert ResultsOf(rs[i], id) == [] || |ResultsOf(rs[i], id)| == 1;
  }
}
