/**
 * No command is lost. While a command's outcome is still awaited and a page may still start it, the
 * command is somewhere: queued, in a poll's hands, handed to a page, or taken back by its caller.
 */
module BridgeLosses {
  import opened Basics
  import opened BridgeTypes
  import opened StoreSpec
  import opened Challenges
  import opened Bridge
  import opened BridgePlaces
  import opened BridgeOutcomes

  /** The command is pending and unexpired, and a poll that answers now may hand it out. */
  ghost predicate Due(w: World, id: Id) {
    && id in w.store.pendings && w.store.pendings[id].expiresAt > w.now
    && id in w.calls && w.calls[id].CommandExp() > Seconds(w.now)
  }

  ghost predicate IsSomewhere(w: World, id: Id) {
    exists p :: IsAt(w, id, p)
  }

  ghost predicate NothingLost(w: World) {
    forall id | Due(w, id) :: IsSomewhere(w, id)
  }

  /** A command due after the step was due before, and where it was it still is, or it has moved. */
  lemma MovesLoseNothing(w: World, w': World)
    requires NothingLost(w)
    requires forall id | Due(w', id) :: Due(w, id)
    requires forall id, p | Due(w', id) && IsAt(w, id, p) :: IsSomewhere(w', id)
    ensures NothingLost(w')
  {
    forall id | Due(w', id) ensures IsSomewhere(w', id) {
      assert IsSomewhere(w, id);
      var p :| IsAt(w, id, p);
    }
  }

  lemma MovingNothingLosesNothing(w: World, w': World)
    requires NothingLost(w) && MovesNothing(w, w') && w.now <= w'.now
    ensures NothingLost(w')
  {
    forall id, p | Due(w', id) && IsAt(w, id, p) ensures IsSomewhere(w', id) { assert IsAt(w', id, p); }
    MovesLoseNothing(w, w');
  }

  lemma SendLosesNothing(w: World, id: Id, call: Call)
    requires NothingLost(w) && PlacesOk(w) && id !in w.calls
    ensures NothingLost(DoSend(w, id, call))
  {
    var w' := DoSend(w, id, call);
    var q := QueueOf(w.store, call.user);
    var entry := Entry(call.CommandFor(id), w.now + (call.Budget() + 1_000));
    assert w'.store.queues == w.store.queues[call.user := q + [entry]];
    forall i | Due(w', i) ensures IsSomewhere(w', i) {
      if i == id {
        assert entry in q + [entry];
        assert Holds(w'.store.queues[call.user], id);
        assert IsAt(w', id, InQueue(call.user));
      } else {
        assert Due(w, i);
        var p :| IsAt(w, i, p);
        SendLeaves(w, id, call, i, p);
      }
    }
  }

  lemma SendLeaves(w: World, id: Id, call: Call, i: Id, p: Place)
    requires IsAt(w, i, p)
    ensures IsAt(DoSend(w, id, call), i, p)
  {
    if p == InQueue(call.user) {
      var q := QueueOf(w.store, call.user);
      var e :| e in q && e.command.id == i;
      var entry := Entry(call.CommandFor(id), w.now + (call.Budget() + 1_000));
      assert e in q + [entry];
    }
  }

  /** An entry of a live pending command is alive. */
  lemma {:induction false} LiveHolds(calls: map<Id, Call>, user: User, q: seq<Entry>, t: nat, id: Id)
    requires Holds(q, id) && (forall e | e in q :: EntryOk(calls, user, e)) && id in calls && calls[id].StoredUntil() > t
    ensures Holds(LiveEntries(q, t), id)
  {
    if q[0].command.id == id {
      assert EntryOk(calls, user, q[0]);
      assert q[0] in LiveEntries(q, t);
    } else {
      var e :| e in q && e.command.id == id;
      assert e in q[1..];
      assert Holds(q[1..], id);
      LiveHolds(calls, user, q[1..], t, id);
      var live :| live in LiveEntries(q[1..], t) && live.command.id == id;
      assert live in LiveEntries(q, t);
    }
  }

  lemma SweepLosesNothing(w: World)
    requires NothingLost(w) && PlacesOk(w)
    ensures NothingLost(w.(store := Sweep(w.store, w.now)))
  {
    var w' := w.(store := Sweep(w.store, w.now));
    forall id, p | Due(w', id) && IsAt(w, id, p) ensures IsSomewhere(w', id) {
      if p.InQueue? { LiveHolds(w.calls, p.user, w.store.queues[p.user], w.now, id); }
      assert IsAt(w', id, p);
    }
    MovesLoseNothing(w, w');
  }

  /** Every live command of the queue is taken or left. */
  lemma TakenOrLeft(live: seq<Entry>, n: nat, id: Id)
    requires n <= |live| && Holds(live, id)
    ensures Carries(Commands(live[..n]), id) || Holds(live[n..], id)
  {
    var e :| e in live && e.command.id == id;
    var k :| 0 <= k < |live| && live[k] == e;
    if k < n {
      assert Commands(live[..n])[k] == e.command;
      assert e.command in Commands(live[..n]);
    } else {
      assert live[n..][k - n] == e;
    }
  }

  lemma PollTakeLosesNothing(w: World, poll: nat, user: User)
    requires NothingLost(w) && PlacesOk(w) && poll !in w.polls
    ensures NothingLost(DoPollTake(w, poll, user))
  {
    var w' := DoPollTake(w, poll, user);
    forall id, p | Due(w', id) && IsAt(w, id, p) ensures IsSomewhere(w', id) {
      if p == InQueue(user) { TakenIsSomewhere(w, poll, user, id); } else { StaysDuringTake(w, poll, user, id, p); }
    }
    TakeMakesNothingDue(w, poll, user);
    MovesLoseNothing(w, w');
  }

  lemma TakeMakesNothingDue(w: World, poll: nat, user: User)
    ensures forall id | Due(DoPollTake(w, poll, user), id) :: Due(w, id)
  {
  }

  lemma StaysDuringTake(w: World, poll: nat, user: User, id: Id, p: Place)
    requires poll !in w.polls && IsAt(w, id, p) && p != InQueue(user)
    ensures IsAt(DoPollTake(w, poll, user), id, p)
  {
  }

  lemma TakenIsSomewhere(w: World, poll: nat, user: User, id: Id)
    requires PlacesOk(w) && poll !in w.polls && Due(w, id) && IsAt(w, id, InQueue(user))
    ensures IsSomewhere(DoPollTake(w, poll, user), id)
  {
    var w' := DoPollTake(w, poll, user);
    var q := w.store.queues[user];
    LiveHolds(w.calls, user, q, w.now, id);
    var live := LiveEntries(q, w.now);
    var n := Min(MAX_COMMANDS_PER_POLL, |live|);
    TakenOrLeft(live, n, id);
    if Carries(Commands(live[..n]), id) {
      assert IsAt(w', id, InHands(poll));
    } else {
      assert IsAt(w', id, InQueue(user));
    }
  }

  /** Every startable command of a hand is handed out. */
  lemma {:induction false} StartableHas(cs: seq<Command>, nowSeconds: int, c: Command)
    requires c in cs && c.expiresAt > nowSeconds
    ensures c.id in Startable(cs, nowSeconds)
  {
    if cs[0] != c { StartableHas(cs[1..], nowSeconds, c); }
  }

  /** Every command of a hand that is still pending goes back. */
  lemma {:induction false} ReturnableHas(s: Store, t: nat, cs: seq<Command>, c: Command)
    requires c in cs && c.id in s.pendings && s.pendings[c.id].expiresAt > t
    ensures Holds(Returnable(s, t, cs), c.id)
  {
    if cs[0] == c {
      assert Returnable(s, t, cs)[0] == Entry(c, s.pendings[c.id].expiresAt);
      assert Returnable(s, t, cs)[0] in Returnable(s, t, cs);
    } else {
      ReturnableHas(s, t, cs[1..], c);
      var e :| e in Returnable(s, t, cs[1..]) && e.command.id == c.id;
      assert e in Returnable(s, t, cs);
    }
  }

  lemma PollAnswerLosesNothing(w: World, poll: nat, aborted: bool)
    requires NothingLost(w) && PlacesOk(w) && poll in w.polls
    ensures NothingLost(DoPollAnswer(w, poll, aborted))
  {
    var w' := DoPollAnswer(w, poll, aborted);
    forall id, p | Due(w', id) && IsAt(w, id, p) ensures IsSomewhere(w', id) {
      if p != InHands(poll) {
        StaysDuringAnswer(w, poll, aborted, id, p);
      } else if aborted {
        PutBackIsSomewhere(w, poll, id);
      } else {
        AnsweredIsSomewhere(w, poll, id);
      }
    }
    MovesLoseNothing(w, w');
  }

  lemma StaysDuringAnswer(w: World, poll: nat, aborted: bool, id: Id, p: Place)
    requires poll in w.polls && IsAt(w, id, p) && p != InHands(poll)
    ensures IsAt(DoPollAnswer(w, poll, aborted), id, p)
  {
    var user := w.polls[poll].user;
    if aborted && p == InQueue(user) {
      var e :| e in w.store.queues[user] && e.command.id == id;
      assert e in Returnable(w.store, w.now, w.polls[poll].hand) + w.store.queues[user];
    }
  }

  lemma PutBackIsSomewhere(w: World, poll: nat, id: Id)
    requires PlacesOk(w) && poll in w.polls && Due(w, id) && IsAt(w, id, InHands(poll))
    ensures IsSomewhere(DoPollAnswer(w, poll, true), id)
  {
    var p := w.polls[poll];
    var c :| c in p.hand && c.id == id;
    ReturnableHas(w.store, w.now, p.hand, c);
    var back := Returnable(w.store, w.now, p.hand);
    var e :| e in back && e.command.id == id;
    assert e in back + QueueOf(w.store, p.user);
    assert IsAt(DoPollAnswer(w, poll, true), id, InQueue(p.user));
  }

  lemma AnsweredIsSomewhere(w: World, poll: nat, id: Id)
    requires PlacesOk(w) && poll in w.polls && Due(w, id) && IsAt(w, id, InHands(poll))
    ensures IsSomewhere(DoPollAnswer(w, poll, false), id)
  {
    var p := w.polls[poll];
    var c :| c in p.hand && c.id == id;
    assert CommandOk(w.calls, p.user, c);
    StartableHas(p.hand, Seconds(w.now), c);
    assert IsAt(DoPollAnswer(w, poll, false), id, WithPage);
  }

  /** What a withdrawal leaves of the queue. */
  lemma {:induction false} OthersStay(q: seq<Entry>, gone: Id, id: Id)
    requires Holds(q, id) && id != gone
    ensures Holds(WithoutFirst(q, gone), id)
  {
    var e :| e in q && e.command.id == id;
    if q[0].command.id == gone {
      assert e in q[1..];
    } else if q[0] == e {
      assert WithoutFirst(q, gone)[0] == e;
      assert e in WithoutFirst(q, gone);
    } else {
      assert e in q[1..];
      assert Holds(q[1..], id);
      OthersStay(q[1..], gone, id);
      var f :| f in WithoutFirst(q[1..], gone) && f.command.id == id;
      assert f in WithoutFirst(q, gone);
    }
  }

  lemma TakeBackLosesNothing(w: World, id: Id)
    requires NothingLost(w) && PlacesOk(w) && id in w.phases && id in w.calls && w.phases[id].PickupOver?
    ensures NothingLost(DoTakeBack(w, id))
  {
    var w' := DoTakeBack(w, id);
    forall i, p | Due(w', i) && IsAt(w, i, p) ensures IsSomewhere(w', i) {
      TakeBackLeaves(w, id, i, p);
    }
    MovesLoseNothing(w, w');
  }

  lemma TakeBackLeaves(w: World, id: Id, i: Id, p: Place)
    requires PlacesOk(w) && id in w.phases && id in w.calls && w.phases[id].PickupOver? && IsAt(w, i, p)
    ensures IsSomewhere(DoTakeBack(w, id), i)
  {
    var w' := DoTakeBack(w, id);
    var user := w.calls[id].user;
    var q := QueueOf(w.store, user);
    if FirstMatch(q, id).None? || p != InQueue(user) {
      assert IsAt(w', i, p);
    } else if i == id {
      assert IsAt(w', id, WithCaller);
    } else {
      OthersStay(q, id, i);
      assert WithoutFirst(q, id) != [];
      assert IsAt(w', i, InQueue(user));
    }
  }
}
