/**
 * Where commands are. Whatever calls, polls, aborts and sweeps interleave, a command is in at most
 * one place: its own user's queue (once), one poll's hands (once), handed to a page (once), or
 * taken back by its caller; in none once it was dropped as expired.
 */
module BridgePlaces {
  import opened Basics
  import opened BridgeTypes
  import opened StoreSpec
  import opened Challenges
  import opened Verify
  import opened Bridge

  datatype Place = InQueue(user: User) | InHands(poll: nat) | WithPage | WithCaller

  ghost predicate Holds(q: seq<Entry>, id: Id) {
    exists e :: e in q && e.command.id == id
  }

  ghost predicate Carries(cs: seq<Command>, id: Id) {
    exists c :: c in cs && c.id == id
  }

  ghost predicate IsAt(w: World, id: Id, p: Place) {
    match p
    case InQueue(user) => user in w.store.queues && Holds(w.store.queues[user], id)
    case InHands(poll) => poll in w.polls && Carries(w.polls[poll].hand, id)
    case WithPage => id in w.handed
    case WithCaller => id in w.withdrawn
  }

  ghost predicate EachOnce(q: seq<Entry>) {
    forall i, j | 0 <= i < j < |q| :: q[i].command.id != q[j].command.id
  }

  ghost predicate CarriesOnce(cs: seq<Command>) {
    forall i, j | 0 <= i < j < |cs| :: cs[i].id != cs[j].id
  }

  /** The entry is what the call `calls[id]` queued for `user`, with the call's own expiry. */
  ghost predicate EntryOk(calls: map<Id, Call>, user: User, e: Entry) {
    var id := e.command.id;
    id in calls && calls[id].user == user && e == Entry(calls[id].CommandFor(id), calls[id].StoredUntil())
  }

  ghost predicate CommandOk(calls: map<Id, Call>, user: User, c: Command) {
    c.id in calls && calls[c.id].user == user && c == calls[c.id].CommandFor(c.id)
  }

  ghost predicate QueuesOk(calls: map<Id, Call>, queues: map<User, seq<Entry>>) {
    forall user | user in queues ::
      queues[user] != [] && EachOnce(queues[user]) && forall e | e in queues[user] :: EntryOk(calls, user, e)
  }

  ghost predicate PollsOk(calls: map<Id, Call>, polls: map<nat, Poll>) {
    forall p | p in polls ::
      CarriesOnce(polls[p].hand) && forall c | c in polls[p].hand :: CommandOk(calls, polls[p].user, c)
  }

  ghost predicate OnePlace(w: World) {
    forall id, a, b | IsAt(w, id, a) && IsAt(w, id, b) :: a == b
  }

  ghost predicate HistoryOk(w: World) {
    && NoDuplicates(w.handed)
    && (forall id | id in w.handed :: id in w.calls)
    && (forall id | id in w.withdrawn :: id in w.calls)
  }

  ghost predicate PendingsOk(calls: map<Id, Call>, pendings: map<Id, Expiring<Pending>>) {
    forall id | id in pendings ::
      id in calls && pendings[id] == Expiring(calls[id].PendingFor(id), calls[id].StoredUntil())
  }

  ghost predicate PlacesOk(w: World) {
    && QueuesOk(w.calls, w.store.queues)
    && PollsOk(w.calls, w.polls)
    && HistoryOk(w)
    && OnePlace(w)
    && PendingsOk(w.calls, w.store.pendings)
  }

  // ---------------------------------------------------------------------------------------------
  // Queue operations and the entries they keep
  // ---------------------------------------------------------------------------------------------

  lemma {:induction false} LiveKeeps(q: seq<Entry>, t: nat)
    requires EachOnce(q)
    ensures EachOnce(LiveEntries(q, t))
    ensures forall e | e in LiveEntries(q, t) :: e in q
  {
    if q != [] {
      LiveKeeps(q[1..], t);
      var rest := LiveEntries(q[1..], t);
      forall i | 0 <= i < |rest| ensures rest[i].command.id != q[0].command.id {
        assert rest[i] in q[1..];
      }
    }
  }

  lemma {:induction false} WithoutFirstKeeps(q: seq<Entry>, id: Id)
    requires EachOnce(q)
    ensures EachOnce(WithoutFirst(q, id)) && !Holds(WithoutFirst(q, id), id)
    ensures forall e | e in WithoutFirst(q, id) :: e in q
    ensures FirstMatch(q, id).Some? <==> Holds(q, id)
  {
    if q != [] {
      WithoutFirstKeeps(q[1..], id);
      var rest := WithoutFirst(q[1..], id);
      forall i | 0 <= i < |rest| ensures rest[i].command.id != q[0].command.id {
        assert rest[i] in q[1..];
      }
    }
  }

  /** What a requeue puts back is what the call queued, each command once. */
  lemma {:induction false} ReturnableKeeps(s: Store, t: nat, calls: map<Id, Call>, user: User, cs: seq<Command>)
    requires CarriesOnce(cs) && (forall c | c in cs :: CommandOk(calls, user, c)) && PendingsOk(calls, s.pendings)
    ensures EachOnce(Returnable(s, t, cs))
    ensures forall e | e in Returnable(s, t, cs) :: EntryOk(calls, user, e) && e.command in cs
  {
    if cs != [] {
      assert cs[0] in cs;
      ReturnableKeeps(s, t, calls, user, cs[1..]);
      var rest := Returnable(s, t, cs[1..]);
      forall i | 0 <= i < |rest| ensures rest[i].command.id != cs[0].id {
        assert rest[i].command in cs[1..];
      }
    }
  }

  lemma {:induction false} StartableKeeps(cs: seq<Command>, nowSeconds: int)
    requires CarriesOnce(cs)
    ensures NoDuplicates(Startable(cs, nowSeconds))
    ensures forall id | id in Startable(cs, nowSeconds) :: Carries(cs, id)
  {
    if cs != [] {
      StartableKeeps(cs[1..], nowSeconds);
      assert cs[0] in cs;
      var rest := Startable(cs[1..], nowSeconds);
      forall id | id in rest ensures Carries(cs, id) && id != cs[0].id {
        var c :| c in cs[1..] && c.id == id;
        assert c in cs;
      }
      assert forall i | 0 <= i < |rest| :: rest[i] in rest;
    }
  }

  // ---------------------------------------------------------------------------------------------
  // Every step keeps every command in at most one place
  // ---------------------------------------------------------------------------------------------

  /** A step that only moves commands from one place to another leaves each in at most one. */
  lemma MoveKeepsOnePlace(w: World, w': World, from: Place, to: Place)
    requires OnePlace(w)
    requires forall id, a | IsAt(w', id, a) :: IsAt(w, id, a) || (a == to && IsAt(w, id, from))
    requires forall id | IsAt(w, id, from) && IsAt(w', id, to) :: !IsAt(w', id, from)
    ensures OnePlace(w')
  {
    forall id, a, b | IsAt(w', id, a) && IsAt(w', id, b) ensures a == b {
      if a == to && !IsAt(w, id, a) { assert IsAt(w, id, from); }
      if b == to && !IsAt(w, id, b) { assert IsAt(w, id, from); }
    }
  }

  lemma SweepKeeps(w: World)
    requires PlacesOk(w)
    ensures PlacesOk(w.(store := Sweep(w.store, w.now)))
  {
    var w' := w.(store := Sweep(w.store, w.now));
    forall user | user in w.store.queues ensures EachOnce(LiveEntries(w.store.queues[user], w.now)) &&
      (forall e | e in LiveEntries(w.store.queues[user], w.now) :: e in w.store.queues[user])
    {
      LiveKeeps(w.store.queues[user], w.now);
    }
    forall id, a | IsAt(w', id, a) ensures IsAt(w, id, a) {}
  }

  lemma SendKeeps(w: World, id: Id, call: Call)
    requires PlacesOk(w) && id !in w.calls && call.queuedAt == w.now
    ensures PlacesOk(DoSend(w, id, call))
  {
    var w' := DoSend(w, id, call);
    var entry := Entry(call.CommandFor(id), call.StoredUntil());
    var q := QueueOf(w.store, call.user);
    assert w'.store.queues == w.store.queues[call.user := q + [entry]];
    forall e | e in q ensures e.command.id in w.calls { }
    assert QueuesOk(w'.calls, w'.store.queues);
    forall i, a | IsAt(w', i, a) ensures IsAt(w, i, a) || (i == id && a == InQueue(call.user)) {}
    forall a ensures !IsAt(w, id, a) {}
  }

  /** A take splits the live part of a queue: what is taken is no longer queued. */
  lemma TakeSplits(calls: map<Id, Call>, user: User, q: seq<Entry>, t: nat, n: nat)
    requires EachOnce(q) && (forall e | e in q :: EntryOk(calls, user, e)) && n <= |LiveEntries(q, t)|
    ensures var live := LiveEntries(q, t); var taken, left := Commands(live[..n]), live[n..];
            && EachOnce(left) && (forall e | e in left :: EntryOk(calls, user, e))
            && CarriesOnce(taken) && (forall c | c in taken :: CommandOk(calls, user, c))
            && (forall id | Holds(left, id) :: Holds(q, id))
            && (forall id | Carries(taken, id) :: Holds(q, id) && !Holds(left, id))
  {
    LiveKeeps(q, t);
    var live := LiveEntries(q, t);
    var taken, left := Commands(live[..n]), live[n..];
    forall c | c in taken ensures CommandOk(calls, user, c) {
      var k :| 0 <= k < n && taken[k] == c;
      assert live[k] in live;
    }
    forall id | Carries(taken, id) ensures Holds(q, id) && !Holds(left, id) {
      var k :| 0 <= k < n && taken[k].id == id;
      assert live[k] in live;
    }
  }

  lemma TakeMoves(w: World, poll: nat, user: User, left: seq<Entry>, taken: seq<Command>)
    requires PlacesOk(w) && poll !in w.polls && user in w.store.queues
    requires EachOnce(left) && (forall e | e in left :: EntryOk(w.calls, user, e))
    requires CarriesOnce(taken) && (forall c | c in taken :: CommandOk(w.calls, user, c))
    requires forall id | Holds(left, id) :: Holds(w.store.queues[user], id)
    requires forall id | Carries(taken, id) :: Holds(w.store.queues[user], id) && !Holds(left, id)
    ensures var w' := w.(store := SetQueue(w.store, user, left));
            PlacesOk(w') && PlacesOk(w'.(polls := w.polls[poll := Poll(user, taken)]))
  {
    var w1 := w.(store := SetQueue(w.store, user, left));
    var w2 := w1.(polls := w.polls[poll := Poll(user, taken)]);
    forall id, a | IsAt(w1, id, a) ensures IsAt(w, id, a) {}
    forall id, a | IsAt(w2, id, a) ensures IsAt(w, id, a) || (a == InHands(poll) && IsAt(w, id, InQueue(user))) {}
    MoveKeepsOnePlace(w, w2, InQueue(user), InHands(poll));
  }

  lemma PollTakeKeeps(w: World, poll: nat, user: User)
    requires PlacesOk(w) && poll !in w.polls
    ensures PlacesOk(DoPollTake(w, poll, user))
  {
    if user in w.store.queues {
      var w' := DoPollTake(w, poll, user);
      var q := w.store.queues[user];
      var live := LiveEntries(q, w.now);
      var n := Min(MAX_COMMANDS_PER_POLL, |live|);
      TakeSplits(w.calls, user, q, w.now, n);
      TakeMoves(w, poll, user, live[n..], Commands(live[..n]));
    }
  }

  lemma PollAnswerKeeps(w: World, poll: nat, aborted: bool)
    requires PlacesOk(w) && poll in w.polls
    ensures PlacesOk(DoPollAnswer(w, poll, aborted))
  {
    var p := w.polls[poll];
    var w' := DoPollAnswer(w, poll, aborted);
    if aborted {
      ReturnableKeeps(w.store, w.now, w.calls, p.user, p.hand);
      var back, q := Returnable(w.store, w.now, p.hand), QueueOf(w.store, p.user);
      if back != [] {
        forall x, y | x in back && y in q ensures x.command.id != y.command.id {
          if x.command.id == y.command.id {
            assert IsAt(w, x.command.id, InHands(poll)) && IsAt(w, x.command.id, InQueue(p.user));
          }
        }
        assert EachOnce(back + q);
      }
      forall id, a | IsAt(w', id, a) ensures IsAt(w, id, a) || (a == InQueue(p.user) && IsAt(w, id, InHands(poll))) {}
      MoveKeepsOnePlace(w, w', InHands(poll), InQueue(p.user));
    } else {
      StartableKeeps(p.hand, Seconds(w.now));
      forall id | id in Startable(p.hand, Seconds(w.now)) ensures id !in w.handed && id in w.calls {
        assert IsAt(w, id, InHands(poll));
        if id in w.handed { assert IsAt(w, id, WithPage); }
      }
      var started := Startable(p.hand, Seconds(w.now));
      forall i, j | 0 <= i < |w.handed| && 0 <= j < |started| ensures w.handed[i] != started[j] {
        assert started[j] in started && w.handed[i] in w.handed;
      }
      forall id, a | IsAt(w', id, a) ensures IsAt(w, id, a) || (a == WithPage && IsAt(w, id, InHands(poll))) {}
      MoveKeepsOnePlace(w, w', InHands(poll), WithPage);
    }
  }

  lemma TakeBackKeeps(w: World, id: Id)
    requires PlacesOk(w) && w.calls.Keys == w.phases.Keys && id in w.phases && w.phases[id].PickupOver?
    ensures PlacesOk(DoTakeBack(w, id))
  {
    var w' := DoTakeBack(w, id);
    var user := w.calls[id].user;
    WithoutFirstKeeps(QueueOf(w.store, user), id);
    if FirstMatch(QueueOf(w.store, user), id).Some? {
      assert IsAt(w, id, InQueue(user));
      forall i, a | IsAt(w', i, a) ensures IsAt(w, i, a) || (i == id && a == WithCaller) {}
      MoveKeepsOnePlace(w, w', InQueue(user), WithCaller);
    } else {
      forall i, a | IsAt(w', i, a) ensures IsAt(w, i, a) {}
    }
  }
}
