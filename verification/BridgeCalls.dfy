/**
 * What each step of a call and of a page's poll brings about, in milliseconds and by the entries of
 * the queue: what is sent, how long a caller waits, when it gets its command back, and which
 * commands a poll takes and hands to its page.
 */
module BridgeCalls {
  import opened Basics
  import opened BridgeTypes
  import opened StoreSpec
  import opened StoreRuns
  import opened QueueAnswers
  import opened Challenges
  import opened Verify
  import opened Bridge
  import opened BridgePlaces
  import opened BridgeOutcomes
  import opened BridgeLosses
  import opened BridgeRuns

  /** `seconds` is `ms` rounded up to a whole second. */
  predicate RoundsUp(ms: int, seconds: int) { (seconds - 1) * 1_000 < ms <= seconds * 1_000 }

  /** The command of a call: a page may start it for its timeout, and its challenge outlives the five seconds of grace. */
  predicate IsFor(c: Command, call: Call, id: Id) {
    && c.id == id && c.key == call.key && c.inputs == call.inputs && c.timeoutMs == call.timeoutMs
    && RoundsUp(call.sentAt + call.timeoutMs, c.expiresAt)
    && c.challenge.Minted?
    && c.challenge.payload.sub == call.user && c.challenge.payload.key == call.key && c.challenge.payload.nonce == id
    && RoundsUp(call.sentAt + call.timeoutMs + 5_000, c.challenge.payload.exp - 1)
  }

  predicate AwaitsResult(p: Pending, call: Call, c: Command) {
    && p.id == c.id && p.user == call.user && p.key == call.key && p.challenge == c.challenge
    && p.inputsHash == Some(OfInputs(c.challenge, call.inputs))
  }

  /** A call that is sent puts its command last in its user's queue, to be resolved until six seconds after its timeout. */
  lemma SentIsQueued(policy: DevicePolicy, w: World, id: Id, call: Call)
    requires Enabled(w, SendCall(id, call))
    ensures var w' := Next(policy, w, SendCall(id, call));
            var q, q' := QueueOf(w.store, call.user), QueueOf(w'.store, call.user);
            && |q'| == |q| + 1 && q'[..|q|] == q
            && IsFor(q'[|q|].command, call, id) && q'[|q|].expiresAt == call.queuedAt + call.timeoutMs + 6_000
            && id in w'.store.pendings && w'.store.pendings[id].expiresAt == q'[|q|].expiresAt
            && AwaitsResult(w'.store.pendings[id].value, call, q'[|q|].command)
  {
  }

  /** The outcome of the command is in the store, alive. */
  predicate HasOutcome(w: World, id: Id) {
    id in w.store.results && w.now < w.store.results[id].expiresAt
  }

  /**
   * A caller goes on waiting exactly while there is no outcome and its time is not up: fifteen seconds
   * for a page to take the command, five more than its timeout in all.
   */
  lemma WaitsExactly(policy: DevicePolicy, w: World, id: Id)
    requires Enabled(w, AwaitPass(id))
    ensures var phase, phases' := w.phases[id], Next(policy, w, AwaitPass(id)).phases;
            var budget := w.calls[id].timeoutMs + 5_000;
            && id in phases'
            && (phases'[id].Answered? <==> HasOutcome(w, id))
            && (phases'[id] == phase <==>
                  !HasOutcome(w, id) && w.now - phase.started < if phase.Waiting? && budget > 15_000 then 15_000 else budget)
            && (phases'[id] == PickupOver(phase.started) <==>
                  phase.Waiting? && !HasOutcome(w, id) && w.now - phase.started >= if budget > 15_000 then 15_000 else budget)
            && (phases'[id].BudgetOver? <==> phase.WaitingOn? && !HasOutcome(w, id) && w.now - phase.started >= budget)
  {
  }

  /** In every reachable state a caller gets its command back exactly when it is still queued, and it is then queued no more. */
  lemma TakesBackExactly(policy: DevicePolicy, ws: seq<World>, es: seq<Event>, i: nat, id: Id)
    requires BridgeRuns.IsRun(policy, ws, es) && i < |es| && es[i] == TakeBack(id)
    ensures id in ws[i].calls && id in ws[i].phases && ws[i].phases[id].PickupOver?
    ensures var q, q' := QueueOf(ws[i].store, ws[i].calls[id].user), QueueOf(ws[i + 1].store, ws[i].calls[id].user);
            && id in ws[i + 1].phases
            && ws[i + 1].phases[id] == (if Holds(q, id) then TookBack else WaitingOn(ws[i].phases[id].started))
            && !Holds(q', id)
  {
    RunKeepsInv(policy, ws, es, i);
    assert BridgeRuns.StepAt(policy, ws, es, i);
    var user := ws[i].calls[id].user;
    var q := QueueOf(ws[i].store, user);
    assert EachOnce(q);
    WithoutFirstKeeps(q, id);
    WithdrawnQueue(ws[i].store, user, id);
  }

  lemma WithdrawnQueue(s: Store, user: User, id: Id)
    ensures Withdraw(s, user, id).1 <==> FirstMatch(QueueOf(s, user), id).Some?
    ensures QueueOf(Withdraw(s, user, id).0, user) ==
            if FirstMatch(QueueOf(s, user), id).Some? then WithoutFirst(QueueOf(s, user), id) else QueueOf(s, user)
  {
  }

  /** A caller that gave up left nothing to resolve or collect; it fell back exactly when it had its command back. */
  lemma GivesUpExactly(policy: DevicePolicy, w: World, id: Id)
    requires Enabled(w, GiveUp(id))
    ensures var w' := Next(policy, w, GiveUp(id));
            && id in w'.phases && w'.phases[id] == (if w.phases[id].TookBack? then Away else TimedOut)
            && id !in w'.store.pendings && id !in w'.store.results
  {
  }

  /** The entry has not expired. */
  predicate Alive(w: World, e: Entry) { w.now < e.expiresAt }

  /** `at` are the places of the oldest entries of the queue that have not expired, sixteen at most. */
  ghost predicate PicksOldest(w: World, q: seq<Entry>, hand: seq<Command>, at: seq<nat>) {
    && |at| == |hand| <= 16
    && (forall x | 0 <= x < |hand| :: at[x] < |q| && Alive(w, q[at[x]]) && hand[x] == q[at[x]].command)
    && (forall x, y | 0 <= x < y < |hand| :: at[x] < at[y])
    && (forall y: nat | y < |q| && Alive(w, q[y]) :: y in at || (|hand| == 16 && forall x | 0 <= x < 16 :: at[x] < y))
  }

  /** In every reachable state a poll takes the oldest live commands of its user, and none only if there is none. */
  lemma PollTakesExactly(policy: DevicePolicy, ws: seq<World>, es: seq<Event>, i: nat, poll: nat, user: User) returns (at: seq<nat>)
    requires BridgeRuns.IsRun(policy, ws, es) && i < |es| && es[i] == PollTake(poll, user)
    ensures var hand := if poll in ws[i + 1].polls then ws[i + 1].polls[poll].hand else [];
            PicksOldest(ws[i], QueueOf(ws[i].store, user), hand, at)
    ensures poll in ws[i + 1].polls ==> ws[i + 1].polls[poll].user == user
  {
    RunKeepsInv(policy, ws, es, i);
    assert BridgeRuns.StepAt(policy, ws, es, i);
    var w := ws[i];
    var q := QueueOf(w.store, user);
    var live := LiveEntries(q, w.now);
    var all := LivePicks(q, w.now);
    var n := Min(16, |live|);
    at := all[..n];
    assert EachOnce(q);
    OldestPicked(w, q, live, all, n);
    assert TakeNow(w.store, w.now, user, MAX_COMMANDS_PER_POLL).1 == Commands(live[..n]);
  }

  lemma OldestPicked(w: World, q: seq<Entry>, live: seq<Entry>, all: seq<nat>, n: nat)
    requires EachOnce(q) && live == LiveEntries(q, w.now) && Picks(q, live, all) && n == Min(16, |live|)
    ensures PicksOldest(w, q, Commands(live[..n]), all[..n])
  {
    LiveStaysLive(q, w.now);
    var at := all[..n];
    forall x | 0 <= x < n ensures Alive(w, q[at[x]]) { assert live[x] in live; }
    forall y: nat | y < |q| && Alive(w, q[y]) ensures y in at || (n == 16 && forall x | 0 <= x < 16 :: at[x] < y) {
      var x := LiveIsPicked(q, w.now, live, all, y);
      if x < n { assert at[x] == y; }
    }
  }

  lemma LiveIsPicked(q: seq<Entry>, t: nat, live: seq<Entry>, all: seq<nat>, y: nat) returns (x: nat)
    requires EachOnce(q) && live == LiveEntries(q, t) && Picks(q, live, all) && y < |q| && q[y].expiresAt > t
    ensures x < |live| && all[x] == y
  {
    LiveKeepsIt(q, t, q[y]);
    x :| 0 <= x < |live| && live[x] == q[y];
  }

  /** A page is handed a command exactly if the second in which its poll answers began before the command's timeout was over. */
  lemma HandsOutExactly(policy: DevicePolicy, ws: seq<World>, es: seq<Event>, i: nat, poll: nat, id: Id)
    requires BridgeRuns.IsRun(policy, ws, es) && i < |es| && es[i] == PollAnswer(poll, false)
    requires poll in ws[i].polls && Carries(ws[i].polls[poll].hand, id)
    ensures id in ws[i].calls
    ensures var call := ws[i].calls[id];
            id in ws[i + 1].handed <==> ws[i].now - ws[i].now % 1_000 < call.sentAt + call.timeoutMs
  {
    RunKeepsInv(policy, ws, es, i);
    assert BridgeRuns.StepAt(policy, ws, es, i);
    var w := ws[i];
    var p := w.polls[poll];
    var c :| c in p.hand && c.id == id;
    assert CommandOk(w.calls, p.user, c);
    assert IsAt(w, id, InHands(poll)) && !IsAt(w, id, WithPage);
    StartableExactly(p.hand, Seconds(w.now), c);
    SecondBegan(w.now, w.calls[id].sentAt + w.calls[id].timeoutMs);
  }

  lemma {:induction false} StartableExactly(cs: seq<Command>, nowSeconds: int, c: Command)
    requires CarriesOnce(cs) && c in cs
    ensures c.id in Startable(cs, nowSeconds) <==> c.expiresAt > nowSeconds
  {
    StartableKeeps(cs[1..], nowSeconds);
    if cs[0] == c {
      forall d | d in cs[1..] ensures d.id != c.id {
        var k :| 0 <= k < |cs[1..]| && cs[1..][k] == d;
        assert cs[k + 1] == d;
      }
    } else {
      assert c in cs[1..];
      StartableExactly(cs[1..], nowSeconds, c);
      var k :| 0 <= k < |cs| && cs[k] == c;
    }
  }

  lemma SecondBegan(now: nat, end: nat)
    ensures CeilDiv(end, 1_000) > Seconds(now) <==> now - now % 1_000 < end
  {
  }

  /** Approving a device adds it to its user's pins, forgetting a user leaves none, and no other user's pins change. */
  lemma PinsChangeExactly(policy: DevicePolicy, w: World, user: User, device: PublicKey, other: User)
    ensures PinsOf(Next(policy, w, ApproveDevice(user, device)).store, other) ==
            if other == user then PinsOf(w.store, user) + {device} else PinsOf(w.store, other)
    ensures PinsOf(Next(policy, w, ForgetUser(user)).store, other) == if other == user then {} else PinsOf(w.store, other)
  {
  }
}
