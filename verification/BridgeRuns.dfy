/** The theorems about whole runs of the bridge, from its start, under every interleaving. */
module BridgeRuns {
  import opened Basics
  import opened BridgeTypes
  import opened StoreSpec
  import opened Challenges
  import opened Verify
  import opened Bridge
  import opened BridgePlaces
  import opened BridgeOutcomes
  import opened BridgeLosses

  ghost predicate Inv(w: World) {
    Orderly(w) && NothingLost(w)
  }

  /** Commands are in order, in one place, and outcomes are worth what they say. */
  ghost predicate Orderly(w: World) {
    PlacesOk(w) && OutcomesOk(w)
  }

  /** `ws` are the states of a run whose steps are `es`. */
  ghost predicate IsRun(policy: DevicePolicy, ws: seq<World>, es: seq<Event>) {
    && |ws| == |es| + 1 && ws[0] == Start
    && forall i | 0 <= i < |es| :: StepAt(policy, ws, es, i)
  }

  ghost predicate StepAt(policy: DevicePolicy, ws: seq<World>, es: seq<Event>, i: nat)
    requires i < |es| < |ws|
  {
    Enabled(ws[i], es[i]) && ws[i + 1] == Next(policy, ws[i], es[i])
  }

  // ---------------------------------------------------------------------------------------------
  // Each step keeps the invariant
  // ---------------------------------------------------------------------------------------------

  lemma CallerStepsMoveNothing(w: World, id: Id)
    requires id in w.phases && id in w.calls
    ensures w.phases[id].Waiting? || w.phases[id].WaitingOn? ==> MovesNothing(w, DoAwait(w, id))
    ensures MovesNothing(w, DoGiveUp(w, id))
  {
  }

  lemma PostCheckMovesNothing(policy: DevicePolicy, w: World, post: nat)
    requires post in w.posts
    ensures MovesNothing(w, DoPostCheck(policy, w, post))
  {
    var w' := DoPostCheck(policy, w, post);
    assert w' == w.(store := w'.store, posts := w'.posts) && w'.store == w.store.(devices := w'.store.devices);
  }

  lemma PostStepsMoveNothing(w: World, post: nat)
    requires post in w.posts
    ensures w.posts[post].stage.DeviceAccepted? ==> MovesNothing(w, DoPostSpend(w, post))
    ensures w.posts[post].stage.Ready? ==> MovesNothing(w, DoPostResolve(w, post))
  {
  }

  lemma StoreStepKeepsOrder(w: World, w': World)
    requires Orderly(w) && MovesNothing(w, w')
    requires w' == w.(now := w'.now, store := w'.store) && w.now <= w'.now
    requires w'.store.results == w.store.results
    ensures Orderly(w')
  {
    MovingNothingKeepsPlaces(w, w');
    DroppingKeepsOutcomes(w, w');
  }

  lemma CallerStepKeepsOrder(policy: DevicePolicy, w: World, e: Event)
    requires Orderly(w) && Enabled(w, e) && (e.SendCall? || e.StartWaiting? || e.AwaitPass? || e.TakeBack? || e.GiveUp?)
    ensures Orderly(Next(policy, w, e))
  {
    match e
    case SendCall(id, call) => SendKeeps(w, id, call); SendOutcomes(w, id, call);
    case StartWaiting(id) =>
      MovingNothingKeepsPlaces(w, Next(policy, w, e));
      CallerOutcomes(w, id, Next(policy, w, e));
    case AwaitPass(id) =>
      CallerStepsMoveNothing(w, id);
      MovingNothingKeepsPlaces(w, DoAwait(w, id));
      AwaitOutcomes(w, id);
    case TakeBack(id) => TakeBackKeeps(w, id); TakeBackOutcomes(w, id);
    case GiveUp(id) =>
      CallerStepsMoveNothing(w, id);
      MovingNothingKeepsPlaces(w, DoGiveUp(w, id));
      GiveUpOutcomes(w, id);
  }

  /** Polls and sweeps make nothing pending, store no outcome and touch no call. */
  ghost predicate OnlyDrops(w: World, w': World) {
    && w' == w.(store := w'.store, polls := w'.polls, handed := w'.handed)
    && (forall i | i in w'.store.pendings :: i in w.store.pendings && w'.store.pendings[i] == w.store.pendings[i])
    && (forall i | i in w'.store.results :: i in w.store.results && w'.store.results[i] == w.store.results[i])
  }

  lemma PollTakeOnlyDrops(w: World, poll: nat, user: User)
    ensures OnlyDrops(w, DoPollTake(w, poll, user))
  {
  }

  lemma PollAnswerOnlyDrops(w: World, poll: nat, aborted: bool)
    requires poll in w.polls
    ensures OnlyDrops(w, DoPollAnswer(w, poll, aborted))
  {
  }

  lemma PollStepEffect(policy: DevicePolicy, w: World, e: Event)
    requires Enabled(w, e) && (e.SweepStore? || e.PollTake? || e.PollAnswer?)
    ensures OnlyDrops(w, Next(policy, w, e))
  {
    match e {
      case SweepStore =>
      case PollTake(poll, user) => PollTakeOnlyDrops(w, poll, user);
      case PollAnswer(poll, aborted) => PollAnswerOnlyDrops(w, poll, aborted);
    }
  }

  lemma PollStepKeepsOrder(policy: DevicePolicy, w: World, e: Event)
    requires Orderly(w) && Enabled(w, e) && (e.SweepStore? || e.PollTake? || e.PollAnswer?)
    ensures Orderly(Next(policy, w, e))
  {
    match e {
      case SweepStore => SweepKeeps(w);
      case PollTake(poll, user) => PollTakeKeeps(w, poll, user);
      case PollAnswer(poll, aborted) => PollAnswerKeeps(w, poll, aborted);
    }
    PollStepEffect(policy, w, e);
    DroppingKeepsOutcomes(w, Next(policy, w, e));
  }

  lemma PostStepKeepsOrder(policy: DevicePolicy, w: World, e: Event)
    requires Orderly(w) && Enabled(w, e) && (e.PostLook? || e.PostCheck? || e.PostSpend? || e.PostResolve?)
    ensures Orderly(Next(policy, w, e))
  {
    match e {
      case PostLook(post, user, id, body) => PostLookEffect(w, post, user, id, body); PostLookOutcomes(w, post, user, id, body);
      case PostCheck(post) => PostCheckMovesNothing(policy, w, post); PostCheckOutcomes(policy, w, post);
      case PostSpend(post) => PostStepsMoveNothing(w, post); PostSpendOutcomes(w, post);
      case PostResolve(post) => PostStepsMoveNothing(w, post); PostResolveOutcomes(w, post);
    }
    MovingNothingKeepsPlaces(w, Next(policy, w, e));
  }

  lemma DeviceStepKeepsOrder(policy: DevicePolicy, w: World, e: Event)
    requires Orderly(w) && Enabled(w, e) && (e.Tick? || e.ApproveDevice? || e.ForgetUser? || e.SpendElsewhere?)
    ensures Orderly(Next(policy, w, e))
  {
    DeviceStepEffect(policy, w, e);
    StoreStepKeepsOrder(w, Next(policy, w, e));
  }

  lemma DeviceStepEffect(policy: DevicePolicy, w: World, e: Event)
    requires Enabled(w, e) && (e.Tick? || e.ApproveDevice? || e.ForgetUser? || e.SpendElsewhere?)
    ensures var w' := Next(policy, w, e);
            && w' == w.(now := w'.now, store := w'.store) && w.now <= w'.now
            && w'.store == w.store.(devices := w'.store.devices, nonces := w'.store.nonces)
  {
  }

  lemma SignStepKeepsOrder(policy: DevicePolicy, w: World, e: Event)
    requires Orderly(w) && Enabled(w, e) && e.DeviceSigns?
    ensures Orderly(Next(policy, w, e))
  {
    SignOutcomes(w, SignedBy(e.device, e.body));
    MovingNothingKeepsPlaces(w, Next(policy, w, e));
  }

  lemma StepKeepsOrder(policy: DevicePolicy, w: World, e: Event)
    requires Orderly(w) && Enabled(w, e)
    ensures Orderly(Next(policy, w, e))
  {
    if e.SendCall? || e.StartWaiting? || e.AwaitPass? || e.TakeBack? || e.GiveUp? {
      CallerStepKeepsOrder(policy, w, e);
    } else if e.SweepStore? || e.PollTake? || e.PollAnswer? {
      PollStepKeepsOrder(policy, w, e);
    } else if e.PostLook? || e.PostCheck? || e.PostSpend? || e.PostResolve? {
      PostStepKeepsOrder(policy, w, e);
    } else if e.DeviceSigns? {
      SignStepKeepsOrder(policy, w, e);
    } else {
      DeviceStepKeepsOrder(policy, w, e);
    }
  }

  lemma CallerStepLosesNothing(policy: DevicePolicy, w: World, e: Event)
    requires Inv(w) && Enabled(w, e) && (e.SendCall? || e.StartWaiting? || e.AwaitPass? || e.TakeBack? || e.GiveUp?)
    ensures NothingLost(Next(policy, w, e))
  {
    match e {
      case SendCall(id, call) => SendLosesNothing(w, id, call);
      case StartWaiting(id) => MovingNothingLosesNothing(w, Next(policy, w, e));
      case AwaitPass(id) => CallerStepsMoveNothing(w, id); MovingNothingLosesNothing(w, DoAwait(w, id));
      case TakeBack(id) => TakeBackLosesNothing(w, id);
      case GiveUp(id) => CallerStepsMoveNothing(w, id); MovingNothingLosesNothing(w, DoGiveUp(w, id));
    }
  }

  lemma PollStepLosesNothing(policy: DevicePolicy, w: World, e: Event)
    requires Inv(w) && Enabled(w, e) && (e.SweepStore? || e.PollTake? || e.PollAnswer?)
    ensures NothingLost(Next(policy, w, e))
  {
    match e {
      case SweepStore => SweepLosesNothing(w);
      case PollTake(poll, user) => PollTakeLosesNothing(w, poll, user);
      case PollAnswer(poll, aborted) => PollAnswerLosesNothing(w, poll, aborted);
    }
  }

  lemma PostStepLosesNothing(policy: DevicePolicy, w: World, e: Event)
    requires Inv(w) && Enabled(w, e) && (e.PostLook? || e.PostResolve?)
    ensures NothingLost(Next(policy, w, e))
  {
    match e {
      case PostLook(post, user, id, body) =>
        PostLookEffect(w, post, user, id, body);
        MovingNothingLosesNothing(w, DoPostLook(w, post, user, id, body));
      case PostResolve(post) =>
        PostStepsMoveNothing(w, post);
        MovingNothingLosesNothing(w, DoPostResolve(w, post));
    }
  }

  lemma PostCheckLosesNothing(policy: DevicePolicy, w: World, e: Event)
    requires Inv(w) && Enabled(w, e) && (e.PostCheck? || e.PostSpend?)
    ensures NothingLost(Next(policy, w, e))
  {
    match e {
      case PostCheck(post) =>
        PostCheckMovesNothing(policy, w, post);
        MovingNothingLosesNothing(w, DoPostCheck(policy, w, post));
      case PostSpend(post) =>
        PostStepsMoveNothing(w, post);
        MovingNothingLosesNothing(w, DoPostSpend(w, post));
    }
  }

  lemma DeviceStepLosesNothing(policy: DevicePolicy, w: World, e: Event)
    requires Inv(w) && Enabled(w, e) && (e.ApproveDevice? || e.ForgetUser? || e.SpendElsewhere?)
    ensures NothingLost(Next(policy, w, e))
  {
    var w' := Next(policy, w, e);
    assert w' == w.(store := w'.store);
    MovingNothingLosesNothing(w, w');
  }

  lemma TimeLosesNothing(policy: DevicePolicy, w: World, e: Event)
    requires Inv(w) && Enabled(w, e) && (e.Tick? || e.DeviceSigns?)
    ensures NothingLost(Next(policy, w, e))
  {
    var w' := Next(policy, w, e);
    assert w' == w.(now := w'.now, signatures := w'.signatures);
    MovingNothingLosesNothing(w, w');
  }

  /** Every step of every run keeps the invariant. */
  lemma StepKeepsInv(policy: DevicePolicy, w: World, e: Event)
    requires Inv(w) && Enabled(w, e)
    ensures Inv(Next(policy, w, e))
  {
    StepKeepsOrder(policy, w, e);
    if e.SendCall? || e.StartWaiting? || e.AwaitPass? || e.TakeBack? || e.GiveUp? {
      CallerStepLosesNothing(policy, w, e);
    } else if e.SweepStore? || e.PollTake? || e.PollAnswer? {
      PollStepLosesNothing(policy, w, e);
    } else if e.PostLook? || e.PostResolve? {
      PostStepLosesNothing(policy, w, e);
    } else if e.PostCheck? || e.PostSpend? {
      PostCheckLosesNothing(policy, w, e);
    } else if e.Tick? || e.DeviceSigns? {
      TimeLosesNothing(policy, w, e);
    } else {
      DeviceStepLosesNothing(policy, w, e);
    }
  }

  lemma {:induction false} RunKeepsInv(policy: DevicePolicy, ws: seq<World>, es: seq<Event>, i: nat)
    requires IsRun(policy, ws, es) && i < |ws|
    ensures Inv(ws[i])
  {
    if i > 0 {
      RunKeepsInv(policy, ws, es, i - 1);
      assert StepAt(policy, ws, es, i - 1);
      StepKeepsInv(policy, ws[i - 1], es[i - 1]);
    }
  }

  // ---------------------------------------------------------------------------------------------
  // What never goes back
  // ---------------------------------------------------------------------------------------------

  /** A call that ended. */
  predicate Ended(p: Phase) { p.Away? || p.TimedOut? || p.Answered? }

  /** History only grows, a win is final, and a call that ended stays as it ended. */
  ghost predicate Later(w: World, w': World) {
    && w.now <= w'.now
    && w.handed <= w'.handed && w.withdrawn <= w'.withdrawn && w.signatures <= w'.signatures
    && (forall id | id in w.calls :: id in w'.calls && w'.calls[id] == w.calls[id])
    && (forall id | id in w.wins :: id in w'.wins && w'.wins[id] == w.wins[id])
    && (forall id | id in w.phases && Ended(w.phases[id]) :: id in w'.phases && w'.phases[id] == w.phases[id])
  }

  lemma SendIsLater(w: World, id: Id, call: Call)
    requires w.calls.Keys == w.phases.Keys && id !in w.calls
    ensures Later(w, DoSend(w, id, call))
  {
  }

  lemma PhaseChangeIsLater(w: World, w': World, id: Id)
    requires id in w.phases && !Ended(w.phases[id]) && id in w'.phases && w.withdrawn <= w'.withdrawn
    requires w' == w.(store := w'.store, withdrawn := w'.withdrawn, phases := w.phases[id := w'.phases[id]])
    ensures Later(w, w')
  {
  }

  lemma CallerStepIsLater(policy: DevicePolicy, w: World, e: Event)
    requires OutcomesOk(w) && Enabled(w, e)
    requires e.SendCall? || e.StartWaiting? || e.AwaitPass? || e.TakeBack? || e.GiveUp?
    ensures Later(w, Next(policy, w, e))
  {
    match e {
      case SendCall(id, call) => SendIsLater(w, id, call);
      case StartWaiting(id) => PhaseChangeIsLater(w, Next(policy, w, e), id);
      case AwaitPass(id) => AwaitEffect(w, id); PhaseChangeIsLater(w, DoAwait(w, id), id);
      case TakeBack(id) => PhaseChangeIsLater(w, DoTakeBack(w, id), id);
      case GiveUp(id) => PhaseChangeIsLater(w, DoGiveUp(w, id), id);
    }
  }

  lemma PollStepIsLater(policy: DevicePolicy, w: World, e: Event)
    requires Enabled(w, e) && (e.Tick? || e.SweepStore? || e.PollTake? || e.PollAnswer?)
    ensures Later(w, Next(policy, w, e))
  {
  }

  lemma OtherStepIsLater(policy: DevicePolicy, w: World, e: Event)
    requires Enabled(w, e) && (e.PostLook? || e.DeviceSigns? || e.ApproveDevice? || e.ForgetUser? || e.SpendElsewhere?)
    ensures Later(w, Next(policy, w, e))
  {
  }

  lemma PostStepIsLater(policy: DevicePolicy, w: World, e: Event)
    requires Enabled(w, e) && (e.PostCheck? || e.PostSpend?)
    ensures Later(w, Next(policy, w, e))
  {
    var w' := Next(policy, w, e);
    assert w' == w.(store := w'.store, posts := w'.posts);
  }

  /** A resolve wins only for a command that has not been won. */
  lemma ResolveIsLater(w: World, post: nat)
    requires WinsOk(w.calls, w.signatures, w.wins, w.store.pendings)
    requires post in w.posts && w.posts[post].stage.Ready?
    ensures Later(w, DoPostResolve(w, post))
  {
  }

  lemma StepIsLater(policy: DevicePolicy, w: World, e: Event)
    requires OutcomesOk(w) && Enabled(w, e)
    ensures Later(w, Next(policy, w, e))
  {
    if e.SendCall? || e.StartWaiting? || e.AwaitPass? || e.TakeBack? || e.GiveUp? {
      CallerStepIsLater(policy, w, e);
    } else if e.PostResolve? {
      ResolveIsLater(w, e.post);
    } else if e.PostCheck? || e.PostSpend? {
      PostStepIsLater(policy, w, e);
    } else if e.Tick? || e.SweepStore? || e.PollTake? || e.PollAnswer? {
      PollStepIsLater(policy, w, e);
    } else {
      OtherStepIsLater(policy, w, e);
    }
  }

  lemma RunStepIsLater(policy: DevicePolicy, ws: seq<World>, es: seq<Event>, i: nat)
    requires IsRun(policy, ws, es) && i < |es|
    ensures Later(ws[i], ws[i + 1])
  {
    RunKeepsInv(policy, ws, es, i);
    assert StepAt(policy, ws, es, i);
    StepIsLater(policy, ws[i], es[i]);
  }

  lemma LaterIsTransitive(a: World, b: World, c: World)
    requires Later(a, b) && Later(b, c)
    ensures Later(a, c)
  {
  }

  lemma {:induction false} RunGoesForward(policy: DevicePolicy, ws: seq<World>, es: seq<Event>, i: nat, j: nat)
    requires IsRun(policy, ws, es) && i <= j < |ws|
    ensures Later(ws[i], ws[j])
    decreases j
  {
    if i < j {
      RunGoesForward(policy, ws, es, i, j - 1);
      RunStepIsLater(policy, ws, es, j - 1);
      LaterIsTransitive(ws[i], ws[j - 1], ws[j]);
    }
  }

  // ---------------------------------------------------------------------------------------------
  // The theorems
  // ---------------------------------------------------------------------------------------------

  /**
   * In every reachable state each command is in at most one place, at most once there, and a
   * queue or a poll holds only commands of its own user, exactly as their calls sent them.
   */
  lemma OnePlacePerCommand(policy: DevicePolicy, ws: seq<World>, es: seq<Event>, i: nat)
    requires IsRun(policy, ws, es) && i < |ws|
    ensures forall id, a, b | IsAt(ws[i], id, a) && IsAt(ws[i], id, b) :: a == b
    ensures NoDuplicates(ws[i].handed)
    ensures forall u | u in ws[i].store.queues ::
              EachOnce(ws[i].store.queues[u]) && forall e | e in ws[i].store.queues[u] :: EntryOk(ws[i].calls, u, e)
    ensures forall p | p in ws[i].polls ::
              CarriesOnce(ws[i].polls[p].hand) && forall c | c in ws[i].polls[p].hand :: CommandOk(ws[i].calls, ws[i].polls[p].user, c)
  {
    RunKeepsInv(policy, ws, es, i);
  }

  /**
   * And a command whose outcome is awaited, and that a poll answering now may hand out, is in exactly
   * one place: no take, abort, requeue, sweep or withdrawal of another loses it.
   */
  lemma DueCommandIsInExactlyOnePlace(policy: DevicePolicy, ws: seq<World>, es: seq<Event>, i: nat, id: Id)
    requires IsRun(policy, ws, es) && i < |ws| && Due(ws[i], id)
    ensures exists p :: IsAt(ws[i], id, p) && forall q | IsAt(ws[i], id, q) :: q == p
  {
    RunKeepsInv(policy, ws, es, i);
    assert IsSomewhere(ws[i], id);
    var p :| IsAt(ws[i], id, p);
    assert forall q | IsAt(ws[i], id, q) :: q == p;
  }

  /** A call that answered away because it took its command back: no page was or will be handed it. */
  lemma AwayWasNeverHanded(policy: DevicePolicy, ws: seq<World>, es: seq<Event>, i: nat, j: nat, id: Id)
    requires IsRun(policy, ws, es) && i < |ws| && j < |ws|
    requires id in ws[i].phases && ws[i].phases[id].Away?
    ensures id !in ws[j].handed
  {
    var last := Max(i, j);
    RunKeepsInv(policy, ws, es, i);
    RunKeepsInv(policy, ws, es, last);
    RunGoesForward(policy, ws, es, i, last);
    RunGoesForward(policy, ws, es, j, last);
    assert IsAt(ws[last], id, WithCaller);
    if id in ws[j].handed {
      assert IsAt(ws[last], id, WithPage);
    }
  }

  /** The attempt ends without a result and a `recommended` function goes on to Writ Cloud. */
  predicate FallsBack(p: Phase) {
    p.Away? || (p.Answered? && p.outcome.Refused? && p.outcome.code == NOT_GRANTED && p.outcome.evidence.None?)
  }

  /**
   * The fallback to Writ Cloud never doubles a run: either no page is ever handed the command, or
   * the user's own page reported, without a receipt, that it was not granted.
   */
  lemma FallbackRunsOnce(policy: DevicePolicy, ws: seq<World>, es: seq<Event>, i: nat, id: Id)
    requires IsRun(policy, ws, es) && i < |ws|
    requires id in ws[i].phases && FallsBack(ws[i].phases[id])
    ensures (forall j | 0 <= j < |ws| :: id !in ws[j].handed) ||
            (id in ws[i].wins && ws[i].wins[id].body == Failure(NOT_GRANTED, None))
  {
    RunKeepsInv(policy, ws, es, i);
    if ws[i].phases[id].Away? {
      forall j | 0 <= j < |ws| ensures id !in ws[j].handed { AwayWasNeverHanded(policy, ws, es, i, j, id); }
    }
  }

  /** Past the caller's budget, a poll hands out no command of that call. */
  lemma {:induction false} NotStartable(cs: seq<Command>, call: Call, now: nat, id: Id)
    requires call.queuedAt >= call.sentAt && call.queuedAt + call.Budget() <= now
    requires forall c | c in cs && c.id == id :: c == call.CommandFor(id)
    ensures id !in Startable(cs, Seconds(now))
  {
    if cs != [] {
      assert cs[0] in cs;
      NotStartable(cs[1..], call, now, id);
      if cs[0].id == id { assert call.CommandExp() <= Seconds(now); }
    }
  }

  lemma CallerStepsHandNothing(policy: DevicePolicy, w: World, e: Event)
    requires Enabled(w, e) && (e.SendCall? || e.StartWaiting?)
    ensures Next(policy, w, e).handed == w.handed && Next(policy, w, e).signatures == w.signatures
  {
  }

  lemma AwaitHandsNothing(w: World, id: Id)
    requires id in w.phases && id in w.calls && (w.phases[id].Waiting? || w.phases[id].WaitingOn?)
    ensures DoAwait(w, id).handed == w.handed && DoAwait(w, id).signatures == w.signatures
  {
  }

  lemma CallerEndsHandNothing(policy: DevicePolicy, w: World, e: Event)
    requires Enabled(w, e) && (e.TakeBack? || e.GiveUp?)
    ensures Next(policy, w, e).handed == w.handed && Next(policy, w, e).signatures == w.signatures
  {
  }

  lemma PostStepsHandNothing(policy: DevicePolicy, w: World, e: Event)
    requires Enabled(w, e) && (e.PostLook? || e.PostResolve?)
    ensures Next(policy, w, e).handed == w.handed && Next(policy, w, e).signatures == w.signatures
  {
  }

  lemma PostChecksHandNothing(policy: DevicePolicy, w: World, e: Event)
    requires Enabled(w, e) && (e.PostCheck? || e.PostSpend?)
    ensures Next(policy, w, e).handed == w.handed && Next(policy, w, e).signatures == w.signatures
  {
  }

  /** Only a poll that answers hands out commands, only a device makes a signature. */
  lemma HistoryStep(policy: DevicePolicy, w: World, e: Event)
    requires Enabled(w, e)
    ensures Next(policy, w, e).handed ==
            w.handed + if e.PollAnswer? && !e.aborted then Startable(w.polls[e.poll].hand, Seconds(w.now)) else []
    ensures Next(policy, w, e).signatures == w.signatures + if e.DeviceSigns? then {SignedBy(e.device, e.body)} else {}
  {
    if e.AwaitPass? {
      AwaitHandsNothing(w, e.id);
    } else if e.SendCall? || e.StartWaiting? {
      CallerStepsHandNothing(policy, w, e);
    } else if e.TakeBack? || e.GiveUp? {
      CallerEndsHandNothing(policy, w, e);
    } else if e.PostLook? || e.PostResolve? {
      PostStepsHandNothing(policy, w, e);
    } else if e.PostCheck? || e.PostSpend? {
      PostChecksHandNothing(policy, w, e);
    }
  }

  lemma TimedOutStep(policy: DevicePolicy, w: World, e: Event, id: Id)
    requires Inv(w) && Enabled(w, e) && id in w.phases && w.phases[id].TimedOut?
    ensures id in Next(policy, w, e).handed <==> id in w.handed
  {
    HistoryStep(policy, w, e);
    if e.PollAnswer? && !e.aborted {
      var p := w.polls[e.poll];
      forall c | c in p.hand && c.id == id ensures c == w.calls[id].CommandFor(id) {
        assert CommandOk(w.calls, p.user, c);
      }
      NotStartable(p.hand, w.calls[id], w.now, id);
    }
  }

  /** Once the caller was told TIMEOUT, no poll hands the command out, not even after a late requeue. */
  lemma {:induction false} TimedOutIsNotHandedLater(policy: DevicePolicy, ws: seq<World>, es: seq<Event>, i: nat, j: nat, id: Id)
    requires IsRun(policy, ws, es) && i <= j < |ws|
    requires id in ws[i].phases && ws[i].phases[id].TimedOut?
    ensures id in ws[j].handed <==> id in ws[i].handed
    decreases j
  {
    if i < j {
      TimedOutIsNotHandedLater(policy, ws, es, i, j - 1, id);
      RunGoesForward(policy, ws, es, i, j - 1);
      RunKeepsInv(policy, ws, es, j - 1);
      assert StepAt(policy, ws, es, j - 1);
      TimedOutStep(policy, ws[j - 1], es[j - 1], id);
    }
  }

  /**
   * A success reaches the caller of command `id` only with a receipt that a device signed earlier
   * in the run, for this call's function, this command's challenge, the inputs sent and the data
   * returned.
   */
  lemma SuccessIsAttested(policy: DevicePolicy, ws: seq<World>, es: seq<Event>, i: nat, id: Id)
    requires IsRun(policy, ws, es) && i < |ws|
    requires id in ws[i].phases && ws[i].phases[id].Answered? && ws[i].phases[id].outcome.Done?
    ensures id in ws[i].calls
    ensures var call, o := ws[i].calls[id], ws[i].phases[id].outcome;
            var b := o.receipt.body;
            && (exists k :: 0 <= k < i && es[k] == DeviceSigns(b.device, b))
            && b.key == call.key && b.challenge == Some(call.ChallengeFor(id))
            && b.inputsHash == Some(OfInputs(call.ChallengeFor(id), call.inputs))
            && b.outcome == Success && b.dataHash == Some(OfData(o.data))
  {
    RunKeepsInv(policy, ws, es, i);
    var b := ws[i].phases[id].outcome.receipt.body;
    SignaturesAreDevices(policy, ws, es, i, b.device, b);
  }

  /** Every signature in the world was made by a device. */
  lemma {:induction false} SignaturesAreDevices(policy: DevicePolicy, ws: seq<World>, es: seq<Event>, i: nat, d: PublicKey, b: ReceiptBody)
    requires IsRun(policy, ws, es) && i < |ws| && SignedBy(d, b) in ws[i].signatures
    ensures exists k :: 0 <= k < i && es[k] == DeviceSigns(d, b)
  {
    if i > 0 {
      assert StepAt(policy, ws, es, i - 1);
      HistoryStep(policy, ws[i - 1], es[i - 1]);
      if SignedBy(d, b) in ws[i - 1].signatures { SignaturesAreDevices(policy, ws, es, i - 1, d, b); }
    }
  }

  /** The receipt a settled command carries, if any. */
  function EvidenceOf(o: Outcome): Option<Receipt> {
    if o.Done? then Some(o.receipt) else o.evidence
  }

  /** No receipt settles two commands. */
  lemma ReceiptSettlesOne(policy: DevicePolicy, ws: seq<World>, es: seq<Event>, i: nat, id1: Id, id2: Id)
    requires IsRun(policy, ws, es) && i < |ws| && id1 in ws[i].wins && id2 in ws[i].wins
    requires EvidenceOf(ws[i].wins[id1].outcome).Some?
    requires EvidenceOf(ws[i].wins[id1].outcome) == EvidenceOf(ws[i].wins[id2].outcome)
    ensures id1 == id2
  {
    RunKeepsInv(policy, ws, es, i);
  }

  /** A call ends in one way, and what it answers is the outcome of the one resolve that won. */
  lemma OneEndPerCall(policy: DevicePolicy, ws: seq<World>, es: seq<Event>, i: nat, j: nat, id: Id)
    requires IsRun(policy, ws, es) && i <= j < |ws| && id in ws[i].phases && Ended(ws[i].phases[id])
    ensures id in ws[j].phases && ws[j].phases[id] == ws[i].phases[id]
    ensures ws[i].phases[id].Answered? ==>
              id in ws[i].wins && id in ws[j].wins && ws[j].wins[id] == ws[i].wins[id] &&
              ws[i].wins[id].outcome == ws[i].phases[id].outcome
    ensures !ws[i].phases[id].Answered? ==> id !in ws[j].store.pendings && id !in ws[j].store.results
  {
    RunGoesForward(policy, ws, es, i, j);
    RunKeepsInv(policy, ws, es, i);
    RunKeepsInv(policy, ws, es, j);
  }

  /** The queue, pending and result entries of one command share one expiry, in every state. */
  lemma OneExpiryPerCommand(policy: DevicePolicy, ws: seq<World>, es: seq<Event>, i: nat, id: Id)
    requires IsRun(policy, ws, es) && i < |ws|
    ensures id in ws[i].store.pendings || id in ws[i].store.results ==> id in ws[i].calls
    ensures id in ws[i].store.pendings ==> ws[i].store.pendings[id].expiresAt == ws[i].calls[id].StoredUntil()
    ensures id in ws[i].store.results ==> ws[i].store.results[id].expiresAt == ws[i].calls[id].StoredUntil()
    ensures forall u, e | u in ws[i].store.queues && e in ws[i].store.queues[u] && e.command.id == id ::
              id in ws[i].calls && e.expiresAt == ws[i].calls[id].StoredUntil()
  {
    RunKeepsInv(policy, ws, es, i);
  }

  // ---------------------------------------------------------------------------------------------
  // The expiry windows line up
  // ---------------------------------------------------------------------------------------------

  /** The call's entries have not expired at `t`. */
  predicate Stored(call: Call, t: nat) { t < call.StoredUntil() }

  /** The store keeps a call's entries to the caller's deadline exactly when the wait starts within a second of the queueing. */
  lemma PendingOutlivesTheWait(call: Call, started: nat)
    requires call.queuedAt <= started
    ensures (forall t: nat | t <= started + call.Budget() :: Stored(call, t)) <==> started - call.queuedAt < 1_000
  {
    assert Stored(call, started + call.Budget()) <==> started - call.queuedAt < 1_000;
  }

  /** The challenge of a call sent at `sentAt` that starts waiting `d` ms later is good to the caller's deadline. */
  ghost predicate ChallengeOutlivesTheWait(call: Call, d: nat) {
    forall t: nat | t <= call.sentAt + d + call.Budget() :: Seconds(t) < call.ChallengeExp()
  }

  /** For all calls, exactly when the wait starts within a second of `sentAt`. */
  lemma ChallengeOutlivesTheWaitExactly(d: nat)
    ensures (forall call: Call :: ChallengeOutlivesTheWait(call, d)) <==> d < 1_000
  {
    if d < 1_000 {
      forall call: Call ensures ChallengeOutlivesTheWait(call, d) {
        forall t: nat | t <= call.sentAt + d + call.Budget() ensures Seconds(t) < call.ChallengeExp() {
          assert t < call.ChallengeExp() * 1_000;
        }
      }
    } else {
      var call := Call(0, 0, BridgeTypes.NoInputs, 1_000, 0, 0);
      assert Seconds(d + call.Budget()) >= call.ChallengeExp();
      assert !ChallengeOutlivesTheWait(call, d);
    }
  }
}
