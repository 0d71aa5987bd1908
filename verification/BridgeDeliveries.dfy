/**
 * What is owed arrives. A good result that a page posts settles its command as the very result, and
 * the outcome that settled a command is what its waiting caller is answered.
 */
module BridgeDeliveries {
  import opened Basics
  import opened BridgeTypes
  import opened JsonValues
  import opened StoreSpec
  import opened Challenges
  import opened Verify
  import opened Bridge
  import opened BridgePlaces
  import opened BridgeOutcomes
  import opened BridgeRuns
  import opened BridgeDevices

  // ---------------------------------------------------------------------------------------------
  // A settled command's outcome waits for its caller
  // ---------------------------------------------------------------------------------------------

  /** The command is settled, its caller has not ended, and the time of its entries is not over. */
  predicate Owed(w: World, id: Id) {
    && id in w.wins && id in w.calls && id in w.phases && !Ended(w.phases[id])
    && w.now < w.calls[id].StoredUntil()
  }

  ghost predicate OwedIsStored(w: World) {
    forall id | Owed(w, id) :: IsStored(w, id)
  }

  predicate IsStored(w: World, id: Id)
    requires id in w.wins && id in w.calls
  {
    id in w.store.results && w.store.results[id] == Expiring(w.wins[id].outcome, w.calls[id].StoredUntil())
  }

  /** A step that settles nothing and drops no live outcome of a caller still waiting. */
  lemma KeepsOwed(w: World, w': World)
    requires OwedIsStored(w) && w.now <= w'.now && w'.wins == w.wins
    requires forall id | id in w.calls :: id in w'.calls && w'.calls[id] == w.calls[id]
    requires forall id | Owed(w', id) :: Owed(w, id)
    requires forall id | Owed(w', id) && IsStored(w, id) :: id in w'.store.results && w'.store.results[id] == w.store.results[id]
    ensures OwedIsStored(w')
  {
    forall id | Owed(w', id) ensures IsStored(w', id) { assert Owed(w, id); }
  }

  lemma SendKeepsOwed(w: World, id: Id, call: Call)
    requires Inv(w) && OwedIsStored(w) && id !in w.calls
    ensures OwedIsStored(DoSend(w, id, call))
  {
    KeepsOwed(w, DoSend(w, id, call));
  }

  lemma StartKeepsOwed(w: World, id: Id)
    requires Inv(w) && OwedIsStored(w) && id in w.phases && w.phases[id].Sent?
    ensures OwedIsStored(SetPhase(w, id, Waiting(w.now)))
  {
    KeepsOwed(w, SetPhase(w, id, Waiting(w.now)));
  }

  /** A pass of a waiting caller: the outcome owed is the answer. */
  lemma PassAnswersOwed(w: World, id: Id)
    requires OwedIsStored(w) && Owed(w, id) && (w.phases[id].Waiting? || w.phases[id].WaitingOn?)
    ensures id in DoAwait(w, id).phases && DoAwait(w, id).phases[id] == Answered(w.wins[id].outcome)
  {
    assert IsStored(w, id);
  }

  lemma AwaitKeepsOwed(w: World, id: Id)
    requires Inv(w) && OwedIsStored(w) && id in w.phases && id in w.calls && (w.phases[id].Waiting? || w.phases[id].WaitingOn?)
    ensures OwedIsStored(DoAwait(w, id))
  {
    AwaitEffect(w, id);
    if Owed(w, id) { PassAnswersOwed(w, id); }
    KeepsOwed(w, DoAwait(w, id));
  }

  lemma TakeBackKeepsOwed(w: World, id: Id)
    requires Inv(w) && OwedIsStored(w) && id in w.phases && id in w.calls && w.phases[id].PickupOver?
    ensures OwedIsStored(DoTakeBack(w, id))
  {
    KeepsOwed(w, DoTakeBack(w, id));
  }

  lemma GiveUpKeepsOwed(w: World, id: Id)
    requires Inv(w) && OwedIsStored(w) && id in w.phases && (w.phases[id].TookBack? || w.phases[id].BudgetOver?)
    ensures OwedIsStored(DoGiveUp(w, id))
  {
    KeepsOwed(w, DoGiveUp(w, id));
  }

  lemma ResolveKeepsOwed(w: World, post: nat)
    requires Inv(w) && OwedIsStored(w) && post in w.posts && w.posts[post].stage.Ready?
    ensures OwedIsStored(DoPostResolve(w, post))
  {
    var w' := DoPostResolve(w, post);
    var id := w.posts[post].pending.id;
    ResolveEffect(w, post);
    forall i | Owed(w', i) ensures IsStored(w', i) {
      if i == id && id in w.store.pendings && w.store.pendings[id].expiresAt > w.now {
        assert w.store.pendings[id].expiresAt == w.calls[id].StoredUntil();
      } else {
        assert Owed(w, i);
      }
    }
  }

  /** Polls, sweeps, looks, checks, spendings, devices and time settle nothing and drop nothing live. */
  lemma OtherStepKeepsOwed(policy: DevicePolicy, w: World, e: Event)
    requires Inv(w) && OwedIsStored(w) && Enabled(w, e)
    requires !(e.SendCall? || e.StartWaiting? || e.AwaitPass? || e.TakeBack? || e.GiveUp? || e.PostResolve?)
    ensures OwedIsStored(Next(policy, w, e))
  {
    var w' := Next(policy, w, e);
    OtherStepEffect(policy, w, e);
    if e.SweepStore? {
      forall id | Owed(w', id) && IsStored(w, id) ensures id in w'.store.results && w'.store.results[id] == w.store.results[id] {}
    }
    KeepsOwed(w, w');
  }

  lemma OtherStepEffect(policy: DevicePolicy, w: World, e: Event)
    requires Enabled(w, e)
    requires !(e.SendCall? || e.StartWaiting? || e.AwaitPass? || e.TakeBack? || e.GiveUp? || e.PostResolve?)
    ensures var w' := Next(policy, w, e);
            && w'.wins == w.wins && w'.calls == w.calls && w'.phases == w.phases && w.now <= w'.now
            && (e.SweepStore? || w'.store.results == w.store.results)
  {
    match e {
      case PollTake(poll, user) => TakeTouchesNothing(w, poll, user);
      case PollAnswer(poll, aborted) => AnswerTouchesNothing(w, poll, aborted);
      case PostLook(post, user, id, body) => LookTouchesNothing(w, post, user, id, body);
      case PostCheck(post) => CheckTouchesNothing(policy, w, post);
      case PostSpend(post) => SpendTouchesNothing(w, post);
      case _ =>
    }
  }

  /** Callers, their outcomes and the stored results are as they were. */
  predicate SameOutcomes(w: World, w': World) {
    w'.wins == w.wins && w'.calls == w.calls && w'.phases == w.phases && w'.now == w.now && w'.store.results == w.store.results
  }

  lemma TakeTouchesNothing(w: World, poll: nat, user: User)
    ensures SameOutcomes(w, DoPollTake(w, poll, user))
  {
  }

  lemma AnswerTouchesNothing(w: World, poll: nat, aborted: bool)
    requires poll in w.polls
    ensures SameOutcomes(w, DoPollAnswer(w, poll, aborted))
  {
  }

  lemma LookTouchesNothing(w: World, post: nat, user: User, id: Id, body: ResultBody)
    ensures SameOutcomes(w, DoPostLook(w, post, user, id, body))
  {
  }

  lemma CheckTouchesNothing(policy: DevicePolicy, w: World, post: nat)
    requires post in w.posts
    ensures SameOutcomes(w, DoPostCheck(policy, w, post))
  {
    var w' := DoPostCheck(policy, w, post);
    assert w' == w.(store := w'.store, posts := w'.posts) && w'.store == w.store.(devices := w'.store.devices);
  }

  lemma SpendTouchesNothing(w: World, post: nat)
    requires post in w.posts && w.posts[post].stage.DeviceAccepted?
    ensures SameOutcomes(w, DoPostSpend(w, post))
  {
  }

  lemma StepKeepsOwed(policy: DevicePolicy, w: World, e: Event)
    requires Inv(w) && OwedIsStored(w) && Enabled(w, e)
    ensures OwedIsStored(Next(policy, w, e))
  {
    if e.SendCall? { SendKeepsOwed(w, e.id, e.call); }
    else if e.StartWaiting? { StartKeepsOwed(w, e.id); }
    else if e.AwaitPass? { AwaitKeepsOwed(w, e.id); }
    else if e.TakeBack? { TakeBackKeepsOwed(w, e.id); }
    else if e.GiveUp? { GiveUpKeepsOwed(w, e.id); }
    else if e.PostResolve? { ResolveKeepsOwed(w, e.post); }
    else { OtherStepKeepsOwed(policy, w, e); }
  }

  lemma {:induction false} RunKeepsOwed(policy: DevicePolicy, ws: seq<World>, es: seq<Event>, i: nat)
    requires IsRun(policy, ws, es) && i < |ws|
    ensures OwedIsStored(ws[i])
  {
    if i > 0 {
      RunKeepsOwed(policy, ws, es, i - 1);
      RunKeepsInv(policy, ws, es, i - 1);
      assert StepAt(policy, ws, es, i - 1);
      StepKeepsOwed(policy, ws[i - 1], es[i - 1]);
    }
  }

  /** A waiting caller's next pass answers the outcome that settled its command, while its entries last. */
  lemma CallerGetsTheOutcome(policy: DevicePolicy, ws: seq<World>, es: seq<Event>, i: nat, id: Id)
    requires IsRun(policy, ws, es) && i < |es| && es[i] == AwaitPass(id)
    requires id in ws[i].wins && id in ws[i].calls && ws[i].now < ws[i].calls[id].StoredUntil()
    ensures id in ws[i + 1].phases && ws[i + 1].phases[id] == Answered(ws[i].wins[id].outcome)
  {
    RunKeepsOwed(policy, ws, es, i);
    assert StepAt(policy, ws, es, i);
    PassAnswersOwed(ws[i], id);
  }

  // ---------------------------------------------------------------------------------------------
  // What a post settles its command as
  // ---------------------------------------------------------------------------------------------

  /** What the device check looks at: the receipt is genuine, for this call's function and challenge, unexpired, by a device that may sign. */
  ghost predicate ReceiptStands(policy: DevicePolicy, w: World, id: Id, call: Call, r: Receipt) {
    && r.sig == SignedBy(r.body.device, r.body)
    && r.body.key == call.key
    && r.body.challenge == Some(call.ChallengeFor(id))
    && w.now / 1_000 < call.ChallengeExp()
    && match policy
       case Off => true
       case FirstUse => PinsOf(w.store, call.user) == {} || r.body.device in PinsOf(w.store, call.user)
       case Registry(allowed) => (call.user, r.body.device) in allowed
  }

  /** No spent record of the command's challenge is alive. */
  predicate Unspent(w: World, id: Id) {
    id in w.store.nonces ==> w.store.nonces[id] <= w.now
  }

  /** The receipt says that the call's own inputs were run. */
  predicate RanInputs(id: Id, call: Call, r: Receipt) {
    r.body.inputsHash == Some(OfInputs(call.ChallengeFor(id), call.inputs))
  }

  /** ... to success, with this very data. */
  predicate RanTo(data: Posted, r: Receipt) {
    r.body.outcome == Success && data.Form? && r.body.dataHash == Some(OfData(data.value))
  }

  lemma StandsExactly(policy: DevicePolicy, w: World, post: nat, id: Id, call: Call, r: Receipt)
    requires post in w.posts && w.posts[post].pending == call.PendingFor(id) && w.posts[post].user == call.user
    requires ReceiptOf(w.posts[post].body) == Some(r)
    ensures var e := ExpectationsFor(w.posts[post], Seconds(w.now));
            var payload := GuardsBefore(Some(r), e);
            ReceiptStands(policy, w, id, call, r) <==>
            payload.Some? && DevicePinned(policy, w.store, payload.value.sub, r.body.device).1
  {
  }

  /**
   * After the device check a post with data and a receipt is at the spending exactly if its receipt
   * stands; it is refused with its device named exactly if nothing but the device was wrong.
   */
  lemma CheckPassesExactly(policy: DevicePolicy, w: World, post: nat, id: Id, call: Call, r: Receipt)
    requires post in w.posts && w.posts[post].pending == call.PendingFor(id) && w.posts[post].user == call.user
    requires ReceiptOf(w.posts[post].body) == Some(r) && (w.posts[post].body.Succeeded? ==> w.posts[post].body.data.Some?)
    ensures var stage := DoPostCheck(policy, w, post).posts[post].stage;
            if ReceiptStands(policy, w, id, call, r) then
              stage.DeviceAccepted? && stage.receipt == r && stage.rules == ExpectationsFor(w.posts[post], Seconds(w.now)) &&
              stage.payload == ChallengePayload(call.user, call.key, id, call.ChallengeExp())
            else stage == Ready(Refused(RESULT_UNVERIFIED, None,
                                        if ReceiptStands(Off, w, id, call, r) then Some(r.body.device) else None))
  {
    StandsExactly(policy, w, post, id, call, r);
    StandsExactly(Off, w, post, id, call, r);
  }

  /** Posts without a receipt are settled at once: a failure as what the page says, a success as unverified. */
  lemma BarePostsAreSettled(policy: DevicePolicy, w: World, post: nat)
    requires post in w.posts
    ensures var p := w.posts[post];
            var stage := DoPostCheck(policy, w, post).posts[post].stage;
            && (p.body.Failure? && p.body.evidence.None? ==> stage == Ready(Refused(p.body.code, None, None)))
            && (p.body.Succeeded? && (p.body.data.None? || p.body.receipt.None?) ==> stage == Ready(Refused(RESULT_UNVERIFIED, None, None)))
  {
  }

  /** What a post with this body is worth, once its receipt stood and whether the challenge was unspent. */
  function Worth(id: Id, call: Call, body: ResultBody, r: Receipt, unspent: bool): Outcome {
    if !unspent || !RanInputs(id, call, r) then Refused(RESULT_UNVERIFIED, None, None)
    else
      match body
      case Succeeded(Some(data), _) => if RanTo(data, r) then Done(data.value, r) else Refused(RESULT_UNVERIFIED, None, None)
      case Succeeded(None, _) => Refused(RESULT_UNVERIFIED, None, None)
      case Failure(code, _) => Refused(code, Some(r), None)
  }

  /** A post of the call's own command, with a receipt to check. */
  predicate IsFor(p: Post, id: Id, call: Call, body: ResultBody, r: Receipt) {
    && p.pending == call.PendingFor(id) && p.user == call.user && p.body == body
    && ReceiptOf(body) == Some(r) && (body.Succeeded? ==> body.data.Some?)
  }

  lemma SpendSettlesExactly(w: World, post: nat, id: Id, call: Call, body: ResultBody, r: Receipt, seconds: int)
    requires post in w.posts && IsFor(w.posts[post], id, call, body, r)
    requires w.posts[post].stage == DeviceAccepted(ExpectationsFor(w.posts[post], seconds), ChallengePayload(call.user, call.key, id, call.ChallengeExp()), r)
    ensures DoPostSpend(w, post).posts[post] == w.posts[post].(stage := Ready(Worth(id, call, body, r, Unspent(w, id))))
  {
  }

  // ---------------------------------------------------------------------------------------------
  // One post's way through a run
  // ---------------------------------------------------------------------------------------------

  /** Which steps the post has had: its check, its spending. */
  datatype Trace = Unchecked | Checked(check: nat) | Spent(check: nat, spend: nat)

  predicate IsPostStep(e: Event, post: nat) {
    e == PostCheck(post) || e == PostSpend(post)
  }

  ghost predicate TraceIs(es: seq<Event>, from: nat, k: nat, post: nat, trace: Trace)
    requires k <= |es|
  {
    match trace
    case Unchecked => forall j | from <= j < k :: !IsPostStep(es[j], post)
    case Checked(c) => from <= c < k && es[c] == PostCheck(post) && forall j | from <= j < k && j != c :: !IsPostStep(es[j], post)
    case Spent(c, d) =>
      from <= c < d < k && es[c] == PostCheck(post) && es[d] == PostSpend(post) &&
      forall j | from <= j < k && j != c && j != d :: !IsPostStep(es[j], post)
  }

  /** Where the post then is. */
  ghost predicate StageIs(policy: DevicePolicy, ws: seq<World>, p: Post, id: Id, call: Call, body: ResultBody, r: Receipt, trace: Trace)
    requires trace.Checked? || trace.Spent? ==> trace.check < |ws|
    requires trace.Spent? ==> trace.spend < |ws|
  {
    match trace
    case Unchecked => p.stage.Looked?
    case Checked(c) =>
      if ReceiptStands(policy, ws[c], id, call, r) then
        p.stage == DeviceAccepted(ExpectationsFor(p, Seconds(ws[c].now)), ChallengePayload(call.user, call.key, id, call.ChallengeExp()), r)
      else p.stage.Ready? && IsUnverified(p.stage.outcome)
    case Spent(c, d) =>
      ReceiptStands(policy, ws[c], id, call, r) && p.stage == Ready(Worth(id, call, body, r, Unspent(ws[d], id)))
  }

  predicate IsUnverified(o: Outcome) {
    o.Refused? && o.code == RESULT_UNVERIFIED && o.evidence.None?
  }

  /** Steps that are none of this post's leave it as it is. */
  lemma PostStays(policy: DevicePolicy, w: World, e: Event, post: nat)
    requires Enabled(w, e) && post in w.posts && !IsPostStep(e, post) && e != PostResolve(post)
    ensures post in Next(policy, w, e).posts && Next(policy, w, e).posts[post] == w.posts[post]
  {
    if e.SendCall? || e.StartWaiting? || e.AwaitPass? || e.TakeBack? || e.GiveUp? {
      CallerStepsKeepPosts(policy, w, e);
    } else if !(e.PostLook? || e.PostCheck? || e.PostSpend? || e.PostResolve?) {
      OtherStepsKeepPosts(policy, w, e);
    } else {
      OtherPostStays(policy, w, e, post);
    }
  }

  lemma OtherPostStays(policy: DevicePolicy, w: World, e: Event, post: nat)
    requires Enabled(w, e) && post in w.posts && (e.PostLook? || e.PostCheck? || e.PostSpend? || e.PostResolve?) && e.post != post
    ensures post in Next(policy, w, e).posts && Next(policy, w, e).posts[post] == w.posts[post]
  {
    match e {
      case PostLook(other, user, id, body) => LookLeavesOthers(w, other, user, id, body, post);
      case PostCheck(other) => CheckLeavesOthers(policy, w, other, post);
      case PostSpend(other) => SpendLeavesOthers(w, other, post);
      case PostResolve(other) => ResolveEffect(w, other);
    }
  }

  lemma LookLeavesOthers(w: World, other: nat, user: User, id: Id, body: ResultBody, post: nat)
    requires post in w.posts && other != post
    ensures post in DoPostLook(w, other, user, id, body).posts && DoPostLook(w, other, user, id, body).posts[post] == w.posts[post]
  {
  }

  lemma CheckLeavesOthers(policy: DevicePolicy, w: World, other: nat, post: nat)
    requires post in w.posts && other in w.posts && other != post
    ensures post in DoPostCheck(policy, w, other).posts && DoPostCheck(policy, w, other).posts[post] == w.posts[post]
  {
  }

  lemma SpendLeavesOthers(w: World, other: nat, post: nat)
    requires post in w.posts && other in w.posts && other != post && w.posts[other].stage.DeviceAccepted?
    ensures post in DoPostSpend(w, other).posts && DoPostSpend(w, other).posts[post] == w.posts[post]
  {
  }

  lemma CheckStage(policy: DevicePolicy, w: World, post: nat, id: Id, call: Call, body: ResultBody, r: Receipt)
    requires post in w.posts && IsFor(w.posts[post], id, call, body, r) && w.posts[post].stage.Looked?
    ensures var p := DoPostCheck(policy, w, post).posts[post];
            && IsFor(p, id, call, body, r)
            && if ReceiptStands(policy, w, id, call, r) then
                 p.stage == DeviceAccepted(ExpectationsFor(p, Seconds(w.now)), ChallengePayload(call.user, call.key, id, call.ChallengeExp()), r)
               else p.stage.Ready? && IsUnverified(p.stage.outcome)
  {
    CheckPassesExactly(policy, w, post, id, call, r);
  }

  /** One step of the run, for one post. */
  lemma TraceOn(es: seq<Event>, from: nat, k: nat, post: nat, trace: Trace)
    requires from <= k < |es| && TraceIs(es, from, k, post, trace)
    ensures es[k] == PostCheck(post) && trace.Unchecked? ==> TraceIs(es, from, k + 1, post, Checked(k))
    ensures es[k] == PostSpend(post) && trace.Checked? ==> TraceIs(es, from, k + 1, post, Spent(trace.check, k))
    ensures !IsPostStep(es[k], post) ==> TraceIs(es, from, k + 1, post, trace)
  {
  }

  lemma TraceStep(policy: DevicePolicy, ws: seq<World>, es: seq<Event>, from: nat, k: nat, post: nat,
                  id: Id, call: Call, body: ResultBody, r: Receipt, trace: Trace) returns (next: Trace)
    requires |ws| == |es| + 1 && k < |es| && StepAt(policy, ws, es, k) && from <= k
    requires post in ws[k].posts && IsFor(ws[k].posts[post], id, call, body, r) && es[k] != PostResolve(post)
    requires TraceIs(es, from, k, post, trace) && StageIs(policy, ws, ws[k].posts[post], id, call, body, r, trace)
    ensures post in ws[k + 1].posts && IsFor(ws[k + 1].posts[post], id, call, body, r)
    ensures TraceIs(es, from, k + 1, post, next) && StageIs(policy, ws, ws[k + 1].posts[post], id, call, body, r, next)
  {
    TraceOn(es, from, k, post, trace);
    if es[k] == PostCheck(post) {
      next := Checked(k);
      CheckStage(policy, ws[k], post, id, call, body, r);
    } else if es[k] == PostSpend(post) {
      next := Spent(trace.check, k);
      SpendStage(policy, ws, es, k, post, id, call, body, r, trace);
    } else {
      next := trace;
      PostStays(policy, ws[k], es[k], post);
    }
  }

  lemma SpendStage(policy: DevicePolicy, ws: seq<World>, es: seq<Event>, k: nat, post: nat,
                   id: Id, call: Call, body: ResultBody, r: Receipt, trace: Trace)
    requires |ws| == |es| + 1 && k < |es| && StepAt(policy, ws, es, k) && es[k] == PostSpend(post)
    requires post in ws[k].posts && IsFor(ws[k].posts[post], id, call, body, r)
    requires (trace.Checked? ==> trace.check < k) && (trace.Spent? ==> trace.check < k && trace.spend < k)
    requires StageIs(policy, ws, ws[k].posts[post], id, call, body, r, trace)
    ensures trace.Checked? && post in ws[k + 1].posts && IsFor(ws[k + 1].posts[post], id, call, body, r)
    ensures StageIs(policy, ws, ws[k + 1].posts[post], id, call, body, r, Spent(trace.check, k))
  {
    SpendSettlesExactly(ws[k], post, id, call, body, r, Seconds(ws[trace.check].now));
  }

  lemma {:induction false} TraceOf(policy: DevicePolicy, ws: seq<World>, es: seq<Event>, from: nat, k: nat, post: nat,
                                   id: Id, call: Call, body: ResultBody, r: Receipt) returns (trace: Trace)
    requires IsRun(policy, ws, es) && from <= k <= |es|
    requires post in ws[from].posts && IsFor(ws[from].posts[post], id, call, body, r) && ws[from].posts[post].stage.Looked?
    requires forall j | from <= j < k :: es[j] != PostResolve(post)
    ensures post in ws[k].posts && IsFor(ws[k].posts[post], id, call, body, r)
    ensures TraceIs(es, from, k, post, trace) && StageIs(policy, ws, ws[k].posts[post], id, call, body, r, trace)
    decreases k
  {
    if k == from {
      trace := Unchecked;
    } else {
      var before := TraceOf(policy, ws, es, from, k - 1, post, id, call, body, r);
      assert StepAt(policy, ws, es, k - 1);
      trace := TraceStep(policy, ws, es, from, k - 1, post, id, call, body, r, before);
    }
  }

  /** A result is looked at exactly if its command is pending and unexpired, for the user who posts it. */
  lemma LookOpensExactly(w: World, post: nat, user: User, id: Id, body: ResultBody)
    requires Inv(w) && post !in w.posts
    ensures post in DoPostLook(w, post, user, id, body).posts <==>
            id in w.store.pendings && w.now < w.store.pendings[id].expiresAt && user == w.calls[id].user
    ensures post in DoPostLook(w, post, user, id, body).posts ==>
              DoPostLook(w, post, user, id, body).posts[post] == Post(user, w.calls[id].PendingFor(id), body, Looked)
  {
  }

  /** In the steps between `from` and `k` the post's receipt stood at its check, and its challenge was unspent at its spending. */
  ghost predicate PassedBoth(policy: DevicePolicy, ws: seq<World>, es: seq<Event>, from: nat, k: nat, post: nat, id: Id, call: Call, r: Receipt)
    requires |ws| == |es| + 1 && k <= |es|
  {
    exists c, d :: from <= c < d < k && PassesAt(policy, ws, es, c, d, post, id, call, r)
  }

  ghost predicate PassesAt(policy: DevicePolicy, ws: seq<World>, es: seq<Event>, c: nat, d: nat, post: nat, id: Id, call: Call, r: Receipt)
    requires |ws| == |es| + 1 && c < |es| && d < |es|
  {
    && es[c] == PostCheck(post) && ReceiptStands(policy, ws[c], id, call, r)
    && es[d] == PostSpend(post) && Unspent(ws[d], id)
  }

  lemma TraceDecides(policy: DevicePolicy, ws: seq<World>, es: seq<Event>, from: nat, k: nat, post: nat,
                     id: Id, call: Call, body: ResultBody, r: Receipt, trace: Trace)
    requires |ws| == |es| + 1 && k <= |es| && post in ws[k].posts && ws[k].posts[post].stage.Ready?
    requires TraceIs(es, from, k, post, trace) && StageIs(policy, ws, ws[k].posts[post], id, call, body, r, trace)
    ensures if PassedBoth(policy, ws, es, from, k, post, id, call, r)
            then ws[k].posts[post].stage.outcome == Worth(id, call, body, r, true)
            else IsUnverified(ws[k].posts[post].stage.outcome)
  {
    if trace.Spent? {
      if Unspent(ws[trace.spend], id) { assert PassesAt(policy, ws, es, trace.check, trace.spend, post, id, call, r); }
    }
  }

  /**
   * A post that won. Opened by its look at step `opened`, resolved at step `k` while its command was
   * pending and unexpired: its command is settled as what the post is worth if its receipt stood at
   * its check and its challenge was unspent at its spending, and as RESULT_UNVERIFIED otherwise.
   */
  lemma PostSettlesExactly(policy: DevicePolicy, ws: seq<World>, es: seq<Event>, looked: nat, k: nat, post: nat,
                           user: User, id: Id, body: ResultBody, r: Receipt)
    requires IsRun(policy, ws, es) && looked < k < |es|
    requires es[looked] == PostLook(post, user, id, body) && post in ws[looked + 1].posts
    requires ReceiptOf(body) == Some(r) && (body.Succeeded? ==> body.data.Some?)
    requires es[k] == PostResolve(post) && forall j | looked < j < k :: es[j] != PostResolve(post)
    requires id in ws[k].store.pendings && ws[k].now < ws[k].store.pendings[id].expiresAt
    ensures id in ws[looked].calls && id in ws[k + 1].wins
    ensures var call, outcome := ws[looked].calls[id], ws[k + 1].wins[id].outcome;
            if PassedBoth(policy, ws, es, looked + 1, k, post, id, call, r) then outcome == Worth(id, call, body, r, true)
            else IsUnverified(outcome)
  {
    var w := ws[looked];
    RunKeepsInv(policy, ws, es, looked);
    assert StepAt(policy, ws, es, looked) && StepAt(policy, ws, es, k);
    LookOpensExactly(w, post, user, id, body);
    var call := w.calls[id];
    var trace := TraceOf(policy, ws, es, looked + 1, k, post, id, call, body, r);
    TraceDecides(policy, ws, es, looked + 1, k, post, id, call, body, r, trace);
    ResolveEffect(ws[k], post);
  }

  /**
   * So a success posted with data and a receipt settles its command as that data and receipt exactly
   * when the receipt stood, the challenge was unspent, and the receipt says the call's inputs were
   * run to success with this data.
   */
  lemma SuccessSettlesExactly(policy: DevicePolicy, ws: seq<World>, es: seq<Event>, looked: nat, k: nat, post: nat,
                              user: User, id: Id, data: Value, r: Receipt)
    requires IsRun(policy, ws, es) && looked < k < |es|
    requires es[looked] == PostLook(post, user, id, Succeeded(Some(Form(data)), Some(r))) && post in ws[looked + 1].posts
    requires es[k] == PostResolve(post) && forall j | looked < j < k :: es[j] != PostResolve(post)
    requires id in ws[k].store.pendings && ws[k].now < ws[k].store.pendings[id].expiresAt
    ensures id in ws[looked].calls && id in ws[k + 1].wins
    ensures var call := ws[looked].calls[id];
            ws[k + 1].wins[id].outcome == Done(data, r) <==>
            && PassedBoth(policy, ws, es, looked + 1, k, post, id, call, r)
            && r.body.inputsHash == Some(OfInputs(call.ChallengeFor(id), call.inputs))
            && r.body.outcome == Success && r.body.dataHash == Some(OfData(data))
  {
    PostSettlesExactly(policy, ws, es, looked, k, post, user, id, Succeeded(Some(Form(data)), Some(r)), r);
  }

  /** And a failure posted with a receipt is handed on with it exactly when the receipt stood, unspent, for the call's inputs. */
  lemma FailureSettlesExactly(policy: DevicePolicy, ws: seq<World>, es: seq<Event>, looked: nat, k: nat, post: nat,
                              user: User, id: Id, code: Code, r: Receipt)
    requires IsRun(policy, ws, es) && looked < k < |es|
    requires es[looked] == PostLook(post, user, id, Failure(code, Some(r))) && post in ws[looked + 1].posts
    requires es[k] == PostResolve(post) && forall j | looked < j < k :: es[j] != PostResolve(post)
    requires id in ws[k].store.pendings && ws[k].now < ws[k].store.pendings[id].expiresAt
    ensures id in ws[looked].calls && id in ws[k + 1].wins
    ensures var call := ws[looked].calls[id];
            ws[k + 1].wins[id].outcome == Refused(code, Some(r), None) <==>
            PassedBoth(policy, ws, es, looked + 1, k, post, id, call, r) &&
            r.body.inputsHash == Some(OfInputs(call.ChallengeFor(id), call.inputs))
  {
    PostSettlesExactly(policy, ws, es, looked, k, post, user, id, Failure(code, Some(r)), r);
  }
}
