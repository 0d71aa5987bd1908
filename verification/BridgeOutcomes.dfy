/**
 * What outcomes are worth. Whatever pages post and however posts, polls and callers interleave, a
 * success reaches a caller only with a receipt a device signed for that very command, inputs and
 * data.
 */
module BridgeOutcomes {
  import opened Basics
  import opened BridgeTypes
  import opened StoreSpec
  import opened Challenges
  import opened Verify
  import opened Bridge
  import opened BridgePlaces

  /** A device signed this receipt for command `id` of `call`: its function, its challenge, its inputs. */
  ghost predicate Attests(r: Receipt, id: Id, call: Call, signatures: set<Signature>) {
    && r.sig in signatures && r.sig == SignedBy(r.body.device, r.body)
    && r.body.key == call.key
    && r.body.challenge == Some(call.ChallengeFor(id))
    && r.body.inputsHash == Some(OfInputs(call.ChallengeFor(id), call.inputs))
  }

  /**
   * A success carries a receipt that attests the command and the very data returned. A refusal
   * that carries a receipt carries an attesting one; a bare NOT_GRANTED is what the page itself
   * reported, never the fate of a result that failed verification.
   */
  ghost predicate Settles(win: Win, id: Id, call: Call, signatures: set<Signature>) {
    match win.outcome
    case Done(data, r) =>
      && win.body == Succeeded(Some(Form(data)), Some(r))
      && Attests(r, id, call, signatures)
      && r.body.outcome == Success && r.body.dataHash == Some(OfData(data))
    case Refused(code, evidence, _) =>
      && (evidence.Some? ==> win.body == Failure(code, evidence) && Attests(evidence.value, id, call, signatures))
      && (evidence.None? && code == NOT_GRANTED ==> win.body == Failure(NOT_GRANTED, None))
  }

  ghost predicate PostOk(calls: map<Id, Call>, signatures: set<Signature>, p: Post) {
    var id := p.pending.id;
    && id in calls && p.user == calls[id].user && p.pending == calls[id].PendingFor(id)
    && Obtainable(ReceiptOf(p.body), signatures)
    && match p.stage
       case Looked => true
       case DeviceAccepted(e, payload, receipt) =>
         && e == ExpectationsFor(p, e.nowSeconds)
         && ReceiptOf(p.body) == Some(receipt) && GuardsBefore(Some(receipt), e) == Some(payload)
         && (p.body.Succeeded? ==> p.body.data.Some?)
       case Ready(outcome) => Settles(Win(p.body, outcome), id, calls[id], signatures)
  }

  ghost predicate PostsOk(calls: map<Id, Call>, signatures: set<Signature>, posts: map<nat, Post>) {
    forall p | p in posts :: PostOk(calls, signatures, posts[p])
  }

  ghost predicate WinsOk(calls: map<Id, Call>, signatures: set<Signature>, wins: map<Id, Win>, pendings: map<Id, Expiring<Pending>>) {
    forall id | id in wins :: id in calls && id !in pendings && Settles(wins[id], id, calls[id], signatures)
  }

  ghost predicate ResultsOk(calls: map<Id, Call>, wins: map<Id, Win>, results: map<Id, Expiring<Outcome>>) {
    forall id | id in results ::
      id in wins && id in calls && results[id] == Expiring(wins[id].outcome, calls[id].StoredUntil())
  }

  ghost predicate PhaseOk(now: nat, s: Store, withdrawn: set<Id>, wins: map<Id, Win>, id: Id, call: Call, phase: Phase) {
    match phase
    case Sent => true
    case Waiting(started) => call.queuedAt <= started <= now
    case PickupOver(started) => call.queuedAt <= started <= now
    case WaitingOn(started) => call.queuedAt <= started <= now
    case TookBack => id in withdrawn
    case BudgetOver => call.queuedAt + call.Budget() <= now
    case Away => id in withdrawn && id !in s.pendings && id !in s.results
    case TimedOut => call.queuedAt + call.Budget() <= now && id !in s.pendings && id !in s.results
    case Answered(outcome) => id in wins && wins[id].outcome == outcome && id !in s.results
  }

  ghost predicate CallersOk(w: World) {
    && w.calls.Keys == w.phases.Keys
    && (forall id | id in w.calls :: w.calls[id].sentAt <= w.calls[id].queuedAt <= w.now)
    && (forall id | id in w.phases :: PhaseOk(w.now, w.store, w.withdrawn, w.wins, id, w.calls[id], w.phases[id]))
  }

  /** All of the invariant but where commands are. */
  ghost predicate OutcomesOk(w: World) {
    && PendingsOk(w.calls, w.store.pendings)
    && PostsOk(w.calls, w.signatures, w.posts)
    && WinsOk(w.calls, w.signatures, w.wins, w.store.pendings)
    && ResultsOk(w.calls, w.wins, w.store.results)
    && CallersOk(w)
  }

  /** The step leaves every command where it was, and makes none pending. */
  ghost predicate MovesNothing(w: World, w': World) {
    && w'.store.queues == w.store.queues && w'.polls == w.polls && w'.handed == w.handed && w'.withdrawn == w.withdrawn
    && w'.calls == w.calls
    && forall i | i in w'.store.pendings :: i in w.store.pendings && w'.store.pendings[i] == w.store.pendings[i]
  }

  lemma MovingNothingKeepsPlaces(w: World, w': World)
    requires PlacesOk(w) && MovesNothing(w, w')
    ensures PlacesOk(w')
  {
    forall i, a | IsAt(w', i, a) ensures IsAt(w, i, a) {}
  }

  // ---------------------------------------------------------------------------------------------
  // Every step keeps what outcomes are worth
  // ---------------------------------------------------------------------------------------------

  lemma SettlesWithMoreSignatures(win: Win, id: Id, call: Call, a: set<Signature>, b: set<Signature>)
    requires Settles(win, id, call, a) && a <= b
    ensures Settles(win, id, call, b)
  {
  }

  /** Steps of the store alone that only drop entries, and steps of queues and polls. */
  lemma DroppingKeepsOutcomes(w: World, w': World)
    requires OutcomesOk(w)
    requires w' == w.(now := w'.now, store := w'.store, polls := w'.polls, handed := w'.handed) && w.now <= w'.now
    requires forall i | i in w'.store.pendings :: i in w.store.pendings && w'.store.pendings[i] == w.store.pendings[i]
    requires forall i | i in w'.store.results :: i in w.store.results && w'.store.results[i] == w.store.results[i]
    ensures OutcomesOk(w')
  {
  }

  lemma SendCallers(w: World, id: Id, call: Call)
    requires CallersOk(w) && id !in w.calls && call.sentAt <= call.queuedAt == w.now
    ensures CallersOk(DoSend(w, id, call))
  {
  }

  lemma SendPosts(w: World, id: Id, call: Call)
    requires PostsOk(w.calls, w.signatures, w.posts) && WinsOk(w.calls, w.signatures, w.wins, w.store.pendings) && id !in w.calls
    ensures var w' := DoSend(w, id, call);
            PostsOk(w'.calls, w'.signatures, w'.posts) && WinsOk(w'.calls, w'.signatures, w'.wins, w'.store.pendings)
  {
  }

  lemma SendOutcomes(w: World, id: Id, call: Call)
    requires OutcomesOk(w) && id !in w.calls && call.sentAt <= call.queuedAt == w.now
    ensures OutcomesOk(DoSend(w, id, call))
  {
    SendCallers(w, id, call);
    SendPosts(w, id, call);
    SendEntries(w, id, call);
  }

  lemma SendEntries(w: World, id: Id, call: Call)
    requires PendingsOk(w.calls, w.store.pendings) && ResultsOk(w.calls, w.wins, w.store.results)
    requires id !in w.calls && call.queuedAt == w.now
    ensures var w' := DoSend(w, id, call);
            PendingsOk(w'.calls, w'.store.pendings) && ResultsOk(w'.calls, w'.wins, w'.store.results)
  {
  }

  lemma CallerOutcomes(w: World, id: Id, w': World)
    requires OutcomesOk(w) && id in w.phases && id in w'.phases
    requires w' == w.(store := w'.store, withdrawn := w'.withdrawn, phases := w.phases[id := w'.phases[id]])
    requires w.withdrawn <= w'.withdrawn
    requires forall i | i in w'.store.pendings :: i in w.store.pendings && w'.store.pendings[i] == w.store.pendings[i]
    requires forall i | i in w'.store.results :: i in w.store.results && w'.store.results[i] == w.store.results[i]
    requires PhaseOk(w'.now, w'.store, w'.withdrawn, w'.wins, id, w.calls[id], w'.phases[id])
    ensures OutcomesOk(w')
  {
  }

  lemma TakeResultEffect(s: Store, t: nat, id: Id)
    ensures var (s', outcome) := TakeResult(s, t, id);
            && s' == s.(results := s.results - {id})
            && (outcome.Some? ==> id in s.results && outcome.value == s.results[id].value)
  {
    assert id !in s.results ==> s.results - {id} == s.results;
  }

  /** What one pass of `awaitResult` changes. */
  lemma AwaitEffect(w: World, id: Id)
    requires id in w.phases && id in w.calls && (w.phases[id].Waiting? || w.phases[id].WaitingOn?)
    requires ResultsOk(w.calls, w.wins, w.store.results)
    requires PhaseOk(w.now, w.store, w.withdrawn, w.wins, id, w.calls[id], w.phases[id])
    ensures var w' := DoAwait(w, id);
            && id in w'.phases && w' == w.(store := w'.store, phases := w.phases[id := w'.phases[id]])
            && w'.store == w.store.(results := w.store.results - {id})
            && PhaseOk(w.now, w'.store, w.withdrawn, w.wins, id, w.calls[id], w'.phases[id])
  {
    TakeResultEffect(w.store, w.now, id);
    var (store', outcome) := TakeResult(w.store, w.now, id);
    var w' := DoAwait(w, id);
    if outcome.Some? {
      assert w' == SetPhase(w.(store := store'), id, Answered(outcome.value));
    } else if w.now < w.phases[id].started + Patience(w.phases[id], w.calls[id]) {
      assert w.phases[id := w.phases[id]] == w.phases;
    }
  }

  lemma AwaitOutcomes(w: World, id: Id)
    requires OutcomesOk(w) && id in w.phases && (w.phases[id].Waiting? || w.phases[id].WaitingOn?)
    ensures OutcomesOk(DoAwait(w, id))
  {
    AwaitEffect(w, id);
    CallerOutcomes(w, id, DoAwait(w, id));
  }

  lemma TakeBackOutcomes(w: World, id: Id)
    requires OutcomesOk(w) && id in w.phases && w.phases[id].PickupOver?
    ensures OutcomesOk(DoTakeBack(w, id))
  {
    CallerOutcomes(w, id, DoTakeBack(w, id));
  }

  lemma GiveUpOutcomes(w: World, id: Id)
    requires OutcomesOk(w) && id in w.phases && (w.phases[id].TookBack? || w.phases[id].BudgetOver?)
    ensures OutcomesOk(DoGiveUp(w, id))
  {
    CallerOutcomes(w, id, DoGiveUp(w, id));
  }

  /** A step of one post that leaves the callers' side alone. */
  lemma PostOutcomes(w: World, post: nat, w': World)
    requires OutcomesOk(w) && post in w'.posts
    requires w' == w.(store := w'.store, posts := w.posts[post := w'.posts[post]])
    requires forall i | i in w'.store.pendings :: i in w.store.pendings && w'.store.pendings[i] == w.store.pendings[i]
    requires w'.store.results == w.store.results && w'.store.queues == w.store.queues
    requires PostOk(w.calls, w.signatures, w'.posts[post])
    ensures OutcomesOk(w')
  {
  }

  lemma PostLookEffect(w: World, post: nat, user: User, id: Id, body: ResultBody)
    requires PendingsOk(w.calls, w.store.pendings) && post !in w.posts && Obtainable(ReceiptOf(body), w.signatures)
    ensures var w' := DoPostLook(w, post, user, id, body);
            && w'.store == w.store.(pendings := w'.store.pendings)
            && (w'.store.pendings == w.store.pendings || w'.store.pendings == w.store.pendings - {id})
            && if post in w'.posts then w' == w.(store := w'.store, posts := w.posts[post := w'.posts[post]]) &&
                                        PostOk(w.calls, w.signatures, w'.posts[post])
               else w' == w.(store := w'.store)
  {
    var (store', pending) := PendingOf(w.store, w.now, id);
    if pending.Some? && pending.value.user == user {
      NewPostOk(w.calls, w.signatures, w.store.pendings, user, pending.value, id, body);
    }
  }

  lemma NewPostOk(calls: map<Id, Call>, signatures: set<Signature>, pendings: map<Id, Expiring<Pending>>,
                  user: User, pending: Pending, id: Id, body: ResultBody)
    requires PendingsOk(calls, pendings) && id in pendings && pending == pendings[id].value && pending.user == user
    requires Obtainable(ReceiptOf(body), signatures)
    ensures PostOk(calls, signatures, Post(user, pending, body, Looked))
  {
  }

  lemma PostLookOutcomes(w: World, post: nat, user: User, id: Id, body: ResultBody)
    requires OutcomesOk(w) && post !in w.posts && Obtainable(ReceiptOf(body), w.signatures)
    ensures OutcomesOk(DoPostLook(w, post, user, id, body))
  {
    var w' := DoPostLook(w, post, user, id, body);
    PostLookEffect(w, post, user, id, body);
    if post in w'.posts {
      PostOutcomes(w, post, w');
    } else {
      DroppingKeepsOutcomes(w, w');
    }
  }

  /** A post that passes the device check stays a good post; so does one that is settled as refused. */
  lemma CheckedPostOk(calls: map<Id, Call>, signatures: set<Signature>, p: Post, e: Expectations, payload: ChallengePayload)
    requires PostOk(calls, signatures, p) && p.stage.Looked? && e == ExpectationsFor(p, e.nowSeconds)
    ensures ReceiptOf(p.body).Some? && GuardsBefore(ReceiptOf(p.body), e) == Some(payload) && (p.body.Succeeded? ==> p.body.data.Some?) ==>
              PostOk(calls, signatures, p.(stage := DeviceAccepted(e, payload, ReceiptOf(p.body).value)))
  {
    assert forall stage :: ExpectationsFor(p.(stage := stage), e.nowSeconds) == e;
  }

  lemma RefusedPostOk(calls: map<Id, Call>, signatures: set<Signature>, p: Post, code: Code, device: Option<PublicKey>)
    requires PostOk(calls, signatures, p)
    requires code != NOT_GRANTED || (p.body.Failure? && p.body.evidence.None? && p.body.code == code)
    ensures PostOk(calls, signatures, p.(stage := Ready(Refused(code, None, device))))
  {
  }

  lemma PostCheckEffect(policy: DevicePolicy, w: World, post: nat)
    requires post in w.posts && w.posts[post].stage.Looked? && PostOk(w.calls, w.signatures, w.posts[post])
    ensures var w' := DoPostCheck(policy, w, post);
            && w'.store == w.store.(devices := w'.store.devices)
            && post in w'.posts && w' == w.(store := w'.store, posts := w.posts[post := w'.posts[post]])
            && PostOk(w.calls, w.signatures, w'.posts[post])
  {
    var p := w.posts[post];
    var e := ExpectationsFor(p, Seconds(w.now));
    var payload := GuardsBefore(ReceiptOf(p.body), e);
    if payload.Some? { CheckedPostOk(w.calls, w.signatures, p, e, payload.value); }
    RefusedPostOk(w.calls, w.signatures, p, RESULT_UNVERIFIED, None);
    if ReceiptOf(p.body).Some? {
      RefusedPostOk(w.calls, w.signatures, p, RESULT_UNVERIFIED, Some(ReceiptOf(p.body).value.body.device));
    } else if p.body.Failure? {
      RefusedPostOk(w.calls, w.signatures, p, p.body.code, None);
    }
  }

  lemma PostCheckOutcomes(policy: DevicePolicy, w: World, post: nat)
    requires OutcomesOk(w) && post in w.posts && w.posts[post].stage.Looked?
    ensures OutcomesOk(DoPostCheck(policy, w, post))
  {
    assert PostOk(w.calls, w.signatures, w.posts[post]);
    PostCheckEffect(policy, w, post);
    PostOutcomes(w, post, DoPostCheck(policy, w, post));
  }

  /** A receipt that passed every guard attests the post's command. */
  lemma GuardsAttest(calls: map<Id, Call>, signatures: set<Signature>, p: Post)
    requires PostOk(calls, signatures, p) && p.stage.DeviceAccepted? && GuardsAfter(p.stage.receipt, p.stage.rules)
    ensures Settles(Win(p.body, Honoured(p.body, p.stage.receipt)), p.pending.id, calls[p.pending.id], signatures)
  {
  }

  lemma PostSpendOutcomes(w: World, post: nat)
    requires OutcomesOk(w) && post in w.posts && w.posts[post].stage.DeviceAccepted?
    ensures OutcomesOk(DoPostSpend(w, post))
  {
    var p := w.posts[post];
    if GuardsAfter(p.stage.receipt, p.stage.rules) { GuardsAttest(w.calls, w.signatures, p); }
    PostOutcomes(w, post, DoPostSpend(w, post));
  }

  /** A resolve that loses only drops an expired pending entry; one that wins hands over what settles the command. */
  lemma ResolveEffect(w: World, post: nat)
    requires post in w.posts && w.posts[post].stage.Ready?
    ensures var w' := DoPostResolve(w, post);
            var id := w.posts[post].pending.id;
            && w' == w.(store := w'.store, posts := w.posts - {post}, wins := w'.wins)
            && w'.store == w.store.(pendings := w.store.pendings - {id}, results := w'.store.results)
            && if id in w.store.pendings && w.store.pendings[id].expiresAt > w.now
               then w'.wins == w.wins[id := Win(w.posts[post].body, w.posts[post].stage.outcome)] &&
                    w'.store.results == w.store.results[id := Expiring(w.posts[post].stage.outcome, w.store.pendings[id].expiresAt)]
               else w'.wins == w.wins && w'.store.results == w.store.results
  {
  }

  lemma PostResolveOutcomes(w: World, post: nat)
    requires OutcomesOk(w) && post in w.posts && w.posts[post].stage.Ready?
    ensures OutcomesOk(DoPostResolve(w, post))
  {
    var p := w.posts[post];
    var w' := DoPostResolve(w, post);
    ResolveEffect(w, post);
    assert PostOk(w.calls, w.signatures, p);
    assert WinsOk(w'.calls, w'.signatures, w'.wins, w'.store.pendings);
    assert ResultsOk(w'.calls, w'.wins, w'.store.results);
    forall id | id in w'.phases ensures PhaseOk(w'.now, w'.store, w'.withdrawn, w'.wins, id, w'.calls[id], w'.phases[id]) {
      assert PhaseOk(w.now, w.store, w.withdrawn, w.wins, id, w.calls[id], w.phases[id]);
    }
  }

  lemma SignOutcomes(w: World, s: Signature)
    requires OutcomesOk(w)
    ensures OutcomesOk(w.(signatures := w.signatures + {s}))
  {
    var more := w.signatures + {s};
    forall id | id in w.wins ensures Settles(w.wins[id], id, w.calls[id], more) {
      SettlesWithMoreSignatures(w.wins[id], id, w.calls[id], w.signatures, more);
    }
    forall p | p in w.posts ensures PostOk(w.calls, more, w.posts[p]) {
      var post := w.posts[p];
      assert PostOk(w.calls, w.signatures, post);
      if post.stage.Ready? {
        SettlesWithMoreSignatures(Win(post.body, post.stage.outcome), post.pending.id, w.calls[post.pending.id], w.signatures, more);
      }
    }
  }
}
