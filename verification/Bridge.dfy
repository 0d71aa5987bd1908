/**
 * The bridge as a step system over one `memoryStore`: server calls (`runOnUser`), page polls,
 * result posts, devices and the clock, every step being the code between two awaits. Pages are
 * not trusted: a post may carry any body, except that a signature is only ever one a device made.
 */
module Bridge {
  import opened Basics
  import opened BridgeTypes
  import opened JsonValues
  import opened StoreSpec
  import opened Challenges
  import opened Verify

  // ---------------------------------------------------------------------------------------------
  // One call's times and messages (runOnUser)
  // ---------------------------------------------------------------------------------------------

  /** What a call was made with; `sentAt` and `queuedAt` are its first clock reading and the store's. */
  datatype Call = Call(user: User, key: Key, inputs: Value, timeoutMs: nat, sentAt: nat, queuedAt: nat) {
    function Budget(): nat { timeoutMs + RESULT_GRACE_MS }

    /** Unix seconds after which no page may start the command. */
    function CommandExp(): int { CeilDiv(sentAt + timeoutMs, 1_000) }

    /** Unix seconds from which the challenge is refused. */
    function ChallengeExp(): int { CeilDiv(sentAt + Budget(), 1_000) + 1 }

    /** When the store lets go of everything the call put in it. */
    function StoredUntil(): int { queuedAt + Budget() + 1_000 }

    function ChallengeFor(id: Id): Challenge { Minted(ChallengePayload(user, key, id, ChallengeExp())) }

    function CommandFor(id: Id): Command { Command(id, key, inputs, timeoutMs, ChallengeFor(id), CommandExp()) }

    function PendingFor(id: Id): Pending {
      Pending(id, user, key, ChallengeFor(id), ChallengeExp(), Some(OfInputs(ChallengeFor(id), inputs)))
    }
  }

  /** Where a caller is between awaits. */
  datatype Phase =
    | Sent
    | Waiting(started: nat)
    | PickupOver(started: nat)
    | TookBack
    | WaitingOn(started: nat)
    | BudgetOver
    | Away
    | TimedOut
    | Answered(outcome: Outcome)

  // ---------------------------------------------------------------------------------------------
  // Page polls and result posts
  // ---------------------------------------------------------------------------------------------

  /** A GET whose `take` answered and whose response was not written yet. */
  datatype Poll = Poll(user: User, hand: seq<Command>)

  /** What a page posts. */
  datatype ResultBody =
    | Succeeded(data: Option<Posted>, receipt: Option<Receipt>)
    | Failure(code: Code, evidence: Option<Receipt>)

  datatype Stage =
    | Looked
    | DeviceAccepted(rules: Expectations, payload: ChallengePayload, receipt: Receipt)
    | Ready(outcome: Outcome)

  datatype Post = Post(user: User, pending: Pending, body: ResultBody, stage: Stage)

  /** A `resolve` that returned true: the body it came from and the outcome handed over. */
  datatype Win = Win(body: ResultBody, outcome: Outcome)

  datatype World = World(
    now: nat,
    store: Store,
    calls: map<Id, Call>,
    phases: map<Id, Phase>,
    polls: map<nat, Poll>,
    posts: map<nat, Post>,
    signatures: set<Signature>,
    // history
    handed: seq<Id>,
    withdrawn: set<Id>,
    wins: map<Id, Win>)

  const Start := World(0, EmptyStore, map[], map[], map[], map[], {}, [], {}, map[])

  // ---------------------------------------------------------------------------------------------
  // Steps
  // ---------------------------------------------------------------------------------------------

  datatype Event =
    | Tick(ms: nat)
    | SweepStore
    | SendCall(id: Id, call: Call)
    | StartWaiting(id: Id)
    | AwaitPass(id: Id)
    | TakeBack(id: Id)
    | GiveUp(id: Id)
    | PollTake(poll: nat, user: User)
    | PollAnswer(poll: nat, aborted: bool)
    | PostLook(post: nat, user: User, id: Id, posted: ResultBody)
    | PostCheck(post: nat)
    | PostSpend(post: nat)
    | PostResolve(post: nat)
    | DeviceSigns(device: PublicKey, body: ReceiptBody)
    | ApproveDevice(user: User, publicKey: PublicKey)
    | ForgetUser(user: User)
    | SpendElsewhere(nonce: Id, ttlMs: int)

  /** The receipt's signature, if it verifies for anything, was made by a device. */
  ghost predicate Obtainable(r: Option<Receipt>, signatures: set<Signature>) {
    r.Some? && r.value.sig.SignedBy? ==> r.value.sig in signatures
  }

  ghost predicate Enabled(w: World, e: Event) {
    match e
    case SendCall(id, call) => id !in w.calls && call.sentAt <= call.queuedAt == w.now
    case StartWaiting(id) => id in w.phases && w.phases[id].Sent?
    case AwaitPass(id) => id in w.calls && id in w.phases && (w.phases[id].Waiting? || w.phases[id].WaitingOn?)
    case TakeBack(id) => id in w.calls && id in w.phases && w.phases[id].PickupOver?
    case GiveUp(id) => id in w.phases && (w.phases[id].TookBack? || w.phases[id].BudgetOver?)
    case PollTake(poll, _) => poll !in w.polls
    case PollAnswer(poll, _) => poll in w.polls
    case PostLook(post, _, _, body) =>
      post !in w.posts && Obtainable(if body.Succeeded? then body.receipt else body.evidence, w.signatures)
    case PostCheck(post) => post in w.posts && w.posts[post].stage.Looked?
    case PostSpend(post) => post in w.posts && w.posts[post].stage.DeviceAccepted?
    case PostResolve(post) => post in w.posts && w.posts[post].stage.Ready?
    case _ => true
  }

  function SetPhase(w: World, id: Id, p: Phase): World {
    w.(phases := w.phases[id := p])
  }

  function DoSend(w: World, id: Id, call: Call): World {
    w.(store := Enqueue(w.store, w.now, call.user, call.CommandFor(id), call.PendingFor(id), call.Budget() + 1_000),
       calls := w.calls[id := call],
       phases := w.phases[id := Sent])
  }

  /** How long the caller's current `awaitResult` waits, counted from `started`. */
  function Patience(p: Phase, call: Call): nat {
    if p.Waiting? then Min(PICKUP_TIMEOUT_MS, call.Budget()) else call.Budget()
  }

  /** One pass of `awaitResult`'s loop: the outcome, or whether its time is up. */
  function DoAwait(w: World, id: Id): World
    requires id in w.phases && id in w.calls && (w.phases[id].Waiting? || w.phases[id].WaitingOn?)
  {
    var p := w.phases[id];
    var (store', outcome) := TakeResult(w.store, w.now, id);
    var w' := w.(store := store');
    if outcome.Some? then SetPhase(w', id, Answered(outcome.value))
    else if w.now < p.started + Patience(p, w.calls[id]) then w'
    else SetPhase(w', id, if p.Waiting? then PickupOver(p.started) else BudgetOver)
  }

  function DoTakeBack(w: World, id: Id): World
    requires id in w.phases && id in w.calls && w.phases[id].PickupOver?
  {
    var (store', removed) := Withdraw(w.store, w.calls[id].user, id);
    if removed then SetPhase(w.(store := store', withdrawn := w.withdrawn + {id}), id, TookBack)
    else SetPhase(w.(store := store'), id, WaitingOn(w.phases[id].started))
  }

  function DoGiveUp(w: World, id: Id): World
    requires id in w.phases
  {
    SetPhase(w.(store := Cancel(w.store, id)), id, if w.phases[id].TookBack? then Away else TimedOut)
  }

  function DoPollTake(w: World, poll: nat, user: User): World {
    var (store', taken) := TakeNow(w.store, w.now, user, MAX_COMMANDS_PER_POLL);
    var w' := w.(store := store');
    if taken == [] then w' else w'.(polls := w.polls[poll := Poll(user, taken)])
  }

  /** The ids of the commands a page may still start at second `nowSeconds`. */
  function Startable(commands: seq<Command>, nowSeconds: int): seq<Id> {
    if commands == [] then []
    else
      var rest := Startable(commands[1..], nowSeconds);
      if commands[0].expiresAt > nowSeconds then [commands[0].id] + rest else rest
  }

  function DoPollAnswer(w: World, poll: nat, aborted: bool): World
    requires poll in w.polls
  {
    var p := w.polls[poll];
    var w' := w.(polls := w.polls - {poll});
    if aborted then w'.(store := Requeue(w.store, w.now, p.user, p.hand))
    else w'.(handed := w.handed + Startable(p.hand, Seconds(w.now)))
  }

  function DoPostLook(w: World, post: nat, user: User, id: Id, body: ResultBody): World {
    var (store', pending) := PendingOf(w.store, w.now, id);
    var w' := w.(store := store');
    if pending.None? || pending.value.user != user then w'
    else w'.(posts := w.posts[post := Post(user, pending.value, body, Looked)])
  }

  const Unverified := Refused(RESULT_UNVERIFIED, None, None)

  /** What the receipt of this post must match, at second `nowSeconds`. */
  function ExpectationsFor(p: Post, nowSeconds: int): Expectations {
    Expectations(nowSeconds, p.pending.challenge, p.pending.key, Some(p.user), Some(p.pending.id), None,
                 if p.body.Succeeded? then p.body.data else None, None, p.pending.inputsHash, p.body.Succeeded?)
  }

  function ReceiptOf(body: ResultBody): Option<Receipt> {
    if body.Succeeded? then body.receipt else body.evidence
  }

  /** The outcome of a post whose receipt was accepted. */
  function Honoured(body: ResultBody, receipt: Receipt): Outcome {
    match body
    case Succeeded(Some(Form(data)), _) => Done(data, receipt)
    case Succeeded(_, _) => Unverified
    case Failure(code, _) => Refused(code, Some(receipt), None)
  }

  function DoPostCheck(policy: DevicePolicy, w: World, post: nat): World
    requires post in w.posts
  {
    var p := w.posts[post];
    var e := ExpectationsFor(p, Seconds(w.now));
    var payload := GuardsBefore(ReceiptOf(p.body), e);
    if p.body.Succeeded? && p.body.data.None? then SetStage(w, post, Ready(Unverified))
    else if p.body.Failure? && p.body.evidence.None? then SetStage(w, post, Ready(Refused(p.body.code, None, None)))
    else if payload.None? then SetStage(w, post, Ready(Unverified))
    else
      var receipt := ReceiptOf(p.body).value;
      var (store', pinned) := DevicePinned(policy, w.store, payload.value.sub, receipt.body.device);
      SetStage(w.(store := store'), post,
               if pinned then DeviceAccepted(e, payload.value, receipt)
               else Ready(Refused(RESULT_UNVERIFIED, None, Some(receipt.body.device))))
  }

  function DoPostSpend(w: World, post: nat): World
    requires post in w.posts && w.posts[post].stage.DeviceAccepted?
  {
    var DeviceAccepted(e, payload, receipt) := w.posts[post].stage;
    var (store', unspent) := SpendNonce(w.store, w.now, payload.nonce, SpentTtl(payload.exp, e.nowSeconds));
    SetStage(w.(store := store'), post,
             Ready(if unspent && GuardsAfter(receipt, e) then Honoured(w.posts[post].body, receipt) else Unverified))
  }

  function SetStage(w: World, post: nat, stage: Stage): World
    requires post in w.posts
  {
    w.(posts := w.posts[post := w.posts[post].(stage := stage)])
  }

  function DoPostResolve(w: World, post: nat): World
    requires post in w.posts && w.posts[post].stage.Ready?
  {
    var p := w.posts[post];
    var (store', won) := Resolve(w.store, w.now, p.pending.id, p.stage.outcome);
    var w' := w.(store := store', posts := w.posts - {post});
    if won then w'.(wins := w.wins[p.pending.id := Win(p.body, p.stage.outcome)]) else w'
  }

  function Next(policy: DevicePolicy, w: World, e: Event): World
    requires Enabled(w, e)
  {
    match e
    case Tick(ms) => w.(now := w.now + ms)
    case SweepStore => w.(store := Sweep(w.store, w.now))
    case SendCall(id, call) => DoSend(w, id, call)
    case StartWaiting(id) => SetPhase(w, id, Waiting(w.now))
    case AwaitPass(id) => DoAwait(w, id)
    case TakeBack(id) => DoTakeBack(w, id)
    case GiveUp(id) => DoGiveUp(w, id)
    case PollTake(poll, user) => DoPollTake(w, poll, user)
    case PollAnswer(poll, aborted) => DoPollAnswer(w, poll, aborted)
    case PostLook(post, user, id, body) => DoPostLook(w, post, user, id, body)
    case PostCheck(post) => DoPostCheck(policy, w, post)
    case PostSpend(post) => DoPostSpend(w, post)
    case PostResolve(post) => DoPostResolve(w, post)
    case DeviceSigns(device, body) => w.(signatures := w.signatures + {SignedBy(device, body)})
    case ApproveDevice(user, k) => w.(store := PinDevice(w.store, user, k))
    case ForgetUser(user) => w.(store := ForgetDevices(w.store, user))
    case SpendElsewhere(nonce, ttl) => w.(store := SpendNonce(w.store, w.now, nonce, ttl).0)
  }
}
