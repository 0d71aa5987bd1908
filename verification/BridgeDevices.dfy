/**
 * Which devices' receipts reach callers. Over whole runs of the bridge, every receipt that settles a
 * command was accepted by a device check for that command's user: its device is pinned, or allowed.
 */
module BridgeDevices {
  import opened Basics
  import opened BridgeTypes
  import opened StoreSpec
  import opened Verify
  import opened Bridge
  import opened BridgePlaces
  import opened BridgeOutcomes
  import opened BridgeRuns

  // ---------------------------------------------------------------------------------------------
  // From an outcome back to the device check
  // ---------------------------------------------------------------------------------------------

  /** The post has passed the device check with this receipt. */
  ghost predicate PassedWith(stage: Stage, r: Receipt) {
    match stage
    case Looked => false
    case DeviceAccepted(_, _, receipt) => receipt == r
    case Ready(outcome) => EvidenceOf(outcome) == Some(r)
  }

  /** The policy lets `device` sign for `user`, given the pins of the store. */
  ghost predicate MaySign(policy: DevicePolicy, s: Store, user: User, device: PublicKey) {
    match policy
    case Off => true
    case FirstUse => device in PinsOf(s, user)
    case Registry(allowed) => (user, device) in allowed
  }

  /** The run's `k`-th step is the device check that accepted `r` for command `id`. */
  ghost predicate AcceptedAt(policy: DevicePolicy, ws: seq<World>, es: seq<Event>, k: nat, id: Id, r: Receipt)
    requires |ws| == |es| + 1
  {
    && k < |es| && es[k].PostCheck? && es[k].post in ws[k].posts
    && ws[k].posts[es[k].post].pending.id == id && id in ws[k].calls
    && ReceiptOf(ws[k].posts[es[k].post].body) == Some(r)
    && MaySign(policy, ws[k + 1].store, ws[k].calls[id].user, r.body.device)
  }

  ghost predicate WasAccepted(policy: DevicePolicy, ws: seq<World>, es: seq<Event>, i: nat, id: Id, r: Receipt)
    requires |ws| == |es| + 1
  {
    exists k :: 0 <= k < i && AcceptedAt(policy, ws, es, k, id, r)
  }

  /** A device check that a post passes leaves the device able to sign for the post's user. */
  lemma CheckAccepts(policy: DevicePolicy, w: World, post: nat, r: Receipt)
    requires post in w.posts && PassedWith(DoPostCheck(policy, w, post).posts[post].stage, r)
    ensures ReceiptOf(w.posts[post].body) == Some(r)
    ensures MaySign(policy, DoPostCheck(policy, w, post).store, w.posts[post].user, r.body.device)
  {
    var p := w.posts[post];
    var e := ExpectationsFor(p, Challenges.Seconds(w.now));
    var payload := GuardsBefore(ReceiptOf(p.body), e);
    if payload.Some? && ReceiptOf(p.body).Some? {
      assert payload.value.sub == p.user;
    }
  }

  /** A post that passed was checked in this step, or had passed before. */
  ghost predicate PassedBefore(w: World, post: nat, r: Receipt, id: Id) {
    post in w.posts && PassedWith(w.posts[post].stage, r) && w.posts[post].pending.id == id
  }

  lemma SpendPasses(w: World, post: nat, r: Receipt)
    requires post in w.posts && w.posts[post].stage.DeviceAccepted?
    requires PassedWith(DoPostSpend(w, post).posts[post].stage, r)
    ensures PassedWith(w.posts[post].stage, r)
  {
  }

  /** The other steps of posts leave a post that passed as it was. */
  lemma OtherPosts(w: World, post: nat, r: Receipt, id: Id)
    ensures forall q, user, i, body :: PassedBefore(DoPostLook(w, q, user, i, body), post, r, id) && q !in w.posts ==> PassedBefore(w, post, r, id)
    ensures forall q :: q in w.posts && w.posts[q].stage.Ready? && PassedBefore(DoPostResolve(w, q), post, r, id) ==> PassedBefore(w, post, r, id)
  {
  }

  lemma CallerStepsKeepPosts(policy: DevicePolicy, w: World, e: Event)
    requires Enabled(w, e) && (e.SendCall? || e.StartWaiting? || e.AwaitPass? || e.TakeBack? || e.GiveUp?)
    ensures Next(policy, w, e).posts == w.posts && Next(policy, w, e).wins == w.wins
  {
    if e.AwaitPass? { AwaitKeepsPosts(w, e.id); }
  }

  lemma AwaitKeepsPosts(w: World, id: Id)
    requires id in w.phases && id in w.calls && (w.phases[id].Waiting? || w.phases[id].WaitingOn?)
    ensures DoAwait(w, id).posts == w.posts && DoAwait(w, id).wins == w.wins
  {
  }

  lemma OtherStepsKeepPosts(policy: DevicePolicy, w: World, e: Event)
    requires Enabled(w, e) && !(e.SendCall? || e.StartWaiting? || e.AwaitPass? || e.TakeBack? || e.GiveUp?)
    requires !(e.PostLook? || e.PostCheck? || e.PostSpend? || e.PostResolve?)
    ensures Next(policy, w, e).posts == w.posts && Next(policy, w, e).wins == w.wins
  {
  }

  lemma PostStepBack(policy: DevicePolicy, w: World, e: Event, post: nat, r: Receipt, id: Id)
    requires Enabled(w, e) && PassedBefore(Next(policy, w, e), post, r, id) && (e.PostCheck? || e.PostSpend?)
    ensures PassedBefore(w, post, r, id) ||
            (e == PostCheck(post) && post in w.posts && w.posts[post].pending.id == id &&
             PassedWith(DoPostCheck(policy, w, post).posts[post].stage, r))
  {
    if e == PostSpend(post) { SpendPasses(w, post, r); }
  }

  lemma PassedStep(policy: DevicePolicy, w: World, e: Event, post: nat, r: Receipt, id: Id)
    requires Enabled(w, e) && PassedBefore(Next(policy, w, e), post, r, id)
    ensures PassedBefore(w, post, r, id) ||
            (e == PostCheck(post) && post in w.posts && w.posts[post].pending.id == id &&
             PassedWith(DoPostCheck(policy, w, post).posts[post].stage, r))
  {
    if e.PostCheck? || e.PostSpend? {
      PostStepBack(policy, w, e, post, r, id);
    } else if e.PostLook? || e.PostResolve? {
      OtherPosts(w, post, r, id);
    } else if e.SendCall? || e.StartWaiting? || e.AwaitPass? || e.TakeBack? || e.GiveUp? {
      CallerStepsKeepPosts(policy, w, e);
    } else {
      OtherStepsKeepPosts(policy, w, e);
    }
  }

  lemma {:induction false} PassedWasAccepted(policy: DevicePolicy, ws: seq<World>, es: seq<Event>, i: nat, post: nat, r: Receipt, id: Id)
    requires IsRun(policy, ws, es) && i < |ws| && PassedBefore(ws[i], post, r, id)
    ensures WasAccepted(policy, ws, es, i, id, r)
  {
    var k := i - 1;
    assert i > 0;
    assert StepAt(policy, ws, es, k);
    PassedStep(policy, ws[k], es[k], post, r, id);
    if PassedBefore(ws[k], post, r, id) {
      PassedWasAccepted(policy, ws, es, k, post, r, id);
    } else {
      CheckAccepts(policy, ws[k], post, r);
      RunKeepsInv(policy, ws, es, k);
      PostIsForItsCall(ws[k], post);
      assert AcceptedAt(policy, ws, es, k, id, r);
    }
  }

  lemma PostIsForItsCall(w: World, post: nat)
    requires Inv(w) && post in w.posts
    ensures var p := w.posts[post]; p.pending.id in w.calls && p.user == w.calls[p.pending.id].user
  {
    assert PostOk(w.calls, w.signatures, w.posts[post]);
  }

  /** Where a win comes from. */
  lemma WinStep(policy: DevicePolicy, w: World, e: Event, id: Id)
    requires Enabled(w, e) && id in Next(policy, w, e).wins
    ensures (id in w.wins && w.wins[id] == Next(policy, w, e).wins[id]) ||
            (e.PostResolve? && e.post in w.posts && w.posts[e.post].pending.id == id &&
             w.posts[e.post].stage == Ready(Next(policy, w, e).wins[id].outcome))
  {
    if e.SendCall? || e.StartWaiting? || e.AwaitPass? || e.TakeBack? || e.GiveUp? {
      CallerStepsKeepPosts(policy, w, e);
    } else if e.PostResolve? {
      ResolveEffect(w, e.post);
    } else if e.PostLook? || e.PostCheck? || e.PostSpend? {
    } else {
      OtherStepsKeepPosts(policy, w, e);
    }
  }

  lemma {:induction false} WinWasAccepted(policy: DevicePolicy, ws: seq<World>, es: seq<Event>, i: nat, id: Id, r: Receipt)
    requires IsRun(policy, ws, es) && i < |ws| && id in ws[i].wins && EvidenceOf(ws[i].wins[id].outcome) == Some(r)
    ensures WasAccepted(policy, ws, es, i, id, r)
  {
    assert i > 0;
    var k := i - 1;
    assert StepAt(policy, ws, es, k);
    WinStep(policy, ws[k], es[k], id);
    if id in ws[k].wins && ws[k].wins[id] == ws[i].wins[id] {
      WinWasAccepted(policy, ws, es, k, id, r);
    } else {
      assert PassedBefore(ws[k], es[k].post, r, id);
      PassedWasAccepted(policy, ws, es, k, es[k].post, r, id);
    }
  }

  /**
   * Every success that reaches a caller, and every refusal that carries a receipt, came through a
   * device check for this command earlier in the run: under `FirstUse` its device was then among the
   * user's pins, under a registry it is one the registry allows.
   */
  lemma SettledByAcceptedDevice(policy: DevicePolicy, ws: seq<World>, es: seq<Event>, i: nat, id: Id, r: Receipt)
    requires IsRun(policy, ws, es) && i < |ws|
    requires id in ws[i].phases && ws[i].phases[id].Answered? && EvidenceOf(ws[i].phases[id].outcome) == Some(r)
    ensures exists k :: 0 <= k < i && AcceptedAt(policy, ws, es, k, id, r)
  {
    RunKeepsInv(policy, ws, es, i);
    WinWasAccepted(policy, ws, es, i, id, r);
  }

  // ---------------------------------------------------------------------------------------------
  // Where a user's pins come from
  // ---------------------------------------------------------------------------------------------

  /** The run's `m`-th step pins `key` for `user` at first use. */
  ghost predicate FirstPinnedAt(ws: seq<World>, es: seq<Event>, m: nat, user: User, key: PublicKey)
    requires |ws| == |es| + 1
  {
    m < |es| && es[m].PostCheck? && PinsOf(ws[m].store, user) == {} && PinsOf(ws[m + 1].store, user) == {key}
  }

  ghost predicate NotForgotten(es: seq<Event>, a: nat, b: nat, user: User)
    requires a <= b <= |es|
  {
    forall j | a <= j < b :: es[j] != ForgetUser(user)
  }

  lemma CheckPins(policy: DevicePolicy, w: World, post: nat, user: User)
    requires post in w.posts
    ensures var pins, pins' := PinsOf(w.store, user), PinsOf(DoPostCheck(policy, w, post).store, user);
            pins' == pins || (pins == {} && exists key :: pins' == {key})
  {
    var s := DoPostCheck(policy, w, post).store;
    if s != w.store {
      var p := w.posts[post];
      var receipt := ReceiptOf(p.body).value;
      assert s == DevicePinned(policy, w.store, p.user, receipt.body.device).0;
      DeviceCheckPins(policy, w.store, p.user, receipt.body.device, user);
    }
  }

  lemma DeviceCheckPins(policy: DevicePolicy, s: Store, subject: User, device: PublicKey, user: User)
    ensures var pins' := PinsOf(DevicePinned(policy, s, subject, device).0, user);
            pins' == PinsOf(s, user) || (PinsOf(s, user) == {} && pins' == {device})
  {
  }

  lemma StoreKeepsPins(policy: DevicePolicy, w: World, e: Event)
    requires Enabled(w, e) && !e.PostCheck? && !e.ApproveDevice? && !e.ForgetUser?
    ensures Next(policy, w, e).store.devices == w.store.devices
  {
    if e.AwaitPass? { AwaitKeepsDevices(w, e.id); }
    else if e.PollTake? { TakeKeepsDevices(w, e.poll, e.user); }
    else if e.PollAnswer? { AnswerKeepsDevices(w, e.poll, e.aborted); }
    else if e.PostLook? { LookKeepsDevices(w, e.post, e.user, e.id, e.posted); }
    else if e.PostSpend? || e.PostResolve? { PostsKeepDevices(policy, w, e); }
  }

  lemma AwaitKeepsDevices(w: World, id: Id)
    requires id in w.phases && id in w.calls && (w.phases[id].Waiting? || w.phases[id].WaitingOn?)
    ensures DoAwait(w, id).store.devices == w.store.devices
  {
    TakeResultEffect(w.store, w.now, id);
  }

  lemma TakeKeepsDevices(w: World, poll: nat, user: User)
    ensures DoPollTake(w, poll, user).store.devices == w.store.devices
  {
  }

  lemma AnswerKeepsDevices(w: World, poll: nat, aborted: bool)
    requires poll in w.polls
    ensures DoPollAnswer(w, poll, aborted).store.devices == w.store.devices
  {
  }

  lemma LookKeepsDevices(w: World, post: nat, user: User, id: Id, body: ResultBody)
    ensures DoPostLook(w, post, user, id, body).store.devices == w.store.devices
  {
  }

  lemma PostsKeepDevices(policy: DevicePolicy, w: World, e: Event)
    requires Enabled(w, e) && (e.PostSpend? || e.PostResolve?)
    ensures Next(policy, w, e).store.devices == w.store.devices
  {
  }

  /** What one step does to a user's pins. */
  lemma PinsStep(policy: DevicePolicy, w: World, e: Event, user: User)
    requires Enabled(w, e)
    ensures var pins, pins' := PinsOf(w.store, user), PinsOf(Next(policy, w, e).store, user);
            if e == ForgetUser(user) then pins' == {}
            else if e.ApproveDevice? && e.user == user then pins' == pins + {e.publicKey}
            else pins' == pins || (e.PostCheck? && pins == {} && exists key :: pins' == {key})
  {
    if e.PostCheck? {
      CheckPins(policy, w, e.post, user);
    } else if !e.ApproveDevice? && !e.ForgetUser? {
      StoreKeepsPins(policy, w, e);
    }
  }

  /** A pinned key was approved, or pinned at first use, and the user was not forgotten since. */
  ghost predicate HasOrigin(ws: seq<World>, es: seq<Event>, i: nat, user: User, key: PublicKey)
    requires |ws| == |es| + 1 && i <= |es|
  {
    exists m :: 0 <= m < i && OriginAt(ws, es, m, user, key) && NotForgotten(es, m + 1, i, user)
  }

  ghost predicate OriginAt(ws: seq<World>, es: seq<Event>, m: nat, user: User, key: PublicKey)
    requires |ws| == |es| + 1
  {
    m < |es| && (es[m] == ApproveDevice(user, key) || FirstPinnedAt(ws, es, m, user, key))
  }

  lemma {:induction false} PinsHaveOrigins(policy: DevicePolicy, ws: seq<World>, es: seq<Event>, i: nat, user: User, key: PublicKey)
    requires IsRun(policy, ws, es) && i < |ws| && key in PinsOf(ws[i].store, user)
    ensures HasOrigin(ws, es, i, user, key)
  {
    assert i > 0;
    var k := i - 1;
    assert StepAt(policy, ws, es, k);
    PinsStep(policy, ws[k], es[k], user);
    if key in PinsOf(ws[k].store, user) {
      PinsHaveOrigins(policy, ws, es, k, user, key);
      var m :| 0 <= m < k && OriginAt(ws, es, m, user, key) && NotForgotten(es, m + 1, k, user);
      assert NotForgotten(es, m + 1, i, user);
    } else {
      assert OriginAt(ws, es, k, user, key) && NotForgotten(es, k + 1, i, user);
    }
  }

  lemma {:induction false} PinsStay(policy: DevicePolicy, ws: seq<World>, es: seq<Event>, a: nat, b: nat, user: User)
    requires IsRun(policy, ws, es) && a <= b < |ws| && NotForgotten(es, a, b, user)
    ensures PinsOf(ws[a].store, user) <= PinsOf(ws[b].store, user)
    decreases b
  {
    if a < b {
      PinsStay(policy, ws, es, a, b - 1, user);
      assert StepAt(policy, ws, es, b - 1);
      PinsStep(policy, ws[b - 1], es[b - 1], user);
    }
  }

  /** Between two forgettings of a user, one key at most is pinned at first use. */
  lemma OneFirstPin(policy: DevicePolicy, ws: seq<World>, es: seq<Event>, m: nat, n: nat, user: User, key: PublicKey, other: PublicKey)
    requires IsRun(policy, ws, es) && m <= n < |es| && NotForgotten(es, m, n, user)
    requires FirstPinnedAt(ws, es, m, user, key) && FirstPinnedAt(ws, es, n, user, other)
    ensures m == n && key == other
  {
    if m < n { PinsStay(policy, ws, es, m + 1, n, user); }
  }

  /**
   * Under first-use pinning, whoever signed what settled a command was, at the device check, the
   * user's one first-pinned device or one approved, since the user was last forgotten.
   */
  lemma SettledByPinnedDevice(ws: seq<World>, es: seq<Event>, i: nat, id: Id, r: Receipt)
    requires IsRun(FirstUse, ws, es) && i < |ws|
    requires id in ws[i].phases && ws[i].phases[id].Answered? && EvidenceOf(ws[i].phases[id].outcome) == Some(r)
    ensures exists k :: 0 <= k < i && AcceptedAt(FirstUse, ws, es, k, id, r) &&
              HasOrigin(ws, es, k + 1, ws[k].calls[id].user, r.body.device)
  {
    SettledByAcceptedDevice(FirstUse, ws, es, i, id, r);
    var k :| 0 <= k < i && AcceptedAt(FirstUse, ws, es, k, id, r);
    PinsHaveOrigins(FirstUse, ws, es, k + 1, ws[k].calls[id].user, r.body.device);
  }
}
