/**
 * What the methods of `memoryStore` answer, said by the calls of the run alone: which call before it,
 * and at what times, an answer comes from. No answer is lost, and none is made up.
 */
module StoreAnswers {
  import opened Basics
  import opened BridgeTypes
  import opened StoreSpec
  import opened StoreRuns
  import opened StoreOutcomes

  /** What a map holds for `k` that is still alive at `u`. */
  function Live<T>(m: map<nat, Expiring<T>>, k: nat, u: int): Option<Expiring<T>> {
    if k in m && m[k].expiresAt > u then Some(m[k]) else None
  }

  function Until<T>(value: T, expiresAt: int, u: int): Option<Expiring<T>> {
    if expiresAt > u then Some(Expiring(value, expiresAt)) else None
  }

  /** A spent record of the nonce is still alive at `u`. */
  predicate Spent(s: Store, nonce: Id, u: int) {
    nonce in s.nonces && s.nonces[nonce] > u
  }

  // ---------------------------------------------------------------------------------------------
  // One method, and what is alive at a later time
  // ---------------------------------------------------------------------------------------------

  lemma PresenceLater(s: Store, e: Timed, user: User, u: nat)
    requires e.t <= u
    ensures Live(Apply(s, e).0.presence, user, u) ==
            if e.op.SetPresenceOp? && e.op.user == user then Until(e.op.presence, e.t + e.op.ttlMs, u)
            else Live(s.presence, user, u)
  {
    if !e.op.GetPresenceOp? && !e.op.SetPresenceOp? && !e.op.SweepOp? { PresenceFrame(s, e); }
  }

  lemma PresenceFrame(s: Store, e: Timed)
    requires !e.op.GetPresenceOp? && !e.op.SetPresenceOp? && !e.op.SweepOp?
    ensures Apply(s, e).0.presence == s.presence
  {
    if e.op.TakeOp? || e.op.RequeueOp? || e.op.WithdrawOp? { QueueStep(s, e); }
  }

  lemma PendingLater(s: Store, e: Timed, id: Id, u: nat)
    requires e.t <= u
    ensures Live(Apply(s, e).0.pendings, id, u) ==
            if e.op.EnqueueOp? && e.op.pending.id == id then Until(e.op.pending, e.t + e.op.ttlMs, u)
            else if Settles(e.op, id) then None
            else Live(s.pendings, id, u)
  {
    if !TouchesOutcomes(e.op) { OutcomeFrame(s, e); }
  }

  /** A `resolve` or a `cancel` of the command. */
  predicate Settles(op: Op, id: Id) {
    (op.ResolveOp? && op.id == id) || op == CancelOp(id)
  }

  /** An `awaitResult` pass or a `cancel` of the command. */
  predicate Clears(op: Op, id: Id) {
    op == AwaitOp(id) || op == CancelOp(id)
  }

  lemma ResultLater(s: Store, e: Timed, id: Id, u: nat)
    requires e.t <= u
    ensures Live(Apply(s, e).0.results, id, u) ==
            if e.op.ResolveOp? && e.op.id == id && Live(s.pendings, id, e.t).Some?
            then Until(e.op.outcome, Live(s.pendings, id, e.t).value.expiresAt, u)
            else if Clears(e.op, id) then None
            else Live(s.results, id, u)
  {
    if e.op.ResolveOp? || e.op.AwaitOp? || e.op.CancelOp? {
    } else if !TouchesOutcomes(e.op) {
      OutcomeFrame(s, e);
    }
  }

  lemma SpentLater(s: Store, e: Timed, nonce: Id, u: nat)
    requires e.t <= u
    ensures Spent(Apply(s, e).0, nonce, u) <==>
            if e.op.SpendOp? && e.op.nonce == nonce && !Spent(s, nonce, e.t) then e.t + Max(1, e.op.ttlMs) > u
            else Spent(s, nonce, u)
  {
    if !e.op.SpendOp? && !e.op.SweepOp? { NonceFrame(s, e); }
  }

  lemma NonceFrame(s: Store, e: Timed)
    requires !e.op.SpendOp? && !e.op.SweepOp?
    ensures Apply(s, e).0.nonces == s.nonces
  {
    if e.op.TakeOp? || e.op.RequeueOp? || e.op.WithdrawOp? { QueueStep(s, e); }
  }

  /** What each of these methods answers. */
  lemma Answers(s: Store, e: Timed)
    ensures e.op.GetPresenceOp? ==>
              Apply(s, e).1 == PresenceIs(if Live(s.presence, e.op.user, e.t).Some? then Some(Live(s.presence, e.op.user, e.t).value.value) else None)
    ensures e.op.PendingOp? ==>
              Apply(s, e).1 == PendingIs(if Live(s.pendings, e.op.id, e.t).Some? then Some(Live(s.pendings, e.op.id, e.t).value.value) else None)
    ensures e.op.ResolveOp? ==> Apply(s, e).1 == Flag(Live(s.pendings, e.op.id, e.t).Some?)
    ensures e.op.AwaitOp? ==>
              Apply(s, e).1 == OutcomeIs(if Live(s.results, e.op.id, e.t).Some? then Some(Live(s.results, e.op.id, e.t).value.value) else None)
    ensures e.op.SpendOp? ==> Apply(s, e).1 == Flag(!Spent(s, e.op.nonce, e.t))
  {
  }

  // ---------------------------------------------------------------------------------------------
  // Presence
  // ---------------------------------------------------------------------------------------------

  /** The run's `w`-th method sets the user's presence, and none after it does before the `k`-th. */
  ghost predicate LastSet(h: Run, w: nat, k: nat, user: User)
    requires k <= |h.ops|
  {
    && w < k && h.ops[w].op.SetPresenceOp? && h.ops[w].op.user == user
    && forall j | w < j < k :: !(h.ops[j].op.SetPresenceOp? && h.ops[j].op.user == user)
  }

  /** Every method before the `k`-th was called by `u`. */
  ghost predicate By(h: Run, k: nat, u: nat)
    requires k <= |h.ops|
  {
    forall j | 0 <= j < k :: h.ops[j].t <= u
  }

  lemma {:induction false} PresenceFrom(h: Run, k: nat, user: User, u: nat) returns (w: nat)
    requires FromStart(h) && k <= |h.ops| && By(h, k, u)
    requires Live(h.states[k].presence, user, u).Some?
    ensures LastSet(h, w, k, user)
    ensures Live(h.states[k].presence, user, u) == Until(h.ops[w].op.presence, h.ops[w].t + h.ops[w].op.ttlMs, u)
  {
    assert StepAt(h, k - 1);
    PresenceLater(h.states[k - 1], h.ops[k - 1], user, u);
    if h.ops[k - 1].op.SetPresenceOp? && h.ops[k - 1].op.user == user { w := k - 1; }
    else { w := PresenceFrom(h, k - 1, user, u); }
  }

  lemma {:induction false} PresenceKept(h: Run, w: nat, k: nat, user: User, u: nat)
    requires k <= |h.ops| && By(h, k, u) && LastSet(h, w, k, user)
    ensures Live(h.states[k].presence, user, u) == Until(h.ops[w].op.presence, h.ops[w].t + h.ops[w].op.ttlMs, u)
    decreases k
  {
    assert StepAt(h, k - 1);
    PresenceLater(h.states[k - 1], h.ops[k - 1], user, u);
    if w < k - 1 { PresenceKept(h, w, k - 1, user, u); }
  }

  /** `getPresence` answers exactly what was last set for the user, until its time to live is over. */
  lemma PresenceExactly(h: Run, i: nat, user: User, p: Presence)
    requires FromStart(h) && Monotone(h.ops) && i < |h.ops| && h.ops[i].op == GetPresenceOp(user)
    ensures h.answers[i] == PresenceIs(Some(p)) <==>
            exists w: nat :: LastSet(h, w, i, user) && h.ops[w].op.presence == p && h.ops[i].t < h.ops[w].t + h.ops[w].op.ttlMs
  {
    var u := h.ops[i].t;
    assert StepAt(h, i);
    Answers(h.states[i], h.ops[i]);
    assert By(h, i, u);
    if h.answers[i] == PresenceIs(Some(p)) {
      var w := PresenceFrom(h, i, user, u);
      assert LastSet(h, w, i, user);
    }
    forall w: nat | LastSet(h, w, i, user) && h.ops[w].op.presence == p && u < h.ops[w].t + h.ops[w].op.ttlMs
      ensures h.answers[i] == PresenceIs(Some(p))
    {
      PresenceKept(h, w, i, user, u);
    }
  }

  // ---------------------------------------------------------------------------------------------
  // Commands and their outcomes
  // ---------------------------------------------------------------------------------------------

  ghost predicate Enqueues(h: Run, e: nat, id: Id) {
    e < |h.ops| && h.ops[e].op.EnqueueOp? && h.ops[e].op.pending.id == id
  }

  /** The expiry the `e`-th method gave its command. */
  function Expiry(h: Run, e: nat): int
    requires e < |h.ops| && h.ops[e].op.EnqueueOp?
  {
    h.ops[e].t + h.ops[e].op.ttlMs
  }

  /** The run's `e`-th method makes the command pending, and none settles it before the `k`-th. */
  ghost predicate PendingSince(h: Run, e: nat, k: nat, id: Id)
    requires k <= |h.ops|
  {
    e < k && Enqueues(h, e, id) && forall j | e < j < k :: !Settles(h.ops[j].op, id)
  }

  lemma {:induction false} PendingFrom(h: Run, k: nat, id: Id, u: nat) returns (e: nat)
    requires FromStart(h) && k <= |h.ops| && By(h, k, u) && Live(h.states[k].pendings, id, u).Some?
    ensures PendingSince(h, e, k, id) && Live(h.states[k].pendings, id, u) == Until(h.ops[e].op.pending, Expiry(h, e), u)
  {
    assert StepAt(h, k - 1);
    PendingLater(h.states[k - 1], h.ops[k - 1], id, u);
    if Enqueues(h, k - 1, id) { e := k - 1; } else { e := PendingFrom(h, k - 1, id, u); }
  }

  lemma {:induction false} PendingKept(h: Run, e: nat, k: nat, id: Id, u: nat)
    requires FreshIds(h) && k <= |h.ops| && By(h, k, u) && PendingSince(h, e, k, id)
    ensures Live(h.states[k].pendings, id, u) == Until(h.ops[e].op.pending, Expiry(h, e), u)
    decreases k
  {
    assert StepAt(h, k - 1);
    PendingLater(h.states[k - 1], h.ops[k - 1], id, u);
    if e < k - 1 { PendingKept(h, e, k - 1, id, u); }
  }

  /** The command is pending at the `i`-th method's time: enqueued, not settled since, and not expired. */
  ghost predicate StillPending(h: Run, i: nat, id: Id)
    requires i < |h.ops|
  {
    exists e: nat :: PendingSince(h, e, i, id) && h.ops[i].t < Expiry(h, e)
  }

  /** `resolve` answers true exactly for a command enqueued before, not resolved or cancelled since, and unexpired. */
  lemma ResolveExactly(h: Run, i: nat, id: Id)
    requires FreshRun(h) && Monotone(h.ops) && i < |h.ops| && h.ops[i].op.ResolveOp? && h.ops[i].op.id == id
    ensures h.answers[i] == Flag(true) <==> StillPending(h, i, id)
  {
    var u := h.ops[i].t;
    assert StepAt(h, i);
    Answers(h.states[i], h.ops[i]);
    assert By(h, i, u);
    if h.answers[i] == Flag(true) {
      var e := PendingFrom(h, i, id, u);
      assert PendingSince(h, e, i, id) && u < Expiry(h, e);
    }
    if StillPending(h, i, id) {
      var e: nat :| PendingSince(h, e, i, id) && u < Expiry(h, e);
      PendingKept(h, e, i, id, u);
    }
  }

  /** `pending` answers exactly what was enqueued, as long as `resolve` would answer true. */
  lemma PendingExactly(h: Run, i: nat, id: Id, p: Pending)
    requires FreshRun(h) && Monotone(h.ops) && i < |h.ops| && h.ops[i].op == PendingOp(id)
    ensures h.answers[i] == PendingIs(Some(p)) <==>
            exists e: nat :: PendingSince(h, e, i, id) && h.ops[i].t < Expiry(h, e) && h.ops[e].op.pending == p
  {
    var u := h.ops[i].t;
    assert StepAt(h, i);
    Answers(h.states[i], h.ops[i]);
    assert By(h, i, u);
    if h.answers[i] == PendingIs(Some(p)) {
      var e := PendingFrom(h, i, id, u);
      assert PendingSince(h, e, i, id) && u < Expiry(h, e) && h.ops[e].op.pending == p;
    }
    forall e: nat | PendingSince(h, e, i, id) && u < Expiry(h, e) && h.ops[e].op.pending == p ensures h.answers[i] == PendingIs(Some(p)) {
      PendingKept(h, e, i, id, u);
    }
  }

  /** The `w`-th method wins the command that the `e`-th enqueued, and nothing clears it before the `k`-th. */
  ghost predicate WonSince(h: Run, e: nat, w: nat, k: nat, id: Id)
    requires k <= |h.ops|
  {
    e < w < k && Enqueues(h, e, id) && Wins(h, w, id) && forall j | w < j < k :: !Clears(h.ops[j].op, id)
  }

  lemma WinFrom(h: Run, w: nat, id: Id, u: nat) returns (e: nat)
    requires FromStart(h) && Monotone(h.ops) && Wins(h, w, id)
    ensures e < w && Enqueues(h, e, id)
    ensures Live(h.states[w].pendings, id, h.ops[w].t).Some?
    ensures Live(h.states[w].pendings, id, h.ops[w].t).value.expiresAt == Expiry(h, e)
  {
    assert StepAt(h, w);
    Answers(h.states[w], h.ops[w]);
    assert By(h, w, h.ops[w].t);
    e := PendingFrom(h, w, id, h.ops[w].t);
  }

  lemma {:induction false} ResultFrom(h: Run, k: nat, id: Id, u: nat) returns (e: nat, w: nat)
    requires FreshRun(h) && Monotone(h.ops) && k <= |h.ops| && By(h, k, u) && Live(h.states[k].results, id, u).Some?
    ensures WonSince(h, e, w, k, id) && Live(h.states[k].results, id, u) == Until(h.ops[w].op.outcome, Expiry(h, e), u)
  {
    assert StepAt(h, k - 1);
    var op := h.ops[k - 1];
    ResultLater(h.states[k - 1], op, id, u);
    Answers(h.states[k - 1], op);
    if op.op.ResolveOp? && op.op.id == id && Live(h.states[k - 1].pendings, id, op.t).Some? {
      w := k - 1;
      e := WinFrom(h, w, id, u);
    } else {
      e, w := ResultFrom(h, k - 1, id, u);
    }
  }

  lemma {:induction false} ResultKept(h: Run, e: nat, w: nat, k: nat, id: Id, u: nat)
    requires FreshRun(h) && Monotone(h.ops) && k <= |h.ops| && By(h, k, u) && WonSince(h, e, w, k, id)
    ensures Live(h.states[k].results, id, u) == Until(h.ops[w].op.outcome, Expiry(h, e), u)
    decreases k
  {
    assert StepAt(h, k - 1);
    var op := h.ops[k - 1];
    ResultLater(h.states[k - 1], op, id, u);
    if w == k - 1 {
      var e' := WinFrom(h, w, id, u);
      SameEnqueue(h, e, e', id);
    } else {
      ResultKept(h, e, w, k - 1, id, u);
      NotWonAgain(h, w, k - 1, id);
    }
  }

  lemma SameEnqueue(h: Run, e: nat, e': nat, id: Id)
    requires FreshIds(h) && Enqueues(h, e, id) && Enqueues(h, e', id)
    ensures e == e'
  {
  }

  lemma NotWonAgain(h: Run, w: nat, j: nat, id: Id)
    requires FreshRun(h) && Wins(h, w, id) && w < j < |h.ops|
    ensures h.ops[j].op.ResolveOp? && h.ops[j].op.id == id ==> Live(h.states[j].pendings, id, h.ops[j].t).None?
  {
    if h.ops[j].op.ResolveOp? && h.ops[j].op.id == id {
      assert StepAt(h, j);
      Answers(h.states[j], h.ops[j]);
      if Wins(h, j, id) { OneWinner(h, w, j, id); }
    }
  }

  /**
   * An `awaitResult` pass answers an outcome exactly when a `resolve` handed it over before, no pass or
   * `cancel` came between, and the time its command was enqueued with is not over: no outcome is lost
   * on the way to its caller.
   */
  lemma CollectsExactly(h: Run, i: nat, id: Id, o: Outcome)
    requires FreshRun(h) && Monotone(h.ops) && i < |h.ops| && h.ops[i].op == AwaitOp(id)
    ensures h.answers[i] == OutcomeIs(Some(o)) <==>
            exists e: nat, w: nat :: WonSince(h, e, w, i, id) && h.ops[w].op.outcome == o && h.ops[i].t < Expiry(h, e)
  {
    var u := h.ops[i].t;
    assert StepAt(h, i);
    Answers(h.states[i], h.ops[i]);
    assert By(h, i, u);
    if h.answers[i] == OutcomeIs(Some(o)) {
      var e, w := ResultFrom(h, i, id, u);
      assert WonSince(h, e, w, i, id) && h.ops[w].op.outcome == o && u < Expiry(h, e);
    }
    forall e: nat, w: nat | WonSince(h, e, w, i, id) && h.ops[w].op.outcome == o && u < Expiry(h, e)
      ensures h.answers[i] == OutcomeIs(Some(o))
    {
      ResultKept(h, e, w, i, id, u);
    }
  }

  // ---------------------------------------------------------------------------------------------
  // Nonces
  // ---------------------------------------------------------------------------------------------

  /** The run's `j`-th method spends the nonce. */
  ghost predicate Spends(h: Run, j: nat, nonce: Id) {
    j < |h.ops| && h.ops[j].op.SpendOp? && h.ops[j].op.nonce == nonce && h.answers[j] == Flag(true)
  }

  ghost predicate SpentSince(h: Run, j: nat, k: nat, nonce: Id, u: nat) {
    j < k && Spends(h, j, nonce) && h.ops[j].t + Max(1, h.ops[j].op.ttlMs) > u
  }

  ghost predicate SpentBefore(h: Run, k: nat, nonce: Id, u: nat) {
    exists j: nat :: SpentSince(h, j, k, nonce, u)
  }

  lemma {:induction false} SpentFrom(h: Run, k: nat, nonce: Id, u: nat)
    requires FromStart(h) && Monotone(h.ops) && k <= |h.ops| && By(h, k, u)
    ensures Spent(h.states[k], nonce, u) <==> SpentBefore(h, k, nonce, u)
  {
    if k > 0 {
      var e := h.ops[k - 1];
      assert StepAt(h, k - 1);
      SpentLater(h.states[k - 1], e, nonce, u);
      Answers(h.states[k - 1], e);
      SpentFrom(h, k - 1, nonce, u);
      SpentNext(h, k - 1, nonce, u);
    }
  }

  lemma SpentNext(h: Run, k: nat, nonce: Id, u: nat)
    requires k < |h.ops|
    ensures SpentBefore(h, k + 1, nonce, u) <==> SpentSince(h, k, k + 1, nonce, u) || SpentBefore(h, k, nonce, u)
  {
    var next := k + 1;
    if SpentBefore(h, next, nonce, u) {
      var j: nat :| SpentSince(h, j, next, nonce, u);
      assert j == k || SpentSince(h, j, k, nonce, u);
    }
    if SpentBefore(h, k, nonce, u) {
      var j: nat :| SpentSince(h, j, k, nonce, u);
      assert SpentSince(h, j, next, nonce, u);
    }
  }

  /** `spendNonce` answers true exactly when every earlier spending of the nonce is over. */
  lemma SpendExactly(h: Run, i: nat, nonce: Id)
    requires FromStart(h) && Monotone(h.ops) && i < |h.ops| && h.ops[i].op.SpendOp? && h.ops[i].op.nonce == nonce
    ensures h.answers[i] == Flag(true) <==>
            forall j | 0 <= j < i && Spends(h, j, nonce) :: h.ops[j].t + Max(1, h.ops[j].op.ttlMs) <= h.ops[i].t
  {
    var u := h.ops[i].t;
    assert StepAt(h, i);
    Answers(h.states[i], h.ops[i]);
    assert By(h, i, u);
    SpentFrom(h, i, nonce, u);
    forall j | 0 <= j < i && Spends(h, j, nonce) ensures SpentSince(h, j, i, nonce, u) <==> h.ops[j].t + Max(1, h.ops[j].op.ttlMs) > u {}
  }
}
