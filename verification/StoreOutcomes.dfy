/**
 * What every run of `memoryStore` keeps about outcomes and device pins, whoever its clients are
 * and however their calls interleave.
 */
module StoreOutcomes {
  import opened Basics
  import opened BridgeTypes
  import opened StoreSpec
  import opened StoreRuns

  /** A run: the methods called, the states between them, and what each answered. */
  datatype History = History(ops: seq<Timed>, states: seq<Store>, answers: seq<Answer>)

  ghost predicate StepAt(h: History, k: nat)
    requires k < |h.ops| < |h.states| && |h.ops| == |h.answers|
  {
    Apply(h.states[k], h.ops[k]) == (h.states[k + 1], h.answers[k])
  }

  ghost predicate IsHistory(h: History) {
    |h.states| == |h.ops| + 1 && |h.answers| == |h.ops| && forall k | 0 <= k < |h.ops| :: StepAt(h, k)
  }

  type Run = h: History | IsHistory(h) ghost witness History([], [EmptyStore], [])

  /** A server's run from its start. */
  ghost predicate FromStart(h: Run) {
    h.states[0] == EmptyStore
  }

  // ---------------------------------------------------------------------------------------------
  // What one method changes
  // ---------------------------------------------------------------------------------------------

  /** Taking, requeueing and withdrawing change the queues alone. */
  lemma QueueStep(s: Store, e: Timed)
    requires e.op.TakeOp? || e.op.RequeueOp? || e.op.WithdrawOp?
    ensures Apply(s, e).0 == s.(queues := Apply(s, e).0.queues)
  {
  }

  predicate TouchesOutcomes(op: Op) {
    op.EnqueueOp? || op.PendingOp? || op.ResolveOp? || op.AwaitOp? || op.CancelOp? || op.SweepOp?
  }

  /** Methods about presence, nonces and devices, and those of the queue but `enqueue`, leave commands and outcomes alone. */
  lemma OutcomeFrame(s: Store, e: Timed)
    requires !TouchesOutcomes(e.op)
    ensures Apply(s, e).0.pendings == s.pendings && Apply(s, e).0.results == s.results
  {
    if e.op.TakeOp? || e.op.RequeueOp? || e.op.WithdrawOp? { QueueStep(s, e); }
  }

  /** Only `enqueue` makes a command pending; a `resolve` that returned true found it so and ended that, as `cancel` does. */
  lemma PendingStep(s: Store, e: Timed, id: Id)
    ensures id in Apply(s, e).0.pendings ==>
              id in s.pendings || (e.op.EnqueueOp? && e.op.pending.id == id)
    ensures e.op == CancelOp(id) || (e.op.ResolveOp? && e.op.id == id) ==> id !in Apply(s, e).0.pendings
    ensures e.op.ResolveOp? && e.op.id == id && Apply(s, e).1 == Flag(true) ==> id in s.pendings
  {
    if !TouchesOutcomes(e.op) { OutcomeFrame(s, e); }
  }

  /** Only `resolve`, `awaitResult` and `cancel` change the stored outcomes. */
  lemma ResultFrame(s: Store, e: Timed, id: Id)
    requires !e.op.ResolveOp? && !e.op.AwaitOp? && !e.op.CancelOp?
    ensures id in Apply(s, e).0.results ==> id in s.results && Apply(s, e).0.results[id] == s.results[id]
  {
    if !TouchesOutcomes(e.op) {
      OutcomeFrame(s, e);
    } else if e.op.SweepOp? {
      assert Apply(s, e).0.results == Unexpired(s.results, e.t);
    }
  }

  /** Only a `resolve` that returned true stores an outcome, its own; collecting or cancelling removes it. */
  lemma ResultStep(s: Store, e: Timed, id: Id)
    ensures var (s', x) := Apply(s, e);
            && (id in s'.results ==>
                  if e.op.ResolveOp? && e.op.id == id && x == Flag(true) then s'.results[id].value == e.op.outcome
                  else id in s.results && s'.results[id] == s.results[id])
            && (e.op == CancelOp(id) || e.op == AwaitOp(id) ==> id !in s'.results)
            && (e.op == AwaitOp(id) && x != OutcomeIs(None) ==> id in s.results && x == OutcomeIs(Some(s.results[id].value)))
  {
    if e.op.ResolveOp? || e.op.AwaitOp? || e.op.CancelOp? {
    } else {
      ResultFrame(s, e, id);
    }
  }

  /** The pins of `subject` after one method. */
  lemma PinStep(s: Store, e: Timed, subject: User)
    requires e.op != ForgetDevicesOp(subject)
    ensures PinsOf(Apply(s, e).0, subject) ==
            if (e.op.PinDeviceOp? && e.op.subject == subject) ||
               (e.op.CheckDeviceOp? && e.op.subject == subject && Apply(s, e).1 == DeviceIs(Pinned))
            then PinsOf(s, subject) + {e.op.publicKey} else PinsOf(s, subject)
    ensures e.op.CheckDeviceOp? && e.op.subject == subject ==>
              Apply(s, e).1 == DeviceIs(if e.op.publicKey in PinsOf(s, subject) then Known
                                        else if e.op.firstUse && PinsOf(s, subject) == {} then Pinned else Unknown)
  {
    if e.op.TakeOp? || e.op.RequeueOp? || e.op.WithdrawOp? {
      QueueStep(s, e);
    } else if !e.op.PinDeviceOp? && !e.op.CheckDeviceOp? && !e.op.ForgetDevicesOp? {
      assert Apply(s, e).0.devices == s.devices;
    }
  }

  // ---------------------------------------------------------------------------------------------
  // One outcome per command
  // ---------------------------------------------------------------------------------------------

  /** Command ids are fresh: no id is made pending twice. */
  ghost predicate FreshIds(h: Run) {
    forall i, j | 0 <= i < j < |h.ops| && h.ops[i].op.EnqueueOp? && h.ops[j].op.EnqueueOp? ::
      h.ops[i].op.pending.id != h.ops[j].op.pending.id
  }

  ghost predicate FreshRun(h: Run) {
    FromStart(h) && FreshIds(h)
  }

  /** The run's `i`-th method is a `resolve` of `id` that returned true. */
  ghost predicate Wins(h: Run, i: nat, id: Id) {
    i < |h.ops| && h.ops[i].op.ResolveOp? && h.ops[i].op.id == id && h.answers[i] == Flag(true)
  }

  /** The run's `i`-th method is an `awaitResult` pass that returned `o` for `id`. */
  ghost predicate Collects(h: Run, i: nat, id: Id, o: Outcome) {
    i < |h.ops| && h.ops[i].op.AwaitOp? && h.ops[i].op.id == id && h.answers[i] == OutcomeIs(Some(o))
  }

  ghost predicate EnqueuedBefore(h: Run, k: nat, id: Id)
    requires k <= |h.ops|
  {
    exists e :: 0 <= e < k && h.ops[e].op.EnqueueOp? && h.ops[e].op.pending.id == id
  }

  /** A pending command was enqueued. */
  lemma {:induction false} PendingWasEnqueued(h: Run, k: nat, id: Id)
    requires FromStart(h) && k <= |h.ops| && id in h.states[k].pendings
    ensures EnqueuedBefore(h, k, id)
  {
    assert StepAt(h, k - 1);
    PendingStep(h.states[k - 1], h.ops[k - 1], id);
    if id in h.states[k - 1].pendings { PendingWasEnqueued(h, k - 1, id); }
  }

  /** A command that was pending and no longer is, is never pending again. */
  lemma {:induction false} PendingOnce(h: Run, i: nat, j: nat, id: Id)
    requires FreshRun(h) && i <= j <= |h.ops|
    requires EnqueuedBefore(h, i, id) && id !in h.states[i].pendings
    ensures id !in h.states[j].pendings
  {
    if i < j {
      PendingOnce(h, i, j - 1, id);
      assert StepAt(h, j - 1);
      PendingStep(h.states[j - 1], h.ops[j - 1], id);
    }
  }

  lemma WinNeedsPending(h: Run, i: nat, id: Id)
    requires FromStart(h) && Wins(h, i, id)
    ensures id in h.states[i].pendings && id !in h.states[i + 1].pendings
    ensures EnqueuedBefore(h, i, id)
  {
    assert StepAt(h, i);
    PendingStep(h.states[i], h.ops[i], id);
    PendingWasEnqueued(h, i, id);
  }

  /** Exactly one resolve wins. */
  lemma OneWinner(h: Run, i: nat, j: nat, id: Id)
    requires FreshRun(h) && Wins(h, i, id) && Wins(h, j, id)
    ensures i == j
  {
    var a, b := Min(i, j), Max(i, j);
    WinNeedsPending(h, a, id);
    WinNeedsPending(h, b, id);
    if a < b { PendingOnce(h, a + 1, b, id); }
  }

  /** A stored outcome is the winner's. */
  lemma {:induction false} ResultIsTheWinners(h: Run, k: nat, id: Id) returns (w: nat)
    requires FromStart(h) && k <= |h.ops| && id in h.states[k].results
    ensures w < k && Wins(h, w, id) && h.ops[w].op.outcome == h.states[k].results[id].value
  {
    var op := h.ops[k - 1].op;
    assert StepAt(h, k - 1);
    ResultStep(h.states[k - 1], h.ops[k - 1], id);
    if op.ResolveOp? && op.id == id && h.answers[k - 1] == Flag(true) {
      w := k - 1;
    } else {
      w := ResultIsTheWinners(h, k - 1, id);
    }
  }

  lemma CollectNeedsResult(h: Run, i: nat, id: Id, o: Outcome)
    requires Collects(h, i, id, o)
    ensures id in h.states[i].results && h.states[i].results[id].value == o
    ensures id !in h.states[i + 1].results
  {
    assert StepAt(h, i);
    ResultStep(h.states[i], h.ops[i], id);
  }

  /** Whoever collects an outcome gets the one the winning resolve handed over, after it did. */
  lemma CollectedIsTheWinners(h: Run, i: nat, id: Id, o: Outcome) returns (w: nat)
    requires FromStart(h) && Collects(h, i, id, o)
    ensures w < i && Wins(h, w, id) && h.ops[w].op.outcome == o
  {
    CollectNeedsResult(h, i, id, o);
    w := ResultIsTheWinners(h, i, id);
  }

  /** An outcome appears only by a win. */
  lemma NewResultIsWin(h: Run, k: nat, id: Id)
    requires k < |h.ops|
    ensures id in h.states[k + 1].results ==> id in h.states[k].results || Wins(h, k, id)
  {
    assert StepAt(h, k);
    ResultStep(h.states[k], h.ops[k], id);
  }

  lemma NoSecondResult(h: Run, w: nat, k: nat, id: Id)
    requires FreshRun(h) && Wins(h, w, id) && w < k < |h.ops|
    ensures id in h.states[k + 1].results ==> id in h.states[k].results
  {
    NewResultIsWin(h, k, id);
    if Wins(h, k, id) { OneWinner(h, w, k, id); }
  }

  /** Once its win is behind it, an outcome that is gone stays gone. */
  lemma {:induction false} ResultOnce(h: Run, w: nat, i: nat, j: nat, id: Id)
    requires FreshRun(h) && Wins(h, w, id) && w < i <= j <= |h.ops|
    requires id !in h.states[i].results
    ensures id !in h.states[j].results
  {
    if i < j {
      ResultOnce(h, w, i, j - 1, id);
      NoSecondResult(h, w, j - 1, id);
    }
  }

  /** At most one `awaitResult` ever returns the outcome. */
  lemma OneCollector(h: Run, i: nat, j: nat, id: Id, o: Outcome, p: Outcome)
    requires FreshRun(h) && Collects(h, i, id, o) && Collects(h, j, id, p)
    ensures i == j && o == p
  {
    CollectNeedsResult(h, i, id, o);
    CollectNeedsResult(h, j, id, p);
    var a, b := Min(i, j), Max(i, j);
    var w := ResultIsTheWinners(h, a, id);
    if a < b { ResultOnce(h, w, a + 1, b, id); }
  }

  lemma CancelEmpties(h: Run, c: nat, id: Id)
    requires c < |h.ops| && h.ops[c].op == CancelOp(id)
    ensures id !in h.states[c + 1].pendings && id !in h.states[c + 1].results
  {
    assert StepAt(h, c);
    PendingStep(h.states[c], h.ops[c], id);
    assert StepAt(h, c);
    ResultStep(h.states[c], h.ops[c], id);
  }

  lemma CancelledNeverWins(h: Run, c: nat, i: nat, id: Id)
    requires FreshRun(h) && c < i < |h.ops| && h.ops[c].op == CancelOp(id) && EnqueuedBefore(h, c, id)
    ensures !Wins(h, i, id)
  {
    CancelEmpties(h, c, id);
    PendingOnce(h, c + 1, i, id);
    if Wins(h, i, id) { WinNeedsPending(h, i, id); }
  }

  lemma CancelledGetsNoResult(h: Run, c: nat, k: nat, id: Id)
    requires FreshRun(h) && c < k < |h.ops| && h.ops[c].op == CancelOp(id) && EnqueuedBefore(h, c, id)
    ensures id in h.states[k + 1].results ==> id in h.states[k].results
  {
    CancelledNeverWins(h, c, k, id);
    NewResultIsWin(h, k, id);
  }

  lemma {:induction false} CancelledStoresNothing(h: Run, c: nat, i: nat, id: Id)
    requires FreshRun(h) && c < i <= |h.ops| && h.ops[c].op == CancelOp(id) && EnqueuedBefore(h, c, id)
    ensures id !in h.states[i].results
  {
    if i == c + 1 {
      CancelEmpties(h, c, id);
    } else {
      CancelledStoresNothing(h, c, i - 1, id);
      CancelledGetsNoResult(h, c, i - 1, id);
    }
  }

  /** After `cancel`, no resolve of that command wins and nothing of it is collectable. */
  lemma CancelIsFinal(h: Run, c: nat, i: nat, id: Id, o: Outcome)
    requires FreshRun(h) && c < i < |h.ops| && h.ops[c].op == CancelOp(id) && EnqueuedBefore(h, c, id)
    ensures !Wins(h, i, id) && !Collects(h, i, id, o)
  {
    CancelledNeverWins(h, c, i, id);
    CancelledStoresNothing(h, c, i, id);
    if Collects(h, i, id, o) { CollectNeedsResult(h, i, id, o); }
  }

  // ---------------------------------------------------------------------------------------------
  // Device pins
  // ---------------------------------------------------------------------------------------------

  /** The keys approved for `subject` by `pinDevice` in `h.ops[a..b]`. */
  ghost function Approved(h: Run, a: nat, b: nat, subject: User): set<PublicKey>
    requires a <= b <= |h.ops|
  {
    set i | a <= i < b && h.ops[i].op.PinDeviceOp? && h.ops[i].op.subject == subject :: h.ops[i].op.publicKey
  }

  /** The key check at `i` is for `subject` and answered `check`. */
  ghost predicate Checked(h: Run, i: nat, subject: User, check: DeviceCheck) {
    i < |h.ops| && h.ops[i].op.CheckDeviceOp? && h.ops[i].op.subject == subject && h.answers[i] == DeviceIs(check)
  }

  /** The keys pinned at first use in `h.ops[a..b]`. */
  ghost function FirstUsed(h: Run, a: nat, b: nat, subject: User): set<PublicKey>
    requires a <= b <= |h.ops|
  {
    set i | a <= i < b && Checked(h, i, subject, Pinned) :: h.ops[i].op.publicKey
  }

  /** `h.ops[a..b]` holds no `forgetDevices(subject)`. */
  ghost predicate NeverForgets(h: Run, a: nat, b: nat, subject: User)
    requires a <= b <= |h.ops|
  {
    forall i | a <= i < b :: h.ops[i].op != ForgetDevicesOp(subject)
  }

  /**
   * Between two `forgetDevices` of a subject that starts with no pin, the pinned set is exactly
   * the keys pinned at first use and the keys approved.
   */
  lemma PinsAreFirstUsedAndApproved(h: Run, a: nat, b: nat, subject: User)
    requires a <= b <= |h.ops| && NeverForgets(h, a, b, subject)
    requires PinsOf(h.states[a], subject) == {}
    ensures PinsOf(h.states[b], subject) == FirstUsed(h, a, b, subject) + Approved(h, a, b, subject)
  {
    var pins := (k: nat) => if k <= |h.ops| then PinsOf(h.states[k], subject) else {};
    var first := (k: nat) => if a <= k <= |h.ops| then FirstUsed(h, a, k, subject) else {};
    var approved := (k: nat) => if a <= k <= |h.ops| then Approved(h, a, k, subject) else {};
    var newFirst := (k: nat) => if k < |h.ops| then FirstKey(h, k, subject) else {};
    var newApproved := (k: nat) => if k < |h.ops| then ApprovedKey(h, k, subject) else {};
    forall k | a <= k < b
      ensures pins(k + 1) == pins(k) + newFirst(k) + newApproved(k)
      ensures first(k + 1) == first(k) + newFirst(k) && approved(k + 1) == approved(k) + newApproved(k)
    {
      PinsGrow(h, k, subject);
      FirstUsedGrows(h, a, k, subject);
      ApprovedGrows(h, a, k, subject);
    }
    GrowTogether(pins, first, approved, newFirst, newApproved, a, b);
  }

  /** What the `k`-th method pins at first use, and what it approves. */
  ghost function FirstKey(h: Run, k: nat, subject: User): set<PublicKey>
    requires k < |h.ops|
  {
    if Checked(h, k, subject, Pinned) then {h.ops[k].op.publicKey} else {}
  }

  ghost function ApprovedKey(h: Run, k: nat, subject: User): set<PublicKey>
    requires k < |h.ops|
  {
    if h.ops[k].op.PinDeviceOp? && h.ops[k].op.subject == subject then {h.ops[k].op.publicKey} else {}
  }

  lemma PinsGrow(h: Run, k: nat, subject: User)
    requires k < |h.ops| && h.ops[k].op != ForgetDevicesOp(subject)
    ensures PinsOf(h.states[k + 1], subject) ==
            PinsOf(h.states[k], subject) + FirstKey(h, k, subject) + ApprovedKey(h, k, subject)
  {
    assert StepAt(h, k);
    PinStep(h.states[k], h.ops[k], subject);
  }

  lemma FirstUsedGrows(h: Run, a: nat, k: nat, subject: User)
    requires a <= k < |h.ops|
    ensures FirstUsed(h, a, k + 1, subject) ==
            FirstUsed(h, a, k, subject) + FirstKey(h, k, subject)
  {
  }

  lemma ApprovedGrows(h: Run, a: nat, k: nat, subject: User)
    requires a <= k < |h.ops|
    ensures Approved(h, a, k + 1, subject) ==
            Approved(h, a, k, subject) + ApprovedKey(h, k, subject)
  {
  }

  /** Of first receipts racing, only one pins its key. */
  lemma OneFirstPin(h: Run, a: nat, b: nat, subject: User, i: nat, j: nat)
    requires a <= i <= j < b <= |h.ops| && NeverForgets(h, a, b, subject)
    requires PinsOf(h.states[a], subject) == {}
    requires Checked(h, i, subject, Pinned) && Checked(h, j, subject, Pinned)
    ensures i == j
  {
    if i < j {
      assert h.ops[i].op.publicKey in FirstUsed(h, a, j, subject);
      PinsAreFirstUsedAndApproved(h, a, j, subject);
      assert StepAt(h, j);
      PinStep(h.states[j], h.ops[j], subject);
    }
  }

  lemma OneFirstKey(h: Run, a: nat, b: nat, subject: User)
    requires a <= b <= |h.ops| && NeverForgets(h, a, b, subject)
    requires PinsOf(h.states[a], subject) == {}
    ensures |FirstUsed(h, a, b, subject)| <= 1
  {
    var first := FirstUsed(h, a, b, subject);
    if first != {} {
      var x :| a <= x < b && Checked(h, x, subject, Pinned);
      forall y | a <= y < b && Checked(h, y, subject, Pinned) ensures y == x {
        OneFirstPin(h, a, b, subject, Min(x, y), Max(x, y));
      }
      assert first == {h.ops[x].op.publicKey};
    }
  }

  /**
   * Every signer a check accepts between two `forgetDevices` is the one key pinned at first use
   * or an approved one, and every such signer is accepted.
   */
  lemma AcceptedSigners(h: Run, a: nat, b: nat, subject: User, i: nat)
    requires a <= i < b <= |h.ops| && NeverForgets(h, a, b, subject)
    requires PinsOf(h.states[a], subject) == {}
    requires h.ops[i].op.CheckDeviceOp? && h.ops[i].op.subject == subject
    ensures h.answers[i] != DeviceIs(Unknown) <==>
            h.ops[i].op.publicKey in FirstUsed(h, a, i + 1, subject) + Approved(h, a, i, subject)
    ensures |FirstUsed(h, a, b, subject)| <= 1
  {
    var key, first := h.ops[i].op.publicKey, h.ops[i].op.firstUse;
    var pins := FirstUsed(h, a, i, subject) + Approved(h, a, i, subject);
    assert h.answers[i] ==
           DeviceIs(if key in pins then Known else if first && pins == {} then Pinned else Unknown) by {
      PinsAreFirstUsedAndApproved(h, a, i, subject);
      assert StepAt(h, i);
      PinStep(h.states[i], h.ops[i], subject);
    }
    FirstUsedGrows(h, a, i, subject);
    OneFirstKey(h, a, b, subject);
  }
}
