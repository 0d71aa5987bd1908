/**
 * What `take` answers, said by the calls of the run: first in, first out, nothing alive left behind
 * while there is room, and what was requeued before everything else.
 */
module QueueAnswers {
  import opened Basics
  import opened BridgeTypes
  import opened StoreSpec
  import opened StoreRuns
  import opened StoreOutcomes
  import opened StoreAnswers

  /** The run's `a`-th method enqueues a command for the user. */
  ghost predicate EnqueuesFor(h: Run, a: nat, user: User) {
    a < |h.ops| && h.ops[a].op.EnqueueOp? && h.ops[a].op.user == user
  }

  /** Ids of commands and of what is pending for them are the same, and fresh. */
  ghost predicate FreshCommands(h: Run) {
    FreshIds(h) && forall a | 0 <= a < |h.ops| && h.ops[a].op.EnqueueOp? :: h.ops[a].op.command.id == h.ops[a].op.pending.id
  }

  function EntryOf(h: Run, a: nat): Entry
    requires a < |h.ops| && h.ops[a].op.EnqueueOp?
  {
    Entry(h.ops[a].op.command, Expiry(h, a))
  }

  ghost predicate NeverRequeued(h: Run, k: nat, user: User)
    requires k <= |h.ops|
  {
    forall j | 0 <= j < k :: !(h.ops[j].op.RequeueOp? && h.ops[j].op.user == user)
  }

  /** The entry is that of the `a`-th method, which came before the `k`-th. */
  ghost predicate EnqueuedAt(h: Run, k: nat, user: User, e: Entry, a: nat) {
    a < k && EnqueuesFor(h, a, user) && e == EntryOf(h, a)
  }

  /** The queue is in the order of enqueueing: `from[x]` is the method that enqueued its `x`-th entry. */
  ghost predicate InEnqueueOrder(h: Run, k: nat, user: User, q: seq<Entry>, from: seq<nat>) {
    && |from| == |q|
    && (forall x | 0 <= x < |q| :: EnqueuedAt(h, k, user, q[x], from[x]))
    && (forall x, y | 0 <= x < y < |q| :: from[x] < from[y])
  }

  /** Taking some entries out keeps the order of the rest: `at` says which are kept. */
  ghost predicate Picks(q: seq<Entry>, r: seq<Entry>, at: seq<nat>) {
    && |at| == |r|
    && (forall x | 0 <= x < |r| :: at[x] < |q| && r[x] == q[at[x]])
    && (forall x, y | 0 <= x < y < |r| :: at[x] < at[y])
  }

  lemma PickedOrder(h: Run, k: nat, user: User, q: seq<Entry>, r: seq<Entry>, from: seq<nat>, at: seq<nat>) returns (rest: seq<nat>)
    requires InEnqueueOrder(h, k, user, q, from) && Picks(q, r, at)
    ensures InEnqueueOrder(h, k, user, r, rest)
  {
    rest := seq(|r|, x requires 0 <= x < |r| => from[at[x]]);
  }

  lemma {:induction false} LivePicks(q: seq<Entry>, t: nat) returns (at: seq<nat>)
    ensures Picks(q, LiveEntries(q, t), at)
  {
    if q == [] {
      at := [];
    } else {
      var rest := LivePicks(q[1..], t);
      var later: seq<nat> := seq(|rest|, x requires 0 <= x < |rest| => rest[x] + 1);
      Shifted(q, LiveEntries(q[1..], t), rest, later);
      at := later;
      if q[0].expiresAt > t {
        at := [0] + later;
        WithFirst(q, LiveEntries(q[1..], t), later);
      }
    }
  }

  lemma Shifted(q: seq<Entry>, r: seq<Entry>, rest: seq<nat>, later: seq<nat>)
    requires q != [] && Picks(q[1..], r, rest)
    requires |later| == |rest| && forall x | 0 <= x < |rest| :: later[x] == rest[x] + 1
    ensures Picks(q, r, later) && forall x | 0 <= x < |later| :: later[x] > 0
  {
    forall x | 0 <= x < |r| ensures later[x] < |q| && r[x] == q[later[x]] {
      assert q[1..][rest[x]] == q[rest[x] + 1];
    }
  }

  lemma WithFirst(q: seq<Entry>, r: seq<Entry>, later: seq<nat>)
    requires q != [] && Picks(q, r, later) && forall x | 0 <= x < |later| :: later[x] > 0
    ensures Picks(q, [q[0]] + r, [0] + later)
  {
    var at, all := [0] + later, [q[0]] + r;
    assert forall x | 1 <= x < |all| :: at[x] == later[x - 1] && all[x] == r[x - 1];
  }

  lemma WithoutFirstPicks(q: seq<Entry>, id: Id) returns (at: seq<nat>)
    ensures Picks(q, WithoutFirst(q, id), at)
  {
    var k := PositionOf(q, id);
    CutAt(q, id, k);
    at := WithoutOnePicks(q, k);
  }

  lemma WithoutOnePicks(q: seq<Entry>, k: nat) returns (at: seq<nat>)
    requires k <= |q|
    ensures Picks(q, q[..k] + if k < |q| then q[k + 1..] else [], at)
  {
    var n := if k < |q| then |q| - 1 else |q|;
    at := seq(n, x requires 0 <= x < n => if x < k then x else x + 1);
  }

  function PositionOf(q: seq<Entry>, id: Id): (k: nat)
    ensures k <= |q| && (k < |q| ==> q[k].command.id == id) && forall x | 0 <= x < k :: q[x].command.id != id
  {
    if q == [] || q[0].command.id == id then 0
    else
      var k := PositionOf(q[1..], id);
      assert forall x | 1 <= x < k + 1 :: q[x] == q[1..][x - 1];
      k + 1
  }

  lemma {:induction false} CutAt(q: seq<Entry>, id: Id, k: nat)
    requires k == PositionOf(q, id)
    ensures WithoutFirst(q, id) == q[..k] + if k < |q| then q[k + 1..] else []
  {
    if q != [] && q[0].command.id != id {
      CutAt(q[1..], id, k - 1);
      assert q[..k] == [q[0]] + q[1..][..k - 1];
      if k < |q| { assert q[k + 1..] == q[1..][k..]; }
    }
  }

  // ---------------------------------------------------------------------------------------------
  // One method and one user's queue
  // ---------------------------------------------------------------------------------------------

  predicate TouchesQueue(op: Op, user: User) {
    op.SweepOp? || (op.EnqueueOp? && op.user == user) || (op.TakeOp? && op.user == user) ||
    (op.RequeueOp? && op.user == user) || (op.WithdrawOp? && op.user == user)
  }

  lemma QueueFrame(s: Store, e: Timed, user: User)
    requires !TouchesQueue(e.op, user)
    ensures QueueOf(Apply(s, e).0, user) == QueueOf(s, user)
  {
    if e.op.EnqueueOp? || e.op.TakeOp? || e.op.RequeueOp? || e.op.WithdrawOp? {
      OtherQueues(s, e, user);
    } else if e.op.PendingOp? || e.op.ResolveOp? || e.op.AwaitOp? || e.op.CancelOp? {
      OutcomesKeepQueues(s, e);
    } else {
      OthersKeepQueues(s, e);
    }
  }

  lemma OutcomesKeepQueues(s: Store, e: Timed)
    requires e.op.PendingOp? || e.op.ResolveOp? || e.op.AwaitOp? || e.op.CancelOp?
    ensures Apply(s, e).0.queues == s.queues
  {
  }

  lemma OthersKeepQueues(s: Store, e: Timed)
    requires e.op.GetPresenceOp? || e.op.SetPresenceOp? || e.op.SpendOp? || e.op.CheckDeviceOp? || e.op.PinDeviceOp? || e.op.ForgetDevicesOp?
    ensures Apply(s, e).0.queues == s.queues
  {
  }

  lemma OtherQueues(s: Store, e: Timed, user: User)
    requires e.op.EnqueueOp? || e.op.TakeOp? || e.op.RequeueOp? || e.op.WithdrawOp?
    requires e.op.user != user
    ensures QueueOf(Apply(s, e).0, user) == QueueOf(s, user)
  {
  }

  /** What is left of a queue after a take, a sweep or a withdrawal is picked from it. */
  lemma QueueShrinks(s: Store, e: Timed, user: User) returns (at: seq<nat>)
    requires e.op.SweepOp? || e.op == WithdrawOp(user, if e.op.WithdrawOp? then e.op.id else 0) || (e.op.TakeOp? && e.op.user == user)
    ensures Picks(QueueOf(s, user), QueueOf(Apply(s, e).0, user), at)
  {
    var q, r := QueueOf(s, user), QueueOf(Apply(s, e).0, user);
    if e.op.SweepOp? {
      QueueOfSwept(s, e.t, user);
      at := LivePicks(q, e.t);
    } else if e.op.TakeOp? {
      at := TakePicks(s, e.t, user, e.op.max);
    } else {
      if FirstMatch(q, e.op.id).None? {
        at := seq(|q|, x requires 0 <= x < |q| => x);
      } else {
        at := WithoutFirstPicks(q, e.op.id);
      }
    }
  }

  lemma TakePicks(s: Store, t: nat, user: User, max: int) returns (at: seq<nat>)
    ensures Picks(QueueOf(s, user), QueueOf(TakeNow(s, t, user, max).0, user), at)
  {
    var q := QueueOf(s, user);
    var live := LivePicks(q, t);
    var n := Min(Max(1, max), |LiveEntries(q, t)|);
    at := if user in s.queues then live[n..] else [];
  }

  lemma {:induction false} QueueIsInOrder(h: Run, k: nat, user: User) returns (from: seq<nat>)
    requires FromStart(h) && k <= |h.ops| && NeverRequeued(h, k, user)
    ensures InEnqueueOrder(h, k, user, QueueOf(h.states[k], user), from)
  {
    if k == 0 {
      from := [];
    } else {
      var before := QueueIsInOrder(h, k - 1, user);
      var s, e := h.states[k - 1], h.ops[k - 1];
      assert StepAt(h, k - 1);
      if e.op.EnqueueOp? && e.op.user == user {
        from := before + [k - 1];
        Appended(h, k - 1, user, before);
      } else if TouchesQueue(e.op, user) {
        var at := QueueShrinks(s, e, user);
        from := PickedOrder(h, k - 1, user, QueueOf(s, user), QueueOf(h.states[k], user), before, at);
      } else {
        QueueFrame(s, e, user);
        from := before;
      }
    }
  }

  lemma Appended(h: Run, k: nat, user: User, before: seq<nat>)
    requires k < |h.ops| && EnqueuesFor(h, k, user) && InEnqueueOrder(h, k, user, QueueOf(h.states[k], user), before)
    ensures InEnqueueOrder(h, k + 1, user, QueueOf(h.states[k + 1], user), before + [k])
  {
    assert StepAt(h, k);
    assert QueueOf(h.states[k + 1], user) == QueueOf(h.states[k], user) + [EntryOf(h, k)];
  }

  // ---------------------------------------------------------------------------------------------
  // How a command leaves the queue
  // ---------------------------------------------------------------------------------------------

  /** The `j`-th method hands out the command, or takes it back. */
  ghost predicate Leaves(h: Run, j: nat, user: User, c: Command) {
    j < |h.ops| &&
    ((h.ops[j].op.TakeOp? && h.ops[j].op.user == user && h.answers[j].Taken? && c in h.answers[j].commands) ||
     (h.ops[j].op == WithdrawOp(user, c.id) && h.answers[j] == Flag(true)))
  }

  ghost predicate StillQueued(h: Run, a: nat, k: nat, user: User)
    requires k <= |h.ops|
  {
    a < k && EnqueuesFor(h, a, user) && forall j | a < j < k :: !Leaves(h, j, user, h.ops[a].op.command)
  }

  /** A live entry leaves the queue in no other way. */
  lemma EntryStays(s: Store, e: Timed, user: User, x: Entry)
    requires x in QueueOf(s, user) && x.expiresAt > e.t
    requires e.op.TakeOp? && e.op.user == user ==> Apply(s, e).1.Taken? && x.command !in Apply(s, e).1.commands
    requires e.op == WithdrawOp(user, x.command.id) ==> Apply(s, e).1 != Flag(true)
    ensures x in QueueOf(Apply(s, e).0, user)
  {
    var q := QueueOf(s, user);
    LiveKeepsIt(q, e.t, x);
    if e.op.SweepOp? {
      QueueOfSwept(s, e.t, user);
    } else if e.op.TakeOp? && e.op.user == user {
      TakenOrLeft(LiveEntries(q, e.t), Min(Max(1, e.op.max), |LiveEntries(q, e.t)|), x);
    } else if e.op.WithdrawOp? && e.op.user == user {
      if e.op.id != x.command.id { OtherStays(q, e.op.id, x); }
    } else if !TouchesQueue(e.op, user) {
      QueueFrame(s, e, user);
    }
  }

  lemma TakenOrLeft(live: seq<Entry>, n: nat, x: Entry)
    requires x in live && n <= |live|
    ensures x.command in Commands(live[..n]) || x in live[n..]
  {
    var k :| 0 <= k < |live| && live[k] == x;
    if k < n { assert Commands(live[..n])[k] == x.command; } else { assert live[n..][k - n] == x; }
  }

  lemma {:induction false} LiveKeepsIt(q: seq<Entry>, t: nat, x: Entry)
    requires x in q && x.expiresAt > t
    ensures x in LiveEntries(q, t)
  {
    if q[0] != x { LiveKeepsIt(q[1..], t, x); }
  }

  lemma {:induction false} OtherStays(q: seq<Entry>, id: Id, x: Entry)
    requires x in q && x.command.id != id
    ensures x in WithoutFirst(q, id)
  {
    if q[0].command.id != id && q[0] != x { OtherStays(q[1..], id, x); }
  }

  lemma {:induction false} LiveIsQueued(h: Run, a: nat, k: nat, user: User, u: nat)
    requires k <= |h.ops| && By(h, k, u) && StillQueued(h, a, k, user) && u < Expiry(h, a)
    ensures EntryOf(h, a) in QueueOf(h.states[k], user)
    decreases k
  {
    assert StepAt(h, k - 1);
    if a == k - 1 {
      assert QueueOf(h.states[k], user) == QueueOf(h.states[a], user) + [EntryOf(h, a)];
    } else {
      LiveIsQueued(h, a, k - 1, user, u);
      TakeAnswers(h.states[k - 1], h.ops[k - 1]);
      assert !Leaves(h, k - 1, user, h.ops[a].op.command);
      EntryStays(h.states[k - 1], h.ops[k - 1], user, EntryOf(h, a));
    }
  }

  lemma TakeAnswers(s: Store, e: Timed)
    ensures e.op.TakeOp? ==> Apply(s, e).1 == Taken(TakeNow(s, e.t, e.op.user, e.op.max).1)
  {
  }

  // ---------------------------------------------------------------------------------------------
  // First in, first out
  // ---------------------------------------------------------------------------------------------

  /** What a take answers, against the order of enqueueing. */
  ghost predicate TakesOldest(h: Run, i: nat, user: User, max: int, cs: seq<Command>, from: seq<nat>)
    requires i < |h.ops|
  {
    && |cs| == |from| <= Max(1, max)
    && (forall x | 0 <= x < |cs| :: StillAlive(h, from[x], i, user) && cs[x] == h.ops[from[x]].op.command)
    && (forall x, y | 0 <= x < y < |cs| :: from[x] < from[y])
    && (forall a | StillAlive(h, a, i, user) && StillQueued(h, a, i, user) ::
          a in from || (|cs| == Max(1, max) && forall x | 0 <= x < |cs| :: from[x] < a))
  }

  /** The command was enqueued for the user before the `i`-th method and has not expired at its time. */
  ghost predicate StillAlive(h: Run, a: nat, i: nat, user: User)
    requires i < |h.ops|
  {
    a < i && EnqueuesFor(h, a, user) && h.ops[i].t < Expiry(h, a)
  }

  /**
   * Where nothing is requeued, `take` answers unexpired commands of its user in the order they were
   * enqueued; and an unexpired one that was not taken or withdrawn before it leaves out only when it
   * is full, of older ones.
   */
  lemma TakesFirstInFirstOut(h: Run, i: nat, user: User, max: int) returns (from: seq<nat>)
    requires FromStart(h) && FreshCommands(h) && Monotone(h.ops) && i < |h.ops|
    requires h.ops[i].op == TakeOp(user, max) && NeverRequeued(h, i, user)
    ensures h.answers[i].Taken? && TakesOldest(h, i, user, max, h.answers[i].commands, from)
  {
    var s, t := h.states[i], h.ops[i].t;
    assert StepAt(h, i);
    TakeAnswers(s, h.ops[i]);
    var q := QueueOf(s, user);
    var order := QueueIsInOrder(h, i, user);
    var at := LivePicks(q, t);
    var live := LiveEntries(q, t);
    var n := Min(Max(1, max), |live|);
    var lives := PickedOrder(h, i, user, q, live, order, at);
    LiveStaysLive(q, t);
    from := lives[..n];
    var cs := TakeNow(s, t, user, max).1;
    assert cs == Commands(live[..n]);
    forall x | 0 <= x < n ensures StillAlive(h, from[x], i, user) && cs[x] == h.ops[from[x]].op.command {
      assert EnqueuedAt(h, i, user, live[x], lives[x]);
      assert live[x] in live;
    }
    forall a | StillAlive(h, a, i, user) && StillQueued(h, a, i, user)
      ensures a in from || (|cs| == Max(1, max) && forall x | 0 <= x < |cs| :: from[x] < a)
    {
      LiveIsQueued(h, a, i, user, t);
      LiveKeepsIt(q, t, EntryOf(h, a));
      var k :| 0 <= k < |live| && live[k] == EntryOf(h, a);
      SameEnqueued(h, i, user, live[k], lives[k], a);
      if k < n { assert from[k] == a; }
    }
  }

  lemma SameEnqueued(h: Run, k: nat, user: User, e: Entry, a: nat, b: nat)
    requires FreshCommands(h) && EnqueuedAt(h, k, user, e, a) && EnqueuesFor(h, b, user) && e == EntryOf(h, b)
    ensures a == b
  {
  }

  /** `withdraw` gets an unexpired command back unless it was taken or withdrawn before. */
  lemma LiveIsWithdrawn(h: Run, a: nat, i: nat, user: User)
    requires FromStart(h) && Monotone(h.ops) && i < |h.ops|
    requires StillAlive(h, a, i, user) && StillQueued(h, a, i, user) && h.ops[i].op == WithdrawOp(user, h.ops[a].op.command.id)
    ensures h.answers[i] == Flag(true)
  {
    assert StepAt(h, i);
    LiveIsQueued(h, a, i, user, h.ops[i].t);
    QueuedIsMatched(QueueOf(h.states[i], user), EntryOf(h, a));
  }

  lemma {:induction false} QueuedIsMatched(q: seq<Entry>, x: Entry)
    requires x in q
    ensures FirstMatch(q, x.command.id).Some?
  {
    if q[0].command.id != x.command.id { QueuedIsMatched(q[1..], x); }
  }

  /** What is requeued, as far as it is still pending, is taken next, before everything else and in its order. */
  lemma RequeuedComesFirst(s: Store, t: nat, user: User, cs: seq<Command>, max: int)
    ensures var back := Commands(Returnable(s, t, cs));
            var taken := TakeNow(Requeue(s, t, user, cs), t, user, max).1;
            IsPrefix(back, taken) || IsPrefix(taken, back)
    ensures var back := Commands(Returnable(s, t, cs));
            |TakeNow(Requeue(s, t, user, cs), t, user, max).1| >= Min(Max(1, max), |back|)
  {
    var back := Returnable(s, t, cs);
    ReturnableOfSwept(s, t, cs);
    if back != [] {
      var q := QueueOf(s, user);
      AllLive(back, t);
      LiveOfConcat(back, q, t);
      var live := back + LiveEntries(q, t);
      var n := Min(Max(1, max), |live|);
      assert TakeNow(Requeue(s, t, user, cs), t, user, max).1 == Commands(live[..n]);
      assert forall x | 0 <= x < |back| :: live[x] == back[x];
    }
  }
}
