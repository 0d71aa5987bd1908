/**
 * Whole runs of `memoryStore`: any sequence of its methods by any number of clients, at clock
 * readings that never go back, with sweeps anywhere between them.
 */
module StoreRuns {
  import opened Basics
  import opened BridgeTypes
  import opened StoreSpec

  datatype Op =
    | SweepOp
    | GetPresenceOp(user: User)
    | SetPresenceOp(user: User, presence: Presence, ttlMs: int)
    | EnqueueOp(user: User, command: Command, pending: Pending, ttlMs: int)
    | TakeOp(user: User, max: int)
    | RequeueOp(user: User, commands: seq<Command>)
    | WithdrawOp(user: User, id: Id)
    | PendingOp(id: Id)
    | ResolveOp(id: Id, outcome: Outcome)
    | AwaitOp(id: Id)
    | CancelOp(id: Id)
    | SpendOp(nonce: Id, ttlMs: int)
    | CheckDeviceOp(subject: User, publicKey: PublicKey, firstUse: bool)
    | PinDeviceOp(subject: User, publicKey: PublicKey)
    | ForgetDevicesOp(subject: User)

  datatype Answer =
    | Nothing
    | PresenceIs(presence: Option<Presence>)
    | Taken(commands: seq<Command>)
    | Flag(yes: bool)
    | PendingIs(pending: Option<Pending>)
    | OutcomeIs(outcome: Option<Outcome>)
    | DeviceIs(check: DeviceCheck)

  datatype Timed = At(t: nat, op: Op)

  function Apply(s: Store, e: Timed): (Store, Answer) {
    match e.op
    case SweepOp => (Sweep(s, e.t), Nothing)
    case GetPresenceOp(user) => var (s', p) := GetPresence(s, e.t, user); (s', PresenceIs(p))
    case SetPresenceOp(user, p, ttl) => (SetPresence(s, e.t, user, p, ttl), Nothing)
    case EnqueueOp(user, c, p, ttl) => (Enqueue(s, e.t, user, c, p, ttl), Nothing)
    case TakeOp(user, max) => var (s', cs) := TakeNow(s, e.t, user, max); (s', Taken(cs))
    case RequeueOp(user, cs) => (Requeue(s, e.t, user, cs), Nothing)
    case WithdrawOp(user, id) => var (s', b) := Withdraw(s, user, id); (s', Flag(b))
    case PendingOp(id) => var (s', p) := PendingOf(s, e.t, id); (s', PendingIs(p))
    case ResolveOp(id, o) => var (s', b) := Resolve(s, e.t, id, o); (s', Flag(b))
    case AwaitOp(id) => var (s', o) := TakeResult(s, e.t, id); (s', OutcomeIs(o))
    case CancelOp(id) => (Cancel(s, id), Nothing)
    case SpendOp(nonce, ttl) => var (s', b) := SpendNonce(s, e.t, nonce, ttl); (s', Flag(b))
    case CheckDeviceOp(sub, k, first) => var (s', c) := CheckDevice(s, sub, k, first); (s', DeviceIs(c))
    case PinDeviceOp(sub, k) => (PinDevice(s, sub, k), Nothing)
    case ForgetDevicesOp(sub) => (ForgetDevices(s, sub), Nothing)
  }

  /** The clock never goes back along a run. */
  ghost predicate Monotone(ops: seq<Timed>) {
    forall i, j | 0 <= i <= j < |ops| :: ops[i].t <= ops[j].t
  }

  // ---------------------------------------------------------------------------------------------
  // The sweep changes no answer
  // ---------------------------------------------------------------------------------------------

  /** The answers a run's clients see. */
  function Visible(s: Store, ops: seq<Timed>): seq<Answer>
    decreases |ops|
  {
    if ops == [] then []
    else
      var (s', answer) := Apply(s, ops[0]);
      if ops[0].op.SweepOp? then Visible(s', ops[1..]) else [answer] + Visible(s', ops[1..])
  }

  /** The answers of the clocked ideal, in which an entry is gone the instant it expires. */
  function Ideal(s: Store, ops: seq<Timed>): seq<Answer>
    decreases |ops|
  {
    if ops == [] then []
    else
      var (s', answer) := Apply(Sweep(s, ops[0].t), ops[0]);
      [answer] + Ideal(s', ops[1..])
  }

  /** The run without its sweeps. */
  function Strip(ops: seq<Timed>): seq<Timed> {
    if ops == [] then []
    else if ops[0].op.SweepOp? then Strip(ops[1..])
    else [ops[0]] + Strip(ops[1..])
  }

  /** The first queue entry `withdraw` would find, if any, is alive. */
  predicate WithdrawsLiveEntry(s: Store, t: nat, user: User, id: Id) {
    var found := FirstMatch(QueueOf(s, user), id);
    found.Some? ==> found.value.expiresAt > t
  }

  /** No `withdraw` of the run meets an expired entry the sweep has not removed yet. */
  ghost predicate WithdrawsLive(s: Store, ops: seq<Timed>)
    decreases |ops|
  {
    ops == [] ||
    ((ops[0].op.WithdrawOp? ==> WithdrawsLiveEntry(s, ops[0].t, ops[0].op.user, ops[0].op.id)) &&
     WithdrawsLive(Apply(s, ops[0]).0, ops[1..]))
  }

  lemma {:induction false} LiveOfLive(q: seq<Entry>, t0: nat, t: nat)
    requires t0 <= t
    ensures LiveEntries(LiveEntries(q, t0), t) == LiveEntries(q, t)
  {
    if q != [] {
      LiveOfLive(q[1..], t0, t);
      if q[0].expiresAt > t0 {
        assert LiveEntries(q, t0)[1..] == LiveEntries(q[1..], t0);
      }
    }
  }

  lemma {:induction false} LiveOfConcat(a: seq<Entry>, b: seq<Entry>, t: nat)
    ensures LiveEntries(a + b, t) == LiveEntries(a, t) + LiveEntries(b, t)
  {
    if a == [] {
      assert a + b == b;
    } else {
      assert (a + b)[1..] == a[1..] + b;
      LiveOfConcat(a[1..], b, t);
    }
  }

  lemma {:induction false} LiveStaysLive(q: seq<Entry>, t: nat)
    ensures forall e :: e in LiveEntries(q, t) ==> e in q && e.expiresAt > t
  {
    if q != [] { LiveStaysLive(q[1..], t); }
  }

  lemma {:induction false} AllLive(q: seq<Entry>, t: nat)
    requires forall e :: e in q ==> e.expiresAt > t
    ensures LiveEntries(q, t) == q
  {
    if q != [] {
      assert q[0] in q;
      AllLive(q[1..], t);
      assert q == [q[0]] + q[1..];
    }
  }

  lemma UnexpiredLater<T>(m: map<nat, Expiring<T>>, t0: nat, t: nat)
    requires t0 <= t
    ensures Unexpired(Unexpired(m, t0), t) == Unexpired(m, t)
  {
  }

  lemma UnexpiredRemoved<T>(m: map<nat, Expiring<T>>, k: nat, t: nat)
    ensures Unexpired(m - {k}, t) == Unexpired(m, t) - {k}
  {
  }

  lemma UnexpiredUpdated<T>(m: map<nat, Expiring<T>>, k: nat, v: Expiring<T>, t: nat)
    ensures Unexpired(m[k := v], t) == if v.expiresAt > t then Unexpired(m, t)[k := v] else Unexpired(m, t) - {k}
  {
  }

  /** Removing a key commutes with an earlier sweep, and so does setting one. */
  lemma RemovalAgrees<T>(m: map<nat, Expiring<T>>, k: nat, t: nat)
    ensures Unexpired(m - {k}, t) == Unexpired(Unexpired(m, t) - {k}, t)
    ensures k !in Unexpired(m, t) ==> Unexpired(m - {k}, t) == Unexpired(m, t)
  {
    var n := Unexpired(m, t);
    UnexpiredLater(m, t, t);
    UnexpiredRemoved(m, k, t);
    UnexpiredRemoved(n, k, t);
    if k !in n { assert n - {k} == n; }
  }

  lemma UpdateAgrees<T>(m: map<nat, Expiring<T>>, k: nat, v: Expiring<T>, t: nat)
    ensures Unexpired(m[k := v], t) == Unexpired(Unexpired(m, t)[k := v], t)
  {
    UnexpiredLater(m, t, t);
    UnexpiredUpdated(m, k, v, t);
    UnexpiredUpdated(Unexpired(m, t), k, v, t);
  }

  lemma UnexpiredNoncesLater(m: map<Id, int>, t0: nat, t: nat)
    requires t0 <= t
    ensures UnexpiredNonces(UnexpiredNonces(m, t0), t) == UnexpiredNonces(m, t)
  {
  }

  lemma UnexpiredQueuesLater(m: map<User, seq<Entry>>, t0: nat, t: nat)
    requires t0 <= t
    ensures UnexpiredQueues(UnexpiredQueues(m, t0), t) == UnexpiredQueues(m, t)
  {
    forall k | k in m ensures LiveEntries(LiveEntries(m[k], t0), t) == LiveEntries(m[k], t) {
      LiveOfLive(m[k], t0, t);
    }
    assert LiveEntries([], t) == [];
  }

  lemma SweepLater(s: Store, t0: nat, t: nat)
    requires t0 <= t
    ensures Sweep(Sweep(s, t0), t) == Sweep(s, t)
  {
    UnexpiredLater(s.presence, t0, t);
    UnexpiredLater(s.pendings, t0, t);
    UnexpiredLater(s.results, t0, t);
    UnexpiredNoncesLater(s.nonces, t0, t);
    UnexpiredQueuesLater(s.queues, t0, t);
  }

  /** What the sweep leaves of one user's queue. */
  lemma QueueOfSwept(s: Store, t: nat, user: User)
    ensures QueueOf(Sweep(s, t), user) == LiveEntries(QueueOf(s, user), t)
  {
  }

  /** Replacing one user's queue, then sweeping, is sweeping, then replacing it by what is alive of it. */
  lemma SweepOfSetQueue(s: Store, t: nat, user: User, q: seq<Entry>)
    ensures Sweep(SetQueue(s, user, q), t) == SetQueue(Sweep(s, t), user, LiveEntries(q, t))
  {
    SweptQueues(s.queues, t, user, q);
  }

  lemma SweptQueues(m: map<User, seq<Entry>>, t: nat, user: User, q: seq<Entry>)
    ensures UnexpiredQueues(m - {user}, t) == UnexpiredQueues(m, t) - {user}
    ensures UnexpiredQueues(m[user := q], t) ==
            if LiveEntries(q, t) == [] then UnexpiredQueues(m, t) - {user} else UnexpiredQueues(m, t)[user := LiveEntries(q, t)]
  {
  }

  // One lemma per method that reads what expires: run on the swept state, it answers the same and
  // leaves a state that sweeps to the same.

  lemma TakeAgrees(s: Store, t: nat, user: User, max: int)
    ensures var (a, x) := TakeNow(s, t, user, max); var (b, y) := TakeNow(Sweep(s, t), t, user, max);
            x == y && Sweep(a, t) == Sweep(b, t)
  {
    QueueOfSwept(s, t, user);
    var live := LiveEntries(QueueOf(s, user), t);
    var n := Min(Max(1, max), |live|);
    LiveOfLive(QueueOf(s, user), t, t);
    SweepOfSetQueue(s, t, user, live[n..]);
    SweepOfSetQueue(Sweep(s, t), t, user, live[n..]);
    SweepLater(s, t, t);
    if user in s.queues && user !in Sweep(s, t).queues {
      assert live == [] && live[n..] == [];
      assert SetQueue(Sweep(s, t), user, []).queues == Sweep(s, t).queues;
    }
  }

  lemma EnqueueAgrees(s: Store, t: nat, user: User, c: Command, p: Pending, ttl: int)
    ensures Sweep(Enqueue(s, t, user, c, p, ttl), t) == Sweep(Enqueue(Sweep(s, t), t, user, c, p, ttl), t)
  {
    var e := [Entry(c, t + ttl)];
    var q := QueueOf(s, user);
    QueueOfSwept(s, t, user);
    LiveOfConcat(q, e, t);
    LiveOfConcat(LiveEntries(q, t), e, t);
    LiveOfLive(q, t, t);
    SweepLater(s, t, t);
    var a, b := Enqueue(s, t, user, c, p, ttl), Enqueue(Sweep(s, t), t, user, c, p, ttl);
    SweepOfSetQueue(s, t, user, q + e);
    SweepOfSetQueue(Sweep(s, t), t, user, LiveEntries(q, t) + e);
    assert a.queues == SetQueue(s, user, q + e).queues;
    assert b.queues == SetQueue(Sweep(s, t), user, LiveEntries(q, t) + e).queues;
    assert Unexpired(a.pendings, t) == Unexpired(b.pendings, t);
  }

  lemma {:induction false} ReturnableOfSwept(s: Store, t: nat, cs: seq<Command>)
    ensures Returnable(Sweep(s, t), t, cs) == Returnable(s, t, cs)
    ensures forall e :: e in Returnable(s, t, cs) ==> e.expiresAt > t
  {
    if cs != [] { ReturnableOfSwept(s, t, cs[1..]); }
  }

  lemma RequeueAgrees(s: Store, t: nat, user: User, cs: seq<Command>)
    ensures Sweep(Requeue(s, t, user, cs), t) == Sweep(Requeue(Sweep(s, t), t, user, cs), t)
  {
    ReturnableOfSwept(s, t, cs);
    SweepLater(s, t, t);
    var back := Returnable(s, t, cs);
    if back != [] {
      var q := QueueOf(s, user);
      QueueOfSwept(s, t, user);
      LiveOfConcat(back, q, t);
      LiveOfConcat(back, LiveEntries(q, t), t);
      LiveOfLive(q, t, t);
      SweepOfSetQueue(s, t, user, back + q);
      SweepOfSetQueue(Sweep(s, t), t, user, back + LiveEntries(q, t));
      assert Requeue(s, t, user, cs) == SetQueue(s, user, back + q);
      assert Requeue(Sweep(s, t), t, user, cs) == SetQueue(Sweep(s, t), user, back + LiveEntries(q, t));
    }
  }

  /** Where the first match is once the dead are gone, and what is left without it. */
  lemma {:induction false} LiveWithoutFirst(q: seq<Entry>, t: nat, id: Id)
    ensures var found, live := FirstMatch(q, id), LiveEntries(q, t);
            match found
            case None => FirstMatch(live, id).None?
            case Some(e) =>
              if e.expiresAt > t
              then FirstMatch(live, id) == found && LiveEntries(WithoutFirst(q, id), t) == WithoutFirst(live, id)
              else LiveEntries(WithoutFirst(q, id), t) == live
  {
    if q != [] {
      LiveWithoutFirst(q[1..], t, id);
      if q[0].expiresAt > t { assert LiveEntries(q, t)[1..] == LiveEntries(q[1..], t); }
      if q[0].command.id != id { assert WithoutFirst(q, id)[1..] == WithoutFirst(q[1..], id); }
    }
  }

  lemma {:induction false} WithoutFirstIsShorter(q: seq<Entry>, id: Id)
    requires FirstMatch(q, id).Some?
    ensures |WithoutFirst(q, id)| == |q| - 1
    ensures forall e :: e in WithoutFirst(q, id) ==> e in q
  {
    if q[0].command.id != id { WithoutFirstIsShorter(q[1..], id); }
  }

  /**
   * `withdraw` is the one method that does not look at expiry. It agrees with the clocked ideal
   * exactly when the entry it finds, if any, is alive.
   */
  lemma WithdrawAgreesExactly(s: Store, t: nat, user: User, id: Id)
    ensures var (a, x) := Withdraw(s, user, id); var (b, y) := Withdraw(Sweep(s, t), user, id);
            (x == y && Sweep(a, t) == Sweep(b, t)) <==> WithdrawsLiveEntry(s, t, user, id)
  {
    var q := QueueOf(s, user);
    var live := LiveEntries(q, t);
    QueueOfSwept(s, t, user);
    LiveWithoutFirst(q, t, id);
    LiveOfLive(q, t, t);
    LiveOfLive(WithoutFirst(q, id), t, t);
    SweepOfSetQueue(s, t, user, WithoutFirst(q, id));
    SweepOfSetQueue(Sweep(s, t), t, user, WithoutFirst(live, id));
    SweepLater(s, t, t);
    if FirstMatch(q, id).Some? && FirstMatch(q, id).value.expiresAt <= t && FirstMatch(live, id).Some? {
      // the ideal loses a live entry, the store a dead one
      var a, b := Withdraw(s, user, id).0, Withdraw(Sweep(s, t), user, id).0;
      LiveStaysLive(q, t);
      WithoutFirstIsShorter(live, id);
      AllLive(WithoutFirst(live, id), t);
      QueueOfSwept(a, t, user);
      QueueOfSwept(b, t, user);
      assert |QueueOf(Sweep(b, t), user)| == |live| - 1;
      assert QueueOf(Sweep(a, t), user) == live;
    }
  }

  lemma PresenceAgrees(s: Store, t: nat, user: User, value: Presence, ttl: int)
    ensures GetPresence(s, t, user).1 == GetPresence(Sweep(s, t), t, user).1
    ensures Sweep(GetPresence(s, t, user).0, t) == Sweep(GetPresence(Sweep(s, t), t, user).0, t)
    ensures Sweep(SetPresence(s, t, user, value, ttl), t) == Sweep(SetPresence(Sweep(s, t), t, user, value, ttl), t)
  {
    SweepLater(s, t, t);
    RemovalAgrees(s.presence, user, t);
    UpdateAgrees(s.presence, user, Expiring(value, t + ttl), t);
  }

  lemma PendingAgrees(s: Store, t: nat, id: Id)
    ensures PendingOf(s, t, id).1 == PendingOf(Sweep(s, t), t, id).1
    ensures Sweep(PendingOf(s, t, id).0, t) == Sweep(PendingOf(Sweep(s, t), t, id).0, t)
  {
    SweepLater(s, t, t);
    RemovalAgrees(s.pendings, id, t);
  }

  lemma ResolveAgrees(s: Store, t: nat, id: Id, o: Outcome)
    ensures Resolve(s, t, id, o).1 == Resolve(Sweep(s, t), t, id, o).1
    ensures Sweep(Resolve(s, t, id, o).0, t) == Sweep(Resolve(Sweep(s, t), t, id, o).0, t)
  {
    SweepLater(s, t, t);
    RemovalAgrees(s.pendings, id, t);
    UpdateAgrees(s.results, id, Expiring(o, if id in s.pendings then s.pendings[id].expiresAt else 0), t);
  }

  lemma AwaitAgrees(s: Store, t: nat, id: Id)
    ensures TakeResult(s, t, id).1 == TakeResult(Sweep(s, t), t, id).1
    ensures Sweep(TakeResult(s, t, id).0, t) == Sweep(TakeResult(Sweep(s, t), t, id).0, t)
    ensures Sweep(Cancel(s, id), t) == Sweep(Cancel(Sweep(s, t), id), t)
  {
    SweepLater(s, t, t);
    RemovalAgrees(s.pendings, id, t);
    RemovalAgrees(s.results, id, t);
  }

  lemma SpendAgrees(s: Store, t: nat, nonce: Id, ttl: int)
    ensures var (a, x) := SpendNonce(s, t, nonce, ttl); var (b, y) := SpendNonce(Sweep(s, t), t, nonce, ttl);
            x == y && Sweep(a, t) == Sweep(b, t)
  {
    SweepLater(s, t, t);
    var a, b := SpendNonce(s, t, nonce, ttl).0, SpendNonce(Sweep(s, t), t, nonce, ttl).0;
    assert UnexpiredNonces(a.nonces, t) == UnexpiredNonces(b.nonces, t);
  }

  /** Run on the swept state, a method answers the same and leaves the same live state. */
  ghost predicate Agrees(s: Store, e: Timed) {
    var (a, x) := Apply(s, e);
    var (b, y) := Apply(Sweep(s, e.t), e);
    x == y && Sweep(a, e.t) == Sweep(b, e.t)
  }

  lemma QueueStepAgrees(s: Store, e: Timed)
    requires e.op.EnqueueOp? || e.op.TakeOp? || e.op.RequeueOp? || e.op.WithdrawOp?
    requires e.op.WithdrawOp? ==> WithdrawsLiveEntry(s, e.t, e.op.user, e.op.id)
    ensures Agrees(s, e)
  {
    match e.op
    case EnqueueOp(user, c, p, ttl) => EnqueueAgrees(s, e.t, user, c, p, ttl);
    case TakeOp(user, max) => TakeAgrees(s, e.t, user, max);
    case RequeueOp(user, cs) => RequeueAgrees(s, e.t, user, cs);
    case WithdrawOp(user, id) => WithdrawAgreesExactly(s, e.t, user, id);
  }

  lemma ResultStepAgrees(s: Store, e: Timed)
    requires e.op.PendingOp? || e.op.ResolveOp? || e.op.AwaitOp? || e.op.CancelOp?
    ensures Agrees(s, e)
  {
    match e.op
    case PendingOp(id) => PendingAgrees(s, e.t, id);
    case ResolveOp(id, o) => ResolveAgrees(s, e.t, id, o);
    case AwaitOp(id) => AwaitAgrees(s, e.t, id);
    case CancelOp(id) => AwaitAgrees(s, e.t, id);
  }

  lemma OtherStepAgrees(s: Store, e: Timed)
    requires e.op.GetPresenceOp? || e.op.SetPresenceOp? || e.op.SpendOp? || e.op.SweepOp?
    ensures Agrees(s, e)
  {
    match e.op
    case GetPresenceOp(user) => PresenceAgrees(s, e.t, user, Presence(false, {}, 0, false), 0);
    case SetPresenceOp(user, p, ttl) => PresenceAgrees(s, e.t, user, p, ttl);
    case SpendOp(nonce, ttl) => SpendAgrees(s, e.t, nonce, ttl);
    case SweepOp => SweepLater(s, e.t, e.t);
  }

  lemma DeviceStepAgrees(s: Store, e: Timed)
    requires e.op.CheckDeviceOp? || e.op.PinDeviceOp? || e.op.ForgetDevicesOp?
    ensures Agrees(s, e)
  {
    SweepLater(s, e.t, e.t);
  }

  lemma StepAgrees(s: Store, e: Timed)
    requires e.op.WithdrawOp? ==> WithdrawsLiveEntry(s, e.t, e.op.user, e.op.id)
    ensures Agrees(s, e)
  {
    if e.op.EnqueueOp? || e.op.TakeOp? || e.op.RequeueOp? || e.op.WithdrawOp? {
      QueueStepAgrees(s, e);
    } else if e.op.PendingOp? || e.op.ResolveOp? || e.op.AwaitOp? || e.op.CancelOp? {
      ResultStepAgrees(s, e);
    } else if e.op.GetPresenceOp? || e.op.SetPresenceOp? || e.op.SpendOp? || e.op.SweepOp? {
      OtherStepAgrees(s, e);
    } else {
      DeviceStepAgrees(s, e);
    }
  }

  lemma IdealSeesOnlyTheLiving(a: Store, b: Store, t0: nat, ops: seq<Timed>)
    requires Sweep(a, t0) == Sweep(b, t0)
    requires ops != [] ==> t0 <= ops[0].t
    ensures Ideal(a, ops) == Ideal(b, ops)
  {
    if ops != [] {
      SweepLater(a, t0, ops[0].t);
      SweepLater(b, t0, ops[0].t);
    }
  }

  lemma {:induction false} StripKeepsOrder(ops: seq<Timed>)
    ensures forall e :: e in Strip(ops) ==> e in ops
  {
    if ops != [] { StripKeepsOrder(ops[1..]); }
  }

  /** `memoryStore` with lazy sweeps answers exactly as the clocked ideal does, in every run. */
  lemma {:induction false} StoreRefinesIdeal(s: Store, ops: seq<Timed>)
    requires Monotone(ops) && WithdrawsLive(s, ops)
    ensures Visible(s, ops) == Ideal(s, Strip(ops))
    decreases |ops|
  {
    if ops != [] {
      var e, rest := ops[0], ops[1..];
      var s' := Apply(s, e).0;
      StoreRefinesIdeal(s', rest);
      StripKeepsOrder(rest);
      if Strip(rest) != [] { assert Strip(rest)[0] in rest; }
      if e.op.SweepOp? {
        SweepLater(s, e.t, e.t);
        IdealSeesOnlyTheLiving(s', s, e.t, Strip(rest));
      } else {
        StepAgrees(s, e);
        IdealSeesOnlyTheLiving(s', Apply(Sweep(s, e.t), e).0, e.t, Strip(rest));
        assert Strip(ops)[1..] == Strip(rest);
      }
    }
  }

  lemma {:induction false} StripTwice(ops: seq<Timed>)
    ensures Strip(Strip(ops)) == Strip(ops)
  {
    if ops != [] {
      StripTwice(ops[1..]);
      if !ops[0].op.SweepOp? { assert Strip(ops)[1..] == Strip(ops[1..]); }
    }
  }

  lemma {:induction false} StripMonotone(ops: seq<Timed>)
    requires Monotone(ops)
    ensures Monotone(Strip(ops))
  {
    if ops != [] {
      StripMonotone(ops[1..]);
      StripKeepsOrder(ops[1..]);
      var rest := Strip(ops[1..]);
      forall i | 0 <= i < |rest| ensures ops[0].t <= rest[i].t { assert rest[i] in ops[1..]; }
    }
  }

  /** Inserting or removing sweeps anywhere in a run changes no answer. */
  lemma SweepsChangeNoAnswer(s: Store, ops: seq<Timed>)
    requires Monotone(ops) && WithdrawsLive(s, ops) && WithdrawsLive(s, Strip(ops))
    ensures Visible(s, ops) == Visible(s, Strip(ops))
  {
    StripMonotone(ops);
    StripTwice(ops);
    StoreRefinesIdeal(s, ops);
    StoreRefinesIdeal(s, Strip(ops));
  }
}
