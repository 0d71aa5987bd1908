/**
 * `memoryStore` in the form the server keeps it: maps updated in place by every method, and the
 * waits parked until something they watch changes. Each method is one synchronous stretch of code
 * at clock reading `t`; it is proved to do what its function in StoreSpec does, and to keep the
 * wake-up invariant.
 */
module MemoryStores {
  import opened Basics
  import opened BridgeTypes
  import opened JsonValues
  import opened StoreSpec
  import opened StoreRuns
  import opened Challenges
  import opened Verify

  const SWEEP_EVERY_MS := 30_000

  /** One parked wait (one call of `park`). */
  type Waiter = nat

  /** What one turn of a wait loop did. */
  datatype Turn<+T> = Got(value: T) | GaveUp | Parked

  /** The waits parked in `waiters`. */
  ghost predicate Waits(waiters: map<nat, set<Waiter>>, w: Waiter) {
    exists k :: k in waiters && w in waiters[k]
  }

  function WaitersOf(waiters: map<nat, set<Waiter>>, k: nat): set<Waiter> {
    if k in waiters then waiters[k] else {}
  }

  /** Every wait is parked under one key of one of the maps, or has ended; no set is kept empty. */
  ghost predicate ParkedOnce(qw: map<User, set<Waiter>>, rw: map<Id, set<Waiter>>, ended: set<Waiter>) {
    && (forall k | k in qw :: qw[k] != {} && qw[k] !! ended)
    && (forall k | k in rw :: rw[k] != {} && rw[k] !! ended)
    && (forall k, l | k in qw && l in qw && k != l :: qw[k] !! qw[l])
    && (forall k, l | k in rw && l in rw && k != l :: rw[k] !! rw[l])
    && (forall k, l | k in qw && l in rw :: qw[k] !! rw[l])
  }

  class MemoryStore {
    var presence: map<User, Expiring<Presence>>
    var queues: map<User, seq<Entry>>
    var pendings: map<Id, Expiring<Pending>>
    var results: map<Id, Expiring<Outcome>>
    var nonces: map<Id, int>
    var devices: map<User, set<PublicKey>>
    var queueWaiters: map<User, set<Waiter>>
    var resultWaiters: map<Id, set<Waiter>>
    var lastSweep: nat

    /** Waits that ended: woken, timed out or aborted. */
    ghost var ended: set<Waiter>

    ghost function State(): Store
      reads this
    {
      Store(presence, queues, pendings, results, nonces, devices)
    }

    /** The state a method that sweeps first works on. */
    ghost function AfterSweep(t: nat): Store
      reads this
    {
      if t - lastSweep < SWEEP_EVERY_MS then State() else Sweep(State(), t)
    }

    /**
     * No wake-up is lost: a wait parked for a user's queue means that queue is empty, one parked
     * for a result means there is none. A parked wait is parked once and has not ended.
     */
    ghost predicate Valid()
      reads this
    {
      && (forall u | u in queues :: queues[u] != [])
      && (forall u | u in queueWaiters :: u !in queues)
      && (forall id | id in resultWaiters :: id !in results)
      && ParkedOnce(queueWaiters, resultWaiters, ended)
    }

    constructor (t: nat)
      ensures Valid() && State() == EmptyStore && lastSweep == t
      ensures queueWaiters == map[] && resultWaiters == map[] && ended == {}
    {
      presence, queues, pendings, results, nonces, devices := map[], map[], map[], map[], map[], map[];
      queueWaiters, resultWaiters := map[], map[];
      lastSweep, ended := t, {};
    }

    method SweepIfDue(t: nat)
      requires Valid()
      modifies this`presence, this`queues, this`pendings, this`results, this`nonces, this`lastSweep
      ensures Valid() && State() == old(AfterSweep(t))
      ensures lastSweep == if t - old(lastSweep) < SWEEP_EVERY_MS then old(lastSweep) else t
    {
      if t - lastSweep < SWEEP_EVERY_MS { return; }
      lastSweep := t;
      SweepEntries(t);
    }

    method SweepEntries(t: nat)
      requires Valid()
      modifies this`presence, this`queues, this`pendings, this`results, this`nonces
      ensures Valid() && State() == Sweep(old(State()), t)
    {
      SweepMaps(t);
      queues := DropDead(queues, t);
    }

    method SweepMaps(t: nat)
      modifies this`presence, this`pendings, this`results, this`nonces
      ensures presence == Unexpired(old(presence), t) && pendings == Unexpired(old(pendings), t)
      ensures results == Unexpired(old(results), t) && nonces == UnexpiredNonces(old(nonces), t)
      ensures results.Keys <= old(results).Keys
    {
      presence := DropExpired(presence, t);
      pendings := DropExpired(pendings, t);
      results := DropExpired(results, t);
      nonces := DropSpent(nonces, t);
    }

    // -------------------------------------------------------------------------------------------
    // Presence
    // -------------------------------------------------------------------------------------------

    method GetPresence(user: User, t: nat) returns (p: Option<Presence>)
      requires Valid()
      modifies this
      ensures Valid() && (State(), p) == StoreSpec.GetPresence(old(AfterSweep(t)), t, user)
      ensures queueWaiters == old(queueWaiters) && resultWaiters == old(resultWaiters) && ended == old(ended)
    {
      SweepIfDue(t);
      if user !in presence { return None; }
      if presence[user].expiresAt <= t {
        presence := presence - {user};
        return None;
      }
      return Some(presence[user].value);
    }

    method SetPresence(user: User, value: Presence, ttlMs: int, t: nat)
      requires Valid()
      modifies this
      ensures Valid() && State() == StoreSpec.SetPresence(old(AfterSweep(t)), t, user, value, ttlMs)
      ensures queueWaiters == old(queueWaiters) && resultWaiters == old(resultWaiters) && ended == old(ended)
    {
      SweepIfDue(t);
      presence := presence[user := Expiring(value, t + ttlMs)];
    }

    // -------------------------------------------------------------------------------------------
    // Queues
    // -------------------------------------------------------------------------------------------

    /** Wakes every wait parked for `user`'s queue. */
    method WakeQueue(user: User)
      requires ParkedOnce(queueWaiters, resultWaiters, ended)
      modifies this`queueWaiters, this`ended
      ensures ParkedOnce(queueWaiters, resultWaiters, ended)
      ensures queueWaiters == old(queueWaiters) - {user} && ended == old(ended) + WaitersOf(old(queueWaiters), user)
    {
      if user in queueWaiters {
        ended := ended + queueWaiters[user];
        queueWaiters := queueWaiters - {user};
      } else {
        assert queueWaiters == queueWaiters - {user};
      }
    }

    method Enqueue(user: User, command: Command, pending: Pending, ttlMs: int, t: nat)
      requires Valid()
      modifies this
      ensures Valid() && State() == StoreSpec.Enqueue(old(AfterSweep(t)), t, user, command, pending, ttlMs)
      ensures queueWaiters == old(queueWaiters) - {user} && resultWaiters == old(resultWaiters)
      ensures ended == old(ended) + WaitersOf(old(queueWaiters), user)
    {
      SweepIfDue(t);
      var expiresAt := t + ttlMs;
      pendings := pendings[pending.id := Expiring(pending, expiresAt)];
      var queue := if user in queues then queues[user] else [];
      queue := queue + [Entry(command, expiresAt)];
      queues := queues[user := queue];
      WakeQueue(user);
    }

    /** The oldest live commands of the user, at most `max`, removed. */
    method TakeNow(user: User, max: int, t: nat) returns (taken: seq<Command>)
      requires Valid()
      modifies this`queues
      ensures Valid() && (State(), taken) == StoreSpec.TakeNow(old(State()), t, user, max)
      ensures taken == [] ==> user !in queues
    {
      if user !in queues { return []; }
      var live := AliveOf(queues[user], t);
      var n := Min(Max(1, max), |live|);
      taken := Commands(live[..n]);
      if live[n..] == [] { queues := queues - {user}; } else { queues := queues[user := live[n..]]; }
    }

    /** One turn of `take`'s loop: answer, give up, or park waiter `w`. The first turn sweeps. */
    method TakeTurn(user: User, max: int, first: bool, timeLeft: bool, aborted: bool, w: Waiter, t: nat)
      returns (turn: Turn<seq<Command>>)
      requires Valid() && w !in ended && !Waits(queueWaiters, w) && !Waits(resultWaiters, w)
      modifies this
      ensures Valid()
      ensures var (s, taken) := StoreSpec.TakeNow(if first then old(AfterSweep(t)) else old(State()), t, user, max);
              State() == s &&
              turn == if taken != [] then Got(taken) else if !timeLeft || aborted then GaveUp else Parked
      ensures queueWaiters == if turn.Parked?
                              then old(queueWaiters)[user := WaitersOf(old(queueWaiters), user) + {w}]
                              else old(queueWaiters)
      ensures resultWaiters == old(resultWaiters) && ended == old(ended)
    {
      if first { SweepIfDue(t); }
      var taken := TakeNow(user, max, t);
      if taken != [] { return Got(taken); }
      if !timeLeft || aborted { return GaveUp; }
      queueWaiters := queueWaiters[user := WaitersOf(queueWaiters, user) + {w}];
      return Parked;
    }

    method Requeue(user: User, commands: seq<Command>, t: nat)
      requires Valid()
      modifies this
      ensures Valid() && State() == StoreSpec.Requeue(old(State()), t, user, commands)
      ensures resultWaiters == old(resultWaiters)
      ensures if Returnable(old(State()), t, commands) == [] then queueWaiters == old(queueWaiters) && ended == old(ended)
              else queueWaiters == old(queueWaiters) - {user} &&
                   ended == old(ended) + WaitersOf(old(queueWaiters), user)
    {
      var back: seq<Entry> := [];
      var i := |commands|;
      while i > 0
        invariant 0 <= i <= |commands| && back == Returnable(State(), t, commands[i..])
      {
        i := i - 1;
        var id := commands[i].id;
        assert commands[i..][1..] == commands[i + 1..];
        if id in pendings && pendings[id].expiresAt > t { back := [Entry(commands[i], pendings[id].expiresAt)] + back; }
      }
      if back == [] { return; }
      queues := queues[user := back + if user in queues then queues[user] else []];
      WakeQueue(user);
    }

    method Withdraw(user: User, id: Id) returns (removed: bool)
      requires Valid()
      modifies this`queues
      ensures Valid() && (State(), removed) == StoreSpec.Withdraw(old(State()), user, id)
    {
      if user !in queues { return false; }
      var queue := queues[user];
      var k := 0;
      while k < |queue| && queue[k].command.id != id
        invariant 0 <= k <= |queue|
        invariant forall i | 0 <= i < k :: queue[i].command.id != id
      {
        k := k + 1;
      }
      FoundAt(queue, id, k);
      if k == |queue| { return false; }
      queue := queue[..k] + queue[k + 1..];
      if queue == [] { queues := queues - {user}; } else { queues := queues[user := queue]; }
      return true;
    }

    // -------------------------------------------------------------------------------------------
    // Outcomes
    // -------------------------------------------------------------------------------------------

    method PendingCommand(id: Id, t: nat) returns (p: Option<Pending>)
      requires Valid()
      modifies this`pendings
      ensures Valid() && (State(), p) == PendingOf(old(State()), t, id)
    {
      if id !in pendings { return None; }
      if pendings[id].expiresAt <= t {
        pendings := pendings - {id};
        return None;
      }
      return Some(pendings[id].value);
    }

    method Resolve(id: Id, outcome: Outcome, t: nat) returns (won: bool)
      requires Valid()
      modifies this
      ensures Valid() && (State(), won) == StoreSpec.Resolve(old(State()), t, id, outcome)
      ensures queueWaiters == old(queueWaiters)
      ensures resultWaiters == if won then old(resultWaiters) - {id} else old(resultWaiters)
      ensures ended == old(ended) + if won then WaitersOf(old(resultWaiters), id) else {}
    {
      if id !in pendings || pendings[id].expiresAt <= t {
        pendings := pendings - {id};
        return false;
      }
      var expiresAt := pendings[id].expiresAt;
      pendings := pendings - {id};
      results := results[id := Expiring(outcome, expiresAt)];
      if id in resultWaiters {
        ended := ended + resultWaiters[id];
        resultWaiters := resultWaiters - {id};
      } else {
        assert resultWaiters == resultWaiters - {id};
      }
      return true;
    }

    /** One turn of `awaitResult`'s loop. */
    method AwaitTurn(id: Id, timeLeft: bool, w: Waiter, t: nat) returns (turn: Turn<Outcome>)
      requires Valid() && w !in ended && !Waits(queueWaiters, w) && !Waits(resultWaiters, w)
      modifies this`results, this`resultWaiters
      ensures Valid()
      ensures var (s, outcome) := TakeResult(old(State()), t, id);
              State() == s &&
              turn == if outcome.Some? then Got(outcome.value) else if !timeLeft then GaveUp else Parked
      ensures resultWaiters == if turn.Parked?
                               then old(resultWaiters)[id := WaitersOf(old(resultWaiters), id) + {w}]
                               else old(resultWaiters)
    {
      if id in results {
        var entry := results[id];
        results := results - {id};
        if entry.expiresAt > t { return Got(entry.value); }
      }
      if !timeLeft { return GaveUp; }
      resultWaiters := resultWaiters[id := WaitersOf(resultWaiters, id) + {w}];
      return Parked;
    }

    method Cancel(id: Id)
      requires Valid()
      modifies this`pendings, this`results
      ensures Valid() && State() == StoreSpec.Cancel(old(State()), id)
    {
      pendings := pendings - {id};
      results := results - {id};
    }

    /** A parked wait ends by its timer or its abort signal, not by a wake. */
    method EndQueueWait(user: User, w: Waiter)
      requires Valid() && user in queueWaiters && w in queueWaiters[user]
      modifies this`queueWaiters, this`ended
      ensures Valid() && ended == old(ended) + {w}
      ensures forall x :: Waits(queueWaiters, x) <==> x != w && Waits(old(queueWaiters), x)
    {
      var rest := queueWaiters[user] - {w};
      ended := ended + {w};
      if rest == {} { queueWaiters := queueWaiters - {user}; } else { queueWaiters := queueWaiters[user := rest]; }
      forall x | x != w && Waits(old(queueWaiters), x) ensures Waits(queueWaiters, x) {
        var k :| k in old(queueWaiters) && x in old(queueWaiters)[k];
        if k == user { assert x in rest; }
        assert k in queueWaiters && x in queueWaiters[k];
      }
    }

    method EndResultWait(id: Id, w: Waiter)
      requires Valid() && id in resultWaiters && w in resultWaiters[id]
      modifies this`resultWaiters, this`ended
      ensures Valid() && ended == old(ended) + {w}
      ensures forall x :: Waits(resultWaiters, x) <==> x != w && Waits(old(resultWaiters), x)
    {
      var rest := resultWaiters[id] - {w};
      ended := ended + {w};
      if rest == {} { resultWaiters := resultWaiters - {id}; } else { resultWaiters := resultWaiters[id := rest]; }
      forall x | x != w && Waits(old(resultWaiters), x) ensures Waits(resultWaiters, x) {
        var k :| k in old(resultWaiters) && x in old(resultWaiters)[k];
        if k == id { assert x in rest; }
        assert k in resultWaiters && x in resultWaiters[k];
      }
    }

    /** Ends every wait. */
    method Close()
      requires Valid()
      modifies this`queueWaiters, this`resultWaiters, this`ended
      ensures Valid() && queueWaiters == map[] && resultWaiters == map[]
      ensures forall w :: w in ended <==> w in old(ended) || Waits(old(queueWaiters), w) || Waits(old(resultWaiters), w)
    {
      ended := ended + (set k, w | k in queueWaiters && w in queueWaiters[k] :: w)
                     + (set k, w | k in resultWaiters && w in resultWaiters[k] :: w);
      queueWaiters, resultWaiters := map[], map[];
    }

    // -------------------------------------------------------------------------------------------
    // Nonces and devices
    // -------------------------------------------------------------------------------------------

    method SpendNonce(nonce: Id, ttlMs: int, t: nat) returns (unspent: bool)
      requires Valid()
      modifies this
      ensures Valid() && (State(), unspent) == StoreSpec.SpendNonce(old(AfterSweep(t)), t, nonce, ttlMs)
      ensures queueWaiters == old(queueWaiters) && resultWaiters == old(resultWaiters) && ended == old(ended)
    {
      SweepIfDue(t);
      if nonce in nonces && nonces[nonce] > t { return false; }
      nonces := nonces[nonce := t + Max(1, ttlMs)];
      return true;
    }

    method CheckDevice(subject: User, publicKey: PublicKey, firstUse: bool) returns (check: DeviceCheck)
      requires Valid()
      modifies this`devices
      ensures Valid() && (State(), check) == StoreSpec.CheckDevice(old(State()), subject, publicKey, firstUse)
    {
      if subject in devices && publicKey in devices[subject] { return Known; }
      if firstUse && (subject !in devices || devices[subject] == {}) {
        devices := devices[subject := {publicKey}];
        return Pinned;
      }
      return Unknown;
    }

    method PinDevice(subject: User, publicKey: PublicKey)
      requires Valid()
      modifies this`devices
      ensures Valid() && State() == StoreSpec.PinDevice(old(State()), subject, publicKey)
    {
      var pinned := if subject in devices then devices[subject] else {};
      devices := devices[subject := pinned + {publicKey}];
    }

    method ForgetDevices(subject: User)
      requires Valid()
      modifies this`devices
      ensures Valid() && State() == StoreSpec.ForgetDevices(old(State()), subject)
    {
      devices := devices - {subject};
    }
  }

  // ---------------------------------------------------------------------------------------------
  // Loops over one map or one queue
  // ---------------------------------------------------------------------------------------------

  method DropExpired<T>(m: map<nat, Expiring<T>>, t: nat) returns (r: map<nat, Expiring<T>>)
    ensures r == Unexpired(m, t) && r.Keys <= m.Keys
  {
    r := m;
    var keys := m.Keys;
    while keys != {}
      invariant keys <= m.Keys
      invariant r == map k | k in m && (k in keys || m[k].expiresAt > t) :: m[k]
      decreases |keys|
    {
      var k :| k in keys;
      if r[k].expiresAt <= t { r := r - {k}; }
      keys := keys - {k};
    }
  }

  method DropSpent(m: map<Id, int>, t: nat) returns (r: map<Id, int>)
    ensures r == UnexpiredNonces(m, t)
  {
    r := m;
    var keys := m.Keys;
    while keys != {}
      invariant keys <= m.Keys
      invariant r == map k | k in m && (k in keys || m[k] > t) :: m[k]
      decreases |keys|
    {
      var k :| k in keys;
      if r[k] <= t { r := r - {k}; }
      keys := keys - {k};
    }
  }

  method DropDead(m: map<User, seq<Entry>>, t: nat) returns (r: map<User, seq<Entry>>)
    ensures r == UnexpiredQueues(m, t) && r.Keys <= m.Keys
  {
    r := m;
    var users := m.Keys;
    while users != {}
      invariant users <= m.Keys
      invariant forall u :: u in r <==> u in m && (u in users || LiveEntries(m[u], t) != [])
      invariant forall u | u in r :: r[u] == if u in users then m[u] else LiveEntries(m[u], t)
      decreases |users|
    {
      var u :| u in users;
      var live := AliveOf(r[u], t);
      if live == [] { r := r - {u}; } else { r := r[u := live]; }
      users := users - {u};
    }
  }

  method AliveOf(q: seq<Entry>, t: nat) returns (live: seq<Entry>)
    ensures live == LiveEntries(q, t)
  {
    live := [];
    for i := 0 to |q|
      invariant live == LiveEntries(q[..i], t)
    {
      LiveOfConcat(q[..i], [q[i]], t);
      assert q[..i + 1] == q[..i] + [q[i]];
      if q[i].expiresAt > t { live := live + [q[i]]; }
    }
    assert q[..|q|] == q;
  }

  /** The linear search finds what FirstMatch finds, and cutting there is WithoutFirst. */
  lemma {:induction false} FoundAt(q: seq<Entry>, id: Id, k: nat)
    requires k <= |q| && (forall i | 0 <= i < k :: q[i].command.id != id)
    requires k < |q| ==> q[k].command.id == id
    ensures FirstMatch(q, id) == if k < |q| then Some(q[k]) else None
    ensures k < |q| ==> WithoutFirst(q, id) == q[..k] + q[k + 1..]
  {
    if q != [] && k > 0 {
      FoundAt(q[1..], id, k - 1);
      if k < |q| { assert q[..k] + q[k + 1..] == [q[0]] + (q[1..][..k - 1] + q[1..][k..]); }
    }
  }

  /**
   * `checkReceipt` against the store, its awaits uninterrupted, gives the verdict of the function
   * CheckReceipt and leaves the same live state, whether or not a sweep falls due in it.
   */
  method CheckReceiptNow(policy: DevicePolicy, store: MemoryStore, receipt: Option<Receipt>, e: Expectations, t: nat)
    returns (verdict: Verdict)
    requires store.Valid()
    modifies store
    ensures store.Valid() && verdict == CheckReceipt(policy, old(store.State()), t, receipt, e).1
    ensures Sweep(store.State(), t) == Sweep(CheckReceipt(policy, old(store.State()), t, receipt, e).0, t)
  {
    var payload := PassGuards(receipt, e);
    if payload.None? { return No(None); }
    var body := receipt.value.body;
    var pinned := IsPinned(policy, store, payload.value.sub, body.device);
    if !pinned { return No(Some(body.device)); }
    SpendAgrees(store.State(), t, payload.value.nonce, SpentTtl(payload.value.exp, e.nowSeconds));
    SweepLater(store.State(), t, t);
    var unspent := store.SpendNonce(payload.value.nonce, SpentTtl(payload.value.exp, e.nowSeconds), t);
    if !unspent { return No(None); }
    if e.requireSuccess && body.outcome != Success { return No(None); }
    if e.inputs.Some? || e.inputsHash.Some? {
      if body.inputsHash.None? { return No(None); }
      var want := e.inputsHash;
      if want.None? {
        if e.inputs.value.NoForm? { return No(None); }
        want := Some(OfInputs(e.challenge, e.inputs.value.value));
      }
      if want != body.inputsHash { return No(None); }
    }
    if e.data.Some? && body.outcome == Success {
      if body.dataHash.None? || e.data.value.NoForm? { return No(None); }
      if OfData(e.data.value.value) != body.dataHash.value { return No(None); }
    }
    return Ok(receipt.value);
  }

  /** The checks before the first await. */
  method PassGuards(receipt: Option<Receipt>, e: Expectations) returns (payload: Option<ChallengePayload>)
    ensures payload == GuardsBefore(receipt, e)
  {
    if receipt.None? || !Genuine(receipt.value) { return None; }
    var body := receipt.value.body;
    if body.key != e.key { return None; }
    if body.challenge.None? { return None; }
    if body.challenge.value != e.challenge { return None; }
    payload := ReadChallenge(e.challenge, e.nowSeconds);
    if payload.None? { return None; }
    if payload.value.key != e.key { return None; }
    if e.subject.Some? && payload.value.sub != e.subject.value { return None; }
    if e.nonce.Some? && payload.value.nonce != e.nonce.value { return None; }
    if e.origin.Some? && body.origin != e.origin.value { return None; }
  }

  /** `devicePinned`. */
  method IsPinned(policy: DevicePolicy, store: MemoryStore, subject: User, device: PublicKey) returns (pinned: bool)
    requires store.Valid()
    modifies store`devices
    ensures store.Valid() && (store.State(), pinned) == DevicePinned(policy, old(store.State()), subject, device)
  {
    match policy {
      case Off => return true;
      case FirstUse =>
        var check := store.CheckDevice(subject, device, true);
        return check != Unknown;
      case Registry(allowed) => return (subject, device) in allowed;
    }
  }
}
