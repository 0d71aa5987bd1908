/**
 * `memoryStore` as functions from state to state: one function per synchronous stretch of code
 * (what runs between two awaits), at clock reading `t` (unix milliseconds). Class MemoryStore is
 * proved against these functions; the theorems about whole runs are about them.
 */
module StoreSpec {
  import opened Basics
  import opened BridgeTypes

  datatype Expiring<+T> = Expiring(value: T, expiresAt: int)

  datatype Entry = Entry(command: Command, expiresAt: int)

  datatype Store = Store(
    presence: map<User, Expiring<Presence>>,
    queues: map<User, seq<Entry>>,
    pendings: map<Id, Expiring<Pending>>,
    results: map<Id, Expiring<Outcome>>,
    nonces: map<Id, int>,
    devices: map<User, set<PublicKey>>)

  const EmptyStore := Store(map[], map[], map[], map[], map[], map[])

  // ---------------------------------------------------------------------------------------------
  // Queues
  // ---------------------------------------------------------------------------------------------

  /** The entries still alive at `t`, in order. */
  function LiveEntries(q: seq<Entry>, t: nat): seq<Entry> {
    if q == [] then []
    else if q[0].expiresAt > t then [q[0]] + LiveEntries(q[1..], t)
    else LiveEntries(q[1..], t)
  }

  function QueueOf(s: Store, user: User): seq<Entry> {
    if user in s.queues then s.queues[user] else []
  }

  /** A queue is never stored empty. */
  function SetQueue(s: Store, user: User, q: seq<Entry>): Store {
    s.(queues := if q == [] then s.queues - {user} else s.queues[user := q])
  }

  function Commands(q: seq<Entry>): (cs: seq<Command>)
    ensures |cs| == |q| && forall i :: 0 <= i < |q| ==> cs[i] == q[i].command
  {
    seq(|q|, i requires 0 <= i < |q| => q[i].command)
  }

  /** The first entry of command `id`, if the queue holds one. */
  function FirstMatch(q: seq<Entry>, id: Id): (found: Option<Entry>)
    ensures found.Some? ==> found.value in q && found.value.command.id == id
    ensures found.None? <==> forall e :: e in q ==> e.command.id != id
  {
    if q == [] then None
    else if q[0].command.id == id then Some(q[0])
    else FirstMatch(q[1..], id)
  }

  /** The queue without the first entry of command `id`. */
  function WithoutFirst(q: seq<Entry>, id: Id): seq<Entry> {
    if q == [] then []
    else if q[0].command.id == id then q[1..]
    else [q[0]] + WithoutFirst(q[1..], id)
  }

  // ---------------------------------------------------------------------------------------------
  // The sweep
  // ---------------------------------------------------------------------------------------------

  function Unexpired<T>(m: map<nat, Expiring<T>>, t: nat): map<nat, Expiring<T>> {
    map k | k in m && m[k].expiresAt > t :: m[k]
  }

  function UnexpiredNonces(m: map<Id, int>, t: nat): map<Id, int> {
    map k | k in m && m[k] > t :: m[k]
  }

  function UnexpiredQueues(m: map<User, seq<Entry>>, t: nat): map<User, seq<Entry>> {
    map k | k in m && LiveEntries(m[k], t) != [] :: LiveEntries(m[k], t)
  }

  /** Everything expired at `t` is gone. */
  function Sweep(s: Store, t: nat): Store {
    s.(presence := Unexpired(s.presence, t),
       queues := UnexpiredQueues(s.queues, t),
       pendings := Unexpired(s.pendings, t),
       results := Unexpired(s.results, t),
       nonces := UnexpiredNonces(s.nonces, t))
  }

  // ---------------------------------------------------------------------------------------------
  // The methods, each without its leading sweep
  // ---------------------------------------------------------------------------------------------

  function GetPresence(s: Store, t: nat, user: User): (Store, Option<Presence>) {
    if user !in s.presence then (s, None)
    else if s.presence[user].expiresAt <= t then (s.(presence := s.presence - {user}), None)
    else (s, Some(s.presence[user].value))
  }

  function SetPresence(s: Store, t: nat, user: User, value: Presence, ttlMs: int): Store {
    s.(presence := s.presence[user := Expiring(value, t + ttlMs)])
  }

  function Enqueue(s: Store, t: nat, user: User, command: Command, pending: Pending, ttlMs: int): Store {
    var s1 := s.(pendings := s.pendings[pending.id := Expiring(pending, t + ttlMs)]);
    s1.(queues := s1.queues[user := QueueOf(s, user) + [Entry(command, t + ttlMs)]])
  }

  /** One pass of `take`'s loop: the oldest live commands, at most `max` (and at least one). */
  function TakeNow(s: Store, t: nat, user: User, max: int): (Store, seq<Command>) {
    if user !in s.queues then (s, [])
    else
      var live := LiveEntries(s.queues[user], t);
      var n := Min(Max(1, max), |live|);
      (SetQueue(s, user, live[n..]), Commands(live[..n]))
  }

  /** What `requeue` puts back: commands whose pending entry is still alive, with its expiry. */
  function Returnable(s: Store, t: nat, commands: seq<Command>): seq<Entry> {
    if commands == [] then []
    else
      var rest := Returnable(s, t, commands[1..]);
      var id := commands[0].id;
      if id in s.pendings && s.pendings[id].expiresAt > t
      then [Entry(commands[0], s.pendings[id].expiresAt)] + rest
      else rest
  }

  function Requeue(s: Store, t: nat, user: User, commands: seq<Command>): Store {
    var back := Returnable(s, t, commands);
    if back == [] then s else s.(queues := s.queues[user := back + QueueOf(s, user)])
  }

  function Withdraw(s: Store, user: User, id: Id): (Store, bool) {
    var q := QueueOf(s, user);
    if FirstMatch(q, id).None? then (s, false) else (SetQueue(s, user, WithoutFirst(q, id)), true)
  }

  function PendingOf(s: Store, t: nat, id: Id): (Store, Option<Pending>) {
    if id !in s.pendings then (s, None)
    else if s.pendings[id].expiresAt <= t then (s.(pendings := s.pendings - {id}), None)
    else (s, Some(s.pendings[id].value))
  }

  function Resolve(s: Store, t: nat, id: Id, outcome: Outcome): (Store, bool) {
    var s1 := s.(pendings := s.pendings - {id});
    if id !in s.pendings || s.pendings[id].expiresAt <= t then (s1, false)
    else (s1.(results := s1.results[id := Expiring(outcome, s.pendings[id].expiresAt)]), true)
  }

  /** One pass of `awaitResult`'s loop. */
  function TakeResult(s: Store, t: nat, id: Id): (Store, Option<Outcome>) {
    if id !in s.results then (s, None)
    else
      (s.(results := s.results - {id}),
       if s.results[id].expiresAt > t then Some(s.results[id].value) else None)
  }

  function Cancel(s: Store, id: Id): Store {
    s.(pendings := s.pendings - {id}, results := s.results - {id})
  }

  function SpendNonce(s: Store, t: nat, nonce: Id, ttlMs: int): (Store, bool) {
    if nonce in s.nonces && s.nonces[nonce] > t then (s, false)
    else (s.(nonces := s.nonces[nonce := t + Max(1, ttlMs)]), true)
  }

  function PinsOf(s: Store, subject: User): set<PublicKey> {
    if subject in s.devices then s.devices[subject] else {}
  }

  function CheckDevice(s: Store, subject: User, publicKey: PublicKey, firstUse: bool): (Store, DeviceCheck) {
    if publicKey in PinsOf(s, subject) then (s, Known)
    else if firstUse && PinsOf(s, subject) == {} then (s.(devices := s.devices[subject := {publicKey}]), Pinned)
    else (s, Unknown)
  }

  function PinDevice(s: Store, subject: User, publicKey: PublicKey): Store {
    s.(devices := s.devices[subject := PinsOf(s, subject) + {publicKey}])
  }

  function ForgetDevices(s: Store, subject: User): Store {
    s.(devices := s.devices - {subject})
  }
}
