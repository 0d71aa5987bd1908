/**
 * `redisStore`, one Redis command at a time. Between any two commands of one client, any other
 * client's commands may run and any key with a time to live may expire.
 */
module RedisRuns {
  import opened Basics
  import opened BridgeTypes
  import opened StoreSpec

  // ---------------------------------------------------------------------------------------------
  // resolve, awaitResult and cancel
  // ---------------------------------------------------------------------------------------------

  /** A `resolve` whose DEL removed the pending key and whose RPUSH is still to come. */
  datatype Winner = Winner(id: Id, outcome: Outcome)

  /** `won` and `collected` are history: who won each id, what each id's caller popped. */
  datatype Redis = Redis(
    pendings: map<Id, Pending>,
    results: map<Id, seq<Outcome>>,
    winners: map<nat, Winner>,
    known: set<Id>,
    won: map<Id, Outcome>,
    collected: map<Id, Outcome>)

  const EmptyRedis := Redis(map[], map[], map[], {}, map[], map[])

  datatype RedisCommand =
    | SetPending(pending: Pending)
    | DelPending(client: nat, id: Id, outcome: Outcome)
    | PushResult(client: nat)
    | PopResult(id: Id)
    | DelBoth(id: Id)
    | ExpirePending(id: Id)
    | ExpireResult(id: Id)

  /** Ids are fresh, and a client issues its RPUSH after its own winning DEL. */
  predicate Allowed(r: Redis, c: RedisCommand) {
    match c
    case SetPending(p) => p.id !in r.known
    case DelPending(client, _, _) => client !in r.winners
    case PushResult(client) => client in r.winners
    case _ => true
  }

  function ResultsOf(r: Redis, id: Id): seq<Outcome> {
    if id in r.results then r.results[id] else []
  }

  /** The state after the command and what it replied: how many keys it removed, or what it popped. */
  function Step(r: Redis, c: RedisCommand): (Redis, Option<Outcome>)
    requires Allowed(r, c)
  {
    match c
    case SetPending(p) => (r.(pendings := r.pendings[p.id := p], known := r.known + {p.id}), None)
    case DelPending(client, id, o) =>
      if id !in r.pendings then (r, None)
      else (r.(pendings := r.pendings - {id}, winners := r.winners[client := Winner(id, o)], won := r.won[id := o]), Some(o))
    case PushResult(client) =>
      var w := r.winners[client];
      (r.(results := r.results[w.id := ResultsOf(r, w.id) + [w.outcome]], winners := r.winners - {client}), None)
    case PopResult(id) =>
      var list := ResultsOf(r, id);
      if list == [] then (r, None)
      else (r.(results := r.results[id := list[1..]], collected := r.collected[id := list[0]]), Some(list[0]))
    case DelBoth(id) => (r.(pendings := r.pendings - {id}, results := r.results - {id}), None)
    case ExpirePending(id) => (r.(pendings := r.pendings - {id}), None)
    case ExpireResult(id) => (r.(results := r.results - {id}), None)
  }

  ghost predicate InFlight(r: Redis, id: Id) {
    exists client :: client in r.winners && r.winners[client].id == id
  }

  /** An outcome is pending, in flight, stored or collected: one of them, once, and the winner's. */
  ghost predicate Inv(r: Redis) {
    && (forall id | id in r.pendings :: id in r.known && id !in r.won)
    && (forall id | id in r.won :: id in r.known)
    && (forall c | c in r.winners ::
          var w := r.winners[c];
          w.id in r.won && r.won[w.id] == w.outcome && ResultsOf(r, w.id) == [] && w.id !in r.collected)
    && (forall c, d | c in r.winners && d in r.winners && c != d :: r.winners[c].id != r.winners[d].id)
    && (forall id | id in r.results && r.results[id] != [] ::
          id in r.won && r.results[id] == [r.won[id]] && id !in r.collected)
    && (forall id | id in r.collected :: id in r.won && r.collected[id] == r.won[id])
  }

  lemma PendingStepKeepsInv(r: Redis, c: RedisCommand)
    requires Inv(r) && Allowed(r, c) && (c.SetPending? || c.DelPending? || c.ExpirePending?)
    ensures Inv(Step(r, c).0)
  {
  }

  lemma ResultStepKeepsInv(r: Redis, c: RedisCommand)
    requires Inv(r) && Allowed(r, c) && (c.PushResult? || c.PopResult?)
    ensures Inv(Step(r, c).0)
  {
  }

  lemma StepKeepsInv(r: Redis, c: RedisCommand)
    requires Inv(r) && Allowed(r, c)
    ensures Inv(Step(r, c).0)
  {
    if c.SetPending? || c.DelPending? || c.ExpirePending? {
      PendingStepKeepsInv(r, c);
    } else if c.PushResult? || c.PopResult? {
      ResultStepKeepsInv(r, c);
    }
  }

  /** `rs` are the states of a run of the commands `cs`. */
  ghost predicate IsRun(rs: seq<Redis>, cs: seq<RedisCommand>) {
    && |rs| == |cs| + 1 && rs[0] == EmptyRedis
    && forall i | 0 <= i < |cs| :: StepAt(rs, cs, i)
  }

  ghost predicate StepAt(rs: seq<Redis>, cs: seq<RedisCommand>, i: nat)
    requires i < |cs| < |rs|
  {
    Allowed(rs[i], cs[i]) && rs[i + 1] == Step(rs[i], cs[i]).0
  }

  lemma {:induction false} RunKeepsInv(rs: seq<Redis>, cs: seq<RedisCommand>, i: nat)
    requires IsRun(rs, cs) && i < |rs|
    ensures Inv(rs[i])
  {
    if i > 0 {
      RunKeepsInv(rs, cs, i - 1);
      assert StepAt(rs, cs, i - 1);
      StepKeepsInv(rs[i - 1], cs[i - 1]);
    }
  }

  lemma HistoryStep(r: Redis, c: RedisCommand, id: Id)
    requires Inv(r) && Allowed(r, c)
    ensures var r' := Step(r, c).0;
            && (id in r.known ==> id in r'.known)
            && (id in r.won ==> id in r'.won && r'.won[id] == r.won[id])
            && (id in r.collected ==> id in r'.collected && r'.collected[id] == r.collected[id])
  {
  }

  /** Winning and collecting are final; a known id stays known. */
  lemma {:induction false} HistoryStays(rs: seq<Redis>, cs: seq<RedisCommand>, i: nat, j: nat, id: Id)
    requires IsRun(rs, cs) && i <= j < |rs|
    ensures id in rs[i].known ==> id in rs[j].known
    ensures id in rs[i].won ==> id in rs[j].won && rs[j].won[id] == rs[i].won[id]
    ensures id in rs[i].collected ==> id in rs[j].collected && rs[j].collected[id] == rs[i].collected[id]
    decreases j
  {
    if i < j {
      HistoryStays(rs, cs, i, j - 1, id);
      RunKeepsInv(rs, cs, j - 1);
      assert StepAt(rs, cs, j - 1);
      HistoryStep(rs[j - 1], cs[j - 1], id);
    }
  }

  /** The run's `i`-th command is a DEL by which a `resolve` of `id` won. */
  ghost predicate Wins(rs: seq<Redis>, cs: seq<RedisCommand>, i: nat, id: Id)
    requires IsRun(rs, cs)
  {
    i < |cs| && cs[i].DelPending? && cs[i].id == id && StepAt(rs, cs, i) && Step(rs[i], cs[i]).1.Some?
  }

  /** The run's `i`-th command is an LPOP that gave `o` to the caller of `id`. */
  ghost predicate Pops(rs: seq<Redis>, cs: seq<RedisCommand>, i: nat, id: Id, o: Outcome)
    requires IsRun(rs, cs)
  {
    i < |cs| && cs[i] == PopResult(id) && StepAt(rs, cs, i) && Step(rs[i], cs[i]).1 == Some(o)
  }

  /** At single-command granularity too, exactly one resolve wins. */
  lemma OneWinner(rs: seq<Redis>, cs: seq<RedisCommand>, i: nat, j: nat, id: Id)
    requires IsRun(rs, cs) && Wins(rs, cs, i, id) && Wins(rs, cs, j, id)
    ensures i == j
  {
    var a, b := Min(i, j), Max(i, j);
    RunKeepsInv(rs, cs, b);
    if a < b { HistoryStays(rs, cs, a + 1, b, id); }
  }

  /** At most one caller pops an outcome, and it is the winner's. */
  lemma OneCollector(rs: seq<Redis>, cs: seq<RedisCommand>, i: nat, j: nat, id: Id, o: Outcome, p: Outcome)
    requires IsRun(rs, cs) && Pops(rs, cs, i, id, o) && Pops(rs, cs, j, id, p)
    ensures i == j && o == p
    ensures id in rs[i].won && rs[i].won[id] == o
  {
    var a, b := Min(i, j), Max(i, j);
    RunKeepsInv(rs, cs, i);
    RunKeepsInv(rs, cs, b);
    if a < b { HistoryStays(rs, cs, a + 1, b, id); }
  }

  // Unlike in `memoryStore`, `cancel` can be overtaken: a resolve that won before it may push after.

  /** Nothing of `id` is left to collect now or later: not pending, not in flight, not stored. */
  ghost predicate Gone(r: Redis, id: Id) {
    id in r.known && id !in r.pendings && !InFlight(r, id) && ResultsOf(r, id) == []
  }

  lemma GoneStays(r: Redis, c: RedisCommand, id: Id)
    requires Gone(r, id) && Allowed(r, c)
    ensures Gone(Step(r, c).0, id) && (c == PopResult(id) ==> Step(r, c).1.None?)
  {
  }

  lemma {:induction false} GoneForGood(rs: seq<Redis>, cs: seq<RedisCommand>, i: nat, j: nat, id: Id)
    requires IsRun(rs, cs) && i <= j < |rs| && Gone(rs[i], id)
    ensures Gone(rs[j], id)
    decreases j
  {
    if i < j {
      GoneForGood(rs, cs, i, j - 1, id);
      assert StepAt(rs, cs, j - 1);
      GoneStays(rs[j - 1], cs[j - 1], id);
    }
  }

  /** The commands `more` may follow state `r`, and the last of them pops an outcome of `id`. */
  ghost predicate Collectable(r: Redis, id: Id, more: seq<RedisCommand>)
    decreases |more|
  {
    more != [] && Allowed(r, more[0]) &&
    if |more| == 1 then more[0] == PopResult(id) && Step(r, more[0]).1.Some?
    else Collectable(Step(r, more[0]).0, id, more[1..])
  }

  ghost predicate CanCollect(r: Redis, id: Id) {
    exists more :: Collectable(r, id, more)
  }

  lemma {:induction false} GoneIsNotCollectable(r: Redis, id: Id, more: seq<RedisCommand>)
    requires Gone(r, id)
    ensures !Collectable(r, id, more)
    decreases |more|
  {
    if more != [] && Allowed(r, more[0]) {
      GoneStays(r, more[0], id);
      if |more| > 1 { GoneIsNotCollectable(Step(r, more[0]).0, id, more[1..]); }
    }
  }

  /**
   * After `cancel`'s DEL an outcome can still be collected exactly when a resolve of that command
   * has won and not pushed yet.
   */
  lemma CollectableAfterCancelExactly(r: Redis, id: Id)
    requires Inv(r) && id in r.known
    ensures CanCollect(Step(r, DelBoth(id)).0, id) <==> InFlight(r, id)
  {
    var r' := Step(r, DelBoth(id)).0;
    if InFlight(r, id) {
      var client :| client in r.winners && r.winners[client].id == id;
      var more := [PushResult(client), PopResult(id)];
      assert more[1..] == [PopResult(id)];
      assert ResultsOf(Step(r', more[0]).0, id) == [r.winners[client].outcome];
      assert Collectable(Step(r', more[0]).0, id, more[1..]);
      assert Collectable(r', id, more);
      assert CanCollect(r', id);
    } else {
      forall more ensures !Collectable(r', id, more) { GoneIsNotCollectable(r', id, more); }
    }
  }

  // ---------------------------------------------------------------------------------------------
  // The first-use pin script
  // ---------------------------------------------------------------------------------------------

  /** CHECK_DEVICE_SCRIPT on the set at its key: the reply and the set after it. */
  function CheckDeviceScript(pins: set<PublicKey>, publicKey: PublicKey, firstUse: bool): (set<PublicKey>, int) {
    if publicKey in pins then (pins, 1)
    else if firstUse && |pins| == 0 then (pins + {publicKey}, 2)
    else (pins, 0)
  }

  /** The atomic script and `memoryStore.checkDevice` are the same check. */
  lemma ScriptIsCheckDevice(s: Store, subject: User, publicKey: PublicKey, firstUse: bool)
    ensures var (s', check) := CheckDevice(s, subject, publicKey, firstUse);
            var (pins, code) := CheckDeviceScript(PinsOf(s, subject), publicKey, firstUse);
            && PinsOf(s', subject) == pins
            && check == (if code == 1 then Known else if code == 2 then Pinned else Unknown)
            && forall other | other != subject :: PinsOf(s', other) == PinsOf(s, other)
  {
    if PinsOf(s, subject) == {} {
      assert {} + {publicKey} == {publicKey};
    } else {
      var k :| k in PinsOf(s, subject);
      assert |PinsOf(s, subject)| > 0;
    }
  }
}
