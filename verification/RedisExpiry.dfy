/**
 * When Redis drops a user's queue. The queue is one list key with one time to live: RPUSH and LPUSH
 * leave it as it is (none for a key they create), PEXPIRE sets it, and a list that LPOP or LREM
 * empties is gone, its time to live with it.
 */
module RedisExpiry {
  import opened Basics
  import opened BridgeTypes
  import opened RedisQueues

  /** The key: no commands when it does not exist, and when Redis drops it, if at all. */
  datatype Key = Key(commands: seq<Command>, dropsAt: Option<int>)

  const Absent := Key([], None)

  datatype ListCommand =
    | RPush(command: Command)
    | PExpire(ttlMs: int)
    | LPop(max: int)
    | LRem(command: Command)
    | LPush(commands: seq<Command>)

  /** A command at Redis' clock reading `t`, in milliseconds. */
  datatype Sent = At(t: nat, what: ListCommand)

  /** A key that does not exist has no time to live. */
  predicate Proper(k: Key) { k.commands == [] ==> k.dropsAt.None? }

  function Existing(k: Key, t: nat): Key {
    if k.dropsAt.Some? && k.dropsAt.value <= t then Absent else k
  }

  function KeptIfAny(commands: seq<Command>, dropsAt: Option<int>): Key {
    if commands == [] then Absent else Key(commands, dropsAt)
  }

  function Apply(k: Key, e: Sent): (r: Key)
    requires Proper(k)
    ensures Proper(r)
  {
    var q := Existing(k, e.t);
    match e.what
    case RPush(c) => Key(q.commands + [c], q.dropsAt)
    case PExpire(ttl) => if q.commands == [] then Absent else Key(q.commands, Some(e.t + Max(1, ttl)))
    case LPop(max) => KeptIfAny(q.commands[Min(Max(1, max), |q.commands|)..], q.dropsAt)
    case LRem(c) => KeptIfAny(WithoutOne(q.commands, c), q.dropsAt)
    case LPush(cs) => KeptIfAny(cs + q.commands, q.dropsAt)
  }

  /** The key at time `u`, after the commands sent up to then. */
  function AtTime(k: Key, es: seq<Sent>, u: nat): Key
    requires Proper(k)
    decreases |es|
  {
    if es == [] || es[0].t > u then Existing(k, u) else AtTime(Apply(k, es[0]), es[1..], u)
  }

  /** Command `c` is in the list at every moment of `[from, end)`. */
  ghost predicate HeldThrough(k: Key, es: seq<Sent>, from: nat, end: int, c: Command)
    requires Proper(k)
  {
    forall u: nat | from <= u < end :: c in AtTime(k, es, u).commands
  }

  /** Command `c` is in the list from `from` on, for good. */
  ghost predicate HeldForEver(k: Key, es: seq<Sent>, from: nat, c: Command)
    requires Proper(k)
  {
    forall u: nat | from <= u :: c in AtTime(k, es, u).commands
  }

  /** Sent in this order, from `from` on. */
  ghost predicate InOrder(es: seq<Sent>, from: nat) {
    (forall i | 0 <= i < |es| :: from <= es[i].t) && forall i, j | 0 <= i < j < |es| :: es[i].t <= es[j].t
  }

  /** Nothing is taken out, and `c` is not put in again. */
  ghost predicate LeavesAlone(es: seq<Sent>, c: Command) {
    forall i | 0 <= i < |es| :: LeavesAloneAt(es[i].what, c)
  }

  predicate LeavesAloneAt(what: ListCommand, c: Command) {
    match what
    case RPush(d) => d != c
    case LPush(ds) => c !in ds
    case PExpire(_) => true
    case _ => false
  }

  // ---------------------------------------------------------------------------------------------
  // Requeueing
  // ---------------------------------------------------------------------------------------------

  /**
   * A requeued command that nobody takes never expires exactly when the requeue found no key, be it
   * expired or emptied by a poll that took everything, or one already without a time to live.
   */
  lemma RequeuedNeverExpiresExactly(k: Key, t: nat, cs: seq<Command>, c: Command)
    requires Proper(k) && c in cs
    ensures HeldForEver(Apply(k, At(t, LPush(cs))), [], t, c) <==>
            Existing(k, t).commands == [] || k.dropsAt.None?
  {
    var after := Apply(k, At(t, LPush(cs)));
    assert c in after.commands;
    if after.dropsAt.Some? {
      assert c !in AtTime(after, [], after.dropsAt.value).commands;
    }
  }

  /** ... and more enqueues' pushes, or more requeues, do not change that before the next PEXPIRE. */
  lemma {:induction false} PushesKeepForEver(k: Key, es: seq<Sent>, u: nat, c: Command)
    requires Proper(k) && k.dropsAt.None? && c in k.commands
    requires forall i | 0 <= i < |es| :: es[i].what.RPush? || es[i].what.LPush?
    ensures c in AtTime(k, es, u).commands
    decreases |es|
  {
    if es != [] && es[0].t <= u {
      assert c in Apply(k, es[0]).commands;
      PushesKeepForEver(Apply(k, es[0]), es[1..], u, c);
    }
  }

  /**
   * The ordinary aborted poll does this: a command enqueued alone, taken within its time to live and
   * put back, at whatever times, is then in a list that never expires.
   */
  lemma AbortedPollLosesExpiry(c: Command, t: nat, ttl: nat, taken: nat, back: nat)
    requires t <= taken <= back && taken < t + ttl
    ensures var es := [At(t, RPush(c)), At(t, PExpire(ttl)), At(taken, LPop(MAX_COMMANDS_PER_POLL)), At(back, LPush([c]))];
            HeldForEver(Absent, es, back, c)
  {
    var es := [At(t, RPush(c)), At(t, PExpire(ttl)), At(taken, LPop(MAX_COMMANDS_PER_POLL)), At(back, LPush([c]))];
    var k1 := Apply(Absent, es[0]);
    var k2 := Apply(k1, es[1]);
    var k3 := Apply(k2, es[2]);
    var k4 := Apply(k3, es[3]);
    assert k1 == Key([c], None);
    assert k2 == Key([c], Some(t + ttl));
    assert k3 == Absent;
    assert k4 == Key([c], None);
    forall u: nat | back <= u ensures c in AtTime(Absent, es, u).commands {
      assert AtTime(k4, [], u) == k4;
      assert es[1..][1..] == es[2..] && es[2..][1..] == es[3..] && es[3..][1..] == [];
      assert AtTime(k3, es[3..], u) == k4;
      assert AtTime(k2, es[2..], u) == k4;
      assert AtTime(k1, es[1..], u) == k4;
    }
  }

  // ---------------------------------------------------------------------------------------------
  // Later enqueues
  // ---------------------------------------------------------------------------------------------

  /**
   * The list expiry in force is `d`: every PEXPIRE sent before `end` comes before the expiry then in
   * force, and the last expiry so set is no earlier than `end`.
   */
  predicate ExpiriesReach(d: Option<int>, es: seq<Sent>, end: int)
    decreases |es|
  {
    if es == [] || es[0].t >= end then d.None? || d.value >= end
    else if es[0].what.PExpire? then
      (d.None? || es[0].t < d.value) && ExpiriesReach(Some(es[0].t + Max(1, es[0].what.ttlMs)), es[1..], end)
    else ExpiriesReach(d, es[1..], end)
  }

  lemma {:induction false} PastExpiryReachesNothing(d: int, es: seq<Sent>, from: nat, end: int)
    requires InOrder(es, from) && d <= from && d < end
    ensures !ExpiriesReach(Some(d), es, end)
  {
    if es != [] && es[0].t < end && !es[0].what.PExpire? { PastExpiryReachesNothing(d, es[1..], from, end); }
  }

  /** A command that is not in the list stays out of it. */
  lemma {:induction false} StaysOut(k: Key, es: seq<Sent>, u: nat, c: Command)
    requires Proper(k) && c !in k.commands && LeavesAlone(es, c)
    ensures c !in AtTime(k, es, u).commands
    decreases |es|
  {
    if es != [] && es[0].t <= u {
      assert LeavesAloneAt(es[0].what, c);
      StaysOut(Apply(k, es[0]), es[1..], u, c);
    }
  }

  /** Up to the first command the key only waits for its expiry. */
  lemma WaitsExactly(k: Key, es: seq<Sent>, from: nat, end: int, c: Command)
    requires Proper(k) && c in k.commands && (k.dropsAt.Some? ==> from < k.dropsAt.value)
    requires es == [] || es[0].t >= end
    ensures HeldThrough(k, es, from, end, c) <==> k.dropsAt.None? || k.dropsAt.value >= end
  {
    if k.dropsAt.Some? && k.dropsAt.value < end { assert c !in AtTime(k, es, k.dropsAt.value).commands; }
  }

  /** A list that expires no later than the next command is sent has lost what it held. */
  lemma LostByNext(k: Key, es: seq<Sent>, from: nat, end: int, c: Command)
    requires Proper(k) && es != [] && es[0].t < end && LeavesAlone(es, c)
    requires k.dropsAt.Some? && from < k.dropsAt.value <= es[0].t
    ensures !HeldThrough(k, es, from, end, c)
  {
    var d := k.dropsAt.value;
    if d < es[0].t {
      assert c !in AtTime(k, es, d).commands;
    } else {
      assert LeavesAloneAt(es[0].what, c);
      StaysOut(Apply(k, es[0]), es[1..], d, c);
      assert c !in AtTime(k, es, d).commands;
    }
  }

  /** From one command to the next, while the list lives. */
  lemma HeldFromNext(k: Key, es: seq<Sent>, from: nat, end: int, c: Command)
    requires Proper(k) && c in k.commands && es != [] && from <= es[0].t
    requires k.dropsAt.None? || es[0].t < k.dropsAt.value
    ensures HeldThrough(k, es, from, end, c) <==> HeldThrough(Apply(k, es[0]), es[1..], es[0].t, end, c)
  {
    forall u: nat | u >= es[0].t ensures AtTime(k, es, u) == AtTime(Apply(k, es[0]), es[1..], u) {
    }
    forall u: nat | from <= u < es[0].t ensures c in AtTime(k, es, u).commands {
    }
    if HeldThrough(k, es, from, end, c) {
      forall u: nat | es[0].t <= u < end ensures c in AtTime(Apply(k, es[0]), es[1..], u).commands {
        assert c in AtTime(k, es, u).commands;
      }
    }
    if HeldThrough(Apply(k, es[0]), es[1..], es[0].t, end, c) {
      forall u: nat | from <= u < end ensures c in AtTime(k, es, u).commands {
        if u >= es[0].t { assert c in AtTime(Apply(k, es[0]), es[1..], u).commands; }
      }
    }
  }

  /**
   * In `memoryStore` each entry has its own expiry; in Redis every later enqueue resets that of the
   * whole list. Whatever enqueues and requeues follow, one Redis command at a time, a queued command
   * that nobody takes stays queued until `end` exactly when every later PEXPIRE sent before `end`
   * finds the list alive and the last of them lets it live until `end`.
   */
  lemma {:induction false} LaterEnqueuesKeepExactly(k: Key, es: seq<Sent>, from: nat, end: int, c: Command)
    requires Proper(k) && c in k.commands && (k.dropsAt.Some? ==> from < k.dropsAt.value)
    requires InOrder(es, from) && LeavesAlone(es, c)
    ensures HeldThrough(k, es, from, end, c) <==> ExpiriesReach(k.dropsAt, es, end)
    decreases |es|
  {
    if es == [] || es[0].t >= end {
      WaitsExactly(k, es, from, end, c);
    } else if k.dropsAt.Some? && k.dropsAt.value <= es[0].t {
      LostByNext(k, es, from, end, c);
      if !es[0].what.PExpire? { PastExpiryReachesNothing(k.dropsAt.value, es[1..], es[0].t, end); }
    } else {
      assert LeavesAloneAt(es[0].what, c);
      HeldFromNext(k, es, from, end, c);
      LaterEnqueuesKeepExactly(Apply(k, es[0]), es[1..], es[0].t, end, c);
    }
  }

  /**
   * A command's own time to live, from its own RPUSH: it is kept when its PEXPIRE comes while the
   * list, if there was one, is still alive, and the later ones reach its own expiry.
   */
  lemma OwnTimeToLiveExactly(k: Key, c: Command, t: nat, t': nat, ttl: int, later: seq<Sent>)
    requires Proper(k) && c !in Existing(k, t).commands && t <= t' && InOrder(later, t') && LeavesAlone(later, c)
    ensures var end := t' + Max(1, ttl);
            HeldThrough(Apply(k, At(t, RPush(c))), [At(t', PExpire(ttl))] + later, t, end, c) <==>
            (Existing(k, t).dropsAt.None? || t' < k.dropsAt.value) && ExpiriesReach(Some(end), later, end)
  {
    var es := [At(t', PExpire(ttl))] + later;
    assert es[1..] == later;
    assert forall i | 0 <= i < |later| :: es[i + 1] == later[i];
    assert LeavesAloneAt(es[0].what, c);
    LaterEnqueuesKeepExactly(Apply(k, At(t, RPush(c))), es, t, t' + Max(1, ttl), c);
  }

  /** A later command with a shorter time to live takes an earlier one with it, unless a third comes in time. */
  lemma ShorterTakesEarlier(c: Command, d: Command, e: Command)
    requires c != d && c != e
    ensures var k := Key([c], Some(100));
            var two := [At(10, RPush(d)), At(10, PExpire(20))];
            var three := two + [At(20, RPush(e)), At(20, PExpire(200))];
            !HeldThrough(k, two, 0, 100, c) && HeldThrough(k, three, 0, 100, c)
  {
    var k := Key([c], Some(100));
    var two := [At(10, RPush(d)), At(10, PExpire(20))];
    var three := two + [At(20, RPush(e)), At(20, PExpire(200))];
    LaterEnqueuesKeepExactly(k, two, 0, 100, c);
    LaterEnqueuesKeepExactly(k, three, 0, 100, c);
    assert two[1..] == [At(10, PExpire(20))] && two[1..][1..] == [];
    assert !ExpiriesReach(Some(30), two[1..][1..], 100);
    assert !ExpiriesReach(Some(100), two[1..], 100);
    var last := [At(20, PExpire(200))];
    assert last[1..] == [] && ExpiriesReach(Some(220), last[1..], 100);
    assert ExpiriesReach(Some(30), last, 100);
    assert three[1..][1..][1..] == last && three[1..][1..][0] == At(20, RPush(e)) && three[1..][0] == At(10, PExpire(20));
    assert ExpiriesReach(Some(30), three[1..][1..], 100);
    assert ExpiriesReach(Some(100), three[1..], 100);
  }
}
