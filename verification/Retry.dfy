/**
 * Retrying a request: how often it is sent, how long the waits are, and that a call which carries
 * an idempotency key takes effect at most once whatever is lost on the way.
 */
module Retry {
  import opened Basics
  import opened Int64

  /** Durations are nanoseconds. */
  datatype Policy = Policy(maxAttempts: int, baseDelay: int, maxDelay: int, maxRetryAfter: int, retryUnsafeMethods: bool)

  const DEFAULT_BASE_DELAY := 250_000_000
  const DEFAULT_MAX_DELAY := 8_000_000_000
  const DEFAULT_MAX_RETRY_AFTER := 30_000_000_000

  const RETRYABLE_STATUSES: set<int> := {408, 425, 429, 500, 502, 503, 504}

  datatype Response = Response(status: int, retryAfter: Option<int>)

  /** A server that replays its answer to a key it has executed; `effects` counts what it executed. */
  datatype Server = Server(executed: set<nat>, effects: nat)

  function Execute(server: Server, key: Option<nat>): Server {
    if key.Some? && key.value in server.executed then server
    else Server(server.executed + (if key.Some? then {key.value} else {}), server.effects + 1)
  }

  /**
   * What befalls the n-th attempt: whether the request can be built, whether it reaches the server and
   * is executed there, what reply comes back (none when it is lost), and whether the caller
   * cancels while sending or while waiting.
   */
  datatype Fate = Fate(built: bool, executed: bool, reply: Option<Response>, cancelled: bool, interrupted: bool)

  datatype Outcome = Answer(response: Response) | NotBuilt | Unanswered | Interrupted

  /** One logical call. The idempotency key is the same for every attempt; `draw(n, d)` is in [0, d). */
  datatype Call = Call(policy: Policy, safe: bool, key: Option<nat>, fate: nat -> Fate, draw: (nat, int) -> int)

  datatype Result = Result(outcome: Outcome, sends: nat, waits: seq<int>, server: Server)

  // ---------------------------------------------------------------------------------------------
  // The loop
  // ---------------------------------------------------------------------------------------------

  /** How often the call may be sent. */
  function Attempts(call: Call): nat {
    if !call.safe && !call.policy.retryUnsafeMethods then 1 else Max(1, call.policy.maxAttempts)
  }

  function MaxRetryAfter(p: Policy): int {
    if p.maxRetryAfter <= 0 then DEFAULT_MAX_RETRY_AFTER else p.maxRetryAfter
  }

  function MaxDelay(p: Policy): int {
    if p.maxDelay <= 0 then DEFAULT_MAX_DELAY else p.maxDelay
  }

  function BaseDelay(p: Policy): int {
    if p.baseDelay <= 0 then DEFAULT_BASE_DELAY else p.baseDelay
  }

  /** The step before jitter, before attempt `n + 1`. */
  function Step(p: Policy, n: nat): (d: int)
    requires n > 0
    ensures 0 < d <= MaxDelay(p)
  {
    Capped(BaseDelay(p) * Pow2(Min(n - 1, 20)), MaxDelay(p))
  }

  function Backoff(p: Policy, n: nat, draw: int): int
    requires n > 0
  {
    Wrap(draw + Step(p, n) / 2)
  }

  /** The wait after a retryable reply or no reply; None when the server asks for too long. */
  function WaitAfter(call: Call, n: nat): Option<int>
    requires n > 0
  {
    var reply := call.fate(n).reply;
    if reply.Some? && reply.value.retryAfter.Some? then
      if reply.value.retryAfter.value > MaxRetryAfter(call.policy) then None else reply.value.retryAfter
    else Some(Backoff(call.policy, n, call.draw(n, Step(call.policy, n))))
  }

  function Settled(call: Call, n: nat): Outcome {
    var reply := call.fate(n).reply;
    if reply.Some? then Answer(reply.value) else Unanswered
  }

  /** The n-th attempt ends the call. */
  predicate Ends(call: Call, n: nat)
    requires n > 0
  {
    var fate := call.fate(n);
    if fate.reply.None? then fate.cancelled || n >= Attempts(call)
    else fate.reply.value.status !in RETRYABLE_STATUSES || n >= Attempts(call) || WaitAfter(call, n).None?
  }

  function Delivered(call: Call, n: nat, server: Server): Server {
    if call.fate(n).executed then Execute(server, call.key) else server
  }

  /** The call from its n-th attempt on. */
  function From(call: Call, n: nat, server: Server): Result
    requires 0 < n <= Attempts(call)
    decreases Attempts(call) - n
  {
    var fate := call.fate(n);
    if !fate.built then Result(NotBuilt, 0, [], server)
    else
      var after := Delivered(call, n, server);
      if Ends(call, n) then Result(Settled(call, n), 1, [], after)
      else
        var wait := WaitAfter(call, n).value;
        if wait > 0 && fate.interrupted then
          Result(if fate.reply.None? then Unanswered else Interrupted, 1, [wait], after)
        else
          var rest := From(call, n + 1, after);
          rest.(sends := rest.sends + 1, waits := [wait] + rest.waits)
  }

  /** `doWithRetry`. */
  method DoWithRetry(call: Call, before: Server) returns (outcome: Outcome, sends: nat, waits: seq<int>, server: Server)
    ensures Result(outcome, sends, waits, server) == From(call, 1, before)
  {
    var attempts := call.policy.maxAttempts;
    if attempts < 1 { attempts := 1; }
    if !(call.safe || call.policy.retryUnsafeMethods) { attempts := 1; }
    sends, waits, server := 0, [], before;
    var lastResp: Option<Response> := None;
    var attempt := 1;
    while true
      invariant 1 <= attempt <= attempts == Attempts(call)
      invariant Continues(From(call, 1, before), sends, waits, From(call, attempt, server))
      decreases attempts - attempt
    {
      var fate := call.fate(attempt);
      if !fate.built { return NotBuilt, sends, waits, server; }
      sends := sends + 1;
      if fate.executed { server := Execute(server, call.key); }
      match fate.reply {
        case None =>
          if fate.cancelled { return Unanswered, sends, waits, server; }
          lastResp := None;
        case Some(resp) =>
          if resp.status !in RETRYABLE_STATUSES { return Answer(resp), sends, waits, server; }
          lastResp := Some(resp);
      }
      if attempt >= attempts {
        return if lastResp.Some? then Answer(lastResp.value) else Unanswered, sends, waits, server;
      }
      var wait := Backoff(call.policy, attempt, call.draw(attempt, Step(call.policy, attempt)));
      if lastResp.Some? && lastResp.value.retryAfter.Some? {
        if lastResp.value.retryAfter.value > MaxRetryAfter(call.policy) {
          return Answer(lastResp.value), sends, waits, server;
        }
        wait := lastResp.value.retryAfter.value;
      }
      if wait > 0 && fate.interrupted {
        return if lastResp.Some? then Interrupted else Unanswered, sends, waits + [wait], server;
      }
      assert forall rest: seq<int> :: waits + ([wait] + rest) == waits + [wait] + rest;
      waits := waits + [wait];
      attempt := attempt + 1;
    }
  }

  /** `whole` is what `rest` comes to after some sends and waits. */
  predicate Continues(whole: Result, sends: nat, waits: seq<int>, rest: Result) {
    whole == rest.(sends := sends + rest.sends, waits := waits + rest.waits)
  }

  // ---------------------------------------------------------------------------------------------
  // How often, how long
  // ---------------------------------------------------------------------------------------------

  lemma {:induction false} SendsFrom(call: Call, n: nat, server: Server)
    requires 0 < n <= Attempts(call)
    ensures From(call, n, server).sends <= Attempts(call) - n + 1
    ensures |From(call, n, server).waits| <= Attempts(call) - n
    decreases Attempts(call) - n
  {
    if call.fate(n).built && !Ends(call, n) { SendsFrom(call, n + 1, Delivered(call, n, server)); }
  }

  /** A call is sent at most max(1, MaxAttempts) times, and once when it is unsafe and not opted in. */
  lemma SendsAtMost(call: Call, server: Server)
    ensures From(call, 1, server).sends <= Max(1, call.policy.maxAttempts)
    ensures !call.safe && !call.policy.retryUnsafeMethods ==> From(call, 1, server).sends <= 1
  {
    SendsFrom(call, 1, server);
  }

  /** What the caller is answered is the reply to the last request sent. */
  lemma {:induction false} AnswerIsLastReply(call: Call, n: nat, server: Server)
    requires 0 < n <= Attempts(call)
    ensures var r := From(call, n, server);
            r.outcome.Answer? ==> r.sends > 0 && call.fate(n + r.sends - 1).reply == Some(r.outcome.response)
    decreases Attempts(call) - n
  {
    if call.fate(n).built && !Ends(call, n) { AnswerIsLastReply(call, n + 1, Delivered(call, n, server)); }
  }

  /** The jittered wait lies in [d/2, 3d/2) exactly when adding that draw does not wrap around. */
  lemma DrawExactly(p: Policy, n: nat, draw: int)
    requires n > 0 && MaxDelay(p) <= MAX_INT64 && 0 <= draw < Step(p, n)
    ensures Jittered(p, n, draw) <==> draw + Step(p, n) / 2 <= MAX_INT64
  {
  }

  predicate Jittered(p: Policy, n: nat, draw: int)
    requires n > 0
  {
    var d := Step(p, n);
    d / 2 <= Backoff(p, n, draw) < d / 2 + d
  }

  /** Every draw gives a wait in [d/2, 3d/2) exactly when the longest fits in 64 bits. */
  lemma BackoffExactly(p: Policy, n: nat)
    requires n > 0 && MaxDelay(p) <= MAX_INT64
    ensures var d := Step(p, n);
            (forall draw | 0 <= draw < d :: Jittered(p, n, draw)) <==> d / 2 + d - 1 <= MAX_INT64
  {
    var d := Step(p, n);
    forall draw | 0 <= draw < d ensures Jittered(p, n, draw) <==> draw + d / 2 <= MAX_INT64 { DrawExactly(p, n, draw); }
    assert Jittered(p, n, d - 1) <==> d / 2 + d - 1 <= MAX_INT64;
  }

  /**
   * The step is base * 2^min(n-1, 20), capped at MaxDelay, exactly when that product fits in 64 bits,
   * or wraps round to nothing or less, or to the cap or more.
   */
  lemma StepExactly(p: Policy, n: nat)
    requires n > 0 && MaxDelay(p) <= MAX_INT64 && BaseDelay(p) <= MAX_INT64
    ensures var product := BaseDelay(p) * Pow2(Min(n - 1, 20));
            Step(p, n) == Min(product, MaxDelay(p)) <==>
            product <= MAX_INT64 || Wrap(product) <= 0 || Wrap(product) >= MaxDelay(p)
  {
    Pow2Bounds(0, Min(n - 1, 20));
    Scale(BaseDelay(p), Pow2(Min(n - 1, 20)), Pow2(Min(n - 1, 20)));
    CapsExactly(BaseDelay(p) * Pow2(Min(n - 1, 20)), MaxDelay(p));
  }

  /** So for base delays up to 2^44 ns (4.8 hours) it always is. */
  lemma StepDoubles(p: Policy, n: nat)
    requires n > 0 && MaxDelay(p) <= MAX_INT64 && BaseDelay(p) <= 0x1000_0000_0000
    ensures Step(p, n) == Min(BaseDelay(p) * Pow2(Min(n - 1, 20)), MaxDelay(p))
  {
    Pow2Bounds(Min(n - 1, 20), 20);
    assert Pow2(10) == 1024;
    assert Pow2(20) == 0x10_0000;
    Scale(BaseDelay(p), Pow2(Min(n - 1, 20)), 0x10_0000);
    WrapOfProduct(BaseDelay(p) * Pow2(Min(n - 1, 20)));
    StepExactly(p, n);
  }

  lemma Scale(base: int, k: nat, most: nat)
    requires base > 0 && 1 <= k <= most
    ensures base <= base * k <= base * most
  {
  }

  /** Up to 2^64 a product keeps its value or turns non-positive. */
  lemma WrapOfProduct(n: int)
    requires 0 < n <= 0x1_0000_0000_0000_0000
    ensures if n <= MAX_INT64 then Wrap(n) == n else Wrap(n) <= 0
  {
  }

  /** One nanosecond above, the twenty-first step is 2^20 ns. */
  lemma StepOverflows()
    ensures Step(Policy(30, 0x1000_0000_0001, MAX_INT64, 0, true), 21) == 0x10_0000
  {
    assert Pow2(10) == 1024;
    assert Pow2(20) == 0x10_0000;
  }

  function Sum(waits: seq<int>): int {
    if waits == [] then 0 else waits[0] + Sum(waits[1..])
  }

  /** Draws are as a random source gives them. */
  ghost predicate Fair(call: Call) {
    forall n, d | d > 0 :: 0 <= call.draw(n, d) < d
  }

  /** The longest jittered step, or the longest Retry-After honoured. */
  function Longest(p: Policy): (d: int)
    ensures d > 0
  {
    Max(MaxDelay(p) + MaxDelay(p) / 2, MaxRetryAfter(p))
  }

  /** No wait is longer than the longest, and there is one fewer than attempts, so sleep is bounded. */
  lemma {:induction false} SleepIsBounded(call: Call, n: nat, server: Server)
    requires 0 < n <= Attempts(call) && Fair(call) && MaxDelay(call.policy) + MaxDelay(call.policy) / 2 <= MAX_INT64
    ensures Sum(From(call, n, server).waits) <= (Attempts(call) - n) * Longest(call.policy)
    decreases Attempts(call) - n
  {
    Scaled(Attempts(call) - n, Longest(call.policy));
    if call.fate(n).built && !Ends(call, n) {
      SleepIsBounded(call, n + 1, Delivered(call, n, server));
      WaitIsBounded(call, n);
    }
  }

  lemma Scaled(k: nat, d: int)
    requires d > 0
    ensures k * d >= 0 && (k > 0 ==> k * d == (k - 1) * d + d >= d)
  {
  }

  lemma WaitIsBounded(call: Call, n: nat)
    requires 0 < n && Fair(call) && WaitAfter(call, n).Some? && MaxDelay(call.policy) + MaxDelay(call.policy) / 2 <= MAX_INT64
    ensures WaitAfter(call, n).value <= Longest(call.policy)
  {
    var d := Step(call.policy, n);
    assert 0 <= call.draw(n, d) < d;
    DrawExactly(call.policy, n, call.draw(n, d));
  }

  // ---------------------------------------------------------------------------------------------
  // At most once
  // ---------------------------------------------------------------------------------------------

  /**
   * A call with a fresh key takes effect exactly once if any of its sends was executed, and not at
   * all otherwise, under every pattern of lost replies and retryable statuses.
   */
  lemma {:induction false} KeyedOnce(call: Call, n: nat, server: Server)
    requires 0 < n <= Attempts(call) && call.key.Some?
    ensures var r := From(call, n, server);
            r.server.effects == server.effects +
              if call.key.value !in server.executed && SomeExecuted(call, n, r.sends) then 1 else 0
    decreases Attempts(call) - n
  {
    var after := Delivered(call, n, server);
    var r := From(call, n, server);
    if call.fate(n).built {
      assert r.sends > 0;
      if call.fate(n).executed { assert SomeExecuted(call, n, r.sends); }
      if !Ends(call, n) && !(WaitAfter(call, n).value > 0 && call.fate(n).interrupted) {
        KeyedOnce(call, n + 1, after);
        SomeExecutedNext(call, n, r.sends);
      } else {
        assert r.sends == 1;
      }
    }
  }

  ghost predicate SomeExecuted(call: Call, n: nat, sends: nat) {
    exists i :: n <= i < n + sends && call.fate(i).executed
  }

  lemma SomeExecutedNext(call: Call, n: nat, sends: nat)
    requires sends > 0
    ensures SomeExecuted(call, n, sends) <==> call.fate(n).executed || SomeExecuted(call, n + 1, sends - 1)
  {
    if SomeExecuted(call, n, sends) {
      var i :| n <= i < n + sends && call.fate(i).executed;
      assert i == n || n + 1 <= i < (n + 1) + (sends - 1);
    }
    if SomeExecuted(call, n + 1, sends - 1) {
      var i :| n + 1 <= i < (n + 1) + (sends - 1) && call.fate(i).executed;
      assert n <= i < n + sends;
    }
  }

  /** The policy a cloud call is sent with: an unsafe call without a key is never repeated. */
  function CloudPolicy(policy: Policy, safe: bool, key: Option<nat>): Policy {
    if !safe && key.None? then policy.(retryUnsafeMethods := false) else policy
  }

  lemma {:induction false} EffectsFrom(call: Call, n: nat, server: Server)
    requires 0 < n <= Attempts(call)
    ensures From(call, n, server).server.effects <= server.effects + From(call, n, server).sends
    decreases Attempts(call) - n
  {
    if call.fate(n).built && !Ends(call, n) { EffectsFrom(call, n + 1, Delivered(call, n, server)); }
  }

  /** Every unsafe cloud call takes effect at most once, key or no key. */
  lemma CloudCallOnce(policy: Policy, key: Option<nat>, fate: nat -> Fate, draw: (nat, int) -> int, server: Server)
    ensures var call := Call(CloudPolicy(policy, false, key), false, key, fate, draw);
            From(call, 1, server).server.effects <= server.effects + 1
  {
    var call := Call(CloudPolicy(policy, false, key), false, key, fate, draw);
    if key.Some? {
      KeyedOnce(call, 1, server);
    } else {
      SendsAtMost(call, server);
      EffectsFrom(call, 1, server);
    }
  }

  /** Without that guard a lost reply would make an unsafe call without a key take effect twice. */
  lemma GuardIsNeeded(draw: (nat, int) -> int, server: Server)
    ensures var call := Call(Policy(2, 0, 0, 0, true), false, None, n => Fate(true, true, None, false, false), draw);
            From(call, 1, server).server.effects == server.effects + 2
  {
    var call := Call(Policy(2, 0, 0, 0, true), false, None, n => Fate(true, true, None, false, false), draw);
    assert From(call, 2, Delivered(call, 1, server)).server.effects == server.effects + 2;
  }
}
