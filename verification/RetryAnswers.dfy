/**
 * Which replies are asked for again and which are returned, over a whole call: a status is named by
 * its number, a limit by its duration.
 */
module RetryAnswers {
  import opened Basics
  import opened Retry

  /** Request timeout, too early, too many requests, and the server errors that may pass. */
  predicate MayPass(status: int) {
    || status == 408 || status == 425 || status == 429
    || status == 500 || status == 502 || status == 503 || status == 504
  }

  /** The longest Retry-After that is waited for: what the policy says, 30 s if it says nothing. */
  function LongestAsked(p: Policy): int {
    if p.maxRetryAfter > 0 then p.maxRetryAfter else 30_000_000_000
  }

  /** How often a call may be sent: once if it is unsafe and not opted in, at least once in any case. */
  function Allowed(call: Call): nat {
    if (call.safe || call.policy.retryUnsafeMethods) && call.policy.maxAttempts > 1 then call.policy.maxAttempts else 1
  }

  /** A reply worth another try: its status may pass, and the server does not ask for too long a wait. */
  predicate WorthAnother(call: Call, reply: Response) {
    MayPass(reply.status) && (reply.retryAfter.Some? ==> reply.retryAfter.value <= LongestAsked(call.policy))
  }

  /** The `n`-th send calls for another: its reply was lost, other than by the caller's cancelling, or is worth it. */
  predicate CallsForAnother(call: Call, n: nat) {
    var fate := call.fate(n);
    match fate.reply
    case None => !fate.cancelled
    case Some(reply) => WorthAnother(call, reply)
  }

  /** The wait after it: what the server asks for, or else the jittered step. */
  function Pause(call: Call, n: nat): int
    requires n > 0
  {
    var reply := call.fate(n).reply;
    if reply.Some? && reply.value.retryAfter.Some? then reply.value.retryAfter.value
    else Backoff(call.policy, n, call.draw(n, Step(call.policy, n)))
  }

  predicate CutShort(call: Call, n: nat)
    requires n > 0
  {
    Pause(call, n) > 0 && call.fate(n).interrupted
  }

  /** The `n`-th attempt is followed by the next. */
  predicate GoesOn(call: Call, n: nat)
    requires n > 0
  {
    call.fate(n).built && CallsForAnother(call, n) && n < Allowed(call) && !CutShort(call, n)
  }

  /** How the `m`-th attempt, the last, ends the call, and whether after a wait. */
  predicate EndsWith(call: Call, m: nat, outcome: Outcome, waited: bool)
    requires m > 0
  {
    var fate := call.fate(m);
    if !fate.built then outcome == NotBuilt && !waited
    else if CallsForAnother(call, m) && m < Allowed(call) then
      CutShort(call, m) && waited && outcome == if fate.reply.None? then Unanswered else Interrupted
    else
      !waited && outcome == if fate.reply.None? then Unanswered else Answer(fate.reply.value)
  }

  /** The `n`-th to the `m`-th attempt were made, in this way. */
  ghost predicate Tells(call: Call, n: nat, m: nat, r: Result)
    requires n > 0
  {
    && n <= m <= Allowed(call)
    && (forall i | n <= i < m :: GoesOn(call, i)) && !GoesOn(call, m)
    && r.sends == m - n + (if call.fate(m).built then 1 else 0)
    && EndsWith(call, m, r.outcome, |r.waits| > m - n)
    && m - n <= |r.waits| <= m - n + 1
    && (forall i | 0 <= i < |r.waits| :: r.waits[i] == Pause(call, n + i))
  }

  lemma EndsExactly(call: Call, n: nat)
    requires 0 < n <= Attempts(call)
    ensures Attempts(call) == Allowed(call)
    ensures Ends(call, n) <==> !CallsForAnother(call, n) || n >= Allowed(call)
    ensures !Ends(call, n) ==> WaitAfter(call, n) == Some(Pause(call, n))
  {
  }

  /**
   * The whole call: it is sent again exactly after each attempt that calls for it, while attempts are
   * left and the caller waits; every wait is the one the server asks for, if it does; and the first
   * attempt that is not followed by another decides how the call ends.
   */
  lemma {:induction false} CallExactly(call: Call, n: nat, server: Server) returns (m: nat)
    requires 0 < n <= Attempts(call)
    ensures Tells(call, n, m, From(call, n, server))
    decreases Attempts(call) - n
  {
    m := n;
    EndsExactly(call, n);
    if GoesOn(call, n) {
      m := CallExactly(call, n + 1, Delivered(call, n, server));
      TellsNext(call, n, m, From(call, n + 1, Delivered(call, n, server)), From(call, n, server));
    }
  }

  lemma TellsNext(call: Call, n: nat, m: nat, rest: Result, r: Result)
    requires 0 < n && GoesOn(call, n) && Tells(call, n + 1, m, rest)
    requires r.outcome == rest.outcome && r.sends == rest.sends + 1 && r.waits == [Pause(call, n)] + rest.waits
    ensures Tells(call, n, m, r)
  {
    forall i | 0 <= i < |r.waits| ensures r.waits[i] == Pause(call, n + i) {
      if i > 0 { assert rest.waits[i - 1] == Pause(call, n + 1 + (i - 1)); }
    }
  }

  /**
   * A status that cannot pass is answered at once; one that may is answered only by the last attempt
   * allowed, or when the server asks for too long a wait.
   */
  lemma AnswersExactly(call: Call, server: Server)
    ensures var r := From(call, 1, server);
            && (forall i | 1 <= i < r.sends && call.fate(i).reply.Some? :: WorthAnother(call, call.fate(i).reply.value))
            && (r.outcome.Answer? && WorthAnother(call, r.outcome.response) ==> r.sends == Allowed(call))
  {
    var m := CallExactly(call, 1, server);
    forall i | 1 <= i < From(call, 1, server).sends && call.fate(i).reply.Some?
      ensures WorthAnother(call, call.fate(i).reply.value)
    {
      assert GoesOn(call, i);
    }
  }

  /** A call whose every reply is 200 is sent once and answered so; one whose every reply is 503 is sent as often as allowed. */
  lemma SteadyReplies(call: Call, reply: Response, server: Server)
    requires forall i :: call.fate(i).built && !call.fate(i).interrupted && call.fate(i).reply == Some(reply)
    ensures From(call, 1, server).outcome == Answer(reply)
    ensures From(call, 1, server).sends == if WorthAnother(call, reply) then Allowed(call) else 1
  {
    var m := CallExactly(call, 1, server);
    assert m > 1 ==> GoesOn(call, 1);
  }

  /** A cloud call may be sent as often as its policy says, but an unsafe one without a key, or not opted in, once. */
  lemma CloudCallAllowed(policy: Policy, safe: bool, key: Option<nat>, fate: nat -> Fate, draw: (nat, int) -> int, server: Server)
    ensures var call := Call(CloudPolicy(policy, safe, key), safe, key, fate, draw);
            && Allowed(call) == Attempts(call)
            && Allowed(call) == (if safe || (policy.retryUnsafeMethods && key.Some?) then Max(1, policy.maxAttempts) else 1)
            && LongestAsked(call.policy) == LongestAsked(policy)
  {
  }
}
