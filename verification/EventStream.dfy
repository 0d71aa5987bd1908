/**
 * A run's event stream, resumed across dropped connections. Every connection replays the run's
 * events from the start and may be cut anywhere; what the caller already has is skipped by count.
 */
module EventStream {
  import opened Basics

  datatype Event = Event(body: nat, terminal: bool)

  /** What opening the stream once more gets: an error, or some frames and then an end, clean or not. */
  datatype Connection = Refused(error: nat) | Opened(frames: seq<Event>, fault: Option<nat>)

  datatype Error = Given(error: nat) | EndedBeforeTerminal

  datatype Item = Got(event: Event) | Fault(why: Error)

  // ---------------------------------------------------------------------------------------------
  // The loop
  // ---------------------------------------------------------------------------------------------

  ghost predicate NoTerminal(s: seq<Event>, upTo: int) {
    forall i | 0 <= i < |s| && i < upTo :: !s[i].terminal
  }

  /** How many events there are up to the first terminal one, that one included. */
  function Cut(s: seq<Event>): (k: nat)
    ensures k <= |s| && NoTerminal(s, k - 1)
    ensures k < |s| ==> k > 0 && s[k - 1].terminal
  {
    if s == [] then 0
    else if s[0].terminal then 1
    else
      var k := Cut(s[1..]);
      assert forall i | 1 <= i < |s| :: s[i] == s[1..][i - 1];
      k + 1
  }

  /** The events up to the first terminal one, that one included. */
  function UpToTerminal(s: seq<Event>): seq<Event> { s[..Cut(s)] }

  /** There is one place to cut. */
  lemma CutIs(s: seq<Event>, k: nat)
    requires k <= |s| && NoTerminal(s, k - 1) && (k == |s| || (k > 0 && s[k - 1].terminal))
    ensures Cut(s) == k
  {
  }

  predicate EndsInTerminal(s: seq<Event>) { s != [] && s[|s| - 1].terminal }

  /** The frames of a connection that the caller has not had, as far as they are delivered. */
  function News(got: seq<Event>, frames: seq<Event>): seq<Event> {
    if |frames| <= |got| then [] else UpToTerminal(frames[|got|..])
  }

  datatype Session = Session(got: seq<Event>, attempts: nat, opens: nat, ended: bool, error: Option<Error>)

  const Begin := Session([], 0, 0, false, None)

  /** The connection showed `news` and is over. */
  function Over(s: Session, news: seq<Event>, fault: Option<nat>, budget: nat): Session {
    if EndsInTerminal(news) then Session(s.got + news, s.attempts, s.opens + 1, true, s.error)
    else if s.attempts + 1 > budget then
      Session(s.got + news, s.attempts + 1, s.opens + 1, true, Some(if fault.Some? then Given(fault.value) else EndedBeforeTerminal))
    else Session(s.got + news, s.attempts + 1, s.opens + 1, false, None)
  }

  /** One connection. */
  function Connect(s: Session, c: Connection, budget: nat): Session {
    if s.ended then s
    else
      match c
      case Refused(e) => Session(s.got, s.attempts, s.opens + 1, true, Some(Given(e)))
      case Opened(frames, fault) => Over(s, News(s.got, frames), fault, budget)
  }

  function Sessions(connect: nat -> Connection, budget: nat, n: nat): Session {
    if n == 0 then Begin else Connect(Sessions(connect, budget, n - 1), connect(n - 1), budget)
  }

  function Gots(events: seq<Event>): seq<Item> {
    seq(|events|, i requires 0 <= i < |events| => Got(events[i]))
  }

  /** What the caller is handed in all: the events, and the error the stream ended with. */
  function Items(s: Session): seq<Item> {
    Gots(s.got) + if s.error.Some? then [Fault(s.error.value)] else []
  }

  /** `Events`, with at most `budget` reconnects. */
  method Events(connect: nat -> Connection, budget: nat) returns (items: seq<Item>, opens: nat)
    ensures var s := Sessions(connect, budget, budget + 1); s.ended && items == Items(s) && opens == s.opens
  {
    items, opens := ReadToEnd(connect, budget);
    StaysEnded(connect, budget, opens, budget + 1);
  }

  /** Connections until the stream ends. */
  method ReadToEnd(connect: nat -> Connection, budget: nat) returns (items: seq<Item>, opens: nat)
    ensures var s := Sessions(connect, budget, opens);
            s.ended && items == Items(s) && opens == s.opens <= budget + 1
  {
    items, opens := [], 0;
    ghost var s := Begin;
    var delivered: nat, attempts: nat, ended: bool := 0, 0, false;
    while !ended
      invariant s == Sessions(connect, budget, opens) && s.opens == opens
      invariant InStep(s, items, delivered, attempts, ended)
      invariant if ended then opens <= budget + 1 else opens == attempts <= budget
      decreases !ended, budget - attempts
    {
      var c := connect(opens);
      items, delivered, attempts, ended := ReadOn(c, budget, items, delivered, attempts, s);
      s := Connect(s, c, budget);
      opens := opens + 1;
    }
  }

  /** The loop's variables hold the session. */
  ghost predicate InStep(s: Session, items: seq<Item>, delivered: nat, attempts: nat, ended: bool) {
    items == Items(s) && delivered == |s.got| && attempts == s.attempts && ended == s.ended && (!ended ==> s.error.None?)
  }

  /** One connection: what it delivers, and whether the stream ends with it. */
  method ReadOn(c: Connection, budget: nat, before: seq<Item>, had: nat, drops: nat, ghost s: Session)
    returns (items: seq<Item>, delivered: nat, attempts: nat, ended: bool)
    requires InStep(s, before, had, drops, false)
    ensures InStep(Connect(s, c, budget), items, delivered, attempts, ended)
    ensures Connect(s, c, budget).opens == s.opens + 1 && (!ended ==> attempts == drops + 1 <= budget)
  {
    items, delivered, attempts, ended := before, had, drops, true;
    match c {
      case Refused(e) => items := items + [Fault(Given(e))];
      case Opened(frames, fault) =>
        var more, terminal := Read(frames, delivered, s.got);
        assert Gots(s.got) + Gots(News(s.got, frames)) == Gots(s.got + News(s.got, frames));
        items := items + more;
        delivered := delivered + |more|;
        if terminal { return; }
        attempts := attempts + 1;
        if attempts > budget {
          items := items + [Fault(if fault.Some? then Given(fault.value) else EndedBeforeTerminal)];
        } else {
          ended := false;
        }
    }
  }

  /** The frames of one connection: skip what was delivered, stop after a terminal one. */
  method Read(frames: seq<Event>, delivered: nat, ghost got: seq<Event>) returns (more: seq<Item>, terminal: bool)
    requires delivered == |got|
    ensures more == Gots(News(got, frames)) && terminal == EndsInTerminal(News(got, frames))
  {
    more, terminal := [], false;
    var seen := 0;
    for i := 0 to |frames|
      invariant seen == i && !terminal
      invariant i <= delivered ==> more == []
      invariant i > delivered ==> NoTerminal(frames[delivered..], i - delivered) && more == Gots(frames[delivered..i])
    {
      seen := seen + 1;
      if seen > delivered {
        assert frames[delivered..][i - delivered] == frames[i];
        more := more + [Got(frames[i])];
        assert more == Gots(frames[delivered..i + 1]);
        assert frames[delivered..i + 1] == frames[delivered..][..i + 1 - delivered];
        if frames[i].terminal {
          CutIs(frames[delivered..], i + 1 - delivered);
          return more, true;
        }
      }
    }
    if |frames| > delivered {
      CutIs(frames[delivered..], |frames| - delivered);
      assert frames[delivered..|frames|] == frames[delivered..][..|frames| - delivered];
    }
  }

  lemma {:induction false} StaysEnded(connect: nat -> Connection, budget: nat, n: nat, m: nat)
    requires n <= m && Sessions(connect, budget, n).ended
    ensures Sessions(connect, budget, m) == Sessions(connect, budget, n)
  {
    if n < m { StaysEnded(connect, budget, n, m - 1); }
  }

  // ---------------------------------------------------------------------------------------------
  // Against an append-only log
  // ---------------------------------------------------------------------------------------------

  /** Every connection replays the log from its start, cut somewhere. */
  ghost predicate Replays(connect: nat -> Connection, log: seq<Event>) {
    forall k | connect(k).Opened? :: IsPrefix(connect(k).frames, log)
  }

  /** The most frames any of the first `n` connections showed. */
  function Longest(connect: nat -> Connection, n: nat): nat {
    if n == 0 then 0
    else
      var c := connect(n - 1);
      if c.Opened? then Max(|c.frames|, Longest(connect, n - 1)) else Longest(connect, n - 1)
  }

  lemma UpToConcat(s: seq<Event>, t: seq<Event>)
    ensures UpToTerminal(s + t) == if EndsInTerminal(UpToTerminal(s)) then UpToTerminal(s) else s + UpToTerminal(t)
    ensures EndsInTerminal(UpToTerminal(s)) || UpToTerminal(s) == s
  {
    if EndsInTerminal(UpToTerminal(s)) {
      CutIs(s + t, Cut(s));
      assert (s + t)[..Cut(s)] == s[..Cut(s)];
    } else {
      forall i | 0 <= i < |s + t| && i < |s| + Cut(t) - 1 ensures !(s + t)[i].terminal {
        if i >= |s| { assert (s + t)[i] == t[i - |s|]; }
      }
      CutIs(s + t, |s| + Cut(t));
      assert (s + t)[..|s| + Cut(t)] == s + t[..Cut(t)];
    }
  }

  lemma {:induction false} LongestWithin(connect: nat -> Connection, log: seq<Event>, n: nat)
    requires Replays(connect, log)
    ensures Longest(connect, n) <= |log|
  {
    if n > 0 { LongestWithin(connect, log, n - 1); }
  }

  /** One connection, seen from the log. */
  lemma ConnectionExtends(log: seq<Event>, got: seq<Event>, frames: seq<Event>)
    requires IsPrefix(frames, log) && IsPrefix(got, log) && !EndsInTerminal(UpToTerminal(got))
    ensures got + News(got, frames) == UpToTerminal(log[..Max(|frames|, |got|)])
    ensures EndsInTerminal(News(got, frames)) <==> EndsInTerminal(UpToTerminal(log[..Max(|frames|, |got|)]))
  {
    if |frames| <= |got| {
      NothingNew(got);
    } else {
      FramesExtend(got, frames, frames[|got|..]);
    }
  }

  lemma NothingNew(got: seq<Event>)
    requires !EndsInTerminal(UpToTerminal(got))
    ensures got + [] == UpToTerminal(got)
  {
  }

  lemma FramesExtend(got: seq<Event>, frames: seq<Event>, rest: seq<Event>)
    requires |got| < |frames| && frames[..|got|] == got && rest == frames[|got|..] && !EndsInTerminal(UpToTerminal(got))
    ensures got + UpToTerminal(rest) == UpToTerminal(frames)
    ensures EndsInTerminal(UpToTerminal(rest)) <==> EndsInTerminal(UpToTerminal(frames))
  {
    assert frames == got + rest;
    UpToConcat(got, rest);
    assert UpToTerminal(rest) != [];
  }

  /** What a session has, after `n` connections to a server that replays the log, none ending the stream before the last. */
  ghost predicate HasExactly(connect: nat -> Connection, log: seq<Event>, budget: nat, n: nat, s: Session) {
    && Longest(connect, n) <= |log|
    && s.got == UpToTerminal(log[..Longest(connect, n)])
    && (!s.ended ==> !EndsInTerminal(s.got) && s.error.None? && s.attempts == n <= budget)
    && s.opens == n && n <= budget + 1
    && (EndsInTerminal(s.got) <==> s.ended && s.error.None?)
  }

  lemma StepHasExactly(connect: nat -> Connection, log: seq<Event>, budget: nat, n: nat, s: Session)
    requires Replays(connect, log) && HasExactly(connect, log, budget, n, s) && !s.ended
    ensures HasExactly(connect, log, budget, n + 1, Connect(s, connect(n), budget))
  {
    var k, c := Longest(connect, n), connect(n);
    assert UpToTerminal(log[..k]) == log[..k];
    LongestWithin(connect, log, n + 1);
    if c.Opened? { ConnectionExtends(log, s.got, c.frames); }
  }

  /** While the stream goes on the caller has exactly as much of the log as the best connection showed. */
  lemma {:induction false} GoingExactly(connect: nat -> Connection, log: seq<Event>, budget: nat, n: nat)
    requires Replays(connect, log) && !Sessions(connect, budget, n).ended
    ensures HasExactly(connect, log, budget, n, Sessions(connect, budget, n))
  {
    if n > 0 {
      GoesOn(Sessions(connect, budget, n - 1), connect(n - 1), budget);
      GoingExactly(connect, log, budget, n - 1);
      StepHasExactly(connect, log, budget, n - 1, Sessions(connect, budget, n - 1));
    }
  }

  lemma GoesOn(s: Session, c: Connection, budget: nat)
    requires !Connect(s, c, budget).ended
    ensures !s.ended && c.Opened? && s.attempts < budget && Connect(s, c, budget).attempts == s.attempts + 1
    ensures Connect(s, c, budget).error.None?
  {
  }

  /** A stream that goes on has opened every connection, and has reconnects left. */
  lemma {:induction false} StillGoing(connect: nat -> Connection, budget: nat, n: nat)
    requires !Sessions(connect, budget, n).ended
    ensures Sessions(connect, budget, n).attempts == n <= budget && Sessions(connect, budget, n).error.None?
    ensures forall j | 0 <= j < n :: connect(j).Opened?
  {
    if n > 0 {
      WasGoing(connect, budget, n);
      StillGoing(connect, budget, n - 1);
    }
  }

  lemma WasGoing(connect: nat -> Connection, budget: nat, n: nat)
    requires n > 0 && !Sessions(connect, budget, n).ended
    ensures var prev, s := Sessions(connect, budget, n - 1), Sessions(connect, budget, n);
            !prev.ended && connect(n - 1).Opened? && prev.attempts < budget && s.attempts == prev.attempts + 1 && s.error.None?
  {
    GoesOn(Sessions(connect, budget, n - 1), connect(n - 1), budget);
  }

  /** The number of the connection that ends the stream. */
  lemma {:induction false} FirstEnd(connect: nat -> Connection, budget: nat, m: nat) returns (n: nat)
    requires Sessions(connect, budget, m).ended
    ensures 1 <= n <= m && Sessions(connect, budget, n).ended && !Sessions(connect, budget, n - 1).ended
  {
    if Sessions(connect, budget, m - 1).ended { n := FirstEnd(connect, budget, m - 1); } else { n := m; }
  }

  /** That connection, the sessions before and after it, and the session of the whole call. */
  lemma LastSession(connect: nat -> Connection, log: seq<Event>, budget: nat) returns (n: nat, prev: Session, last: Session)
    requires Replays(connect, log)
    ensures 1 <= n <= budget + 1 && last == Sessions(connect, budget, budget + 1)
    ensures last.ended && !prev.ended && last == Connect(prev, connect(n - 1), budget)
    ensures HasExactly(connect, log, budget, n - 1, prev) && HasExactly(connect, log, budget, n, last)
    ensures forall j | 0 <= j < n - 1 :: connect(j).Opened?
  {
    n := EndIsReached(connect, budget);
    prev, last := Sessions(connect, budget, n - 1), Sessions(connect, budget, budget + 1);
    GoingExactly(connect, log, budget, n - 1);
    StepHasExactly(connect, log, budget, n - 1, prev);
  }

  lemma EndIsReached(connect: nat -> Connection, budget: nat) returns (n: nat)
    ensures 1 <= n <= budget + 1 && !Sessions(connect, budget, n - 1).ended && Sessions(connect, budget, budget + 1).ended
    ensures Sessions(connect, budget, budget + 1) == Connect(Sessions(connect, budget, n - 1), connect(n - 1), budget)
    ensures forall j | 0 <= j < n - 1 :: connect(j).Opened?
  {
    if !Sessions(connect, budget, budget + 1).ended { StillGoing(connect, budget, budget + 1); }
    n := FirstEnd(connect, budget, budget + 1);
    StillGoing(connect, budget, n - 1);
    StaysEnded(connect, budget, n, budget + 1);
  }

  /**
   * When the whole call is over, what the caller received is the log with no gap, no repeat, nothing
   * after a terminal event, and after at most `budget` reconnects; without a terminal event it ends
   * with an error.
   */
  lemma StreamIsPrefix(connect: nat -> Connection, log: seq<Event>, budget: nat)
    requires Replays(connect, log)
    ensures var s := Sessions(connect, budget, budget + 1);
            && s.ended && s.opens <= budget + 1
            && IsPrefix(s.got, log)
            && (forall i | 0 <= i < |s.got| - 1 :: !s.got[i].terminal)
            && (EndsInTerminal(s.got) <==> s.error.None?)
  {
    var n, prev, last := LastSession(connect, log, budget);
    ExactlyIsPrefix(log, Longest(connect, n), last.got);
  }

  lemma ExactlyIsPrefix(log: seq<Event>, k: nat, got: seq<Event>)
    requires k <= |log| && got == UpToTerminal(log[..k])
    ensures IsPrefix(got, log) && forall i | 0 <= i < |got| - 1 :: !got[i].terminal
    ensures EndsInTerminal(got) ==> got == UpToTerminal(log)
  {
    assert log[..k][..|got|] == log[..|got|];
    UpToConcat(log[..k], log[k..]);
    assert log == log[..k] + log[k..];
  }

  /** The `k`-th connection shows a terminal event, and none before it was refused. */
  ghost predicate ShownBy(connect: nat -> Connection, k: nat) {
    connect(k).Opened? && EndsInTerminal(UpToTerminal(connect(k).frames)) && forall j | 0 <= j < k :: connect(j).Opened?
  }

  /** The stream ends without an error exactly when a terminal event was shown in time, and then it is all delivered. */
  lemma EndsWellExactly(connect: nat -> Connection, log: seq<Event>, budget: nat)
    requires Replays(connect, log)
    ensures var s := Sessions(connect, budget, budget + 1);
            (s.error.None? <==> exists k :: 0 <= k <= budget && ShownBy(connect, k)) &&
            (s.error.None? ==> s.got == UpToTerminal(log))
  {
    var n, prev, last := LastSession(connect, log, budget);
    EndsWell(connect, log, budget, n, prev, last);
  }

  lemma EndsWell(connect: nat -> Connection, log: seq<Event>, budget: nat, n: nat, prev: Session, last: Session)
    requires Replays(connect, log) && 1 <= n <= budget + 1 && forall j | 0 <= j < n - 1 :: connect(j).Opened?
    requires HasExactly(connect, log, budget, n - 1, prev) && HasExactly(connect, log, budget, n, last)
    requires last.ended && !prev.ended && last == Connect(prev, connect(n - 1), budget)
    ensures last.error.None? <==> exists k :: 0 <= k <= budget && ShownBy(connect, k)
    ensures last.error.None? ==> last.got == UpToTerminal(log)
  {
    ExactlyIsPrefix(log, Longest(connect, n), last.got);
    if last.error.None? { LastShows(connect, log, budget, n, prev); }
    forall k | 0 <= k <= budget && ShownBy(connect, k) ensures last.error.None? {
      ShownEndsWell(connect, log, budget, n, prev, k);
    }
  }

  lemma LastShows(connect: nat -> Connection, log: seq<Event>, budget: nat, n: nat, prev: Session)
    requires Replays(connect, log) && 1 <= n <= budget + 1 && forall j | 0 <= j < n - 1 :: connect(j).Opened?
    requires HasExactly(connect, log, budget, n - 1, prev) && !prev.ended
    requires var last := Connect(prev, connect(n - 1), budget); last.ended && last.error.None?
    ensures ShownBy(connect, n - 1)
  {
    var frames := connect(n - 1).frames;
    assert EndsInTerminal(News(prev.got, frames));
    assert prev.got == log[..Longest(connect, n - 1)];
    PrefixAgain(prev.got, frames, log);
    FramesExtend(prev.got, frames, frames[|prev.got|..]);
  }

  lemma PrefixAgain(got: seq<Event>, frames: seq<Event>, log: seq<Event>)
    requires IsPrefix(got, log) && IsPrefix(frames, log) && |got| <= |frames|
    ensures frames[..|got|] == got
  {
  }

  lemma ShownEndsWell(connect: nat -> Connection, log: seq<Event>, budget: nat, n: nat, prev: Session, k: nat)
    requires Replays(connect, log) && 1 <= n <= budget + 1 && k <= budget && ShownBy(connect, k)
    requires HasExactly(connect, log, budget, n - 1, prev) && !prev.ended
    requires HasExactly(connect, log, budget, n, Connect(prev, connect(n - 1), budget)) && Connect(prev, connect(n - 1), budget).ended
    ensures Connect(prev, connect(n - 1), budget).error.None?
  {
    if k < n {
      LongestCovers(connect, n, k);
      ShownInLongest(log, Longest(connect, n), connect(k).frames);
    } else {
      assert connect(n - 1).Opened?;
    }
  }

  lemma ShownInLongest(log: seq<Event>, k: nat, frames: seq<Event>)
    requires |frames| <= k <= |log| && IsPrefix(frames, log) && EndsInTerminal(UpToTerminal(frames))
    ensures EndsInTerminal(UpToTerminal(log[..k]))
  {
    assert log[..k] == frames + log[..k][|frames|..];
    UpToConcat(frames, log[..k][|frames|..]);
  }

  /** No connection within the budget is refused or shows a terminal event. */
  ghost predicate AllOpenedWithoutTerminal(connect: nat -> Connection, budget: nat) {
    forall k | 0 <= k <= budget :: connect(k).Opened? && !EndsInTerminal(UpToTerminal(connect(k).frames))
  }

  /**
   * The stream ends with the error made for it, and not one it was given, exactly when every
   * connection in the budget opens, none shows a terminal event, and the last ends cleanly.
   */
  lemma CleanEndIsReportedExactly(connect: nat -> Connection, log: seq<Event>, budget: nat)
    requires Replays(connect, log)
    ensures Sessions(connect, budget, budget + 1).error == Some(EndedBeforeTerminal) <==>
            AllOpenedWithoutTerminal(connect, budget) && connect(budget).fault.None?
  {
    var n, prev, last := LastSession(connect, log, budget);
    EndsWell(connect, log, budget, n, prev, last);
    ReportedByLast(connect, log, budget, n, prev, last);
  }

  lemma ReportedByLast(connect: nat -> Connection, log: seq<Event>, budget: nat, n: nat, prev: Session, last: Session)
    requires 1 <= n <= budget + 1 && forall j | 0 <= j < n - 1 :: connect(j).Opened?
    requires HasExactly(connect, log, budget, n - 1, prev) && !prev.ended
    requires last == Connect(prev, connect(n - 1), budget) && last.ended
    requires last.error.None? <==> exists k :: 0 <= k <= budget && ShownBy(connect, k)
    ensures last.error == Some(EndedBeforeTerminal) <==> AllOpenedWithoutTerminal(connect, budget) && connect(budget).fault.None?
  {
    if AllOpenedWithoutTerminal(connect, budget) {
      forall k | 0 <= k <= budget ensures !ShownBy(connect, k) {}
      assert connect(n - 1).Opened?;
    }
    if last.error == Some(EndedBeforeTerminal) {
      forall k | 0 <= k <= budget ensures connect(k).Opened? && !EndsInTerminal(UpToTerminal(connect(k).frames)) {
        assert !ShownBy(connect, k);
      }
    }
  }

  /**
   * The error handed on is that of the last connection opened: of its refusal, or of its fault, when
   * no reconnect is left.
   */
  lemma GivenErrorExactly(connect: nat -> Connection, budget: nat, error: nat)
    requires Sessions(connect, budget, budget + 1).error == Some(Given(error))
    ensures var s := Sessions(connect, budget, budget + 1);
            && 1 <= s.opens <= budget + 1
            && var c := connect(s.opens - 1);
            c == Refused(error) || (c.Opened? && c.fault == Some(error) && s.opens == budget + 1)
  {
    var n, prev := LastGoing(connect, budget);
    GivenByConnection(prev, connect(n - 1), budget, error);
  }

  lemma LastGoing(connect: nat -> Connection, budget: nat) returns (n: nat, prev: Session)
    ensures 1 <= n <= budget + 1 && !prev.ended && prev.error.None? && prev.attempts == prev.opens == n - 1
    ensures Sessions(connect, budget, budget + 1) == Connect(prev, connect(n - 1), budget)
  {
    n := EndIsReached(connect, budget);
    prev := Sessions(connect, budget, n - 1);
    StillGoing(connect, budget, n - 1);
    OpensGoing(connect, budget, n - 1);
  }

  lemma GivenByConnection(s: Session, c: Connection, budget: nat, error: nat)
    requires !s.ended && s.error.None? && s.attempts <= budget && Connect(s, c, budget).error == Some(Given(error))
    ensures Connect(s, c, budget).opens == s.opens + 1
    ensures c == Refused(error) || (c.Opened? && c.fault == Some(error) && s.attempts == budget)
  {
  }

  lemma {:induction false} OpensGoing(connect: nat -> Connection, budget: nat, n: nat)
    requires !Sessions(connect, budget, n).ended
    ensures Sessions(connect, budget, n).opens == n
  {
    if n > 0 {
      WasGoing(connect, budget, n);
      OpensGoing(connect, budget, n - 1);
    }
  }

  lemma {:induction false} LongestCovers(connect: nat -> Connection, n: nat, j: nat)
    requires j < n && connect(j).Opened?
    ensures |connect(j).frames| <= Longest(connect, n)
  {
    if j < n - 1 { LongestCovers(connect, n - 1, j); }
  }

  /**
   * A run that has already finished is said to show its terminal event alone, which is no replay of
   * the log: after a drop that event is noticed exactly when nothing had been delivered before it.
   */
  lemma FinishedRunSeenExactly(connect: nat -> Connection, budget: nat, n: nat, last: Event)
    requires last.terminal && n <= budget && !Sessions(connect, budget, n).ended
    requires forall k | n <= k :: connect(k) == Opened([last], None)
    ensures Sessions(connect, budget, budget + 1).error.None? <==> Sessions(connect, budget, n).got == []
  {
    StillGoing(connect, budget, n);
    if Sessions(connect, budget, n).got != [] {
      LoneEventIsSkipped(connect, budget, n, budget, last, Sessions(connect, budget, n).got);
      BudgetUsedUp(Sessions(connect, budget, budget), last, budget);
    } else {
      LoneEventIsSeen(Sessions(connect, budget, n), last, budget);
      StaysEnded(connect, budget, n + 1, budget + 1);
    }
  }

  lemma LoneEventIsSeen(s: Session, last: Event, budget: nat)
    requires last.terminal && !s.ended && s.error.None? && s.got == []
    ensures var t := Connect(s, Opened([last], None), budget); t.ended && t.error.None?
  {
    assert [last][0..] == [last];
    CutIs([last], 1);
  }

  lemma BudgetUsedUp(s: Session, last: Event, budget: nat)
    requires !s.ended && s.got != [] && s.attempts == budget
    ensures Connect(s, Opened([last], None), budget).error.Some?
  {
  }

  /** The stream goes on after `m` connections, with `got` delivered. */
  predicate GoesOnWith(s: Session, got: seq<Event>, m: nat) {
    !s.ended && s.error.None? && s.got == got && s.attempts == m
  }

  lemma LoneEventSkipped(s: Session, last: Event, budget: nat, got: seq<Event>, m: nat)
    requires GoesOnWith(s, got, m) && got != [] && m < budget
    ensures GoesOnWith(Connect(s, Opened([last], None), budget), got, m + 1)
  {
    assert s.got + [] == s.got;
  }

  /** A lone terminal event after something was delivered is skipped as a replay, every time. */
  lemma {:induction false} LoneEventIsSkipped(connect: nat -> Connection, budget: nat, n: nat, m: nat, last: Event, got: seq<Event>)
    requires n <= m <= budget && got != [] && GoesOnWith(Sessions(connect, budget, n), got, n)
    requires forall k | n <= k :: connect(k) == Opened([last], None)
    ensures GoesOnWith(Sessions(connect, budget, m), got, m)
  {
    if n < m {
      LoneEventIsSkipped(connect, budget, n, m - 1, last, got);
      LoneEventSkipped(Sessions(connect, budget, m - 1), last, budget, got, m - 1);
    }
  }
}
