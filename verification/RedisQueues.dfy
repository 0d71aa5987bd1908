/**
 * One user's queue in Redis, and the commands on their way out of it. Each step is one Redis
 * command (or the writing of a poll's answer), by any client, in any order. Users' keys are
 * independent, so one queue is the whole story of its commands.
 */
module RedisQueues {
  import opened Basics
  import opened BridgeTypes

  /** `polls` are the hands of polls not yet answered; `handed`, `withdrawn` and `dropped` are history. */
  datatype Queue = Queue(
    sent: seq<Command>,
    list: seq<Command>,
    polls: seq<seq<Command>>,
    handed: seq<Command>,
    withdrawn: seq<Command>,
    dropped: seq<Command>)

  const EmptyQueue := Queue([], [], [], [], [], [])

  datatype Move =
    | PushBack(command: Command)
    | Pop(max: int)
    | PutBack(poll: nat)
    | Answer(poll: nat, nowSeconds: int)
    | Remove(command: Command)
    | ExpireKey

  /** A poll acts once, and command ids are fresh. */
  ghost predicate Allowed(q: Queue, m: Move) {
    match m
    case PushBack(c) => forall d | d in q.sent :: d.id != c.id
    case PutBack(poll) => poll < |q.polls|
    case Answer(poll, _) => poll < |q.polls|
    case _ => true
  }

  function Startable(commands: seq<Command>, nowSeconds: int, wanted: bool): seq<Command> {
    if commands == [] then []
    else
      (if (commands[0].expiresAt > nowSeconds) == wanted then [commands[0]] else []) +
      Startable(commands[1..], nowSeconds, wanted)
  }

  /** `LREM key 1 value`: the list without the first equal value. */
  function WithoutOne(list: seq<Command>, c: Command): seq<Command> {
    if list == [] then []
    else if list[0] == c then list[1..]
    else [list[0]] + WithoutOne(list[1..], c)
  }

  function Step(q: Queue, m: Move): Queue
    requires m.PutBack? || m.Answer? ==> m.poll < |q.polls|
  {
    match m
    case PushBack(c) => q.(sent := q.sent + [c], list := q.list + [c])
    case Pop(max) =>
      var n := Min(Max(1, max), |q.list|);
      q.(list := q.list[n..], polls := q.polls + [q.list[..n]])
    case PutBack(poll) =>
      q.(list := q.polls[poll] + q.list, polls := q.polls[poll := []])
    case Answer(poll, nowSeconds) =>
      q.(polls := q.polls[poll := []],
         handed := q.handed + Startable(q.polls[poll], nowSeconds, true),
         dropped := q.dropped + Startable(q.polls[poll], nowSeconds, false))
    case Remove(c) =>
      if c in q.list then q.(list := WithoutOne(q.list, c), withdrawn := q.withdrawn + [c]) else q
    case ExpireKey => q.(list := [], dropped := q.dropped + q.list)
  }

  /** Everything in the polls' hands. */
  function InHands(polls: seq<seq<Command>>): multiset<Command> {
    if polls == [] then multiset{} else multiset(polls[0]) + InHands(polls[1..])
  }

  /** Where commands can be, all together. */
  function Everywhere(q: Queue): multiset<Command> {
    multiset(q.list) + InHands(q.polls) + multiset(q.handed) + multiset(q.withdrawn) + multiset(q.dropped)
  }

  lemma {:induction false} OneMorePoll(polls: seq<seq<Command>>, hand: seq<Command>)
    ensures InHands(polls + [hand]) == InHands(polls) + multiset(hand)
  {
    if polls == [] {
      assert polls + [hand] == [hand] && [hand][1..] == [];
    } else {
      OneMorePoll(polls[1..], hand);
      assert (polls + [hand])[1..] == polls[1..] + [hand];
    }
  }

  lemma {:induction false} EmptiedPoll(polls: seq<seq<Command>>, poll: nat)
    requires poll < |polls|
    ensures InHands(polls[poll := []]) + multiset(polls[poll]) == InHands(polls)
  {
    var after := polls[poll := []];
    if poll == 0 {
      assert after[1..] == polls[1..];
    } else {
      EmptiedPoll(polls[1..], poll - 1);
      assert after[1..] == polls[1..][poll - 1 := []];
    }
  }

  lemma {:induction false} StartableSplits(commands: seq<Command>, nowSeconds: int)
    ensures multiset(Startable(commands, nowSeconds, true)) + multiset(Startable(commands, nowSeconds, false)) == multiset(commands)
    ensures forall c | c in Startable(commands, nowSeconds, true) :: c.expiresAt > nowSeconds
  {
    if commands != [] {
      StartableSplits(commands[1..], nowSeconds);
      assert commands == [commands[0]] + commands[1..];
    }
  }

  lemma {:induction false} WithoutOneLess(list: seq<Command>, c: Command)
    requires c in list
    ensures multiset(WithoutOne(list, c)) + multiset{c} == multiset(list)
  {
    assert list == [list[0]] + list[1..];
    if list[0] != c { WithoutOneLess(list[1..], c); }
  }

  lemma PopConserves(q: Queue, max: int)
    ensures Everywhere(Step(q, Pop(max))) == Everywhere(q)
  {
    var n := Min(Max(1, max), |q.list|);
    OneMorePoll(q.polls, q.list[..n]);
    assert q.list == q.list[..n] + q.list[n..];
  }

  lemma PollConserves(q: Queue, m: Move)
    requires (m.PutBack? || m.Answer?) && m.poll < |q.polls|
    ensures Everywhere(Step(q, m)) == Everywhere(q)
  {
    EmptiedPoll(q.polls, m.poll);
    if m.Answer? { StartableSplits(q.polls[m.poll], m.nowSeconds); }
  }

  /** No step loses or doubles a command: where they are is always what was sent. */
  lemma StepConserves(q: Queue, m: Move)
    requires Allowed(q, m) && Everywhere(q) == multiset(q.sent)
    ensures Everywhere(Step(q, m)) == multiset(Step(q, m).sent)
  {
    match m {
      case Pop(max) => PopConserves(q, max);
      case PutBack(_) => PollConserves(q, m);
      case Answer(_, _) => PollConserves(q, m);
      case Remove(c) => if c in q.list { WithoutOneLess(q.list, c); }
      case _ =>
    }
  }

  // ---------------------------------------------------------------------------------------------
  // Runs
  // ---------------------------------------------------------------------------------------------

  ghost predicate StepAt(qs: seq<Queue>, ms: seq<Move>, i: nat)
    requires i < |ms| < |qs|
  {
    Allowed(qs[i], ms[i]) && qs[i + 1] == Step(qs[i], ms[i])
  }

  /** `qs` are the states of a run whose moves are `ms`. */
  ghost predicate IsRun(qs: seq<Queue>, ms: seq<Move>) {
    |qs| == |ms| + 1 && qs[0] == EmptyQueue && forall i | 0 <= i < |ms| :: StepAt(qs, ms, i)
  }

  /** No command was sent twice. */
  ghost predicate SentOnce(sent: seq<Command>) {
    forall i, j | 0 <= i < j < |sent| :: sent[i].id != sent[j].id
  }

  ghost predicate Conserved(q: Queue) {
    Everywhere(q) == multiset(q.sent) && SentOnce(q.sent)
  }

  lemma StepKeepsConserved(q: Queue, m: Move)
    requires Allowed(q, m) && Conserved(q)
    ensures Conserved(Step(q, m))
  {
    StepConserves(q, m);
  }

  lemma {:induction false} RunConserves(qs: seq<Queue>, ms: seq<Move>, i: nat)
    requires IsRun(qs, ms) && i < |qs|
    ensures Conserved(qs[i])
  {
    if i > 0 {
      RunConserves(qs, ms, i - 1);
      assert StepAt(qs, ms, i - 1);
      StepKeepsConserved(qs[i - 1], ms[i - 1]);
    }
  }

  lemma {:induction false} CountOnce(sent: seq<Command>, c: Command)
    requires SentOnce(sent) && c in sent
    ensures multiset(sent)[c] == 1
  {
    var init, last := sent[..|sent| - 1], sent[|sent| - 1];
    assert sent == init + [last];
    if c == last {
      assert forall d | d in init :: d.id != last.id;
      assert c !in multiset(init);
    } else {
      CountOnce(init, c);
    }
  }

  /**
   * In every reachable state a command that was sent is in exactly one place, once: the list, one
   * poll's hands, handed to a page, withdrawn, or dropped as expired.
   */
  lemma ExactlyOnePlace(qs: seq<Queue>, ms: seq<Move>, i: nat, c: Command)
    requires IsRun(qs, ms) && i < |qs| && c in qs[i].sent
    ensures var q := qs[i];
            multiset(q.list)[c] + InHands(q.polls)[c] + multiset(q.handed)[c] + multiset(q.withdrawn)[c] + multiset(q.dropped)[c] == 1
  {
    RunConserves(qs, ms, i);
    CountOnce(qs[i].sent, c);
    assert Everywhere(qs[i])[c] == 1;
  }

  lemma HistoryGrows(q: Queue, m: Move)
    requires Allowed(q, m)
    ensures q.handed <= Step(q, m).handed && q.withdrawn <= Step(q, m).withdrawn
  {
  }

  lemma {:induction false} HistoryStays(qs: seq<Queue>, ms: seq<Move>, i: nat, j: nat)
    requires IsRun(qs, ms) && i <= j < |qs|
    ensures qs[i].handed <= qs[j].handed && qs[i].withdrawn <= qs[j].withdrawn
    decreases j
  {
    if i < j {
      HistoryStays(qs, ms, i, j - 1);
      assert StepAt(qs, ms, j - 1);
      HistoryGrows(qs[j - 1], ms[j - 1]);
    }
  }

  /** A command whose withdrawal succeeded was and will be handed to no page, however often polls were aborted. */
  lemma WithdrawnIsNeverHanded(qs: seq<Queue>, ms: seq<Move>, i: nat, j: nat, c: Command)
    requires IsRun(qs, ms) && i < |qs| && j < |qs| && c in qs[i].withdrawn
    ensures c !in qs[j].handed
  {
    var last := Max(i, j);
    HistoryStays(qs, ms, i, last);
    HistoryStays(qs, ms, j, last);
    RunConserves(qs, ms, last);
    var q := qs[last];
    assert c in multiset(q.withdrawn);
    assert Everywhere(q)[c] >= 1;
    assert c in q.sent;
    ExactlyOnePlace(qs, ms, last, c);
    assert multiset(q.handed)[c] == 0;
    assert c !in q.handed;
  }

  /** A poll that answers hands out none of its commands that have expired, even ones put back late. */
  lemma ExpiredIsNotHanded(q: Queue, poll: nat, nowSeconds: int, c: Command)
    requires poll < |q.polls| && c !in q.handed && c.expiresAt <= nowSeconds
    ensures c !in Step(q, Answer(poll, nowSeconds)).handed
  {
    StartableSplits(q.polls[poll], nowSeconds);
  }

  lemma {:induction false} StartableExactly(commands: seq<Command>, nowSeconds: int, c: Command)
    ensures c in Startable(commands, nowSeconds, true) <==> c in commands && c.expiresAt > nowSeconds
  {
    if commands != [] { StartableExactly(commands[1..], nowSeconds, c); }
  }

  /** A poll that answers hands out exactly those of its commands that have not expired. */
  lemma AnswerHandsExactly(q: Queue, poll: nat, nowSeconds: int, c: Command)
    requires poll < |q.polls| && c !in q.handed
    ensures c in Step(q, Answer(poll, nowSeconds)).handed <==> c in q.polls[poll] && c.expiresAt > nowSeconds
  {
    StartableExactly(q.polls[poll], nowSeconds, c);
  }

  /** What is popped is the front of the list, and what is pushed back comes first again: nothing overtakes. */
  lemma PutBackUndoesPop(q: Queue, max: int)
    ensures var popped := Step(q, Pop(max));
            && |popped.polls| == |q.polls| + 1
            && popped.polls[|q.polls|] + popped.list == q.list
            && |popped.polls[|q.polls|]| <= Max(1, max)
            && (popped.list != [] ==> |popped.polls[|q.polls|]| == Max(1, max))
            && Step(popped, PutBack(|q.polls|)).list == q.list
  {
    var n := Min(Max(1, max), |q.list|);
    assert q.list[..n] + q.list[n..] == q.list;
  }

  /** A removal takes the command out of the list exactly if it is in it, and disturbs no other's place. */
  lemma {:induction false} RemovedExactly(list: seq<Command>, c: Command) returns (k: nat)
    requires c in list
    ensures k < |list| && list[k] == c && c !in list[..k] && WithoutOne(list, c) == list[..k] + list[k + 1..]
  {
    k := 0;
    if list[0] != c {
      var j := RemovedExactly(list[1..], c);
      k := j + 1;
      assert list[..k] == [list[0]] + list[1..][..j];
      assert list[k + 1..] == list[1..][j + 1..];
    }
  }

  /** The list is in the order of sending: `from[x]` is the place of its `x`-th command among those sent. */
  ghost predicate InSentOrder(list: seq<Command>, sent: seq<Command>, from: seq<nat>) {
    && |from| == |list|
    && (forall x | 0 <= x < |from| :: from[x] < |sent| && list[x] == sent[from[x]])
    && (forall x, y | 0 <= x < y < |from| :: from[x] < from[y])
  }

  lemma SentKeepsOrder(list: seq<Command>, sent: seq<Command>, from: seq<nat>, c: Command)
    requires InSentOrder(list, sent, from)
    ensures InSentOrder(list + [c], sent + [c], from + [|sent|])
  {
  }

  lemma PoppedKeepsOrder(list: seq<Command>, sent: seq<Command>, from: seq<nat>, n: nat)
    requires InSentOrder(list, sent, from) && n <= |list|
    ensures InSentOrder(list[n..], sent, from[n..])
  {
  }

  lemma RemovedKeepsOrder(list: seq<Command>, sent: seq<Command>, from: seq<nat>, k: nat)
    requires InSentOrder(list, sent, from) && k < |list|
    ensures InSentOrder(list[..k] + list[k + 1..], sent, from[..k] + from[k + 1..])
  {
    var rest, at := list[..k] + list[k + 1..], from[..k] + from[k + 1..];
    forall x | 0 <= x < |at| ensures at[x] == from[if x < k then x else x + 1] && rest[x] == list[if x < k then x else x + 1] {}
  }

  lemma StepKeepsOrder(q: Queue, m: Move, from: seq<nat>) returns (after: seq<nat>)
    requires Allowed(q, m) && InSentOrder(q.list, q.sent, from) && !m.PutBack?
    ensures InSentOrder(Step(q, m).list, Step(q, m).sent, after)
  {
    after := from;
    match m {
      case PushBack(c) =>
        SentKeepsOrder(q.list, q.sent, from, c);
        after := from + [|q.sent|];
      case Pop(max) =>
        var n := Min(Max(1, max), |q.list|);
        PoppedKeepsOrder(q.list, q.sent, from, n);
        after := from[n..];
      case Remove(c) =>
        if c in q.list {
          var k := RemovedExactly(q.list, c);
          RemovedKeepsOrder(q.list, q.sent, from, k);
          after := from[..k] + from[k + 1..];
        }
      case ExpireKey => after := [];
      case _ =>
    }
  }

  /** Where nothing is put back, the list holds commands in the order they were sent, so polls pop them first in, first out. */
  lemma {:induction false} ListIsInSentOrder(qs: seq<Queue>, ms: seq<Move>, i: nat) returns (from: seq<nat>)
    requires IsRun(qs, ms) && i < |qs| && forall j | 0 <= j < i :: !ms[j].PutBack?
    ensures InSentOrder(qs[i].list, qs[i].sent, from)
  {
    from := [];
    if i > 0 {
      var before := ListIsInSentOrder(qs, ms, i - 1);
      assert StepAt(qs, ms, i - 1);
      from := StepKeepsOrder(qs[i - 1], ms[i - 1], before);
    }
  }
}