/**
 * The Rust SDK's event stream: bytes arrive in chunks, frames wait in a queue, and a dropped
 * connection is opened again while the reconnect budget lasts.
 */
module RunEventStream {
  import opened Basics
  import opened JsonValues
  import opened Sse

  datatype Event = Event(body: Text, terminal: bool)

  /** What opening the stream once more gets: an error, or chunks of bytes and then an end, clean or not. */
  datatype Connection = Refused(error: nat) | Opened(chunks: seq<seq<Byte>>, fault: Option<nat>)

  datatype Item = Got(event: Event) | Fault(error: nat)

  function EventsOf(payloads: seq<Text>, parse: Text -> Event): seq<Event> {
    seq(|payloads|, i requires 0 <= i < |payloads| => parse(payloads[i]))
  }

  /** Every connection's bytes show a prefix of the log, however they are cut. */
  ghost predicate Replays(connect: nat -> Connection, log: seq<Text>) {
    forall k {:trigger ShowsPrefix(connect(k), log)} :: ShowsPrefix(connect(k), log)
  }

  ghost predicate ShowsPrefix(c: Connection, log: seq<Text>) {
    c.Opened? ==> IsPrefix(Frames(Concat(c.chunks)), log)
  }

  /** `log[from..to]`, empty where `to` is not past `from`. */
  function Between<T>(log: seq<T>, from: nat, to: nat): seq<T>
    requires from <= |log| && to <= |log|
  {
    if to <= from then [] else log[from..to]
  }

  ghost predicate NoTerminal(events: seq<Event>) {
    forall i | 0 <= i < |events| :: !events[i].terminal
  }

  /** What the chunks still to come will show is what follows in the log. */
  ghost predicate OnWire(log: seq<Text>, chunks: seq<seq<Byte>>, parser: Parser, seen: nat) {
    seen <= |log| && IsPrefix(FeedAll(parser, chunks).out, log[seen..])
  }

  /** The log is only ever handed out from its start, and the queue is what comes next. */
  ghost predicate InOrder(log: seq<Text>, parse: Text -> Event, delivered: nat, seen: nat, pending: seq<Event>, got: seq<Event>, done: bool) {
    && delivered == |got| <= |log| && seen <= |log| && got == EventsOf(log[..delivered], parse)
    && (if done then pending == [] else NoTerminal(got) && pending == EventsOf(Between(log, delivered, seen), parse))
    && NoTerminal(if got == [] then [] else got[..|got| - 1])
  }

  lemma NewConnection(connect: nat -> Connection, log: seq<Text>, k: nat)
    requires Replays(connect, log) && connect(k).Opened?
    ensures OnWire(log, connect(k).chunks, Parser([], []), 0)
  {
    var chunks := connect(k).chunks;
    assert ShowsPrefix(connect(k), log);
    ChunksDoNotMatter(Parser([], []), chunks);
    assert [] + Concat(chunks) == Concat(chunks);
    assert log[0..] == log;
  }

  /** One more chunk goes through the parser. */
  lemma ChunkRead(log: seq<Text>, chunks: seq<seq<Byte>>, parser: Parser, seen: nat, fed: Fed)
    requires OnWire(log, chunks, parser, seen) && chunks != [] && fed == FeedOne(parser, chunks[0])
    ensures OnWire(log, chunks[1..], fed.parser, seen + |fed.out|)
    ensures fed.out == log[seen..seen + |fed.out|]
  {
    Segment(log, seen, fed.out, FeedAll(fed.parser, chunks[1..]).out);
  }

  lemma Segment<T>(log: seq<T>, seen: nat, a: seq<T>, b: seq<T>)
    requires seen <= |log| && IsPrefix(a + b, log[seen..])
    ensures seen + |a| <= |log| && a == log[seen..seen + |a|] && IsPrefix(b, log[seen + |a|..])
  {
    assert a == (a + b)[..|a|] == log[seen..][..|a|] == log[seen..seen + |a|];
    assert b == (a + b)[|a|..] == log[seen..][..|a + b|][|a|..];
  }

  lemma Popped(log: seq<Text>, parse: Text -> Event, delivered: nat, seen: nat, pending: seq<Event>, got: seq<Event>, done: bool)
    requires InOrder(log, parse, delivered, seen, pending, got, done) && pending != []
    ensures var e := pending[0];
            InOrder(log, parse, delivered + 1, seen, if e.terminal then [] else pending[1..], got + [e], e.terminal)
  {
    var e := pending[0];
    assert e == parse(log[delivered]);
    assert EventsOf(log[..delivered + 1], parse) == EventsOf(log[..delivered], parse) + [e];
    assert pending[1..] == EventsOf(Between(log, delivered + 1, seen), parse);
    assert (got + [e])[..|got|] == got;
  }

  /** What opening the stream once more comes to: an error, or how many frames are shown before the end. */
  datatype Reopening = Denied(error: nat) | Shows(frames: nat, fault: Option<nat>)

  function Shown(c: Connection): nat
    requires c.Opened?
  {
    |Frames(Concat(c.chunks))|
  }

  function Reopened(connect: nat -> Connection): nat -> Reopening {
    (k: nat) => var c := connect(k); if c.Refused? then Denied(c.error) else Shows(Shown(c), c.fault)
  }

  /** What the next item will be: the log's next event, an error, or the end without one. */
  datatype Coming = NextEvent | Ends(error: nat) | Quiet

  /**
   * The current connection, the `k`-th reopening, will have shown `shown` frames when it ends in
   * `fault`, or cleanly; `delivered` events were handed out.
   */
  function NextOf(open: nat -> Reopening, budget: nat, k: nat, shown: nat, fault: Option<nat>, delivered: nat): Coming
    decreases budget - k
  {
    if shown > delivered then NextEvent
    else if k >= budget then (if fault.Some? then Ends(fault.value) else Quiet)
    else
      match open(k + 1)
      case Denied(e) => Ends(if fault.Some? then fault.value else e)
      case Shows(frames, end) => NextOf(open, budget, k + 1, frames, end, delivered)
  }

  lemma AtTheEnd(open: nat -> Reopening, budget: nat, k: nat, shown: nat, fault: Option<nat>, delivered: nat)
    requires shown <= delivered
    ensures NextOf(open, budget, k, shown, fault, delivered) ==
            if k >= budget then (if fault.Some? then Ends(fault.value) else Quiet)
            else
              var r := open(k + 1);
              if r.Denied? then Ends(if fault.Some? then fault.value else r.error)
              else NextOf(open, budget, k + 1, r.frames, r.fault, delivered)
  {
  }

  lemma QueueIsUsedUp(log: seq<Text>, parse: Text -> Event, delivered: nat, seen: nat, pending: seq<Event>, got: seq<Event>)
    requires InOrder(log, parse, delivered, seen, pending, got, false) && pending == []
    ensures seen <= delivered
  {
  }

  /** The frames a connection will have shown in all. */
  ghost function ToShow(chunks: seq<seq<Byte>>, parser: Parser, seen: nat): nat {
    seen + |FeedAll(parser, chunks).out|
  }

  lemma ChunkShows(chunks: seq<seq<Byte>>, parser: Parser, seen: nat, fed: Fed)
    requires chunks != [] && fed == FeedOne(parser, chunks[0])
    ensures ToShow(chunks[1..], fed.parser, seen + |fed.out|) == ToShow(chunks, parser, seen)
  {
  }

  lemma NewConnectionShows(c: Connection)
    requires c.Opened?
    ensures ToShow(c.chunks, Parser([], []), 0) == Shown(c)
  {
    ChunksDoNotMatter(Parser([], []), c.chunks);
    assert [] + Concat(c.chunks) == Concat(c.chunks);
  }

  predicate ShowsNothing(r: Reopening, delivered: nat) {
    r.Shows? && r.frames <= delivered
  }

  /** None of the reopenings after the `k`-th is denied or shows an event not handed out yet. */
  ghost predicate NothingAhead(open: nat -> Reopening, budget: nat, k: nat, delivered: nat) {
    forall j | k < j <= budget :: ShowsNothing(open(j), delivered)
  }

  lemma NothingAheadNext(open: nat -> Reopening, budget: nat, k: nat, delivered: nat)
    requires k < budget
    ensures NothingAhead(open, budget, k, delivered) <==> ShowsNothing(open(k + 1), delivered) && NothingAhead(open, budget, k + 1, delivered)
  {
    if ShowsNothing(open(k + 1), delivered) && NothingAhead(open, budget, k + 1, delivered) {
      forall j | k < j <= budget ensures ShowsNothing(open(j), delivered) {
        assert j == k + 1 || k + 1 < j;
      }
    }
  }

  /**
   * The stream ends quietly, without a terminal event and without an error, exactly when nothing not
   * handed out yet is left in this connection or in those the budget still allows, all of which
   * open, and the last of them ends cleanly.
   */
  lemma {:induction false} QuietExactly(open: nat -> Reopening, budget: nat, k: nat, shown: nat, fault: Option<nat>, delivered: nat)
    requires k <= budget
    ensures NextOf(open, budget, k, shown, fault, delivered) == Quiet <==>
            && shown <= delivered && NothingAhead(open, budget, k, delivered)
            && (if k == budget then fault.None? else open(budget).Shows? && open(budget).fault.None?)
    decreases budget - k
  {
    if k < budget && shown <= delivered {
      NothingAheadNext(open, budget, k, delivered);
      var r := open(k + 1);
      if r.Shows? { QuietExactly(open, budget, k + 1, r.frames, r.fault, delivered); }
    }
  }

  /** The end of the `last`-th reopening; `fault` is that of the current one, the `k`-th. */
  function EndOf(open: nat -> Reopening, k: nat, fault: Option<nat>, last: nat): Option<nat> {
    if last == k then fault else if open(last).Shows? then open(last).fault else None
  }

  /** Reopenings `k + 1` to `last` show nothing not handed out yet. */
  ghost predicate NothingUpTo(open: nat -> Reopening, k: nat, last: nat, delivered: nat) {
    k <= last && forall j | k < j <= last :: ShowsNothing(open(j), delivered)
  }

  lemma NothingUpToNext(open: nat -> Reopening, k: nat, last: nat, delivered: nat)
    ensures NothingUpTo(open, k, last, delivered) <==>
            k == last || (k < last && ShowsNothing(open(k + 1), delivered) && NothingUpTo(open, k + 1, last, delivered))
  {
    if k < last && ShowsNothing(open(k + 1), delivered) && NothingUpTo(open, k + 1, last, delivered) {
      forall j | k < j <= last ensures ShowsNothing(open(j), delivered) {
        assert j == k + 1 || k + 1 < j;
      }
    }
  }

  /** The stream ends at the `last`-th reopening: the budget is used up or the next is denied; the fault of its own end comes first. */
  predicate EndsAt(open: nat -> Reopening, budget: nat, k: nat, fault: Option<nat>, last: nat, error: nat) {
    var end := EndOf(open, k, fault, last);
    if last == budget then end == Some(error)
    else last < budget && open(last + 1).Denied? && error == if end.Some? then end.value else open(last + 1).error
  }

  ghost predicate EndsAfter(open: nat -> Reopening, budget: nat, k: nat, fault: Option<nat>, delivered: nat, last: nat, error: nat) {
    NothingUpTo(open, k, last, delivered) && EndsAt(open, budget, k, fault, last, error)
  }

  ghost predicate EndsSomewhere(open: nat -> Reopening, budget: nat, k: nat, fault: Option<nat>, delivered: nat, error: nat) {
    exists last: nat :: EndsAfter(open, budget, k, fault, delivered, last, error)
  }

  lemma EndsSomewhereNext(open: nat -> Reopening, budget: nat, k: nat, fault: Option<nat>, delivered: nat, error: nat)
    ensures EndsSomewhere(open, budget, k, fault, delivered, error) <==>
            || EndsAt(open, budget, k, fault, k, error)
            || (ShowsNothing(open(k + 1), delivered) && EndsSomewhere(open, budget, k + 1, open(k + 1).fault, delivered, error))
  {
    var next := k + 1;
    if EndsAt(open, budget, k, fault, k, error) { assert EndsAfter(open, budget, k, fault, delivered, k, error); }
    if ShowsNothing(open(next), delivered) {
      if last: nat :| EndsAfter(open, budget, next, open(next).fault, delivered, last, error) {
        NothingUpToNext(open, k, last, delivered);
        assert EndsAfter(open, budget, k, fault, delivered, last, error);
      }
    }
    if last: nat :| EndsAfter(open, budget, k, fault, delivered, last, error) {
      NothingUpToNext(open, k, last, delivered);
      assert last > k ==> EndsAfter(open, budget, next, open(next).fault, delivered, last, error);
    }
  }

  /**
   * Which error the stream ends with: at the first reopening after which none is left or the next is
   * denied, with nothing new shown before, it is the fault it ended with, else the denial.
   */
  lemma {:induction false} EndsExactly(open: nat -> Reopening, budget: nat, k: nat, shown: nat, fault: Option<nat>, delivered: nat, error: nat)
    requires k <= budget
    ensures NextOf(open, budget, k, shown, fault, delivered) == Ends(error) <==>
            shown <= delivered && EndsSomewhere(open, budget, k, fault, delivered, error)
    decreases budget - k
  {
    EndsSomewhereNext(open, budget, k, fault, delivered, error);
    if k < budget && shown <= delivered {
      var r := open(k + 1);
      if r.Shows? { EndsExactly(open, budget, k + 1, r.frames, r.fault, delivered, error); }
    } else if k == budget {
      PastBudget(open, budget, fault, delivered, error);
    }
  }

  lemma PastBudget(open: nat -> Reopening, budget: nat, fault: Option<nat>, delivered: nat, error: nat)
    ensures EndsSomewhere(open, budget, budget, fault, delivered, error) <==> fault == Some(error)
  {
    if fault == Some(error) { assert EndsAfter(open, budget, budget, fault, delivered, budget, error); }
  }

  /**
   * It happens: a server that shows the same frames on every connection and always ends cleanly. Once
   * they are handed out the stream just ends, whatever the budget and though no terminal event came.
   */
  lemma QuietEndHappens(chunks: seq<seq<Byte>>, budget: nat)
    ensures var connect := (k: nat) => Opened(chunks, None);
            var n := Shown(Opened(chunks, None));
            NextOf(Reopened(connect), budget, 0, n, None, n) == Quiet
  {
    var connect := (k: nat) => Opened(chunks, None);
    var n := Shown(Opened(chunks, None));
    forall k: nat ensures Reopened(connect)(k) == Shows(n, None) {}
    QuietExactly(Reopened(connect), budget, 0, n, None, n);
  }

  predicate AsComing(item: Option<Item>, coming: Coming) {
    match coming
    case NextEvent => item.Some? && item.value.Got?
    case Ends(e) => item == Some(Fault(e))
    case Quiet => item.None?
  }

  class RunEvents {
    const connect: nat -> Connection
    const parse: Text -> Event
    const maxReconnects: nat
    ghost const log: seq<Text>
    var chunks: seq<seq<Byte>>
    var fault: Option<nat>
    var parser: SseParser
    var pending: seq<Event>
    var done: bool
    var delivered: nat
    var seen: nat
    var reconnects: nat
    /** What was handed out. */
    ghost var got: seq<Event>

    ghost predicate Valid()
      reads this, parser
    {
      && Replays(connect, log) && reconnects <= maxReconnects
      && OnWire(log, chunks, parser.State(), seen)
      && InOrder(log, parse, delivered, seen, pending, got, done)
    }

    ghost function ComingNow(): Coming
      reads this, parser
    {
      NextOf(Reopened(connect), maxReconnects, reconnects, ToShow(chunks, parser.State(), seen), fault, delivered)
    }

    /** The first connection is opened by the caller. */
    constructor (connect: nat -> Connection, parse: Text -> Event, maxReconnects: nat, ghost log: seq<Text>)
      requires connect(0).Opened? && Replays(connect, log)
      ensures Valid() && fresh(parser) && got == [] && !done && reconnects == 0
      ensures ComingNow() == NextOf(Reopened(connect), maxReconnects, 0, Shown(connect(0)), connect(0).fault, 0)
      ensures this.connect == connect && this.parse == parse && this.log == log && this.maxReconnects == maxReconnects
    {
      this.connect, this.parse, this.maxReconnects, this.log := connect, parse, maxReconnects, log;
      chunks, fault := connect(0).chunks, connect(0).fault;
      parser := new SseParser();
      pending, done, delivered, seen, reconnects := [], false, 0, 0, 0;
      got := [];
      new;
      NewConnection(connect, log, 0);
      NewConnectionShows(connect(0));
    }

    /**
     * The next item. An event handed out is the log's next; after a terminal event there is none; the
     * stream ends quietly, or with an error and which, exactly as the connections left decide.
     */
    method Next() returns (item: Option<Item>)
      requires Valid()
      modifies this, parser
      ensures Valid() && (parser == old(parser) || fresh(parser))
      ensures match item
              case Some(Got(e)) => got == old(got) + [e] && done == e.terminal
              case Some(Fault(_)) => got == old(got) && done && !old(done)
              case None => got == old(got) && done == old(done)
      ensures old(done) ==> item.None?
      ensures !old(done) ==> AsComing(item, old(ComingNow()))
    {
      item := None;
      while true
        invariant Valid() && (parser == old(parser) || fresh(parser))
        invariant got == old(got) && done == old(done) && item.None?
        invariant !done ==> ComingNow() == old(ComingNow())
        decreases maxReconnects - reconnects, |chunks|
      {
        if pending != [] {
          item := Some(Got(pending[0]));
          Pop();
          return;
        }
        if done { return; }
        if chunks != [] {
          ReadChunk();
        } else {
          var ended;
          ended, item := Resume();
          if ended { return; }
        }
      }
    }

    /** The connection is over: open it again, or end the stream, with an error if there is one to tell. */
    method Resume() returns (ended: bool, item: Option<Item>)
      requires Valid() && !done && pending == [] && chunks == []
      modifies this, parser
      ensures Valid() && (parser == old(parser) || fresh(parser)) && got == old(got)
      ensures !ended ==> item.None? && !done && pending == [] && reconnects > old(reconnects) && ComingNow() == old(ComingNow())
      ensures ended ==> AsComing(item, old(ComingNow())) && (if item.Some? then item.value.Fault? && done else !done)
    {
      QueueIsUsedUp(log, parse, delivered, seen, pending, got);
      AtTheEnd(Reopened(connect), maxReconnects, reconnects, ToShow(chunks, parser.State(), seen), fault, delivered);
      var status := Reconnect();
      if status == Again { return false, None; }
      if fault.Some? {
        done := true;
        return true, Some(Fault(fault.value));
      }
      if status.NotReopened? {
        done := true;
        return true, Some(Fault(status.error));
      }
      return true, None;
    }

    /** Hand out the first event of the queue. */
    method Pop()
      requires Valid() && pending != []
      modifies this`pending, this`done, this`delivered, this`got
      ensures Valid() && got == old(got) + [old(pending)[0]] && done == old(pending)[0].terminal
    {
      Popped(log, parse, delivered, seen, pending, got, done);
      var event := pending[0];
      got := got + [event];
      pending := pending[1..];
      if event.terminal { done, pending := true, []; }
      delivered := delivered + 1;
    }

    /** Parse one chunk; queue the frames the caller has not had. */
    method ReadChunk()
      requires Valid() && !done && pending == [] && chunks != []
      modifies this`chunks, this`seen, this`pending, parser
      ensures Valid() && chunks == old(chunks)[1..]
      ensures ToShow(chunks, parser.State(), seen) == old(ToShow(chunks, parser.State(), seen))
    {
      ghost var toShow := ToShow(chunks, parser.State(), seen);
      var payloads := ParseChunk();
      ghost var upTo := seen + |payloads|;
      assert OnWire(log, chunks, parser.State(), upTo) && ToShow(chunks, parser.State(), upTo) == toShow;
      Queue(payloads);
      assert seen == upTo;
    }

    method ParseChunk() returns (payloads: seq<Text>)
      requires chunks != [] && OnWire(log, chunks, parser.State(), seen)
      modifies this`chunks, parser
      ensures chunks == old(chunks)[1..] && OnWire(log, chunks, parser.State(), seen + |payloads|)
      ensures payloads == log[seen..seen + |payloads|]
      ensures ToShow(chunks, parser.State(), seen + |payloads|) == old(ToShow(chunks, parser.State(), seen))
    {
      ghost var before := parser.State();
      payloads := parser.Feed(chunks[0]);
      ChunkRead(log, chunks, before, seen, Fed(parser.State(), payloads));
      ChunkShows(chunks, before, seen, Fed(parser.State(), payloads));
      chunks := chunks[1..];
    }

    method Queue(payloads: seq<Text>)
      requires InOrder(log, parse, delivered, seen, pending, got, done) && !done && pending == []
      requires seen + |payloads| <= |log| && payloads == log[seen..seen + |payloads|]
      modifies this`seen, this`pending
      ensures seen == old(seen) + |payloads| && InOrder(log, parse, delivered, seen, pending, got, done)
    {
      assert seen <= delivered;
      for i := 0 to |payloads|
        invariant seen == old(seen) + i
        invariant pending == EventsOf(Between(log, delivered, seen), parse)
      {
        assert payloads[i] == log[seen];
        seen := seen + 1;
        if seen > delivered {
          assert Between(log, delivered, seen) == Between(log, delivered, seen - 1) + [payloads[i]];
          pending := pending + [parse(payloads[i])];
        }
      }
    }

    /** Open the stream again, if the budget allows. */
    method Reconnect() returns (status: Status)
      requires Valid() && !done && pending == [] && chunks == []
      modifies this
      ensures Valid() && got == old(got) && done == old(done) && pending == []
      ensures status == Again ==> fresh(parser) && connect(reconnects) == Opened(chunks, fault)
      ensures status == Again ==> ToShow(chunks, parser.State(), seen) == Shown(connect(reconnects)) && delivered == old(delivered)
      ensures status.NotReopened? ==> connect(reconnects) == Refused(status.error)
      ensures reconnects == old(reconnects) + if status == UsedUp then 0 else 1
      ensures status != Again ==> parser == old(parser) && chunks == [] && fault == old(fault) && seen == old(seen)
      ensures status == UsedUp <==> old(reconnects) == maxReconnects
    {
      if reconnects >= maxReconnects { return UsedUp; }
      reconnects := reconnects + 1;
      match connect(reconnects) {
        case Refused(e) => return NotReopened(e);
        case Opened(more, end) =>
          Reopen(more, end);
          return Again;
      }
    }

    /** Start on the chunks of the connection just opened, with a fresh parser. */
    method Reopen(more: seq<seq<Byte>>, end: Option<nat>)
      requires Replays(connect, log) && connect(reconnects) == Opened(more, end)
      requires InOrder(log, parse, delivered, seen, pending, got, done) && !done && pending == []
      modifies this`chunks, this`fault, this`parser, this`seen
      ensures fresh(parser) && chunks == more && fault == end && seen == 0
      ensures OnWire(log, chunks, parser.State(), seen) && ToShow(chunks, parser.State(), seen) == Shown(connect(reconnects))
      ensures InOrder(log, parse, delivered, seen, pending, got, done)
    {
      NewConnection(connect, log, reconnects);
      NewConnectionShows(connect(reconnects));
      chunks, fault := more, end;
      parser := new SseParser();
      seen := 0;
    }
  }

  datatype Status = Again | NotReopened(error: nat) | UsedUp
}
