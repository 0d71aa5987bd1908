/**
 * The Rust SDK's watcher: a stream that buffers a page and hands its rows out one by one. On pages
 * sorted by key it delivers what the Go loop delivers, request for request.
 */
module WatchStream {
  import opened Basics
  import opened Int64
  import opened Feed
  import opened Watch
  import opened WatchFeed

  /** What the stream keeps between items; `fetched` counts its page requests. */
  datatype State = State(since: Key, buffered: seq<Key>, failures: nat, done: bool, fetched: nat, items: seq<Item>)

  /** One turn of the stream's loop, once it has its starting cursor. */
  function Next(st: State, server: Server, stopOnError: bool): State {
    if st.done then st
    else if st.buffered != [] then
      st.(since := st.buffered[0], buffered := st.buffered[1..], items := st.items + [Change(st.buffered[0])])
    else
      match server(st.fetched, st.since)
      case Page(rows) => st.(buffered := AboveOf(rows, st.since), failures := 0, fetched := st.fetched + 1)
      case Failed(e) =>
        st.(done := stopOnError, failures := if stopOnError then st.failures else st.failures + 1,
            fetched := st.fetched + 1, items := st.items + [Fault(e)])
  }

  function Steps(st: State, server: Server, stopOnError: bool, turns: nat): State {
    if turns == 0 then st else Next(Steps(st, server, stopOnError, turns - 1), server, stopOnError)
  }

  /** What the stream's requests have got, in order. */
  function Asked(st: State, server: Server, stopOnError: bool, turns: nat): seq<Answer> {
    if turns == 0 then []
    else
      var last := Steps(st, server, stopOnError, turns - 1);
      Asked(st, server, stopOnError, turns - 1) +
      if last.done || last.buffered != [] then [] else [server(last.fetched, last.since)]
  }

  /** The last `k` of the answers are errors, and the one before them is not. */
  ghost predicate EndsInErrors(answers: seq<Answer>, k: nat) {
    && k <= |answers|
    && (forall t | |answers| - k <= t < |answers| :: answers[t].Failed?)
    && (k < |answers| ==> answers[|answers| - k - 1].Page?)
  }

  /** While the stream goes on, the failures that set its next wait are those since the last page. */
  lemma {:induction false} StreamFailuresAreInARow(st: State, server: Server, stopOnError: bool, turns: nat)
    requires st.failures == 0 && !Steps(st, server, stopOnError, turns).done
    ensures EndsInErrors(Asked(st, server, stopOnError, turns), Steps(st, server, stopOnError, turns).failures)
  {
    if turns > 0 { StreamFailuresAreInARow(st, server, stopOnError, turns - 1); }
  }

  /** Where the stream starts. `head` is the answer to reading the newest row. */
  function Begin(options: Options, head: Answer, stopOnError: bool): State {
    if options.since.Some? then State(options.since.value, [], 0, false, 0, [])
    else if options.replayHistory then State(FLOOR, [], 0, false, 0, [])
    else
      match head
      case Failed(e) => State(FLOOR, [], 0, stopOnError, 0, [Fault(e)])
      case Page(rows) => State(if rows == [] then FLOOR else rows[0], [], 0, false, 0, [])
  }

  /** The stream itself, its fields changed in place. */
  class Stream {
    const server: Server
    const head: Answer
    const replayHistory: bool
    const stopOnError: bool
    var since: Option<Key>
    var buffered: seq<Key>
    var failures: nat
    var bootstrapped: bool
    var done: bool
    var fetched: nat
    ghost var items: seq<Item>

    ghost predicate Valid()
      reads this
    {
      if bootstrapped then since.Some?
      else since.None? && buffered == [] && failures == 0 && !done && fetched == 0 && items == []
    }

    /** The state, with the starting cursor taken as known. */
    ghost function View(): State
      requires Valid()
      reads this
    {
      if bootstrapped then State(since.value, buffered, failures, done, fetched, items)
      else Begin(Options(None, replayHistory, e => !stopOnError), head, stopOnError)
    }

    constructor (options: Options, head: Answer, server: Server, stopOnError: bool)
      ensures Valid() && this.server == server && this.stopOnError == stopOnError
      ensures View() == Begin(options, head, stopOnError)
    {
      this.server, this.head, this.replayHistory, this.stopOnError := server, head, options.replayHistory, stopOnError;
      since, buffered, failures, fetched := options.since, [], 0, 0;
      bootstrapped, done, items := options.since.Some?, false, [];
    }

    /** One turn of the loop: an item handed out, or a page read into the buffer, or the end. */
    method Turn() returns (item: Option<Item>)
      requires Valid()
      modifies this
      ensures Valid() && bootstrapped
      ensures View() == if !old(bootstrapped) && !replayHistory && head.Failed? then old(View())
                        else Next(old(View()), server, stopOnError)
      ensures items == old(items) + if item.Some? then [item.value] else []
    {
      item := None;
      if done { return; }
      if buffered != [] {
        item := Some(Change(buffered[0]));
        items := items + [Change(buffered[0])];
        since, buffered := Some(buffered[0]), buffered[1..];
        return;
      }
      if !bootstrapped {
        item := Bootstrap();
        if item.Some? { return; }
      }
      match server(fetched, since.value) {
        case Page(rows) =>
          failures := 0;
          Fill(rows, since.value);
        case Failed(e) =>
          if stopOnError { done := true; } else { failures := failures + 1; }
          item := Some(Fault(e));
          items := items + [Fault(e)];
      }
      fetched := fetched + 1;
    }

    /** Establish the starting cursor; hands out the error if the newest row cannot be read. */
    method Bootstrap() returns (item: Option<Item>)
      requires Valid() && !bootstrapped
      modifies this
      ensures Valid() && bootstrapped && View() == old(View())
      ensures buffered == [] && fetched == 0 && items == if item.Some? then [item.value] else []
      ensures item.Some? <==> !replayHistory && head.Failed?
      ensures done ==> item.Some?
    {
      item := None;
      bootstrapped, since := true, Some(FLOOR);
      if !replayHistory {
        match head {
          case Page(rows) => if |rows| > 0 { since := Some(rows[0]); }
          case Failed(e) =>
            done := stopOnError;
            item := Some(Fault(e));
            items := items + [Fault(e)];
        }
      }
    }

    /** Buffer the rows above the cursor, in the page's order. */
    method Fill(rows: seq<Key>, cursor: Key)
      requires buffered == []
      modifies this`buffered
      ensures buffered == AboveOf(rows, cursor)
    {
      for i := 0 to |rows|
        invariant buffered + AboveOf(rows[i..], cursor) == AboveOf(rows, cursor)
      {
        assert rows[i..][1..] == rows[i + 1..];
        if Above(rows[i], cursor) {
          assert buffered + ([rows[i]] + AboveOf(rows[i + 1..], cursor)) == buffered + [rows[i]] + AboveOf(rows[i + 1..], cursor);
          buffered := buffered + [rows[i]];
        }
      }
    }
  }

  // ---------------------------------------------------------------------------------------------
  // The stream and the loop
  // ---------------------------------------------------------------------------------------------

  /** The two ways of picking rows from one page agree exactly when the rows picked are in order. */
  lemma {:induction false} SamePicksExactly(rows: seq<Key>, cursor: Key)
    ensures Kept(rows, cursor) == AboveOf(rows, cursor) <==> Increasing(AboveOf(rows, cursor))
  {
    KeptClimbs(rows, cursor);
    AboveOfKeeps(rows, cursor);
    var above := AboveOf(rows, cursor);
    assert forall i | 0 <= i < |above| :: above[i] in above;
    if Increasing(above) { KeptAll(rows, cursor, cursor); }
  }

  lemma {:induction false} KeptAll(rows: seq<Key>, from: Key, cursor: Key)
    requires Climbs(AboveOf(rows, from), cursor) && (cursor == from || Above(cursor, from))
    ensures Kept(rows, cursor) == AboveOf(rows, from)
  {
    if rows != [] {
      var rest := AboveOf(rows[1..], from);
      AboveIsOrder(rows[0], cursor, from);
      if Above(rows[0], from) {
        var all := AboveOf(rows, from);
        assert all == [rows[0]] + rest && all[0] == rows[0];
        forall i | 0 <= i < |rest| ensures Above(rest[i], rows[0]) { assert all[i + 1] == rest[i]; }
        forall i, j | 0 <= i < j < |rest| ensures Above(rest[j], rest[i]) { assert all[i + 1] == rest[i] && all[j + 1] == rest[j]; }
        KeptAll(rows[1..], from, rows[0]);
      } else {
        assert AboveOf(rows, from) == rest;
        KeptAll(rows[1..], from, cursor);
      }
    }
  }

  /** The loop is where the stream will be when it has handed out its buffer. */
  ghost predicate Agrees(w: Watcher, st: State) {
    && w.items == st.items + Changes(st.buffered)
    && w.cursor == Last(st.buffered, st.since)
    && w.stopped == st.done
  }

  /** Every page comes sorted, wherever the cursor. */
  ghost predicate SortedPages(server: Server) {
    forall t, c :: server(t, c).Page? ==> Increasing(server(t, c).rows)
  }

  lemma NextAgrees(w: Watcher, st: State, server: Server, keepOn: nat -> bool, stopOnError: bool)
    requires Agrees(w, st) && SortedPages(server) && forall e :: keepOn(e) == !stopOnError
    ensures var after := Next(st, server, stopOnError);
            if after.fetched == st.fetched then Agrees(w, after)
            else after.fetched == st.fetched + 1 && Agrees(Turn(w, server(st.fetched, w.cursor), keepOn), after)
  {
    if st.done {
    } else if st.buffered != [] {
      assert Changes(st.buffered) == [Change(st.buffered[0])] + Changes(st.buffered[1..]);
    } else {
      var answer := server(st.fetched, st.since);
      assert Changes([]) == [];
      if answer.Page? {
        AboveOfKeeps(answer.rows, st.since);
        SamePicksExactly(answer.rows, st.since);
      }
    }
  }

  /** The loop after as many requests as the stream has made agrees with it. */
  ghost predicate LoopAgrees(options: Options, head: Answer, server: Server, st: State) {
    Agrees(Run(Start(options, head), server, options.keepOn, st.fetched), st)
  }

  lemma NextKeepsLoop(options: Options, head: Answer, server: Server, stopOnError: bool, st: State)
    requires SortedPages(server) && (forall e :: options.keepOn(e) == !stopOnError) && LoopAgrees(options, head, server, st)
    ensures LoopAgrees(options, head, server, Next(st, server, stopOnError))
  {
    var w := Run(Start(options, head), server, options.keepOn, st.fetched);
    NextAgrees(w, st, server, options.keepOn, stopOnError);
  }

  /**
   * On sorted pages the stream is the loop: whenever it has made `fetched` requests, the loop after
   * as many requests has delivered exactly what the stream has handed out or holds in its buffer.
   */
  lemma {:induction false} StreamIsLoop(options: Options, head: Answer, server: Server, stopOnError: bool, turns: nat)
    requires SortedPages(server) && forall e :: options.keepOn(e) == !stopOnError
    ensures LoopAgrees(options, head, server, Steps(Begin(options, head, stopOnError), server, stopOnError, turns))
  {
    if turns == 0 {
      assert Changes([]) == [];
    } else {
      StreamIsLoop(options, head, server, stopOnError, turns - 1);
      NextKeepsLoop(options, head, server, stopOnError, Steps(Begin(options, head, stopOnError), server, stopOnError, turns - 1));
    }
  }

  /** A keyset feed's pages are sorted. */
  lemma KeysetPagesAreSorted(s: Source)
    requires Keyset(s)
    ensures SortedPages(Serve(s))
  {
    forall t, c | Serve(s)(t, c).Page? ensures Increasing(Serve(s)(t, c).rows) {
      PageClimbs(s.log, SizeAt(s, t), c, s.limit);
      assert Serve(s)(t, c).rows == PageAt(s, t, c);
    }
  }

  // ---------------------------------------------------------------------------------------------
  // Waiting after errors
  // ---------------------------------------------------------------------------------------------

  /** `errorBackoff`, in 64-bit nanoseconds. */
  function ErrorBackoff(interval: int, failures: int): int {
    if failures < 1 then interval
    else
      Capped(interval * Pow2(Min(failures - 1, 10)), Wrap(interval * 10))
  }

  /** `error_wait`, whose multiplications saturate at `max`. */
  function ErrorWait(interval: nat, failures: nat, max: nat): int {
    Min(Min(interval * Pow2(Min(Max(failures - 1, 0), 10)), max), Min(interval * 10, max))
  }

  /** The interval doubled for every failure after the first, ten times at most. */
  function Doubled(interval: int, failures: int): int
    requires failures >= 1
  {
    interval * Pow2(Min(failures - 1, 10))
  }

  /**
   * After an error Go waits min(interval * 2^(failures - 1), 10 * interval) exactly when ten
   * intervals fit in 64 bits and the doubled interval fits too, or wraps round to nothing or less, or
   * to the cap or more; or ten intervals do not fit, and the doubled one does and is no longer than
   * what ten intervals wrap round to.
   */
  lemma CappedExactly(interval: int, failures: int)
    requires 0 < interval <= MAX_INT64 && failures >= 1
    ensures var n, cap := Doubled(interval, failures), 10 * interval;
            ErrorBackoff(interval, failures) == Min(n, cap) <==>
            if cap <= MAX_INT64 then n <= MAX_INT64 || Wrap(n) <= 0 || Wrap(n) >= cap
            else n <= MAX_INT64 && n <= Wrap(cap)
  {
    Pow2Bounds(0, Min(failures - 1, 10));
    Scale(interval, Pow2(Min(failures - 1, 10)));
    CapsExactly(Doubled(interval, failures), Wrap(10 * interval));
  }

  lemma Scale(interval: int, p: nat)
    requires interval > 0 && p >= 1
    ensures interval * p >= interval
  {
  }

  /** Rust's saturating wait is that exactly when the result fits in a duration. */
  lemma SaturatesExactly(interval: nat, failures: nat, max: nat)
    requires failures >= 1
    ensures ErrorWait(interval, failures, max) == Min(Doubled(interval, failures), 10 * interval) <==>
            Min(Doubled(interval, failures), 10 * interval) <= max
  {
  }

  /** So for intervals up to 2^54 ns (208 days) both wait that, whatever the failures. */
  lemma BackoffIsCapped(interval: int, failures: int, max: nat)
    requires 0 < interval <= 0x40_0000_0000_0000 && failures >= 1 && max >= 10 * interval
    ensures ErrorBackoff(interval, failures) == Min(Doubled(interval, failures), 10 * interval)
    ensures ErrorWait(interval, failures, max) == ErrorBackoff(interval, failures)
  {
    var p := Pow2(Min(failures - 1, 10));
    Pow2Bounds(Min(failures - 1, 10), 10);
    assert Pow2(10) == 1024;
    assert interval <= interval * p <= interval * 1024;
    CappedExactly(interval, failures);
    SaturatesExactly(interval, failures, max);
  }

  /** One nanosecond above, the eleventh failure in a row waits for 1024 ns, far below the cap. */
  lemma BackoffOverflows()
    ensures ErrorBackoff(0x40_0000_0000_0001, 11) == 1024
  {
    assert Pow2(10) == 1024;
  }

  /** ... while at half as much again the wait wraps to nothing, and the cap holds for any failures. */
  lemma BackoffRecovers(failures: int)
    requires failures >= 1
    ensures ErrorBackoff(0x60_0000_0000_0000, failures) == Min(Doubled(0x60_0000_0000_0000, failures), 10 * 0x60_0000_0000_0000)
  {
    var k := Min(failures - 1, 10);
    assert Pow2(4) == 16 && Pow2(8) == 256 && Pow2(10) == 1024;
    Pow2Bounds(k, 10);
    assert Pow2(9) == 512;
    if k <= 9 {
      Pow2Bounds(k, 9);
      assert Doubled(0x60_0000_0000_0000, failures) <= 0x60_0000_0000_0000 * 512;
    }
    CappedExactly(0x60_0000_0000_0000, failures);
  }
}
