/**
 * What a watcher does, told by what it is answered: which rows of a page it delivers, by comparing
 * stamps and ids alone, what it hands out and when it stops, over every run.
 */
module WatchAnswers {
  import opened Basics
  import opened JsonValues
  import opened Literals
  import opened CanonicalJson
  import opened KeyOrder
  import opened Feed
  import opened Watch
  import opened WatchFeed

  /** `a` is later in the feed than `b`: a later stamp, or an equal stamp and a larger id. */
  ghost predicate Later(a: Key, b: Key) {
    Precedes(b.stamp, a.stamp) || (a.stamp == b.stamp && a.id > b.id)
  }

  lemma AboveIsLater(a: Key, b: Key)
    ensures Above(a, b) <==> Later(a, b)
  {
    LessByIndex(b.stamp, a.stamp);
  }

  // ---------------------------------------------------------------------------------------------
  // Which rows of a page are delivered
  // ---------------------------------------------------------------------------------------------

  /** The `i`-th row is later than the cursor and than every row before it. */
  ghost predicate Leads(rows: seq<Key>, cursor: Key, i: nat)
    requires i < |rows|
  {
    Later(rows[i], cursor) && forall j | 0 <= j < i :: Later(rows[i], rows[j])
  }

  /** `at` lists, in order, the places of the rows that lead. */
  ghost predicate ListsLeads(at: seq<nat>, rows: seq<Key>, cursor: Key) {
    && (forall k | 0 <= k < |at| :: at[k] < |rows|)
    && (forall k, l | 0 <= k < l < |at| :: at[k] < at[l])
    && forall i: nat | i < |rows| :: i in at <==> Leads(rows, cursor, i)
  }

  ghost predicate PickedAt(picked: seq<Key>, rows: seq<Key>, at: seq<nat>) {
    |picked| == |at| && forall k | 0 <= k < |at| :: at[k] < |rows| && picked[k] == rows[at[k]]
  }

  function Shifted(at: seq<nat>): seq<nat> { seq(|at|, k requires 0 <= k < |at| => at[k] + 1) }

  lemma ShiftedHolds(at: seq<nat>, i: nat)
    ensures i in Shifted(at) <==> i > 0 && i - 1 in at
  {
    if i > 0 && i - 1 in at {
      var k :| 0 <= k < |at| && at[k] == i - 1;
      assert Shifted(at)[k] == i;
    }
  }

  /** Whether a row leads, from whether it leads among the rows after the first. */
  lemma LeadsNext(rows: seq<Key>, cursor: Key, i: nat)
    requires 0 < i < |rows|
    ensures Leads(rows, cursor, i) <==> Leads(rows[1..], if Above(rows[0], cursor) then rows[0] else cursor, i - 1)
  {
    var r, first := rows[i], rows[0];
    AboveIsLater(r, cursor);
    AboveIsLater(r, first);
    AboveIsOrder(r, first, cursor);
    AboveIsOrder(r, cursor, first);
    AboveIsOrder(first, cursor, first);
    assert forall j | 0 < j < i :: rows[j] == rows[1..][j - 1];
    assert forall j | 0 <= j < i - 1 :: rows[1..][j] == rows[j + 1];
  }

  /** The places that lead, from those among the rows after the first. */
  function WithFirst(leads: bool, rest: seq<nat>): seq<nat> {
    (if leads then [0] else []) + Shifted(rest)
  }

  lemma WithFirstHolds(leads: bool, rest: seq<nat>, i: nat)
    ensures i in WithFirst(leads, rest) <==> if i == 0 then leads else i - 1 in rest
  {
    ShiftedHolds(rest, i);
    assert i in WithFirst(leads, rest) <==> (leads && i == 0) || i in Shifted(rest);
  }

  lemma WithFirstAscends(leads: bool, rest: seq<nat>)
    requires forall k, l | 0 <= k < l < |rest| :: rest[k] < rest[l]
    ensures var at := WithFirst(leads, rest); forall k, l | 0 <= k < l < |at| :: at[k] < at[l]
  {
  }

  lemma WithFirstPicks(rows: seq<Key>, cursor: Key, rest: seq<nat>)
    requires rows != [] && PickedAt(Kept(rows[1..], if Above(rows[0], cursor) then rows[0] else cursor), rows[1..], rest)
    ensures PickedAt(Kept(rows, cursor), rows, WithFirst(Above(rows[0], cursor), rest))
  {
  }

  lemma WithFirstLists(rows: seq<Key>, cursor: Key, rest: seq<nat>)
    requires rows != [] && ListsLeads(rest, rows[1..], if Above(rows[0], cursor) then rows[0] else cursor)
    ensures ListsLeads(WithFirst(Above(rows[0], cursor), rest), rows, cursor)
  {
    var leads := Above(rows[0], cursor);
    WithFirstAscends(leads, rest);
    forall i: nat | i < |rows| ensures i in WithFirst(leads, rest) <==> Leads(rows, cursor, i) {
      WithFirstHolds(leads, rest, i);
      if i == 0 { AboveIsLater(rows[0], cursor); } else { LeadsNext(rows, cursor, i); }
    }
  }

  /** The rows delivered are exactly those that lead, in the page's order. */
  lemma {:induction false} LeadsAreDelivered(rows: seq<Key>, cursor: Key) returns (at: seq<nat>)
    ensures ListsLeads(at, rows, cursor) && PickedAt(Kept(rows, cursor), rows, at)
  {
    at := [];
    if rows != [] {
      var rest := LeadsAreDelivered(rows[1..], if Above(rows[0], cursor) then rows[0] else cursor);
      WithFirstPicks(rows, cursor, rest);
      WithFirstLists(rows, cursor, rest);
      at := WithFirst(Above(rows[0], cursor), rest);
    }
  }

  // ---------------------------------------------------------------------------------------------
  // Runs
  // ---------------------------------------------------------------------------------------------

  /** What the `t`-th request gets. */
  function AnswerTo(w: Watcher, server: Server, keepOn: nat -> bool, t: nat): Answer {
    server(t, Run(w, server, keepOn, t).cursor)
  }

  /** An error the caller does not go on from. */
  predicate Ends(answer: Answer, keepOn: nat -> bool) { answer.Failed? && !keepOn(answer.error) }

  /** A watcher has stopped exactly when some request got an error its caller does not go on from. */
  lemma {:induction false} StopsExactly(w: Watcher, server: Server, keepOn: nat -> bool, turns: nat)
    requires !w.stopped
    ensures Run(w, server, keepOn, turns).stopped <==> exists t: nat | t < turns :: Ends(AnswerTo(w, server, keepOn, t), keepOn)
  {
    if turns > 0 {
      StopsExactly(w, server, keepOn, turns - 1);
      assert Run(w, server, keepOn, turns).stopped <==>
             Run(w, server, keepOn, turns - 1).stopped || Ends(AnswerTo(w, server, keepOn, turns - 1), keepOn);
    }
  }

  /**
   * While it goes on, a request that fails hands out that error and moves nothing; a page hands out
   * the rows of it that lead, in order, and the cursor moves to the last of them; and the next
   * request waits unless the page was full.
   */
  lemma RequestExactly(w: Watcher, server: Server, keepOn: nat -> bool, pageSize: nat, t: nat) returns (at: seq<nat>)
    requires !Run(w, server, keepOn, t).stopped
    ensures var u, v, answer := Run(w, server, keepOn, t), Run(w, server, keepOn, t + 1), AnswerTo(w, server, keepOn, t);
            && (answer.Failed? ==> v.items == u.items + [Fault(answer.error)] && v.cursor == u.cursor)
            && (answer.Page? ==>
                  && ListsLeads(at, answer.rows, u.cursor)
                  && v.items == u.items + seq(|at|, k requires 0 <= k < |at| && at[k] < |answer.rows| => Change(answer.rows[at[k]]))
                  && v.cursor == if at == [] then u.cursor else answer.rows[at[|at| - 1]])
    ensures var v, answer := Run(w, server, keepOn, t + 1), AnswerTo(w, server, keepOn, t);
            var waits := !v.stopped && !(answer.Page? && |answer.rows| == pageSize);
            Slept(w, server, keepOn, pageSize, t + 1) == Slept(w, server, keepOn, pageSize, t) + [waits]
  {
    at := [];
    var u, answer := Run(w, server, keepOn, t), AnswerTo(w, server, keepOn, t);
    if answer.Page? {
      at := LeadsAreDelivered(answer.rows, u.cursor);
      assert Changes(Kept(answer.rows, u.cursor)) ==
             seq(|at|, k requires 0 <= k < |at| && at[k] < |answer.rows| => Change(answer.rows[at[k]]));
    }
  }

  /** The last `k` of the requests failed, and the one before them did not. */
  ghost predicate FailedInARow(w: Watcher, server: Server, keepOn: nat -> bool, turns: nat, k: nat) {
    && k <= turns
    && (forall t: nat | turns - k <= t < turns :: AnswerTo(w, server, keepOn, t).Failed?)
    && (k < turns ==> AnswerTo(w, server, keepOn, turns - k - 1).Page?)
  }

  /** The failures that set the next wait are those since the last page. */
  lemma {:induction false} FailuresAreInARow(w: Watcher, server: Server, keepOn: nat -> bool, turns: nat)
    requires w.failures == 0 && !Run(w, server, keepOn, turns).stopped
    ensures FailedInARow(w, server, keepOn, turns, Run(w, server, keepOn, turns).failures)
  {
    if turns > 0 { FailuresAreInARow(w, server, keepOn, turns - 1); }
  }

  /** The place a caller asks to watch from: the one it gives, the newest row, or the start of time. */
  function From(options: Options, newest: Option<Key>): Key {
    if options.since.Some? then options.since.value
    else if options.replayHistory || newest.None? then Key(Chars("1970-01-01T00:00:00+00:00"), 0)
    else newest.value
  }

  /**
   * Whatever the options, a watcher whose first read succeeded has handed out, after a page that is
   * not full, every row then in the feed that is later than the place its caller asks for.
   */
  lemma MissesNothing(options: Options, newest: Option<Key>, s: Source, t: nat, i: nat)
    requires Keyset(s) && s.fault(t).None?
    requires i < SizeAt(s, t) && IsCurrent(s.log, SizeAt(s, t), i) && Later(s.log[i], From(options, newest))
    ensures var w := Start(options, Watch.Page(if newest.Some? then [newest.value] else []));
            var u := Run(w, Serve(s), options.keepOn, t);
            !u.stopped && |PageAt(s, t, u.cursor)| < s.limit ==>
              s.log[i] in Delivered(Run(w, Serve(s), options.keepOn, t + 1).items)
  {
    assert Chars("1970-01-01T00:00:00+00:00") == FLOOR_STAMP;
    var w := Start(options, Watch.Page(if newest.Some? then [newest.value] else []));
    var u := Run(w, Serve(s), options.keepOn, t);
    AboveIsLater(s.log[i], From(options, newest));
    if !u.stopped && |PageAt(s, t, u.cursor)| < s.limit { ShortPageIsComplete(s, w.cursor, options.keepOn, t, i); }
  }
}
