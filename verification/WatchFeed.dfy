/** The watcher against a keyset feed that keeps growing: nothing above its start is missed. */
module WatchFeed {
  import opened Basics
  import opened Feed
  import opened Watch

  /**
   * A feed over time: `size(t)` keys had been given at the `t`-th request, which fails where
   * `fault(t)` says so.
   */
  datatype Source = Source(log: seq<Key>, size: nat -> nat, fault: nat -> Option<nat>, limit: nat)

  function SizeAt(s: Source, t: nat): (n: nat)
    ensures n <= |s.log|
  {
    if s.size(t) <= |s.log| then s.size(t) else |s.log|
  }

  function PageAt(s: Source, t: nat, cursor: Key): seq<Key> {
    Feed.Page(s.log, SizeAt(s, t), cursor, s.limit)
  }

  function Serve(s: Source): Server {
    (t: nat, cursor: Key) => if s.fault(t).Some? then Failed(s.fault(t).value) else Watch.Page(PageAt(s, t, cursor))
  }

  /** Keys only ever get higher, and none is taken back. */
  ghost predicate Keyset(s: Source) {
    Increasing(s.log) && s.limit > 0 && forall t, u | t <= u :: s.size(t) <= s.size(u)
  }

  /** Every current row above the start that the cursor has passed was delivered, at its current key. */
  ghost predicate Caught(log: seq<Key>, n: nat, start: Key, cursor: Key, delivered: seq<Key>)
    requires n <= |log|
  {
    (forall k | k in delivered :: k in log[..n]) &&
    (cursor == start || cursor in log[..n]) &&
    forall i | 0 <= i < n && IsCurrent(log, n, i) && Above(log[i], start) && !Above(log[i], cursor) :: log[i] in delivered
  }

  lemma LaterIsAbove(log: seq<Key>, n: nat, i: nat, start: Key, cursor: Key)
    requires Increasing(log) && n <= i < |log| && (cursor == start || cursor in log[..n]) && Above(log[i], start)
    ensures Above(log[i], cursor)
  {
    if cursor != start {
      var j :| 0 <= j < n && log[j] == cursor;
    }
  }

  /** New and re-stamped rows come above the cursor, so nothing passed goes undelivered. */
  lemma GrowthKeepsCaught(log: seq<Key>, n: nat, m: nat, start: Key, cursor: Key, delivered: seq<Key>)
    requires Increasing(log) && n <= m <= |log| && Caught(log, n, start, cursor, delivered)
    ensures Caught(log, m, start, cursor, delivered)
  {
    forall k | k in log[..n] ensures k in log[..m] {
      var i :| 0 <= i < n && log[i] == k;
      assert log[..m][i] == k;
    }
    forall i | 0 <= i < m && IsCurrent(log, m, i) && Above(log[i], start) && !Above(log[i], cursor)
      ensures log[i] in delivered
    {
      if i < n { assert IsCurrent(log, n, i); } else { LaterIsAbove(log, n, i, start, cursor); }
    }
  }

  /** An increasing page above the cursor is kept whole. */
  lemma {:induction false} KeptWhole(rows: seq<Key>, cursor: Key)
    requires Climbs(rows, cursor)
    ensures Kept(rows, cursor) == rows
  {
    if rows != [] {
      KeptWhole(rows[1..], rows[0]);
      assert rows == [rows[0]] + rows[1..];
    }
  }

  /** A keyset page climbs from the cursor, and holds current rows. */
  lemma PageClimbs(log: seq<Key>, n: nat, cursor: Key, limit: nat)
    requires Increasing(log) && n <= |log|
    ensures Climbs(Feed.Page(log, n, cursor, limit), cursor)
    ensures forall k | k in Feed.Page(log, n, cursor, limit) :: k in log[..n]
  {
    var above := AboveOf(Rows(log, n, 0), cursor);
    RowsOf(log, n, 0);
    AboveOfKeeps(Rows(log, n, 0), cursor);
    forall i | 0 <= i < |above| ensures Above(above[i], cursor) && above[i] in log[..n] {
      assert above[i] in above;
      var j :| 0 <= j < n && IsCurrent(log, n, j) && log[j] == above[i];
      assert log[..n][j] == above[i];
    }
  }

  /** What the cursor passes with a page is in the page. */
  lemma PassedIsInPage(log: seq<Key>, n: nat, cursor: Key, limit: nat, i: nat)
    requires Increasing(log) && n <= |log| && i < n && IsCurrent(log, n, i) && Above(log[i], cursor)
    ensures var page := Feed.Page(log, n, cursor, limit);
            (|page| < limit || !Above(log[i], Last(page, cursor))) ==> log[i] in page
  {
    var above := AboveOf(Rows(log, n, 0), cursor);
    var page := Feed.Page(log, n, cursor, limit);
    RowsOf(log, n, 0);
    AboveOfKeeps(Rows(log, n, 0), cursor);
    assert log[i] in above;
    var k :| 0 <= k < |above| && above[k] == log[i];
    if k >= |page| {
      assert |page| == limit;
      if page != [] { assert Above(above[k], above[|page| - 1]); }
    } else {
      assert page[k] == log[i];
    }
  }

  lemma PageKeepsCaught(log: seq<Key>, n: nat, start: Key, cursor: Key, delivered: seq<Key>, limit: nat)
    requires Increasing(log) && n <= |log| && Caught(log, n, start, cursor, delivered)
    ensures var page := Feed.Page(log, n, cursor, limit);
            Caught(log, n, start, Last(page, cursor), delivered + page)
  {
    var page := Feed.Page(log, n, cursor, limit);
    PageClimbs(log, n, cursor, limit);
    forall i | 0 <= i < n && IsCurrent(log, n, i) && Above(log[i], start) && !Above(log[i], Last(page, cursor))
      ensures log[i] in delivered + page
    {
      if Above(log[i], cursor) { PassedIsInPage(log, n, cursor, limit, i); }
    }
  }

  /** After any number of turns the watcher has caught everything it passed. */
  ghost predicate CaughtUp(s: Source, t: nat, start: Key, w: Watcher) {
    Caught(s.log, SizeAt(s, t), start, w.cursor, Delivered(w.items))
  }

  lemma TurnCatches(s: Source, t: nat, start: Key, w: Watcher, keepOn: nat -> bool)
    requires Keyset(s) && CaughtUp(s, t, start, w)
    ensures CaughtUp(s, t, start, Turn(w, Serve(s)(t, w.cursor), keepOn))
    ensures !w.stopped && s.fault(t).None? ==>
              var v := Turn(w, Serve(s)(t, w.cursor), keepOn);
              Delivered(v.items) == Delivered(w.items) + PageAt(s, t, w.cursor) && v.cursor == Last(PageAt(s, t, w.cursor), w.cursor)
  {
    if !w.stopped {
      TurnDelivers(w, Serve(s)(t, w.cursor), keepOn);
      if s.fault(t).None? {
        PageClimbs(s.log, SizeAt(s, t), w.cursor, s.limit);
        KeptWhole(PageAt(s, t, w.cursor), w.cursor);
        PageKeepsCaught(s.log, SizeAt(s, t), start, w.cursor, Delivered(w.items), s.limit);
      }
    }
  }

  lemma {:induction false} RunCatches(s: Source, start: Key, keepOn: nat -> bool, turns: nat)
    requires Keyset(s)
    ensures CaughtUp(s, turns, start, Run(Watcher(start, 0, [], false), Serve(s), keepOn, turns))
  {
    if turns > 0 {
      RunCatches(s, start, keepOn, turns - 1);
      var w := Run(Watcher(start, 0, [], false), Serve(s), keepOn, turns - 1);
      TurnCatches(s, turns - 1, start, w, keepOn);
      var v := Turn(w, Serve(s)(turns - 1, w.cursor), keepOn);
      GrowthKeepsCaught(s.log, SizeAt(s, turns - 1), SizeAt(s, turns), start, v.cursor, Delivered(v.items));
    }
  }

  /**
   * A short page means the watcher is complete: every row in the feed at that request above the
   * start cursor has been delivered at its current key, however the feed grew before.
   */
  lemma ShortPageIsComplete(s: Source, start: Key, keepOn: nat -> bool, t: nat, i: nat)
    requires Keyset(s) && s.fault(t).None?
    requires var w := Run(Watcher(start, 0, [], false), Serve(s), keepOn, t);
             !w.stopped && |PageAt(s, t, w.cursor)| < s.limit
    requires i < SizeAt(s, t) && IsCurrent(s.log, SizeAt(s, t), i) && Above(s.log[i], start)
    ensures s.log[i] in Delivered(Run(Watcher(start, 0, [], false), Serve(s), keepOn, t + 1).items)
  {
    var w := Run(Watcher(start, 0, [], false), Serve(s), keepOn, t);
    RunCatches(s, start, keepOn, t);
    TurnCatches(s, t, start, w, keepOn);
    if Above(s.log[i], w.cursor) { PassedIsInPage(s.log, SizeAt(s, t), w.cursor, s.limit, i); }
  }

  // ---------------------------------------------------------------------------------------------
  // Draining
  // ---------------------------------------------------------------------------------------------

  lemma TakeMore<T>(s: seq<T>, a: nat, b: nat)
    ensures Take(s, a) + Take(s[|Take(s, a)|..], b) == Take(s, a + b)
    ensures s[|Take(s, a)|..][|Take(s[|Take(s, a)|..], b)|..] == s[|Take(s, a + b)|..]
  {
  }

  /** From `w` to `v` the first `count` rows of the backlog were delivered, and the rest is left. */
  ghost predicate DrainedBy(w: Watcher, v: Watcher, rows: seq<Key>, backlog: seq<Key>, count: nat) {
    && !v.stopped
    && Delivered(v.items) == Delivered(w.items) + Take(backlog, count)
    && AboveOf(rows, v.cursor) == backlog[|Take(backlog, count)|..]
  }

  lemma DrainOn(w: Watcher, v: Watcher, u: Watcher, rows: seq<Key>, backlog: seq<Key>, count: nat, more: nat)
    requires DrainedBy(w, v, rows, backlog, count) && DrainedBy(v, u, rows, AboveOf(rows, v.cursor), more)
    ensures DrainedBy(w, u, rows, backlog, count + more)
  {
    TakeMore(backlog, count, more);
    var a := Take(backlog, count);
    var b := Take(backlog[|a|..], more);
    assert (Delivered(w.items) + a) + b == Delivered(w.items) + (a + b);
  }

  /**
   * On a quiet feed `turns` requests deliver the first `turns * limit` rows above the cursor, in
   * order: a backlog of R rows is drained by R / limit full pages, without a pause, and one short one.
   */
  lemma {:induction false} Drains(s: Source, w: Watcher, keepOn: nat -> bool, turns: nat)
    requires Keyset(s) && !w.stopped
    requires forall t :: SizeAt(s, t) == SizeAt(s, 0) && s.fault(t).None?
    ensures var rows := Rows(s.log, SizeAt(s, 0), 0);
            DrainedBy(w, Run(w, Serve(s), keepOn, turns), rows, AboveOf(rows, w.cursor), turns * s.limit)
  {
    var rows := Rows(s.log, SizeAt(s, 0), 0);
    if turns > 0 {
      Drains(s, w, keepOn, turns - 1);
      var t := turns - 1;
      var v, count := Run(w, Serve(s), keepOn, t), t * s.limit;
      assert SizeAt(s, t) == SizeAt(s, 0) && s.fault(t).None?;
      DrainTurn(s, t, w, v, rows, keepOn, count);
      OneMore(t, s.limit);
    }
  }

  lemma DrainTurn(s: Source, t: nat, w: Watcher, v: Watcher, rows: seq<Key>, keepOn: nat -> bool, count: nat)
    requires Keyset(s) && s.fault(t).None? && rows == Rows(s.log, SizeAt(s, t), 0)
    requires DrainedBy(w, v, rows, AboveOf(rows, w.cursor), count)
    ensures DrainedBy(w, Turn(v, Serve(s)(t, v.cursor), keepOn), rows, AboveOf(rows, w.cursor), count + s.limit)
  {
    var u := Turn(v, Serve(s)(t, v.cursor), keepOn);
    OneDrain(s, t, v, u, rows, keepOn);
    DrainOn(w, v, u, rows, AboveOf(rows, w.cursor), count, s.limit);
  }

  lemma OneDrain(s: Source, t: nat, v: Watcher, u: Watcher, rows: seq<Key>, keepOn: nat -> bool)
    requires Keyset(s) && !v.stopped && s.fault(t).None? && rows == Rows(s.log, SizeAt(s, t), 0)
    requires u == Turn(v, Serve(s)(t, v.cursor), keepOn)
    ensures DrainedBy(v, u, rows, AboveOf(rows, v.cursor), s.limit)
  {
    var rest := AboveOf(rows, v.cursor);
    TurnDelivers(v, Serve(s)(t, v.cursor), keepOn);
    PageClimbs(s.log, SizeAt(s, t), v.cursor, s.limit);
    KeptWhole(PageAt(s, t, v.cursor), v.cursor);
    RowsOf(s.log, SizeAt(s, t), 0);
    if |rest| > 0 { PassedRows(rows, v.cursor, |Take(rest, s.limit)|); }
  }

  /** After turn `t` on a quiet feed the loop goes on without a pause exactly while a whole page of backlog was left. */
  lemma FullPagesExactly(s: Source, w: Watcher, keepOn: nat -> bool, t: nat)
    requires Keyset(s) && !w.stopped
    requires forall u :: SizeAt(s, u) == SizeAt(s, 0) && s.fault(u).None?
    ensures var backlog := |AboveOf(Rows(s.log, SizeAt(s, 0), 0), w.cursor)|;
            !Sleeps(Serve(s)(t, Run(w, Serve(s), keepOn, t).cursor), s.limit, keepOn) <==> t < backlog / s.limit
  {
    var backlog := AboveOf(Rows(s.log, SizeAt(s, 0), 0), w.cursor);
    Drains(s, w, keepOn, t);
    assert SizeAt(s, t) == SizeAt(s, 0);
    assert |Take(backlog, t * s.limit)| == Min(|backlog|, t * s.limit);
    QuotientExactly(|backlog|, s.limit, t);
    OneMore(t, s.limit);
  }

  lemma OneMore(t: nat, p: nat)
    ensures (t + 1) * p == t * p + p
  {
  }

  lemma QuotientExactly(r: nat, p: nat, t: nat)
    requires p > 0
    ensures t < r / p <==> (t + 1) * p <= r
  {
    assert r == r / p * p + r % p;
    if t < r / p {
      assert (t + 1) * p <= r / p * p;
    } else {
      assert r / p * p <= t * p;
    }
  }

  // ---------------------------------------------------------------------------------------------
  // Starting at the head of the feed
  // ---------------------------------------------------------------------------------------------

  /**
   * A fresh watcher that does not replay history opens past everything recorded, exactly when its
   * read of the newest row succeeded; when that read fails and polling goes on, it starts from the
   * floor and the archive above it is delivered after all.
   */
  lemma SkipsHistoryExactly(log: seq<Key>, n: nat, failure: Option<nat>, keepOn: nat -> bool)
    requires Increasing(log) && n <= |log|
    ensures var head := if failure.Some? then Failed(failure.value) else Watch.Page(Head(log, n));
            var start := Start(Options(None, false, keepOn), head).cursor;
            (forall i | 0 <= i < n :: !Above(log[i], start)) <==>
            failure.None? || forall i | 0 <= i < n :: !Above(log[i], FLOOR)
  {
    if failure.None? {
      forall i | 0 <= i < n ensures !Above(log[i], log[n - 1]) {
        AboveIsOrder(log[i], log[n - 1], log[i]);
      }
    }
  }
}
