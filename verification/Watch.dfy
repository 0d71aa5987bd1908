/**
 * The change watcher: a loop that asks for the page above its cursor, delivers what advances, and
 * moves the cursor. Against any server what it delivers climbs; against a keyset feed it misses
 * nothing above its start.
 */
module Watch {
  import opened Basics
  import opened JsonValues
  import opened CanonicalJson
  import opened Feed

  /** "1970-01-01T00:00:00+00:00". */
  const FLOOR_STAMP: Text :=
    [49, 57, 55, 48, 45, 48, 49, 45, 48, 49, 84, 48, 48, 58, 48, 48, 58, 48, 48, 43, 48, 48, 58, 48, 48]
  const FLOOR := Key(FLOOR_STAMP, 0)

  /** What one request gets: a page, or an error. */
  datatype Answer = Page(rows: seq<Key>) | Failed(error: nat)

  /** What the `t`-th page request gets, by its cursor. Any function: nothing is assumed of a server. */
  type Server = (nat, Key) -> Answer

  /** What a caller is handed. */
  datatype Item = Change(key: Key) | Fault(error: nat)

  datatype Options = Options(since: Option<Key>, replayHistory: bool, keepOn: nat -> bool)

  // ---------------------------------------------------------------------------------------------
  // The loop
  // ---------------------------------------------------------------------------------------------

  /** The rows of a page that are delivered: each must be above the one before, starting from the cursor. */
  function Kept(rows: seq<Key>, cursor: Key): seq<Key> {
    if rows == [] then []
    else if Above(rows[0], cursor) then [rows[0]] + Kept(rows[1..], rows[0])
    else Kept(rows[1..], cursor)
  }

  datatype Watcher = Watcher(cursor: Key, failures: nat, items: seq<Item>, stopped: bool)

  function Changes(keys: seq<Key>): seq<Item> {
    seq(|keys|, i requires 0 <= i < |keys| => Change(keys[i]))
  }

  /** One turn of the loop. */
  function Turn(w: Watcher, answer: Answer, keepOn: nat -> bool): Watcher {
    if w.stopped then w
    else
      match answer
      case Failed(e) => Watcher(w.cursor, w.failures + 1, w.items + [Fault(e)], !keepOn(e))
      case Page(rows) =>
        var kept := Kept(rows, w.cursor);
        Watcher(Last(kept, w.cursor), 0, w.items + Changes(kept), false)
  }

  function Run(w: Watcher, server: Server, keepOn: nat -> bool, turns: nat): Watcher {
    if turns == 0 then w
    else
      var v := Run(w, server, keepOn, turns - 1);
      Turn(v, server(turns - 1, v.cursor), keepOn)
  }

  /** Whether the loop sleeps before its next request: after an error it goes on from, and after a page that is not full. */
  function Sleeps(answer: Answer, pageSize: nat, keepOn: nat -> bool): bool {
    match answer
    case Failed(e) => keepOn(e)
    case Page(rows) => |rows| != pageSize
  }

  /** The same for every turn that made a request. */
  function Slept(w: Watcher, server: Server, keepOn: nat -> bool, pageSize: nat, turns: nat): seq<bool> {
    if turns == 0 then []
    else
      var v := Run(w, server, keepOn, turns - 1);
      Slept(w, server, keepOn, pageSize, turns - 1) +
      if v.stopped then [] else [Sleeps(server(turns - 1, v.cursor), pageSize, keepOn)]
  }

  /** Where a watcher starts. `head` is the answer to reading the newest row. */
  function Start(options: Options, head: Answer): Watcher {
    if options.since.Some? then Watcher(options.since.value, 0, [], false)
    else if options.replayHistory then Watcher(FLOOR, 0, [], false)
    else
      match head
      case Failed(e) => Watcher(FLOOR, 0, [Fault(e)], !options.keepOn(e))
      case Page(rows) => Watcher(if rows == [] then FLOOR else rows[0], 0, [], false)
  }

  /** `watchChanges`, for `turns` page requests. */
  method WatchChanges(options: Options, head: Answer, server: Server, pageSize: nat, turns: nat)
    returns (items: seq<Item>, cursor: Key, slept: seq<bool>)
    ensures var w := Run(Start(options, head), server, options.keepOn, turns); items == w.items && cursor == w.cursor
    ensures slept == Slept(Start(options, head), server, options.keepOn, pageSize, turns)
  {
    items, slept := [], [];
    cursor := FLOOR;
    var stopped := false;
    if options.since.Some? {
      cursor := options.since.value;
    } else if !options.replayHistory {
      match head {
        case Failed(e) =>
          items := [Fault(e)];
          stopped := !options.keepOn(e);
        case Page(rows) => if |rows| > 0 { cursor := rows[0]; }
      }
    }
    var failures := 0;
    for t := 0 to turns
      invariant Watcher(cursor, failures, items, stopped) == Run(Start(options, head), server, options.keepOn, t)
      invariant slept == Slept(Start(options, head), server, options.keepOn, pageSize, t)
    {
      if !stopped {
        match server(t, cursor) {
          case Failed(e) =>
            items := items + [Fault(e)];
            failures := failures + 1;
            stopped := !options.keepOn(e);
            slept := slept + [!stopped];
          case Page(batch) =>
            failures := 0;
            items, cursor := Deliver(batch, items, cursor);
            slept := slept + [|batch| != pageSize];
        }
      }
    }
  }

  /** The inner loop over one page. */
  method Deliver(batch: seq<Key>, before: seq<Item>, since: Key) returns (items: seq<Item>, cursor: Key)
    ensures items == before + Changes(Kept(batch, since)) && cursor == Last(Kept(batch, since), since)
  {
    items, cursor := before, since;
    ghost var kept: seq<Key> := [];
    for i := 0 to |batch|
      invariant Kept(batch, since) == kept + Kept(batch[i..], cursor)
      invariant items == before + Changes(kept) && cursor == Last(kept, since)
    {
      assert batch[i..][1..] == batch[i + 1..];
      if Above(batch[i], cursor) {
        assert kept + ([batch[i]] + Kept(batch[i + 1..], batch[i])) == kept + [batch[i]] + Kept(batch[i + 1..], batch[i]);
        assert Changes(kept + [batch[i]]) == Changes(kept) + [Change(batch[i])];
        items := items + [Change(batch[i])];
        kept := kept + [batch[i]];
        cursor := batch[i];
      }
    }
    assert kept + [] == kept;
  }

  // ---------------------------------------------------------------------------------------------
  // Against any server
  // ---------------------------------------------------------------------------------------------

  /** The keys among the items. */
  function Delivered(items: seq<Item>): seq<Key> {
    if items == [] then []
    else
      var rest := Delivered(items[..|items| - 1]);
      var last := items[|items| - 1];
      if last.Change? then rest + [last.key] else rest
  }

  lemma {:induction false} DeliveredConcat(a: seq<Item>, b: seq<Item>)
    ensures Delivered(a + b) == Delivered(a) + Delivered(b)
  {
    if b == [] {
      assert a + b == a;
    } else {
      DeliveredConcat(a, b[..|b| - 1]);
      assert (a + b)[..|a + b| - 1] == a + b[..|b| - 1];
    }
  }

  lemma {:induction false} DeliveredChanges(keys: seq<Key>)
    ensures Delivered(Changes(keys)) == keys
  {
    if keys != [] {
      var k := |keys| - 1;
      DeliveredChanges(keys[..k]);
      assert Changes(keys)[..k] == Changes(keys[..k]);
      assert keys == keys[..k] + [keys[k]];
    }
  }

  lemma {:induction false} KeptClimbs(rows: seq<Key>, cursor: Key)
    ensures Climbs(Kept(rows, cursor), cursor)
  {
    if rows != [] {
      if Above(rows[0], cursor) {
        KeptClimbs(rows[1..], rows[0]);
        var rest := Kept(rows[1..], rows[0]);
        forall i | 0 <= i < |rest| ensures Above(rest[i], cursor) { AboveIsOrder(rest[i], rows[0], cursor); }
      } else {
        KeptClimbs(rows[1..], cursor);
      }
    }
  }

  lemma TurnDelivers(w: Watcher, answer: Answer, keepOn: nat -> bool)
    requires !w.stopped
    ensures var v := Turn(w, answer, keepOn);
            Delivered(v.items) == Delivered(w.items) + if answer.Page? then Kept(answer.rows, w.cursor) else []
  {
    match answer {
      case Failed(e) => DeliveredConcat(w.items, [Fault(e)]);
      case Page(rows) =>
        DeliveredConcat(w.items, Changes(Kept(rows, w.cursor)));
        DeliveredChanges(Kept(rows, w.cursor));
    }
  }

  /** A watcher's items climb from its start, and its cursor is the last of them. */
  ghost predicate Sound(w: Watcher, start: Key) {
    Climbs(Delivered(w.items), start) && w.cursor == Last(Delivered(w.items), start)
  }

  lemma TurnIsSound(w: Watcher, start: Key, answer: Answer, keepOn: nat -> bool)
    requires Sound(w, start)
    ensures Sound(Turn(w, answer, keepOn), start)
  {
    if !w.stopped {
      TurnDelivers(w, answer, keepOn);
      if answer.Page? {
        KeptClimbs(answer.rows, w.cursor);
        ClimbsOn(Delivered(w.items), Kept(answer.rows, w.cursor), start);
      }
    }
  }

  /**
   * Whatever the server answers, the delivered keys are strictly increasing and above the start: no
   * change is delivered twice, a changed row only with a later stamp.
   */
  lemma {:induction false} DeliveriesClimb(w: Watcher, start: Key, server: Server, keepOn: nat -> bool, turns: nat)
    requires Sound(w, start)
    ensures Sound(Run(w, server, keepOn, turns), start)
  {
    if turns > 0 {
      DeliveriesClimb(w, start, server, keepOn, turns - 1);
      var v := Run(w, server, keepOn, turns - 1);
      TurnIsSound(v, start, server(turns - 1, v.cursor), keepOn);
    }
  }

  /** Every watcher, however it starts and whatever it is answered. */
  lemma WatchersClimb(options: Options, head: Answer, server: Server, turns: nat)
    ensures var w := Run(Start(options, head), server, options.keepOn, turns);
            Climbs(Delivered(w.items), Start(options, head).cursor) && w.cursor == Last(Delivered(w.items), Start(options, head).cursor)
  {
    var w := Start(options, head);
    assert Delivered(w.items) == [];
    DeliveriesClimb(w, w.cursor, server, options.keepOn, turns);
  }

  /** Some row of the page is above the cursor. */
  ghost predicate Advances(rows: seq<Key>, cursor: Key) {
    exists k :: k in rows && Above(k, cursor)
  }

  lemma {:induction false} KeptSomeExactly(rows: seq<Key>, cursor: Key)
    ensures Kept(rows, cursor) != [] <==> Advances(rows, cursor)
  {
    if rows != [] {
      assert rows[0] in rows;
      KeptSomeExactly(rows[1..], cursor);
      assert forall k :: k in rows <==> k == rows[0] || k in rows[1..];
    }
  }

  /** The cursor moves exactly when the page has a row above it. */
  lemma CursorMovesExactly(rows: seq<Key>, cursor: Key)
    ensures Last(Kept(rows, cursor), cursor) != cursor <==> Advances(rows, cursor)
  {
    KeptSomeExactly(rows, cursor);
    KeptClimbs(rows, cursor);
    AboveIsOrder(cursor, cursor, cursor);
  }

  /** The same request is made again at once exactly after a full page with no row above the cursor. */
  lemma RepeatsAtOnceExactly(w: Watcher, rows: seq<Key>, pageSize: nat, keepOn: nat -> bool)
    requires !w.stopped
    ensures Turn(w, Page(rows), keepOn).cursor == w.cursor && !Sleeps(Page(rows), pageSize, keepOn) <==>
            |rows| == pageSize && !Advances(rows, w.cursor)
  {
    CursorMovesExactly(rows, w.cursor);
  }

  /** A server that keeps answering so is asked for ever, without a pause and to no effect. */
  lemma {:induction false} StalePagesLoop(w: Watcher, server: Server, pageSize: nat, keepOn: nat -> bool, turns: nat)
    requires !w.stopped
    requires forall t :: server(t, w.cursor).Page? && |server(t, w.cursor).rows| == pageSize && !Advances(server(t, w.cursor).rows, w.cursor)
    ensures var v := Run(w, server, keepOn, turns);
            && v.cursor == w.cursor && v.items == w.items && !v.stopped
            && Slept(w, server, keepOn, pageSize, turns) == seq(turns, _ => false)
  {
    if turns > 0 {
      StalePagesLoop(w, server, pageSize, keepOn, turns - 1);
      KeptSomeExactly(server(turns - 1, w.cursor).rows, w.cursor);
      assert Changes([]) == [] && w.items + [] == w.items;
      assert seq(turns, _ => false) == seq(turns - 1, _ => false) + [false];
    }
  }

  /** The rest of a run, by a watcher started anew at the cursor of the first part. */
  function ResumedAt(server: Server, turns: nat): Server {
    (t: nat, cursor: Key) => server(turns + t, cursor)
  }

  /** `whole` is where `b` is, with `before` delivered ahead of it. */
  predicate Continues(whole: Watcher, b: Watcher, before: seq<Item>) {
    whole.cursor == b.cursor && whole.stopped == b.stopped && whole.items == before + b.items
  }

  lemma TurnContinues(whole: Watcher, b: Watcher, before: seq<Item>, answer: Answer, keepOn: nat -> bool)
    requires Continues(whole, b, before)
    ensures Continues(Turn(whole, answer, keepOn), Turn(b, answer, keepOn), before)
  {
  }

  lemma {:induction false} RunContinues(w: Watcher, from: Watcher, server: Server, keepOn: nat -> bool, first: nat, second: nat)
    requires from.items == [] && Continues(Run(w, server, keepOn, first), from, Run(w, server, keepOn, first).items)
    ensures Continues(Run(w, server, keepOn, first + second), Run(from, ResumedAt(server, first), keepOn, second), Run(w, server, keepOn, first).items)
  {
    if second == 0 {
      assert Run(w, server, keepOn, first).items + [] == Run(w, server, keepOn, first).items;
    } else {
      RunContinues(w, from, server, keepOn, first, second - 1);
      var whole := Run(w, server, keepOn, first + (second - 1));
      var b := Run(from, ResumedAt(server, first), keepOn, second - 1);
      TurnContinues(whole, b, Run(w, server, keepOn, first).items, server(first + (second - 1), whole.cursor), keepOn);
    }
  }

  /**
   * Stopping after some turns and starting again at the last key delivered goes on as if nothing
   * had happened: the two watchers together deliver what one would have.
   */
  lemma RestartContinues(start: Key, server: Server, keepOn: nat -> bool, first: nat, second: nat)
    requires !Run(Watcher(start, 0, [], false), server, keepOn, first).stopped
    ensures var a := Run(Watcher(start, 0, [], false), server, keepOn, first);
            var b := Run(Watcher(Last(Delivered(a.items), start), 0, [], false), ResumedAt(server, first), keepOn, second);
            var whole := Run(Watcher(start, 0, [], false), server, keepOn, first + second);
            whole.cursor == b.cursor && whole.stopped == b.stopped && whole.items == a.items + b.items
  {
    var w := Watcher(start, 0, [], false);
    DeliveriesClimb(w, start, server, keepOn, first);
    RunContinues(w, Watcher(Run(w, server, keepOn, first).cursor, 0, [], false), server, keepOn, first, second);
  }
}
