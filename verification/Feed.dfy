/**
 * A change feed as its server keeps it. Rows are ordered by (last_detected_at, id); recording a
 * change, or recording an old one again, gives its row a key above every key before. `log` is the
 * keys in the order they were given; a row's current key is its last.
 */
module Feed {
  import opened Basics
  import opened JsonValues
  import opened CanonicalJson

  /** A row's place in the feed, and a watcher's cursor. Stamps compare as text. */
  datatype Key = Key(stamp: Text, id: int)

  predicate Above(a: Key, b: Key) {
    Less(b.stamp, a.stamp) || (a.stamp == b.stamp && a.id > b.id)
  }

  lemma AboveIsOrder(a: Key, b: Key, c: Key)
    ensures !Above(a, a) && !(Above(a, b) && Above(b, a))
    ensures a == b || Above(a, b) || Above(b, a)
    ensures Above(a, b) && Above(b, c) ==> Above(a, c)
  {
    LessIsOrder(a.stamp, b.stamp);
    LessIsOrder(b.stamp, c.stamp);
    LessIsOrder(a.stamp, a.stamp);
    if Less(c.stamp, b.stamp) && Less(b.stamp, a.stamp) { LessIsTransitive(c.stamp, b.stamp, a.stamp); }
  }

  ghost predicate Increasing(s: seq<Key>) {
    forall i, j | 0 <= i < j < |s| :: Above(s[j], s[i])
  }

  ghost predicate AllAbove(s: seq<Key>, c: Key) {
    forall i | 0 <= i < |s| :: Above(s[i], c)
  }

  function Last(s: seq<Key>, c: Key): Key {
    if s == [] then c else s[|s| - 1]
  }

  /** `s` comes strictly increasing after `c`. */
  ghost predicate Climbs(s: seq<Key>, c: Key) {
    Increasing(s) && AllAbove(s, c)
  }

  lemma ClimbsOn(s: seq<Key>, t: seq<Key>, c: Key)
    requires Climbs(s, c) && Climbs(t, Last(s, c))
    ensures Climbs(s + t, c) && Last(s + t, c) == Last(t, Last(s, c))
  {
    var r := s + t;
    forall i | 0 <= i < |t| ensures Above(t[i], c) && forall k | 0 <= k < |s| :: Above(t[i], s[k]) {
      AboveIsOrder(t[i], Last(s, c), c);
      forall k | 0 <= k < |s| ensures Above(t[i], s[k]) { AboveIsOrder(t[i], Last(s, c), s[k]); }
    }
  }

  /** The rows of a page above a cursor, in the page's order. */
  function AboveOf(s: seq<Key>, c: Key): (r: seq<Key>)
    ensures |r| <= |s|
  {
    if s == [] then [] else (if Above(s[0], c) then [s[0]] else []) + AboveOf(s[1..], c)
  }

  function Take<T>(s: seq<T>, k: nat): seq<T> { if k <= |s| then s[..k] else s }

  // ---------------------------------------------------------------------------------------------
  // What the server answers
  // ---------------------------------------------------------------------------------------------

  /** When `n` keys had been given, the `i`-th was its row's last. */
  predicate IsCurrent(log: seq<Key>, n: nat, i: nat)
    requires n <= |log|
  {
    i < n && forall j | i < j < n :: log[j].id != log[i].id
  }

  /** The rows of the feed, oldest first, from the `i`-th key on. */
  function Rows(log: seq<Key>, n: nat, i: nat): seq<Key>
    requires i <= n <= |log|
    decreases n - i
  {
    if i == n then []
    else (if IsCurrent(log, n, i) then [log[i]] else []) + Rows(log, n, i + 1)
  }

  /** The keyset page: the oldest rows above the cursor, at most `limit` of them. */
  function Page(log: seq<Key>, n: nat, cursor: Key, limit: nat): seq<Key>
    requires n <= |log|
  {
    Take(AboveOf(Rows(log, n, 0), cursor), limit)
  }

  /** The newest row, as the browsing view of one row shows it. */
  function Head(log: seq<Key>, n: nat): seq<Key>
    requires n <= |log|
  {
    if n == 0 then [] else [log[n - 1]]
  }

  /** `k` is the current key of one of the rows from the `i`-th key on. */
  predicate IsRow(log: seq<Key>, n: nat, i: nat, k: Key)
    requires n <= |log|
  {
    exists j :: i <= j < n && IsCurrent(log, n, j) && log[j] == k
  }

  lemma {:induction false} ListedIsRow(log: seq<Key>, n: nat, i: nat, k: Key)
    requires i <= n <= |log| && k in Rows(log, n, i)
    ensures IsRow(log, n, i, k)
    decreases n - i
  {
    if IsCurrent(log, n, i) && log[i] == k {
    } else {
      ListedIsRow(log, n, i + 1, k);
      var j :| i + 1 <= j < n && IsCurrent(log, n, j) && log[j] == k;
      assert i <= j;
    }
  }

  lemma {:induction false} RowIsListed(log: seq<Key>, n: nat, i: nat, j: nat)
    requires i <= j < n <= |log| && IsCurrent(log, n, j)
    ensures log[j] in Rows(log, n, i)
    decreases j - i
  {
    if i < j { RowIsListed(log, n, i + 1, j); }
  }

  lemma RowsAre(log: seq<Key>, n: nat, i: nat, k: Key)
    requires i <= n <= |log|
    ensures k in Rows(log, n, i) <==> IsRow(log, n, i, k)
  {
    if k in Rows(log, n, i) { ListedIsRow(log, n, i, k); }
    if IsRow(log, n, i, k) {
      var j :| i <= j < n && IsCurrent(log, n, j) && log[j] == k;
      RowIsListed(log, n, i, j);
    }
  }

  lemma LaterRowIsAbove(log: seq<Key>, n: nat, i: nat, k: Key)
    requires i < n <= |log| && Increasing(log) && IsRow(log, n, i + 1, k)
    ensures Above(k, log[i])
  {
    var j :| i + 1 <= j < n && IsCurrent(log, n, j) && log[j] == k;
  }

  lemma ConsIncreases(k: Key, rest: seq<Key>)
    requires Increasing(rest) && AllAbove(rest, k)
    ensures Increasing([k] + rest)
  {
  }

  lemma {:induction false} RowsIncrease(log: seq<Key>, n: nat, i: nat)
    requires i <= n <= |log| && Increasing(log)
    ensures Increasing(Rows(log, n, i))
    decreases n - i
  {
    if i < n {
      RowsIncrease(log, n, i + 1);
      RowsClimb(log, n, i);
      ConsIncreases(log[i], Rows(log, n, i + 1));
    }
  }

  lemma RowsClimb(log: seq<Key>, n: nat, i: nat)
    requires i < n <= |log| && Increasing(log)
    ensures AllAbove(Rows(log, n, i + 1), log[i])
  {
    var rest := Rows(log, n, i + 1);
    forall k | 0 <= k < |rest| ensures Above(rest[k], log[i]) {
      RowsAre(log, n, i + 1, rest[k]);
      LaterRowIsAbove(log, n, i, rest[k]);
    }
  }

  /** The rows are exactly the current keys, in increasing order. */
  lemma RowsOf(log: seq<Key>, n: nat, i: nat)
    requires i <= n <= |log| && Increasing(log)
    ensures Increasing(Rows(log, n, i))
    ensures forall k :: k in Rows(log, n, i) <==> IsRow(log, n, i, k)
  {
    RowsIncrease(log, n, i);
    forall k ensures k in Rows(log, n, i) <==> IsRow(log, n, i, k) { RowsAre(log, n, i, k); }
  }

  lemma {:induction false} AboveOfKeeps(s: seq<Key>, c: Key)
    ensures forall k :: k in AboveOf(s, c) <==> k in s && Above(k, c)
    ensures Increasing(s) ==> Increasing(AboveOf(s, c))
  {
    if s != [] {
      AboveOfKeeps(s[1..], c);
      var rest := AboveOf(s[1..], c);
      if Increasing(s) {
        forall k | 0 <= k < |rest| ensures Above(rest[k], s[0]) {
          assert rest[k] in rest;
          var j :| 0 <= j < |s[1..]| && s[1..][j] == rest[k];
          assert s[j + 1] == rest[k];
        }
      }
    }
  }

  /** Two increasing sequences with the same elements are the same. */
  lemma {:induction false} IncreasingIsCanonical(s: seq<Key>, t: seq<Key>)
    requires Increasing(s) && Increasing(t) && forall k :: k in s <==> k in t
    ensures s == t
  {
    if s != [] { assert s[0] in s; }
    if t != [] { assert t[0] in t; }
    if s != [] {
      SmallestIsFirst(s, t);
      forall k ensures k in s[1..] <==> k in t[1..] {
        TailHolds(s, k);
        TailHolds(t, k);
      }
      IncreasingIsCanonical(s[1..], t[1..]);
      assert s == [s[0]] + s[1..] && t == [t[0]] + t[1..];
    }
  }

  lemma SmallestIsFirst(s: seq<Key>, t: seq<Key>)
    requires Increasing(s) && Increasing(t) && s != [] && t != [] && s[0] in t && t[0] in s
    ensures s[0] == t[0]
  {
    AboveIsOrder(s[0], t[0], s[0]);
  }

  lemma TailHolds(s: seq<Key>, k: Key)
    requires Increasing(s) && s != []
    ensures k in s[1..] <==> k in s && k != s[0]
  {
    AboveIsOrder(s[0], s[0], s[0]);
    assert s == [s[0]] + s[1..];
    if k in s[1..] {
      var j :| 0 <= j < |s[1..]| && s[1..][j] == k;
      assert s[j + 1] == k;
    }
  }

  /** Once the first `k` rows above a cursor are passed, the rest is what is above the last of them. */
  lemma PassedRows(s: seq<Key>, c: Key, k: nat)
    requires Increasing(s) && 0 < k <= |AboveOf(s, c)|
    ensures AboveOf(s, AboveOf(s, c)[k - 1]) == AboveOf(s, c)[k..]
  {
    var r := AboveOf(s, c);
    var last := r[k - 1];
    AboveOfKeeps(s, c);
    AboveOfKeeps(s, last);
    assert last in r;
    forall x ensures x in AboveOf(s, last) <==> x in r[k..] {
      AboveIsOrder(x, last, c);
      if x in AboveOf(s, last) {
        assert x in r;
        var i :| 0 <= i < |r| && r[i] == x;
        if i < k { AboveIsOrder(last, r[i], last); }
        assert i >= k;
        assert r[k..][i - k] == x;
      }
      if x in r[k..] {
        var i :| 0 <= i < |r[k..]| && r[k..][i] == x;
        assert r[k + i] == x && x in r;
      }
    }
    IncreasingIsCanonical(AboveOf(s, last), r[k..]);
  }
}
