/** Cutting a sequence at a separator, and putting it together again. */
module Splits {
  import opened Basics

  /** `s.split(sep)`: never empty. */
  function Split<T(==)>(s: seq<T>, sep: T): (p: seq<seq<T>>)
    ensures p != []
    decreases |s|
  {
    var i := IndexOf(s, sep);
    if i < 0 then [s] else [s[..i]] + Split(s[i + 1..], sep)
  }

  /** `p.join(sep)`. */
  function Join<T>(p: seq<seq<T>>, sep: T): seq<T> {
    if p == [] then []
    else if |p| == 1 then p[0]
    else p[0] + [sep] + Join(p[1..], sep)
  }

  /** Parts that could have come from splitting. */
  ghost predicate Free<T>(p: seq<seq<T>>, sep: T) {
    p != [] && forall i | 0 <= i < |p| :: sep !in p[i]
  }

  lemma {:induction false} JoinOfSplit<T>(s: seq<T>, sep: T)
    ensures Join(Split(s, sep), sep) == s && Free(Split(s, sep), sep)
    decreases |s|
  {
    var i := IndexOf(s, sep);
    if i >= 0 {
      JoinOfSplit(s[i + 1..], sep);
      assert s == s[..i] + [sep] + s[i + 1..];
      var rest := Split(s[i + 1..], sep);
      assert ([s[..i]] + rest)[1..] == rest;
    }
  }

  lemma {:induction false} SplitOfJoin<T>(p: seq<seq<T>>, sep: T)
    requires Free(p, sep)
    ensures Split(Join(p, sep), sep) == p
  {
    if |p| > 1 {
      assert Free(p[1..], sep);
      SplitOfJoin(p[1..], sep);
      FirstSeparator(p[0], Join(p[1..], sep), sep);
      assert p == [p[0]] + p[1..];
    }
  }

  lemma FirstSeparator<T>(a: seq<T>, b: seq<T>, sep: T)
    requires sep !in a
    ensures var t := a + [sep] + b; IndexOf(t, sep) == |a| && t[..|a|] == a && t[|a| + 1..] == b
  {
    var t := a + [sep] + b;
    var i := IndexOf(t, sep);
    assert t[|a|] == sep;
    assert forall k | 0 <= k < i :: t[k] in t[..i];
    assert forall k | 0 <= k < |a| :: t[k] == a[k];
  }
}
