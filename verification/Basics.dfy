/** Option, and the few sequence notions the models share. */
module Basics {

  datatype Option<+T> = None | Some(value: T)

  type Byte = b: int | 0 <= b < 256

  function Max(a: int, b: int): int { if a < b then b else a }

  function Min(a: int, b: int): int { if a < b then a else b }

  /** The ceiling of `a / b`, as `Math.ceil` of the exact quotient. */
  function CeilDiv(a: int, b: int): int
    requires b > 0
  {
    (a + b - 1) / b
  }

  ghost predicate NoDuplicates<T>(s: seq<T>) {
    forall i, j | 0 <= i < j < |s| :: s[i] != s[j]
  }

  ghost predicate IsPrefix<T>(a: seq<T>, b: seq<T>) {
    |a| <= |b| && a == b[..|a|]
  }

  function IndexOf<T(==)>(t: seq<T>, u: T): (i: int)
    ensures -1 <= i < |t|
    ensures if i < 0 then u !in t else t[i] == u && u !in t[..i]
  {
    if t == [] then -1
    else if t[0] == u then 0
    else
      var i := IndexOf(t[1..], u);
      assert t == [t[0]] + t[1..] && (i >= 0 ==> t[..i + 1] == [t[0]] + t[1..][..i]);
      if i < 0 then -1 else i + 1
  }

  function LastIndexOf<T(==)>(t: seq<T>, u: T): (i: int)
    ensures -1 <= i < |t|
    ensures if i < 0 then u !in t else t[i] == u && u !in t[i + 1..]
  {
    if t == [] then -1
    else if t[|t| - 1] == u then |t| - 1
    else
      var i := LastIndexOf(t[..|t| - 1], u);
      assert t == t[..|t| - 1] + [t[|t| - 1]];
      assert i >= 0 ==> t[i + 1..] == t[..|t| - 1][i + 1..] + [t[|t| - 1]];
      i
  }

  /** A text is cut at its last separator in one way. */
  lemma LastSeparator<T>(a: seq<T>, s: seq<T>, b: seq<T>, t: seq<T>, sep: T)
    requires a + [sep] + s == b + [sep] + t && sep !in s && sep !in t
    ensures a == b && s == t
  {
    var x := a + [sep] + s;
    assert x[|a|] == sep && x[|b|] == sep;
    assert forall i | 0 <= i < |s| :: x[|a| + 1 + i] == s[i];
    assert forall i | 0 <= i < |t| :: x[|b| + 1 + i] == t[i];
    assert |a| == |b|;
    assert x[..|a|] == a && x[..|b|] == b && x[|a| + 1..] == s && x[|b| + 1..] == t;
  }

  /** A separator met once is found from both ends. */
  lemma OnlySeparator<T>(a: seq<T>, b: seq<T>, sep: T)
    requires sep !in a && sep !in b
    ensures var t := a + [sep] + b;
            IndexOf(t, sep) == |a| == LastIndexOf(t, sep) && t[..|a|] == a && t[|a| + 1..] == b
  {
    var t := a + [sep] + b;
    var i, j := IndexOf(t, sep), LastIndexOf(t, sep);
    assert t[|a|] == sep;
    assert forall k | 0 <= k < |a| :: t[k] == a[k];
    assert forall k | 0 <= k < |b| :: t[|a| + 1 + k] == b[k];
    assert i >= 0 && j >= 0;
    assert forall k | 0 <= k < i :: t[k] in t[..i];
    assert forall k | j < k < |t| :: t[k] in t[j + 1..];
  }

  lemma Regroup<T>(a: seq<T>, b: seq<T>, c: seq<T>)
    ensures a + b + c == a + (b + c)
  {
  }

  /** A set that grows at each step by what two others grow by stays their union. */
  lemma {:induction false} GrowTogether<T>(all: nat -> set<T>, first: nat -> set<T>, second: nat -> set<T>,
                                           firstNew: nat -> set<T>, secondNew: nat -> set<T>, a: nat, b: nat)
    requires a <= b && all(a) == first(a) + second(a)
    requires forall k | a <= k < b :: all(k + 1) == all(k) + firstNew(k) + secondNew(k)
    requires forall k | a <= k < b :: first(k + 1) == first(k) + firstNew(k)
    requires forall k | a <= k < b :: second(k + 1) == second(k) + secondNew(k)
    ensures all(b) == first(b) + second(b)
  {
    if a < b { GrowTogether(all, first, second, firstNew, secondNew, a, b - 1); }
  }
}
