/**
 * Function keys and the method tree built from them. A valid contract's keys are unique lists of
 * segments of which none is the beginning of another, which is exactly what lets every key be a
 * leaf of one tree.
 */
module Contract {
  import opened Basics
  import opened JsonValues
  import opened Splits

  const DOT: Unit := 46
  const MAX_KEY_LENGTH := 64

  const THEN: Text := [116, 104, 101, 110]
  const CONSTRUCTOR: Text := [99, 111, 110, 115, 116, 114, 117, 99, 116, 111, 114]
  const PROTOTYPE: Text := [112, 114, 111, 116, 111, 116, 121, 112, 101]
  const RESERVED_SEGMENTS: set<Text> := {THEN, PROTO, CONSTRUCTOR, PROTOTYPE}

  /** A segment list: the dotted parts of a key. */
  type Path = seq<Text>

  // ---------------------------------------------------------------------------------------------
  // Keys and their segments
  // ---------------------------------------------------------------------------------------------

  predicate IsAlphanumeric(u: Unit) { 97 <= u <= 122 || 48 <= u <= 57 }

  /** `FUNCTION_KEY_PATTERN`. */
  predicate MatchesPattern(key: Text) {
    1 <= |key| <= MAX_KEY_LENGTH && IsAlphanumeric(key[0]) &&
    forall i | 0 <= i < |key| :: IsAlphanumeric(key[i]) || key[i] in {DOT, 95, 45}
  }

  /** `key.split(".")`. */
  function Segments(key: Text): (p: Path)
    ensures p != []
  {
    Split(key, DOT)
  }

  /** Keys are told apart by their segments. */
  lemma SplitIsInjective(a: Text, b: Text)
    ensures Segments(a) == Segments(b) <==> a == b
  {
    JoinOfSplit(a, DOT);
    JoinOfSplit(b, DOT);
  }

  /** `a` begins `b` and is shorter: it would be a namespace of `b`. */
  predicate Within(a: Path, b: Path) {
    |a| < |b| && b[..|a|] == a
  }

  ghost predicate WellSegmented(key: Text) {
    MatchesPattern(key) && forall i | 0 <= i < |Segments(key)| :: Segments(key)[i] != [] && Segments(key)[i] !in RESERVED_SEGMENTS
  }

  ghost predicate PrefixFree(keys: seq<Text>) {
    forall i, j | 0 <= i < |keys| && 0 <= j < |keys| :: !Within(Segments(keys[i]), Segments(keys[j]))
  }

  /** What the contract promises of its function keys. */
  ghost predicate ValidKeys(keys: seq<Text>) {
    keys != [] && (forall i | 0 <= i < |keys| :: WellSegmented(keys[i])) && NoDuplicates(keys) && PrefixFree(keys)
  }

  // ---------------------------------------------------------------------------------------------
  // Validation
  // ---------------------------------------------------------------------------------------------

  datatype Verdict =
    | Fine
    | NoFunctions
    | BadKey(index: nat)
    | EmptySegment(index: nat)
    | Reserved(index: nat, segment: Text)
    | ListedTwice(index: nat)
    | MethodAndNamespace(outer: Text, key: Text)

  /** The checks on one key, in order. */
  method CheckKey(key: Text, index: nat) returns (v: Verdict)
    ensures v == Fine <==> WellSegmented(key)
    ensures v == BadKey(index) <==> !MatchesPattern(key)
    ensures v.Fine? || v.BadKey? || v == EmptySegment(index) || (v.Reserved? && v.index == index && v.segment in Segments(key))
  {
    if !MatchesPattern(key) { return BadKey(index); }
    var segments := Segments(key);
    for i := 0 to |segments|
      invariant forall j | 0 <= j < i :: segments[j] != [] && segments[j] !in RESERVED_SEGMENTS
    {
      if segments[i] == [] { return EmptySegment(index); }
      if segments[i] in RESERVED_SEGMENTS { return Reserved(index, segments[i]); }
    }
    v := Fine;
  }

  /** `checkNamespaces`: the first key with a shorter key inside it, with that key. */
  method CheckNamespaces(keys: seq<Text>) returns (v: Verdict)
    ensures v == Fine <==> PrefixFree(keys)
    ensures v.Fine? || (v.MethodAndNamespace? && v.outer in keys && v.key in keys && Within(Segments(v.outer), Segments(v.key)))
  {
    var leaves := set key | key in keys;
    for i := 0 to |keys|
      invariant forall k, j | 0 <= k < |keys| && 0 <= j < i :: !Within(Segments(keys[k]), Segments(keys[j]))
    {
      var segments := Segments(keys[i]);
      for end := 1 to |segments|
        invariant forall k | 0 <= k < |keys| :: |Segments(keys[k])| < end ==> !Within(Segments(keys[k]), segments)
      {
        var prefix := Join(segments[..end], DOT);
        JoinOfSplit(keys[i], DOT);
        assert Free(segments[..end], DOT);
        SplitOfJoin(segments[..end], DOT);
        if prefix in leaves { 
          assert Within(Segments(prefix), segments);
          return MethodAndNamespace(prefix, keys[i]);
        }
        forall k | 0 <= k < |keys| && |Segments(keys[k])| == end ensures !Within(Segments(keys[k]), segments) {
          JoinOfSplit(keys[k], DOT);
        }
      }
    }
    v := Fine;
  }

  /** `validateContract` on the function keys: accepts exactly the valid ones. */
  method ValidateKeys(keys: seq<Text>) returns (v: Verdict)
    ensures v == Fine <==> ValidKeys(keys)
    ensures v.ListedTwice? ==> 0 < v.index < |keys| && keys[v.index] in keys[..v.index]
  {
    if keys == [] { return NoFunctions; }
    var seen: set<Text> := {};
    for i := 0 to |keys|
      invariant seen == set j | 0 <= j < i :: keys[j]
      invariant forall j | 0 <= j < i :: WellSegmented(keys[j])
      invariant NoDuplicates(keys[..i])
    {
      v := CheckKey(keys[i], i);
      if v != Fine { return; }
      if keys[i] in seen { return ListedTwice(i); }
      seen := seen + {keys[i]};
    }
    assert keys[..|keys|] == keys;
    v := CheckNamespaces(keys);
  }

  // ---------------------------------------------------------------------------------------------
  // The tree
  // ---------------------------------------------------------------------------------------------

  datatype Child = Method(key: Text) | Space(node: Node)

  /** One namespace: an object without a prototype, filled in place. */
  class Node {
    var children: map<Text, Child>

    constructor ()
      ensures children == map[]
    {
      children := map[];
    }
  }

  /** Where each namespace lives, by its path from the root. */
  type Places = map<Path, Node>

  /** Every path has its own node. */
  ghost predicate Separate(at: Places) {
    forall p, q | p in at && q in at && p != q :: at[p] != at[q]
  }

  /** What every namespace holds, by its path. */
  type Contents = map<Path, map<Text, Child>>

  ghost function ContentsOf(at: Places): Contents
    reads at.Values
  {
    map p | p in at :: at[p].children
  }

  /** The nodes hold the methods of `done`, and the namespaces of `at`, and nothing else. */
  ghost predicate Holds(c: Contents, at: Places, done: set<Path>) {
    c.Keys == at.Keys && forall p, s: Text | p in c :: ChildAgrees(c[p], s, p + [s], at, done)
  }

  ghost predicate ChildAgrees(children: map<Text, Child>, s: Text, path: Path, at: Places, done: set<Path>) {
    if path in done then s in children && children[s] == Method(Join(path, DOT)) && path !in at
    else if path in at then s in children && children[s] == Space(at[path])
    else s !in children
  }

  ghost predicate Begins(done: set<Path>, p: Path) {
    exists d :: d in done && Within(p, d)
  }

  /** The namespaces are the beginnings of the methods' paths, and of `segs` as far as `upTo`. */
  ghost predicate Spaces(at: Places, done: set<Path>, segs: Path, upTo: nat) {
    forall p :: p in at <==> p == [] || Begins(done, p) || (|p| <= upTo <= |segs| && p == segs[..|p|])
  }

  /** The tree rooted at `root` has exactly the methods of `done`; the path to `segs` is laid as far as `upTo`. */
  ghost predicate IsLaid(root: Node, c: Contents, at: Places, done: set<Path>, segs: Path, upTo: nat) {
    [] in at && at[[]] == root && Separate(at) && Holds(c, at, done) && Spaces(at, done, segs, upTo)
  }

  ghost predicate IsTree(root: Node, at: Places, done: set<Path>)
    reads at.Values
  {
    IsLaid(root, ContentsOf(at), at, done, [], 0)
  }

  ghost function PathsOf(keys: seq<Text>): set<Path> {
    set key | key in keys :: Segments(key)
  }

  /** `segs` is new to `done`: no method there, nor inside one, nor around one. */
  ghost predicate Apart(done: set<Path>, segs: Path) {
    segs != [] && forall d | d in done :: d != segs && !Within(d, segs) && !Within(segs, d)
  }

  /** The next namespace on the way is there already. */
  lemma StepDown(root: Node, c: Contents, at: Places, done: set<Path>, segs: Path, i: nat)
    requires IsLaid(root, c, at, done, segs, i) && Apart(done, segs) && i < |segs| - 1 && segs[..i] in at
    requires segs[i] in c[segs[..i]]
    ensures segs[..i + 1] in at && c[segs[..i]][segs[i]] == Space(at[segs[..i + 1]])
    ensures IsLaid(root, c, at, done, segs, i + 1)
  {
    var path := segs[..i + 1];
    assert path == segs[..i] + [segs[i]];
    assert Within(path, segs);
    assert ChildAgrees(c[segs[..i]], segs[i], segs[..i] + [segs[i]], at, done);
    assert path !in done;
    forall p ensures p in at <==> p == [] || Begins(done, p) || (|p| <= i + 1 && p == segs[..|p|]) {
      if |p| == i + 1 && p == segs[..|p|] { assert p == path; }
    }
  }

  lemma WithinIsTransitive(a: Path, b: Path, c: Path)
    requires Within(a, b) && Within(b, c)
    ensures Within(a, c)
  {
    assert c[..|b|][..|a|] == c[..|a|];
  }

  lemma NothingBelow(done: set<Path>, path: Path, below: Path)
    requires !Begins(done, path) && Within(path, below)
    ensures below !in done && !Begins(done, below)
  {
    forall d | d in done && Within(below, d) ensures Within(path, d) { WithinIsTransitive(path, below, d); }
  }

  lemma LastStep(p: Path, t: Text, q: Path, s: Text)
    ensures p + [t] == q + [s] <==> p == q && t == s
  {
    assert (p + [t])[..|p|] == p && (q + [s])[..|q|] == q;
    assert (p + [t])[|p|] == t && (q + [s])[|q|] == s;
  }

  /** In `d` every namespace of `c` is unchanged, but for one child of one of them. */
  ghost predicate Updated(c: Contents, d: Contents, from: Path, s: Text, child: Child) {
    from in c && forall p | p in c :: p in d && d[p] == if p == from then c[from][s := child] else c[p]
  }

  /** Only the one path can notice the update. */
  lemma UpdatedChild(c: Contents, d: Contents, from: Path, s: Text, child: Child, p: Path, t: Text)
    requires Updated(c, d, from, s, child) && p in c
    ensures if p + [t] == from + [s] then t in d[p] && d[p][t] == child
            else (t in d[p] <==> t in c[p]) && (t in c[p] ==> d[p][t] == c[p][t])
  {
    LastStep(p, t, from, s);
  }

  lemma LaidChild(c: Contents, d: Contents, at: Places, done: set<Path>, from: Path, s: Text, next: Node, p: Path, t: Text)
    requires Holds(c, at, done) && Updated(c, d, from, s, Space(next)) && p in at
    requires from + [s] !in at && from + [s] !in done
    ensures ChildAgrees(d[p], t, p + [t], at[from + [s] := next], done)
  {
    UpdatedChild(c, d, from, s, Space(next), p, t);
    assert ChildAgrees(c[p], t, p + [t], at, done);
  }

  lemma PathIsNew(root: Node, c: Contents, at: Places, done: set<Path>, segs: Path, i: nat)
    requires IsLaid(root, c, at, done, segs, i) && Apart(done, segs) && i < |segs| - 1 && segs[..i] in at
    requires segs[i] !in c[segs[..i]]
    ensures segs[..i + 1] == segs[..i] + [segs[i]] && segs[..i + 1] !in at && segs[..i + 1] !in done
  {
    assert segs[..i + 1] == segs[..i] + [segs[i]];
    assert ChildAgrees(c[segs[..i]], segs[i], segs[..i] + [segs[i]], at, done);
  }

  /** The next namespace on the way is created empty. */
  lemma LayDown(root: Node, c: Contents, d: Contents, at: Places, done: set<Path>, segs: Path, i: nat, next: Node)
    requires IsLaid(root, c, at, done, segs, i) && Apart(done, segs) && i < |segs| - 1 && segs[..i] in at
    requires segs[i] !in c[segs[..i]] && next !in at.Values
    requires Updated(c, d, segs[..i], segs[i], Space(next)) && d.Keys == c.Keys + {segs[..i + 1]} && d[segs[..i + 1]] == map[]
    ensures IsLaid(root, d, at[segs[..i + 1] := next], done, segs, i + 1)
  {
    var from, s, path := segs[..i], segs[i], segs[..i + 1];
    PathIsNew(root, c, at, done, segs, i);
    forall p, t: Text | p in d ensures ChildAgrees(d[p], t, p + [t], at[path := next], done) {
      if p == path { EmptySpace(at, done, segs, i, next, t); } else { LaidChild(c, d, at, done, from, s, next, p, t); }
    }
    LaidSpaces(at, done, segs, i, next);
  }

  lemma EmptySpace(at: Places, done: set<Path>, segs: Path, i: nat, next: Node, t: Text)
    requires Spaces(at, done, segs, i) && i < |segs| - 1 && segs[..i + 1] !in at
    ensures ChildAgrees(map[], t, segs[..i + 1] + [t], at[segs[..i + 1] := next], done)
  {
    var path := segs[..i + 1];
    assert !Begins(done, path);
    assert Within(path, path + [t]);
    NothingBelow(done, path, path + [t]);
  }

  lemma LaidSpaces(at: Places, done: set<Path>, segs: Path, i: nat, next: Node)
    requires Spaces(at, done, segs, i) && i < |segs| - 1
    ensures Spaces(at[segs[..i + 1] := next], done, segs, i + 1)
  {
    forall p ensures (|p| <= i + 1 && p == segs[..|p|]) <==> (p == segs[..i + 1] || (|p| <= i && p == segs[..|p|])) {
    }
  }

  /** The method is put in the last namespace. */
  lemma PutMethod(root: Node, c: Contents, d: Contents, at: Places, done: set<Path>, from: Path, s: Text)
    requires var segs := from + [s]; IsLaid(root, c, at, done, segs, |segs| - 1) && Apart(done, segs)
    requires Updated(c, d, from, s, Method(Join(from + [s], DOT))) && d.Keys == c.Keys
    ensures IsLaid(root, d, at, done + {from + [s]}, [], 0)
  {
    var segs := from + [s];
    NotASpace(at, done, segs);
    forall p, t: Text | p in d ensures ChildAgrees(d[p], t, p + [t], at, done + {segs}) {
      assert ChildAgrees(c[p], t, p + [t], at, done);
      UpdatedChild(c, d, from, s, Method(Join(segs, DOT)), p, t);
    }
    PutSpaces(at, done, segs);
  }

  lemma PutSpaces(at: Places, done: set<Path>, segs: Path)
    requires segs != [] && Spaces(at, done, segs, |segs| - 1)
    ensures Spaces(at, done + {segs}, [], 0)
  {
    forall p ensures Begins(done + {segs}, p) <==> Begins(done, p) || Within(p, segs) {
      if Within(p, segs) { assert segs in done + {segs}; }
      if Begins(done, p) {
        var d :| d in done && Within(p, d);
        assert d in done + {segs};
      }
    }
    forall p ensures Within(p, segs) <==> |p| <= |segs| - 1 && p == segs[..|p|] {
    }
  }

  lemma NotASpace(at: Places, done: set<Path>, segs: Path)
    requires segs != [] && Spaces(at, done, segs, |segs| - 1) && Apart(done, segs)
    ensures segs !in at
  {
    assert !Begins(done, segs);
  }

  /** `buildTree`. */
  method BuildTree(keys: seq<Text>) returns (root: Node, ghost at: Places)
    requires ValidKeys(keys)
    ensures IsTree(root, at, PathsOf(keys))
    ensures forall p | p in at :: fresh(at[p])
  {
    root := new Node();
    at := map[[] := root];
    ghost var done: set<Path> := {};
    EmptyTree(root, ContentsOf(at), at);
    for i := 0 to |keys|
      invariant done == PathsOf(keys[..i])
      invariant IsTree(root, at, done)
      invariant forall p | p in at :: fresh(at[p])
    {
      NextIsApart(keys, i);
      at := AddMethod(root, keys[i], at, done);
      done := done + {Segments(keys[i])};
    }
    assert keys[..|keys|] == keys;
  }

  lemma EmptyTree(root: Node, c: Contents, at: Places)
    requires at == map[[] := root] && c == map[[] := map[]]
    ensures IsLaid(root, c, at, {}, [], 0)
  {
  }

  lemma NextIsApart(keys: seq<Text>, i: nat)
    requires ValidKeys(keys) && i < |keys|
    ensures Apart(PathsOf(keys[..i]), Segments(keys[i]))
    ensures PathsOf(keys[..i + 1]) == PathsOf(keys[..i]) + {Segments(keys[i])}
  {
    forall d | d in PathsOf(keys[..i]) ensures d != Segments(keys[i]) && !Within(d, Segments(keys[i])) && !Within(Segments(keys[i]), d) {
      var key :| key in keys[..i] && d == Segments(key);
      var j :| 0 <= j < i && keys[j] == key;
      SplitIsInjective(keys[j], keys[i]);
    }
    assert keys[..i + 1] == keys[..i] + [keys[i]];
  }

  method AddMethod(root: Node, key: Text, ghost before: Places, ghost done: set<Path>) returns (ghost at: Places)
    requires IsTree(root, before, done) && Apart(done, Segments(key))
    modifies before.Values
    ensures IsTree(root, at, done + {Segments(key)})
    ensures forall p | p in at :: (p in before && at[p] == before[p]) || fresh(at[p])
  {
    at := before;
    var segments := Segments(key);
    var node := root;
    for i := 0 to |segments| - 1
      invariant IsLaid(root, ContentsOf(at), at, done, segments, i)
      invariant segments[..i] in at && node == at[segments[..i]]
      invariant forall p | p in at :: (p in before && at[p] == before[p]) || fresh(at[p])
    {
      if segments[i] !in node.children {
        node, at := AddSpace(root, node, at, done, segments, i);
      } else {
        StepDown(root, ContentsOf(at), at, done, segments, i);
        node := node.children[segments[i]].node;
      }
    }
    AddLeaf(root, node, key, at, done);
  }

  method AddSpace(ghost root: Node, node: Node, ghost at: Places, ghost done: set<Path>, segs: Path, i: nat)
    returns (next: Node, ghost after: Places)
    requires IsLaid(root, ContentsOf(at), at, done, segs, i) && Apart(done, segs) && i < |segs| - 1
    requires segs[..i] in at && node == at[segs[..i]] && segs[i] !in node.children
    modifies node
    ensures fresh(next) && after == at[segs[..i + 1] := next]
    ensures IsLaid(root, ContentsOf(after), after, done, segs, i + 1)
  {
    ghost var c, path := ContentsOf(at), segs[..i + 1];
    PathIsNew(root, c, at, done, segs, i);
    next := new Node();
    node.children := node.children[segs[i] := Space(next)];
    after := at[path := next];
    LayDown(root, c, ContentsOf(after), at, done, segs, i, next);
  }

  method AddLeaf(ghost root: Node, node: Node, key: Text, ghost at: Places, ghost done: set<Path>)
    requires IsLaid(root, ContentsOf(at), at, done, Segments(key), |Segments(key)| - 1) && Apart(done, Segments(key))
    requires var from := Segments(key)[..|Segments(key)| - 1]; from in at && node == at[from]
    modifies node
    ensures IsTree(root, at, done + {Segments(key)})
  {
    var segs := Segments(key);
    var s := segs[|segs| - 1];
    ghost var c, from := ContentsOf(at), segs[..|segs| - 1];
    assert segs == from + [s];
    JoinOfSplit(key, DOT);
    node.children := node.children[s := Method(key)];
    PutMethod(root, c, ContentsOf(at), at, done, from, s);
  }

  // ---------------------------------------------------------------------------------------------
  // What the tree is good for
  // ---------------------------------------------------------------------------------------------

  /** What a walk down the segments from a namespace meets. */
  ghost function Walk(at: Places, node: Node, p: Path): Option<Child>
    reads at.Values
    decreases |p|
  {
    if p == [] then Some(Space(node))
    else if node !in at.Values || p[0] !in node.children then None
    else
      match node.children[p[0]]
      case Method(key) => if |p| == 1 then Some(Method(key)) else None
      case Space(next) => Walk(at, next, p[1..])
  }

  /** What should be met at `p`: a method at a key, a namespace at what begins one, else nothing. */
  ghost function Meets(at: Places, done: set<Path>, p: Path): Option<Child> {
    if p in at then Some(Space(at[p]))
    else if p in done then Some(Method(Join(p, DOT)))
    else None
  }

  lemma WalkExactly(root: Node, at: Places, done: set<Path>, p: Path)
    requires IsTree(root, at, done)
    ensures Walk(at, root, p) == Meets(at, done, p)
    ensures p in at <==> p == [] || Begins(done, p)
    ensures p in at && p != [] ==> p !in done
  {
    forall h, q | h in at && q != [] ensures StepsWell(at, done, h, q) { WalkStep(root, at, done, h, q); }
    WalkFrom(at, done, [], p);
    assert [] + p == p;
    if p != [] && p in at {
      MethodBeginsNothing(root, at, done, p);
    }
  }

  /** Below a path that is no namespace there is nothing. */
  lemma NothingThere(at: Places, done: set<Path>, path: Path, below: Path)
    requires Spaces(at, done, [], 0) && path !in at && Within(path, below)
    ensures below !in at && below !in done
  {
    NothingBelow(done, path, below);
  }

  /** One step of a walk: down into the next namespace, or to the end. */
  ghost predicate StepsWell(at: Places, done: set<Path>, here: Path, p: Path)
    requires here in at && p != []
    reads at.Values
  {
    var next := here + [p[0]];
    here + p == next + p[1..] &&
    Walk(at, at[here], p) == if next in at then Walk(at, at[next], p[1..]) else Meets(at, done, here + p)
  }

  lemma WalkStep(root: Node, at: Places, done: set<Path>, here: Path, p: Path)
    requires IsTree(root, at, done) && here in at && p != []
    ensures StepsWell(at, done, here, p)
  {
    StepInto(ContentsOf(at), at, done, here, p);
    MeetsEnd(at, done, here, p);
    StepOut(at, done, here, p);
  }

  /** What the child met decides the step. */
  lemma StepOut(at: Places, done: set<Path>, here: Path, p: Path)
    requires here in at && p != []
    requires ChildMet(at[here].children, at, done, here + [p[0]], p[0])
    requires here + [p[0]] !in at ==>
               Meets(at, done, here + p) == if here + [p[0]] in done && |p| == 1 then Some(Method(Join(here + [p[0]], DOT))) else None
    ensures StepsWell(at, done, here, p)
  {
    assert here + p == here + [p[0]] + p[1..];
  }

  ghost predicate ChildMet(children: map<Text, Child>, at: Places, done: set<Path>, next: Path, s: Text) {
    if next in at then s in children && children[s] == Space(at[next])
    else if next in done then s in children && children[s] == Method(Join(next, DOT))
    else s !in children
  }

  lemma StepInto(c: Contents, at: Places, done: set<Path>, here: Path, p: Path)
    requires Holds(c, at, done) && here in at && p != []
    ensures ChildMet(c[here], at, done, here + [p[0]], p[0])
  {
    assert ChildAgrees(c[here], p[0], here + [p[0]], at, done);
  }

  lemma MeetsEnd(at: Places, done: set<Path>, here: Path, p: Path)
    requires Spaces(at, done, [], 0) && p != []
    ensures here + [p[0]] !in at ==>
              Meets(at, done, here + p) == if here + [p[0]] in done && |p| == 1 then Some(Method(Join(here + [p[0]], DOT))) else None
  {
    var next := here + [p[0]];
    if next in at {
    } else if |p| == 1 {
      assert here + p == next;
    } else {
      assert (here + p)[..|next|] == next;
      NothingThere(at, done, next, here + p);
    }
  }

  lemma {:induction false} WalkFrom(at: Places, done: set<Path>, here: Path, p: Path)
    requires here in at && forall h, q | h in at && q != [] :: StepsWell(at, done, h, q)
    ensures Walk(at, at[here], p) == Meets(at, done, here + p)
    decreases |p|
  {
    if p == [] {
      assert here + p == here;
    } else {
      assert StepsWell(at, done, here, p);
      if here + [p[0]] in at { WalkFrom(at, done, here + [p[0]], p[1..]); }
    }
  }

  /** A method is no namespace, so no method lies inside another. */
  lemma MethodBeginsNothing(root: Node, at: Places, done: set<Path>, p: Path)
    requires IsTree(root, at, done) && p != []
    ensures p in at ==> p !in done
  {
    var from, s := p[..|p| - 1], p[|p| - 1];
    assert from + [s] == p;
    if from in at {
      assert ChildAgrees(ContentsOf(at)[from], s, from + [s], at, done);
    } else {
      NothingThere(at, done, from, p);
    }
  }

  /** Every key's segments lead to its method, and nothing else leads to a method. */
  lemma MethodsAreKeys(root: Node, at: Places, keys: seq<Text>, p: Path)
    requires IsTree(root, at, PathsOf(keys))
    ensures (exists key :: Walk(at, root, p) == Some(Method(key))) <==> p in PathsOf(keys)
    ensures forall key | key in keys :: Walk(at, root, Segments(key)) == Some(Method(key))
  {
    WalkExactly(root, at, PathsOf(keys), p);
    forall key | key in keys ensures Walk(at, root, Segments(key)) == Some(Method(key)) {
      WalkExactly(root, at, PathsOf(keys), Segments(key));
      JoinOfSplit(key, DOT);
    }
    if p in PathsOf(keys) {
      var key :| key in keys && Segments(key) == p;
      assert Walk(at, root, p) == Some(Method(key));
    }
  }

  predicate SameKind(a: Option<Child>, b: Option<Child>) {
    (a.None? && b.None?) ||
    (a.Some? && b.Some? && (a.value == b.value || (a.value.Space? && b.value.Space?)))
  }

  /** The order of the keys does not show: every walk meets the same in both trees. */
  lemma OrderDoesNotMatter(a: Node, atA: Places, keysA: seq<Text>, b: Node, atB: Places, keysB: seq<Text>, p: Path)
    requires IsTree(a, atA, PathsOf(keysA)) && IsTree(b, atB, PathsOf(keysB))
    requires forall key :: key in keysA <==> key in keysB
    ensures SameKind(Walk(atA, a, p), Walk(atB, b, p))
  {
    assert PathsOf(keysA) == PathsOf(keysB);
    WalkExactly(a, atA, PathsOf(keysA), p);
    WalkExactly(b, atB, PathsOf(keysB), p);
  }

  /** No tree holds two methods of which one would be a namespace of the other: the check is needed. */
  lemma TreesArePrefixFree(root: Node, at: Places, done: set<Path>, p: Path, q: Path)
    requires IsTree(root, at, done) && p in done && q in done && p != []
    ensures !Within(p, q)
  {
    MethodBeginsNothing(root, at, done, p);
    assert !Begins(done, p);
  }
}
