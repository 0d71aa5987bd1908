/**
 * What a function is called with: `checkInputs` and the plain-JSON copy it makes. The copy is what
 * is sent to the page and what is hashed, so it must mean what was given.
 */
module Inputs {
  import opened Basics
  import opened JsonValues
  import opened CanonicalJson
  import opened JsonReader
  import opened CanonicalForms
  import opened Preimages

  /** `cloneJson`: a copy, a property to leave out, or a value JSON cannot carry. */
  datatype Cloned = Copy(value: Js) | Drop | Bad

  function Clone(v: Js, depth: nat): Cloned
    decreases v, 1, 0
  {
    match v
    case Undefined => Drop
    case NotJson(_) => Bad
    case Arr(items) =>
      if depth >= MAX_JSON_DEPTH then Bad
      else
        var copies := CloneItems(items, depth + 1);
        if copies.None? then Bad else Copy(Arr(copies.value))
    case Obj(props) =>
      if depth >= MAX_JSON_DEPTH then Bad
      else
        var copies := CloneProps(props, v, depth + 1);
        if copies.None? then Bad else Copy(Obj(copies.value))
    case _ => Copy(v)
  }

  function CloneItems(items: seq<Js>, depth: nat): Option<seq<Js>>
    decreases items, 0, 0
  {
    if items == [] then Some([])
    else
      var first := Clone(items[0], depth);
      var rest := CloneItems(items[1..], depth);
      if first.Copy? && rest.Some? then Some([first.value] + rest.value) else None
  }

  function CloneProps(props: seq<Prop>, ghost parent: Js, depth: nat): Option<seq<Prop>>
    requires parent.Obj? && forall p | p in props :: p in parent.props
    decreases parent, 0, |props|
  {
    if props == [] then Some([])
    else
      assert props[0] in parent.props;
      var first := Clone(props[0].value, depth);
      var rest := CloneProps(props[1..], parent, depth);
      if first.Bad? || rest.None? then None
      else if first.Drop? then rest
      else Some([Prop(props[0].key, first.value)] + rest.value)
  }

  /** `d` is the copy of `c`, which nests no deeper than `limit`. */
  ghost predicate IsCopy(c: Js, d: Js, limit: int) {
    && Meaning(d) == Meaning(c) && Proper(d) && !d.Undefined?
    && (Clean(d) <==> Clean(c)) && NestsWithin(c, limit) && NestsWithin(d, limit)
  }

  /** The copied properties, in order: those that are defined, each with its copy. */
  ghost predicate Aligned(props: seq<Prop>, copies: seq<Prop>, limit: int) {
    |props| == |copies| && forall i | 0 <= i < |props| :: PropCopied(props[i], copies[i], limit)
  }

  ghost predicate PropCopied(p: Prop, q: Prop, limit: int) {
    q.key == p.key && !p.value.Undefined? && IsCopy(p.value, q.value, limit)
  }

  lemma {:induction false} CopyMeansTheSame(v: Js, depth: nat)
    requires Proper(v) && Clone(v, depth).Copy?
    ensures IsCopy(v, Clone(v, depth).value, MAX_JSON_DEPTH - depth)
    decreases v, 1, 0
  {
    match v {
      case Arr(items) =>
        ItemCopies(items, depth + 1);
        ArrayCopy(items, CloneItems(items, depth + 1).value, MAX_JSON_DEPTH - depth);
      case Obj(props) =>
        PropCopies(props, v, depth + 1);
        ObjectCopy(props, CloneProps(props, v, depth + 1).value, MAX_JSON_DEPTH - depth);
      case _ =>
    }
  }

  lemma {:induction false} ItemCopies(items: seq<Js>, depth: nat)
    requires (forall i | 0 <= i < |items| :: Proper(items[i])) && CloneItems(items, depth).Some?
    ensures var copies := CloneItems(items, depth).value;
            |copies| == |items| && (forall i | 0 <= i < |items| :: IsCopy(items[i], copies[i], MAX_JSON_DEPTH - depth)) &&
            Meanings(copies) == Meanings(items)
    decreases items, 0, 0
  {
    if items != [] {
      CopyMeansTheSame(items[0], depth);
      ItemCopies(items[1..], depth);
      var copies := CloneItems(items, depth).value;
      forall i | 0 <= i < |items| ensures IsCopy(items[i], copies[i], MAX_JSON_DEPTH - depth) {
        if i > 0 { assert IsCopy(items[1..][i - 1], copies[1..][i - 1], MAX_JSON_DEPTH - depth); }
      }
    }
  }

  lemma ArrayCopy(items: seq<Js>, copies: seq<Js>, limit: int)
    requires limit > 0 && |copies| == |items| && (forall i | 0 <= i < |items| :: IsCopy(items[i], copies[i], limit - 1))
    requires Meanings(copies) == Meanings(items)
    ensures IsCopy(Arr(items), Arr(copies), limit)
  {
  }

  lemma {:induction false} PropCopies(props: seq<Prop>, parent: Js, depth: nat)
    requires parent.Obj? && (forall p | p in props :: p in parent.props) && CloneProps(props, parent, depth).Some?
    requires forall i | 0 <= i < |props| :: Proper(props[i].value)
    ensures Aligned(Defined(props), CloneProps(props, parent, depth).value, MAX_JSON_DEPTH - depth)
    decreases parent, 0, |props|
  {
    if props != [] {
      assert props[0] in parent.props;
      PropCopies(props[1..], parent, depth);
      if Clone(props[0].value, depth).Copy? {
        CopyMeansTheSame(props[0].value, depth);
        OneMoreCopy(props[0], Prop(props[0].key, Clone(props[0].value, depth).value),
                    Defined(props[1..]), CloneProps(props[1..], parent, depth).value, MAX_JSON_DEPTH - depth);
      }
    }
  }

  lemma OneMoreCopy(p: Prop, q: Prop, props: seq<Prop>, copies: seq<Prop>, limit: int)
    requires Aligned(props, copies, limit) && PropCopied(p, q, limit)
    ensures Aligned([p] + props, [q] + copies, limit)
  {
  }

  lemma {:induction false} DefinedOnes(props: seq<Prop>)
    ensures forall p :: p in Defined(props) <==> p in props && !p.value.Undefined?
    ensures DistinctKeys(props) ==> DistinctKeys(Defined(props))
  {
    if props != [] {
      DefinedOnes(props[1..]);
      assert props == [props[0]] + props[1..];
      var rest := Defined(props[1..]);
      if DistinctKeys(props) {
        forall i | 0 <= i < |rest| ensures rest[i].key != props[0].key {
          assert rest[i] in rest;
          var j :| 0 <= j < |props[1..]| && props[1..][j] == rest[i];
          assert props[j + 1] == rest[i];
        }
      }
    }
  }

  lemma ObjectCopy(props: seq<Prop>, copies: seq<Prop>, limit: int)
    requires limit > 0 && Aligned(Defined(props), copies, limit - 1) && DistinctKeys(props)
    ensures IsCopy(Obj(props), Obj(copies), limit)
  {
    DefinedOnes(props);
    ObjectCopyMeans(props, copies, limit - 1);
    ObjectCopyClean(props, copies, limit - 1);
    forall i | 0 <= i < |copies| ensures NestsWithin(copies[i].value, limit - 1) {
      assert PropCopied(Defined(props)[i], copies[i], limit - 1);
    }
    forall j | 0 <= j < |props| && !props[j].value.Undefined? ensures NestsWithin(props[j].value, limit - 1) {
      var i := PlaceOf(props, j);
      assert PropCopied(Defined(props)[i], copies[i], limit - 1);
    }
  }

  lemma PlaceOf(props: seq<Prop>, j: nat) returns (i: nat)
    requires j < |props| && !props[j].value.Undefined?
    ensures i < |Defined(props)| && Defined(props)[i] == props[j]
  {
    DefinedOnes(props);
    assert props[j] in Defined(props);
    i :| 0 <= i < |Defined(props)| && Defined(props)[i] == props[j];
  }

  lemma ObjectCopyMeans(props: seq<Prop>, copies: seq<Prop>, limit: int)
    requires Aligned(Defined(props), copies, limit) && DistinctKeys(props)
    ensures Meaning(Obj(copies)) == Meaning(Obj(props)) && Proper(Obj(copies))
  {
    DefinedOnes(props);
    CopiesAreProper(Defined(props), copies, limit);
    MembersRepresent(props);
    MembersRepresent(copies);
    SameMembers(props, copies, limit, MembersOf(props, Obj(props)), MembersOf(copies, Obj(copies)));
  }

  lemma SameMembers(props: seq<Prop>, copies: seq<Prop>, limit: int, a: map<Text, Value>, b: map<Text, Value>)
    requires Aligned(Defined(props), copies, limit) && DistinctKeys(props) && Represents(a, props) && Represents(b, copies)
    ensures a == b
  {
    forall k ensures k in a <==> k in b { KeyCopied(props, copies, limit, k); }
    forall k | k in a ensures a[k] == b[k] {
      var q := CopyOfKey(props, copies, limit, k);
    }
  }

  lemma CopiesAreProper(props: seq<Prop>, copies: seq<Prop>, limit: int)
    requires Aligned(props, copies, limit) && DistinctKeys(props)
    ensures DistinctKeys(copies) && Proper(Obj(copies)) && forall q | q in copies :: !q.value.Undefined?
  {
    forall i | 0 <= i < |copies| ensures copies[i].key == props[i].key && Proper(copies[i].value) && !copies[i].value.Undefined? {
      assert PropCopied(props[i], copies[i], limit);
    }
  }

  lemma KeyCopied(props: seq<Prop>, copies: seq<Prop>, limit: int, k: Text)
    requires Aligned(Defined(props), copies, limit)
    ensures HoldsKey(props, k) <==> HoldsKey(copies, k)
  {
    DefinedOnes(props);
    var d := Defined(props);
    if HoldsKey(props, k) {
      var p :| p in props && p.key == k && !p.value.Undefined?;
      assert p in d;
      var i :| 0 <= i < |d| && d[i] == p;
      assert PropCopied(d[i], copies[i], limit) && copies[i] in copies;
    }
    if HoldsKey(copies, k) {
      var q :| q in copies && q.key == k && !q.value.Undefined?;
      var i :| 0 <= i < |copies| && copies[i] == q;
      assert PropCopied(d[i], copies[i], limit) && d[i] in d;
    }
  }

  lemma CopyOfKey(props: seq<Prop>, copies: seq<Prop>, limit: int, k: Text) returns (q: Prop)
    requires Aligned(Defined(props), copies, limit) && DistinctKeys(props) && HoldsKey(props, k)
    ensures q in copies && q.key == k && !q.value.Undefined?
    ensures exists p :: p in props && p.key == k && !p.value.Undefined? && Meaning(q.value) == Meaning(p.value)
  {
    DefinedOnes(props);
    var d := Defined(props);
    var p :| p in props && p.key == k && !p.value.Undefined?;
    assert p in d;
    var i :| 0 <= i < |d| && d[i] == p;
    assert PropCopied(d[i], copies[i], limit);
    q := copies[i];
  }

  lemma ObjectCopyClean(props: seq<Prop>, copies: seq<Prop>, limit: int)
    requires Aligned(Defined(props), copies, limit)
    ensures Clean(Obj(copies)) <==> Clean(Obj(props))
  {
    DefinedOnes(props);
    var d := Defined(props);
    if Clean(Obj(props)) {
      forall i | 0 <= i < |copies| ensures WellFormed(copies[i].key) && Clean(copies[i].value) {
        assert PropCopied(d[i], copies[i], limit) && d[i] in d;
        var j :| 0 <= j < |props| && props[j] == d[i];
      }
    }
    if Clean(Obj(copies)) {
      forall j | 0 <= j < |props| && !props[j].value.Undefined? ensures WellFormed(props[j].key) && Clean(props[j].value) {
        var i := PlaceOf(props, j);
        assert PropCopied(d[i], copies[i], limit) && !copies[i].value.Undefined?;
      }
    }
  }

  /** Whatever prints can be copied; so what is refused for hashing only is text with a lone surrogate. */
  lemma {:induction false} PrintableIsCopied(v: Js, depth: nat)
    requires Clean(v) && NestsWithin(v, MAX_JSON_DEPTH - depth)
    ensures Clone(v, depth).Copy?
    decreases v, 1, 0
  {
    match v {
      case Arr(items) => PrintableItems(items, depth + 1);
      case Obj(props) => PrintableProps(props, v, depth + 1);
      case _ =>
    }
  }

  lemma {:induction false} PrintableItems(items: seq<Js>, depth: nat)
    requires forall i | 0 <= i < |items| :: Clean(items[i]) && NestsWithin(items[i], MAX_JSON_DEPTH - depth)
    ensures CloneItems(items, depth).Some?
    decreases items, 0, 0
  {
    if items != [] {
      PrintableIsCopied(items[0], depth);
      PrintableItems(items[1..], depth);
    }
  }

  lemma {:induction false} PrintableProps(props: seq<Prop>, parent: Js, depth: nat)
    requires parent.Obj? && (forall p | p in props :: p in parent.props)
    requires forall i | 0 <= i < |props| && !props[i].value.Undefined? ::
               Clean(props[i].value) && NestsWithin(props[i].value, MAX_JSON_DEPTH - depth)
    ensures CloneProps(props, parent, depth).Some?
    decreases parent, 0, |props|
  {
    if props != [] {
      assert props[0] in parent.props;
      if !props[0].value.Undefined? { PrintableIsCopied(props[0].value, depth); }
      PrintableProps(props[1..], parent, depth);
    }
  }

  /**
   * The copy of a value prints exactly when the value does, and then the same text: hashing what is
   * sent is hashing what was given. Of the values that can be copied only those with a lone
   * surrogate do not print.
   */
  lemma CopyPrintsTheSame(v: Js)
    requires Proper(v)
    ensures Canonical(v).Some? ==> Clone(v, 0).Copy?
    ensures Clone(v, 0).Copy? ==> Canonical(Clone(v, 0).value) == Canonical(v) && (Canonical(v).Some? <==> Clean(v))
  {
    PrintsExactly(v, 0);
    if Canonical(v).Some? { PrintableIsCopied(v, 0); }
    if Clone(v, 0).Copy? {
      var c := Clone(v, 0).value;
      CopyMeansTheSame(v, 0);
      PrintsExactly(c, 0);
      if Canonical(v).Some? { SameMeaningSameText(v, c, 0, 0); }
    }
  }

  // ---------------------------------------------------------------------------------------------
  // checkInputs
  // ---------------------------------------------------------------------------------------------

  datatype Input = Input(name: Text, required: bool)

  datatype Checked = Accepted(copy: Js) | NotAnObject | NoSuchInput(name: Text) | Missing(names: seq<Text>) | NotJsonInputs | TooLarge

  /** The object given, an empty one for none. */
  function PropsOf(given: Js): Option<seq<Prop>> {
    match given
    case Null => Some([])
    case Undefined => Some([])
    case Obj(props) => Some(props)
    case _ => None
  }

  function Own(props: seq<Prop>, name: Text): Option<Js> {
    if props == [] then None
    else if props[0].key == name then Some(props[0].value)
    else Own(props[1..], name)
  }

  /** `given[name] !== undefined`: an own property, or else what the object inherits. */
  predicate Found(props: seq<Prop>, inherited: set<Text>, name: Text) {
    var own := Own(props, name);
    if own.Some? then !own.value.Undefined? else name in inherited
  }

  predicate Declared(inputs: seq<Input>, name: Text) {
    exists i :: 0 <= i < |inputs| && inputs[i].name == name
  }

  function MissingFrom(inputs: seq<Input>, props: seq<Prop>, inherited: set<Text>): seq<Text> {
    if inputs == [] then []
    else
      (if inputs[0].required && !Found(props, inherited, inputs[0].name) then [inputs[0].name] else []) +
      MissingFrom(inputs[1..], props, inherited)
  }

  /** The first given property that is not declared. */
  function Undeclared(inputs: seq<Input>, props: seq<Prop>): (name: Option<Text>)
    ensures name.None? <==> forall p | p in props && !p.value.Undefined? :: Declared(inputs, p.key)
    ensures name.Some? ==> !Declared(inputs, name.value)
  {
    if props == [] then None
    else
      assert props == [props[0]] + props[1..];
      if !props[0].value.Undefined? && !Declared(inputs, props[0].key) then Some(props[0].key)
      else Undeclared(inputs, props[1..])
  }

  /** What `checkInputs` comes to, one refusal after another. */
  function Check(inputs: seq<Input>, given: Js, inherited: set<Text>, size: Js -> nat, limit: nat): Checked {
    var props := PropsOf(given);
    if props.None? then NotAnObject
    else
      var undeclared := Undeclared(inputs, props.value);
      var missing := MissingFrom(inputs, props.value, inherited);
      var copy := Clone(Obj(props.value), 0);
      if undeclared.Some? then NoSuchInput(undeclared.value)
      else if missing != [] then Missing(missing)
      else if !copy.Copy? then NotJsonInputs
      else if size(copy.value) > limit then TooLarge
      else Accepted(copy.value)
  }

  /** `checkInputs`. `inherited` names what plain objects inherit; `size` is the UTF-8 length of the copy's JSON. */
  method CheckInputs(inputs: seq<Input>, given: Js, inherited: set<Text>, size: Js -> nat, limit: nat) returns (r: Checked)
    ensures r == Check(inputs, given, inherited, size, limit)
  {
    var props := PropsOf(given);
    if props.None? { return NotAnObject; }
    var undeclared := FindUndeclared(inputs, props.value);
    if undeclared.Some? { return NoSuchInput(undeclared.value); }
    var missing := ListMissing(inputs, props.value, inherited);
    if |missing| > 0 { return Missing(missing); }
    var copy := Clone(Obj(props.value), 0);
    if !copy.Copy? { return NotJsonInputs; }
    if size(copy.value) > limit { return TooLarge; }
    return Accepted(copy.value);
  }

  method FindUndeclared(inputs: seq<Input>, props: seq<Prop>) returns (name: Option<Text>)
    ensures name == Undeclared(inputs, props)
  {
    var declared := set i | 0 <= i < |inputs| :: inputs[i].name;
    for i := 0 to |props|
      invariant Undeclared(inputs, props) == Undeclared(inputs, props[i..])
    {
      assert props[i..][1..] == props[i + 1..];
      if !props[i].value.Undefined? && props[i].key !in declared { return Some(props[i].key); }
    }
    return None;
  }

  method ListMissing(inputs: seq<Input>, props: seq<Prop>, inherited: set<Text>) returns (missing: seq<Text>)
    ensures missing == MissingFrom(inputs, props, inherited)
  {
    missing := [];
    for i := 0 to |inputs|
      invariant MissingFrom(inputs, props, inherited) == missing + MissingFrom(inputs[i..], props, inherited)
    {
      assert inputs[i..][1..] == inputs[i + 1..];
      if inputs[i].required && !Found(props, inherited, inputs[i].name) {
        assert missing + ([inputs[i].name] + MissingFrom(inputs[i + 1..], props, inherited)) ==
               missing + [inputs[i].name] + MissingFrom(inputs[i + 1..], props, inherited);
        missing := missing + [inputs[i].name];
      }
    }
    assert missing + [] == missing;
  }

  /**
   * Accepted inputs are hashed and sent as they mean: the copy means what was given, and its
   * `inputsHash` preimage is that of what was given, for every challenge.
   */
  lemma AcceptedMeansGiven(inputs: seq<Input>, given: Js, inherited: set<Text>, size: Js -> nat, limit: nat, challenge: Option<Text>)
    requires Proper(given) && Check(inputs, given, inherited, size, limit).Accepted?
    ensures var copy := Check(inputs, given, inherited, size, limit).copy;
            && copy.Obj? && Meaning(copy) == Meaning(InputsOf(given))
            && InputsPreimage(challenge, copy) == InputsPreimage(challenge, given)
            && (forall name | name in Meaning(copy).members :: Declared(inputs, name))
  {
    var v := InputsOf(given);
    assert v == Obj(PropsOf(given).value);
    CopyMeansTheSame(v, 0);
    CopyPrintsTheSame(v);
    MembersOfExactly(v.props, v);
  }

  lemma {:induction false} NoneMissing(inputs: seq<Input>, props: seq<Prop>, inherited: set<Text>)
    ensures MissingFrom(inputs, props, inherited) == [] <==>
            forall i | 0 <= i < |inputs| && inputs[i].required :: Found(props, inherited, inputs[i].name)
  {
    if inputs != [] {
      NoneMissing(inputs[1..], props, inherited);
      if forall i | 0 <= i < |inputs| && inputs[i].required :: Found(props, inherited, inputs[i].name) {
        forall i | 0 <= i < |inputs[1..]| && inputs[1..][i].required ensures Found(props, inherited, inputs[1..][i].name) {
          assert inputs[1..][i] == inputs[i + 1];
        }
      }
      if forall i | 0 <= i < |inputs[1..]| && inputs[1..][i].required :: Found(props, inherited, inputs[1..][i].name) {
        forall i | 1 <= i < |inputs| && inputs[i].required ensures Found(props, inherited, inputs[i].name) {
          assert inputs[1..][i - 1] == inputs[i];
        }
      }
    }
  }

  lemma {:induction false} OwnIsMember(props: seq<Prop>, name: Text)
    requires DistinctKeys(props)
    ensures Own(props, name).Some? && !Own(props, name).value.Undefined? <==>
            exists p :: p in props && p.key == name && !p.value.Undefined?
  {
    if props != [] {
      OwnIsMember(props[1..], name);
      assert props == [props[0]] + props[1..];
      if props[0].key == name {
        forall p | p in props[1..] ensures p.key != name {
          var i :| 0 <= i < |props[1..]| && props[1..][i] == p;
          assert props[i + 1] == p;
        }
      }
    }
  }

  /** Every required input is in the copy. */
  ghost predicate HasRequired(inputs: seq<Input>, copy: Js) {
    Meaning(copy).VObj? && forall i | 0 <= i < |inputs| && inputs[i].required :: inputs[i].name in Meaning(copy).members
  }

  /**
   * Inputs pass the check with every required one in the copy exactly unless a required input that
   * was not given is named like something every object inherits: the check looks it up through the
   * prototype and takes it as given.
   */
  lemma RequiredArePresentExactly(inputs: seq<Input>, props: seq<Prop>, inherited: set<Text>)
    requires DistinctKeys(props) && Proper(Obj(props)) && Clone(Obj(props), 0).Copy?
    requires MissingFrom(inputs, props, inherited) == []
    ensures HasRequired(inputs, Clone(Obj(props), 0).value) <==>
            forall i | 0 <= i < |inputs| && inputs[i].required :: Own(props, inputs[i].name).Some? || inputs[i].name !in inherited
  {
    CopyMeansTheSame(Obj(props), 0);
    MembersOfExactly(props, Obj(props));
    NoneMissing(inputs, props, inherited);
    forall i | 0 <= i < |inputs| && inputs[i].required
      ensures inputs[i].name in MembersOf(props, Obj(props)) <==> Own(props, inputs[i].name).Some? || inputs[i].name !in inherited
    {
      OwnIsMember(props, inputs[i].name);
      assert Found(props, inherited, inputs[i].name);
    }
  }

  /** A function with a required input `toString`, called with nothing, passes the check. */
  lemma InheritedNamePasses(name: Text)
    ensures MissingFrom([Input(name, true)], [], {name}) == [] && Clone(Obj([]), 0) == Copy(Obj([]))
    ensures !HasRequired([Input(name, true)], Obj([]))
  {
  }
}
