/** The verdict on a call's inputs, told by what is declared and what is given. */
module InputAnswers {
  import opened Basics
  import opened JsonValues
  import opened CanonicalJson
  import opened Inputs

  // ---------------------------------------------------------------------------------------------
  // What can be copied
  // ---------------------------------------------------------------------------------------------

  /** JSON can carry it, in at most `limit` levels: undefined properties may be in it, other holes may not. */
  ghost predicate Plain(v: Js, limit: int)
    decreases v
  {
    match v
    case Undefined => false
    case NotJson(_) => false
    case Arr(items) => limit > 0 && forall i | 0 <= i < |items| :: Plain(items[i], limit - 1)
    case Obj(props) => limit > 0 && forall i | 0 <= i < |props| :: props[i].value.Undefined? || Plain(props[i].value, limit - 1)
    case _ => true
  }

  /** A value is copied exactly when JSON can carry it, in at most 128 levels. */
  lemma {:induction false} CopiesExactly(v: Js, depth: nat)
    ensures Clone(v, depth).Copy? <==> Plain(v, 128 - depth)
    ensures Clone(v, depth).Drop? <==> v.Undefined?
    decreases v, 1, 0
  {
    match v {
      case Arr(items) => ItemsCopyExactly(items, depth + 1);
      case Obj(props) => PropsCopyExactly(props, v, depth + 1);
      case _ =>
    }
  }

  lemma {:induction false} ItemsCopyExactly(items: seq<Js>, depth: nat)
    ensures CloneItems(items, depth).Some? <==> forall i | 0 <= i < |items| :: Plain(items[i], 128 - depth)
    decreases items, 0, 0
  {
    if items != [] {
      CopiesExactly(items[0], depth);
      ItemsCopyExactly(items[1..], depth);
      assert forall i | 0 < i < |items| :: items[i] == items[1..][i - 1];
      assert forall i | 0 <= i < |items| - 1 :: items[1..][i] == items[i + 1];
    }
  }

  lemma {:induction false} PropsCopyExactly(props: seq<Prop>, parent: Js, depth: nat)
    requires parent.Obj? && forall p | p in props :: p in parent.props
    ensures CloneProps(props, parent, depth).Some? <==>
            forall i | 0 <= i < |props| :: props[i].value.Undefined? || Plain(props[i].value, 128 - depth)
    decreases parent, 0, |props|
  {
    if props != [] {
      assert props[0] in parent.props;
      CopiesExactly(props[0].value, depth);
      PropsCopyExactly(props[1..], parent, depth);
      assert forall i | 0 < i < |props| :: props[i] == props[1..][i - 1];
      assert forall i | 0 <= i < |props| - 1 :: props[1..][i] == props[i + 1];
    }
  }

  // ---------------------------------------------------------------------------------------------
  // What is given and what is wanted
  // ---------------------------------------------------------------------------------------------

  /** The properties given; nothing given is an empty object. */
  predicate Gives(given: Js, props: seq<Prop>) {
    given == Obj(props) || ((given.Null? || given.Undefined?) && props == [])
  }

  /** The `i`-th property given is defined and no input's name. */
  ghost predicate Strange(inputs: seq<Input>, props: seq<Prop>, i: nat)
    requires i < |props|
  {
    !props[i].value.Undefined? && forall j | 0 <= j < |inputs| :: inputs[j].name != props[i].key
  }

  ghost predicate Present(props: seq<Prop>, inherited: set<Text>, name: Text) {
    || (exists i :: 0 <= i < |props| && props[i].key == name && !props[i].value.Undefined?)
    || (name in inherited && forall i | 0 <= i < |props| :: props[i].key != name)
  }

  /** The `i`-th input is required and not there. */
  ghost predicate Absent(inputs: seq<Input>, props: seq<Prop>, inherited: set<Text>, i: nat)
    requires i < |inputs|
  {
    inputs[i].required && !Present(props, inherited, inputs[i].name)
  }

  /** `at` lists the places of the absent inputs, in the order of declaration. */
  ghost predicate ListsAbsent(at: seq<nat>, inputs: seq<Input>, props: seq<Prop>, inherited: set<Text>) {
    && (forall k | 0 <= k < |at| :: at[k] < |inputs|)
    && (forall k, l | 0 <= k < l < |at| :: at[k] < at[l])
    && forall i: nat | i < |inputs| :: i in at <==> Absent(inputs, props, inherited, i)
  }

  ghost predicate NamedAt(names: seq<Text>, inputs: seq<Input>, at: seq<nat>) {
    |names| == |at| && forall k | 0 <= k < |at| :: at[k] < |inputs| && names[k] == inputs[at[k]].name
  }

  // ---------------------------------------------------------------------------------------------
  // The parts of the check
  // ---------------------------------------------------------------------------------------------

  lemma {:induction false} OwnExactly(props: seq<Prop>, name: Text)
    requires DistinctKeys(props)
    ensures Own(props, name).None? <==> forall i | 0 <= i < |props| :: props[i].key != name
    ensures forall i | 0 <= i < |props| && props[i].key == name :: Own(props, name) == Some(props[i].value)
  {
    if props != [] {
      OwnExactly(props[1..], name);
      assert forall i | 0 < i < |props| :: props[i] == props[1..][i - 1];
      assert forall i | 0 <= i < |props| - 1 :: props[1..][i] == props[i + 1];
    }
  }

  lemma FoundExactly(props: seq<Prop>, inherited: set<Text>, name: Text)
    requires DistinctKeys(props)
    ensures Found(props, inherited, name) <==> Present(props, inherited, name)
  {
    OwnExactly(props, name);
  }

  /** `at` lists the places of the absent inputs from the `n`-th on. */
  ghost predicate ListsFrom(at: seq<nat>, inputs: seq<Input>, props: seq<Prop>, inherited: set<Text>, n: nat) {
    && (forall k | 0 <= k < |at| :: n <= at[k] < |inputs|)
    && (forall k, l | 0 <= k < l < |at| :: at[k] < at[l])
    && forall i: nat | n <= i < |inputs| :: i in at <==> Absent(inputs, props, inherited, i)
  }

  lemma ListsOneMore(at: seq<nat>, inputs: seq<Input>, props: seq<Prop>, inherited: set<Text>, n: nat)
    requires n < |inputs| && ListsFrom(at, inputs, props, inherited, n + 1)
    ensures ListsFrom(if Absent(inputs, props, inherited, n) then [n] + at else at, inputs, props, inherited, n)
  {
    assert n !in at;
    assert forall i: nat :: i in [n] + at <==> i == n || i in at;
  }

  lemma NamesOneMore(names: seq<Text>, inputs: seq<Input>, at: seq<nat>, n: nat)
    requires n < |inputs| && NamedAt(names, inputs, at)
    ensures NamedAt([inputs[n].name] + names, inputs, [n] + at)
  {
  }

  lemma MissingNext(inputs: seq<Input>, props: seq<Prop>, inherited: set<Text>, n: nat)
    requires DistinctKeys(props) && n < |inputs|
    ensures MissingFrom(inputs[n..], props, inherited) ==
            (if Absent(inputs, props, inherited, n) then [inputs[n].name] else []) + MissingFrom(inputs[n + 1..], props, inherited)
  {
    assert inputs[n..][1..] == inputs[n + 1..] && inputs[n..][0] == inputs[n];
    FoundExactly(props, inherited, inputs[n].name);
  }

  lemma {:induction false} MissingAt(inputs: seq<Input>, props: seq<Prop>, inherited: set<Text>, n: nat) returns (at: seq<nat>)
    requires DistinctKeys(props) && n <= |inputs|
    ensures ListsFrom(at, inputs, props, inherited, n) && NamedAt(MissingFrom(inputs[n..], props, inherited), inputs, at)
    decreases |inputs| - n
  {
    at := [];
    if n < |inputs| {
      at := MissingAt(inputs, props, inherited, n + 1);
      var names := MissingFrom(inputs[n + 1..], props, inherited);
      MissingNext(inputs, props, inherited, n);
      ListsOneMore(at, inputs, props, inherited, n);
      if Absent(inputs, props, inherited, n) {
        NamesOneMore(names, inputs, at, n);
        at := [n] + at;
      } else {
        assert [] + names == names;
      }
    }
  }

  lemma {:induction false} UndeclaredAt(inputs: seq<Input>, props: seq<Prop>, n: nat) returns (i: nat)
    requires n <= |props|
    ensures n <= i <= |props| && forall j | n <= j < i :: !Strange(inputs, props, j)
    ensures Undeclared(inputs, props[n..]) == if i < |props| then Some(props[i].key) else None
    ensures i < |props| ==> Strange(inputs, props, i)
    decreases |props| - n
  {
    i := n;
    if n < |props| {
      assert props[n..][1..] == props[n + 1..];
      assert Strange(inputs, props, n) <==> !props[n].value.Undefined? && !Declared(inputs, props[n].key);
      if !Strange(inputs, props, n) { i := UndeclaredAt(inputs, props, n + 1); }
    }
  }

  // ---------------------------------------------------------------------------------------------
  // The verdict
  // ---------------------------------------------------------------------------------------------

  ghost predicate NoneStrange(inputs: seq<Input>, props: seq<Prop>) {
    forall i | 0 <= i < |props| :: !Strange(inputs, props, i)
  }

  ghost predicate NoneAbsent(inputs: seq<Input>, props: seq<Prop>, inherited: set<Text>) {
    forall i | 0 <= i < |inputs| :: !Absent(inputs, props, inherited, i)
  }

  /** The first property that is no input's. */
  ghost predicate FirstStrange(inputs: seq<Input>, props: seq<Prop>, i: nat) {
    i < |props| && Strange(inputs, props, i) && forall j | 0 <= j < i :: !Strange(inputs, props, j)
  }

  lemma UndeclaredExactly(inputs: seq<Input>, props: seq<Prop>) returns (first: nat)
    ensures Undeclared(inputs, props).Some? <==> !NoneStrange(inputs, props)
    ensures Undeclared(inputs, props).Some? ==> FirstStrange(inputs, props, first) && Undeclared(inputs, props).value == props[first].key
  {
    first := UndeclaredAt(inputs, props, 0);
    assert props[0..] == props;
  }

  lemma MissingExactly(inputs: seq<Input>, props: seq<Prop>, inherited: set<Text>) returns (at: seq<nat>)
    requires DistinctKeys(props)
    ensures ListsAbsent(at, inputs, props, inherited) && NamedAt(MissingFrom(inputs, props, inherited), inputs, at)
    ensures MissingFrom(inputs, props, inherited) == [] <==> NoneAbsent(inputs, props, inherited)
  {
    at := MissingAt(inputs, props, inherited, 0);
    assert inputs[0..] == inputs;
    if at != [] { assert at[0] in at; }
  }

  /**
   * An object is refused for its first property that is no input's; else for all required inputs that
   * are not there, in the order they are declared; else if JSON cannot carry it in 128 levels; else if
   * its copy is too large; and is accepted otherwise.
   */
  lemma CheckExactly(inputs: seq<Input>, given: Js, props: seq<Prop>, inherited: set<Text>, size: Js -> nat, limit: nat)
    returns (first: nat, at: seq<nat>)
    requires Gives(given, props) && DistinctKeys(props)
    ensures ListsAbsent(at, inputs, props, inherited)
    ensures var r := Check(inputs, given, inherited, size, limit);
            && !r.NotAnObject?
            && (r.NoSuchInput? <==> !NoneStrange(inputs, props))
            && (r.NoSuchInput? ==> FirstStrange(inputs, props, first) && r.name == props[first].key)
            && (r.Missing? <==> NoneStrange(inputs, props) && !NoneAbsent(inputs, props, inherited))
            && (r.Missing? ==> NamedAt(r.names, inputs, at))
    ensures var r := Check(inputs, given, inherited, size, limit);
            var complete := NoneStrange(inputs, props) && NoneAbsent(inputs, props, inherited);
            && (r.NotJsonInputs? <==> complete && !Plain(Obj(props), 128))
            && (r.TooLarge? <==> complete && Plain(Obj(props), 128) && size(Clone(Obj(props), 0).value) > limit)
            && (r.Accepted? <==> complete && Plain(Obj(props), 128) && size(Clone(Obj(props), 0).value) <= limit)
            && (r.Accepted? ==> r.copy == Clone(Obj(props), 0).value)
  {
    first := UndeclaredExactly(inputs, props);
    at := MissingExactly(inputs, props, inherited);
    CopiesExactly(Obj(props), 0);
    ChecksParts(inputs, given, props, inherited, size, limit);
  }

  lemma ChecksParts(inputs: seq<Input>, given: Js, props: seq<Prop>, inherited: set<Text>, size: Js -> nat, limit: nat)
    requires Gives(given, props)
    ensures var undeclared, missing, copy := Undeclared(inputs, props), MissingFrom(inputs, props, inherited), Clone(Obj(props), 0);
            Check(inputs, given, inherited, size, limit) ==
              if undeclared.Some? then NoSuchInput(undeclared.value)
              else if missing != [] then Missing(missing)
              else if !copy.Copy? then NotJsonInputs
              else if size(copy.value) > limit then TooLarge
              else Accepted(copy.value)
  {
  }

  /** What is neither an object nor nothing is refused as such. */
  lemma ObjectsExactly(inputs: seq<Input>, given: Js, inherited: set<Text>, size: Js -> nat, limit: nat)
    ensures Check(inputs, given, inherited, size, limit).NotAnObject? <==> forall props :: !Gives(given, props)
  {
    assert given.Obj? ==> Gives(given, given.props);
    assert given.Null? || given.Undefined? ==> Gives(given, []);
  }
}
