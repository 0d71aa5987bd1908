/**
 * What canonical JSON is for: two values print alike exactly when they mean the same, so a
 * signature over a receipt, and a hash over data or over a challenge and inputs, bind exactly what
 * they were made for.
 */
module CanonicalForms {
  import opened Basics
  import opened JsonValues
  import opened Splits
  import opened CanonicalJson
  import opened JsonReader

  // ---------------------------------------------------------------------------------------------
  // Same meaning, same text
  // ---------------------------------------------------------------------------------------------

  /** The properties that print. */
  function Defined(props: seq<Prop>): seq<Prop> {
    if props == [] then []
    else if props[0].value.Undefined? then Defined(props[1..])
    else [props[0]] + Defined(props[1..])
  }

  lemma {:induction false} DefinedKeeps(props: seq<Prop>)
    requires StrictlySorted(props)
    ensures StrictlySorted(Defined(props))
    ensures forall p :: p in Defined(props) <==> p in props && !p.value.Undefined?
  {
    if props != [] {
      DefinedKeeps(props[1..]);
      var rest := Defined(props[1..]);
      forall i | 0 <= i < |rest| ensures Less(props[0].key, rest[i].key) {
        assert rest[i] in rest;
      }
    }
  }

  lemma {:induction false} EmitDefined(props: seq<Prop>, parent: Js, depth: nat)
    requires parent.Obj? && (forall p | p in props :: p in parent.props) && (forall p | p in Defined(props) :: p in parent.props)
    ensures EmitMembers(props, parent, depth) == EmitMembers(Defined(props), parent, depth)
  {
    if props != [] {
      if props[0].value.Undefined? {
        EmitDefined(props[1..], parent, depth);
      } else {
        assert Defined(props)[1..] == Defined(props[1..]);
        EmitDefined(props[1..], parent, depth);
      }
    }
  }

  ghost predicate HasKey(props: seq<Prop>, k: Text) {
    exists p :: p in props && p.key == k
  }

  /** Two strictly sorted lists with the same keys have them in the same order. */
  lemma {:induction false} SortedKeysAgree(a: seq<Prop>, b: seq<Prop>)
    requires StrictlySorted(a) && StrictlySorted(b) && forall k :: HasKey(a, k) <==> HasKey(b, k)
    ensures |a| == |b| && forall i | 0 <= i < |a| :: a[i].key == b[i].key
  {
    assert a != [] ==> HasKey(a, a[0].key);
    assert b != [] ==> HasKey(b, b[0].key);
    if a != [] && b != [] {
      LessIsOrder(a[0].key, b[0].key);
      assert a[0].key == b[0].key;
      forall k ensures HasKey(a[1..], k) <==> HasKey(b[1..], k) {
        TailKeys(a, k);
        TailKeys(b, k);
      }
      SortedKeysAgree(a[1..], b[1..]);
    }
  }

  lemma TailKeys(a: seq<Prop>, k: Text)
    requires StrictlySorted(a) && a != []
    ensures HasKey(a[1..], k) <==> k != a[0].key && HasKey(a, k)
  {
    LessIsOrder(a[0].key, a[0].key);
    if p :| p in a[1..] && p.key == k {
      var i :| 0 <= i < |a[1..]| && a[1..][i] == p;
      assert Less(a[0].key, a[i + 1].key);
    }
  }

  /** What an object prints: its defined properties by ascending key. */
  function Printed(props: seq<Prop>): seq<Prop> { Defined(SortByKey(props)) }

  lemma PrintedMeans(props: seq<Prop>, parent: Js)
    requires parent == Obj(props) && DistinctKeys(props)
    ensures StrictlySorted(Printed(props))
    ensures forall p :: p in Printed(props) <==> p in props && !p.value.Undefined?
    ensures forall k :: HasKey(Printed(props), k) <==> k in MembersOf(props, parent)
    ensures forall p | p in Printed(props) :: p.key in MembersOf(props, parent) && MembersOf(props, parent)[p.key] == Meaning(p.value)
  {
    SortIsStrict(props);
    SameElements(props);
    DefinedKeeps(SortByKey(props));
    MembersOfExactly(props, parent);
  }

  /** Objects that mean the same print the same keys in the same order, with values that mean the same. */
  lemma ObjectsAgree(v: Js, w: Js)
    requires v.Obj? && w.Obj? && DistinctKeys(v.props) && DistinctKeys(w.props) && Meaning(v) == Meaning(w)
    ensures var a, b := Printed(v.props), Printed(w.props);
            |a| == |b| && forall i | 0 <= i < |a| :: a[i].key == b[i].key && Meaning(a[i].value) == Meaning(b[i].value)
  {
    var a, b := Printed(v.props), Printed(w.props);
    PrintedMeans(v.props, v);
    PrintedMeans(w.props, w);
    SortedKeysAgree(a, b);
    forall i | 0 <= i < |a| ensures Meaning(a[i].value) == Meaning(b[i].value) {
      assert a[i] in a && b[i] in b;
    }
  }

  lemma EmitPrinted(v: Js, depth: nat)
    requires v.Obj? && DistinctKeys(v.props) && Emit(v, depth).Some?
    ensures forall p | p in Printed(v.props) :: p in v.props && !p.value.Undefined?
    ensures EmitMembers(Printed(v.props), v, depth + 1).Some?
    ensures Emit(v, depth).value == [OPEN_BRACE] + Join(EmitMembers(Printed(v.props), v, depth + 1).value, COMMA) + [CLOSE_BRACE]
  {
    SameElements(v.props);
    PrintedMeans(v.props, v);
    EmitDefined(SortByKey(v.props), v, depth + 1);
  }

  /** Values that mean the same print the same text, wherever both print. */
  lemma {:induction false} SameMeaningSameText(v: Js, w: Js, d: nat, e: nat)
    requires Proper(v) && Proper(w) && Meaning(v) == Meaning(w) && Emit(v, d).Some? && Emit(w, e).Some?
    ensures Emit(v, d) == Emit(w, e)
    decreases v, 1, 0
  {
    if v.Arr? {
      ItemsSameText(v.items, w.items, d + 1, e + 1);
    } else if v.Obj? {
      ObjectsAgree(v, w);
      EmitPrinted(v, d);
      EmitPrinted(w, e);
      var a, b := Printed(v.props), Printed(w.props);
      forall p: Prop | p in a + b ensures Proper(p.value) && !p.value.Undefined? {
        assert p in v.props || p in w.props;
      }
      MembersSameText(a, v, b, w, d + 1, e + 1);
    }
  }

  lemma {:induction false} ItemsSameText(a: seq<Js>, b: seq<Js>, d: nat, e: nat)
    requires (forall i | 0 <= i < |a| :: Proper(a[i])) && (forall i | 0 <= i < |b| :: Proper(b[i]))
    requires Meanings(a) == Meanings(b) && EmitItems(a, d).Some? && EmitItems(b, e).Some?
    ensures EmitItems(a, d) == EmitItems(b, e)
    decreases a, 0, 0
  {
    if a != [] {
      assert Meanings(a)[0] == Meanings(b)[0] && Meanings(a)[1..] == Meanings(b)[1..];
      assert Meanings(a)[1..] == Meanings(a[1..]) && Meanings(b)[1..] == Meanings(b[1..]);
      SameMeaningSameText(a[0], b[0], d, e);
      ItemsSameText(a[1..], b[1..], d, e);
    }
  }

  lemma {:induction false} MembersSameText(a: seq<Prop>, v: Js, b: seq<Prop>, w: Js, d: nat, e: nat)
    requires v.Obj? && w.Obj? && (forall p | p in a :: p in v.props) && (forall p | p in b :: p in w.props)
    requires (forall p | p in a + b :: Proper(p.value) && !p.value.Undefined?)
    requires |a| == |b| && forall i | 0 <= i < |a| :: a[i].key == b[i].key && Meaning(a[i].value) == Meaning(b[i].value)
    requires EmitMembers(a, v, d).Some? && EmitMembers(b, w, e).Some?
    ensures EmitMembers(a, v, d) == EmitMembers(b, w, e)
    decreases v, 0, |a|
  {
    if a != [] {
      assert a[0] in a + b && b[0] in a + b && a[0] in v.props;
      SameMeaningSameText(a[0].value, b[0].value, d, e);
      assert forall p | p in a[1..] + b[1..] :: p in a + b;
      MembersSameText(a[1..], v, b[1..], w, d, e);
    }
  }

  /** Two values print alike exactly when they are equal up to key order and undefined properties. */
  lemma CanonicalExactly(v: Js, w: Js)
    requires Proper(v) && Proper(w) && Canonical(v).Some? && Canonical(w).Some?
    ensures Canonical(v) == Canonical(w) <==> Meaning(v) == Meaning(w)
  {
    RoundTrip(v, 0, []);
    RoundTrip(w, 0, []);
    assert Canonical(v).value + [] == Canonical(v).value && Canonical(w).value + [] == Canonical(w).value;
    if Meaning(v) == Meaning(w) { SameMeaningSameText(v, w, 0, 0); }
  }

  /** The reader inverts the printer. */
  lemma ReadsBack(v: Js)
    requires Proper(v) && Canonical(v).Some?
    ensures ReadAll(Canonical(v).value) == Some(Meaning(v))
  {
    RoundTrip(v, 0, []);
    assert Canonical(v).value + [] == Canonical(v).value;
  }

  // ---------------------------------------------------------------------------------------------
  // What an object's properties mean, as a map
  // ---------------------------------------------------------------------------------------------

  /** `k` is a defined property. */
  ghost predicate HoldsKey(props: seq<Prop>, k: Text) {
    exists p :: p in props && p.key == k && !p.value.Undefined?
  }

  /** `m` is what the properties mean. */
  ghost predicate Represents(m: map<Text, Value>, props: seq<Prop>) {
    (forall k :: k in m <==> HoldsKey(props, k)) &&
    forall p | p in props && !p.value.Undefined? :: p.key in m && m[p.key] == Meaning(p.value)
  }

  lemma MembersRepresent(props: seq<Prop>)
    requires DistinctKeys(props)
    ensures Represents(MembersOf(props, Obj(props)), props)
  {
    var m := MembersOf(props, Obj(props));
    MembersOfExactly(props, Obj(props));
    forall k ensures k in m <==> HoldsKey(props, k) {
    }
    forall p | p in props && !p.value.Undefined? ensures p.key in m { assert HoldsKey(props, p.key); }
  }

  // ---------------------------------------------------------------------------------------------
  // What has a canonical form
  // ---------------------------------------------------------------------------------------------

  /** Nothing in it is refused for what it is: no hole in an array, no lone surrogate, no non-JSON value. */
  ghost predicate Clean(v: Js) {
    match v
    case Undefined => false
    case NotJson(_) => false
    case Str(t) => WellFormed(t)
    case Arr(items) => forall i | 0 <= i < |items| :: Clean(items[i])
    case Obj(props) =>
      forall i | 0 <= i < |props| && !props[i].value.Undefined? :: WellFormed(props[i].key) && Clean(props[i].value)
    case _ => true
  }

  /** It has no array or object inside `limit` others. */
  ghost predicate NestsWithin(v: Js, limit: int)
    decreases v
  {
    match v
    case Arr(items) => limit > 0 && forall i | 0 <= i < |items| :: NestsWithin(items[i], limit - 1)
    case Obj(props) => limit > 0 && forall i | 0 <= i < |props| :: props[i].value.Undefined? || NestsWithin(props[i].value, limit - 1)
    case _ => true
  }

  /** The printer refuses exactly the values that are not clean or nest deeper than 128 levels. */
  lemma {:induction false} PrintsExactly(v: Js, depth: nat)
    ensures Emit(v, depth).Some? <==> Clean(v) && NestsWithin(v, MAX_JSON_DEPTH - depth)
    decreases v, 1, 0
  {
    match v {
      case Arr(items) => ItemsPrintExactly(items, depth + 1);
      case Obj(props) =>
        SameElements(props);
        MembersPrintExactly(SortByKey(props), v, depth + 1);
        ObjectPrints(props, depth);
      case _ =>
    }
  }

  lemma ObjectPrints(props: seq<Prop>, depth: nat)
    requires forall p :: p in SortByKey(props) <==> p in props
    ensures (forall p | p in SortByKey(props) && !p.value.Undefined? :: MemberPrints(p, depth + 1)) <==>
            Clean(Obj(props)) && (props == [] || forall i | 0 <= i < |props| :: 
              props[i].value.Undefined? || NestsWithin(props[i].value, MAX_JSON_DEPTH - depth - 1))
  {
    if forall p | p in SortByKey(props) && !p.value.Undefined? :: MemberPrints(p, depth + 1) {
      forall i | 0 <= i < |props| && !props[i].value.Undefined? ensures MemberPrints(props[i], depth + 1) {
        assert props[i] in props;
      }
    }
  }

  ghost predicate MemberPrints(p: Prop, depth: nat) {
    WellFormed(p.key) && Clean(p.value) && NestsWithin(p.value, MAX_JSON_DEPTH - depth)
  }

  lemma {:induction false} ItemsPrintExactly(items: seq<Js>, depth: nat)
    ensures EmitItems(items, depth).Some? <==>
            forall i | 0 <= i < |items| :: Clean(items[i]) && NestsWithin(items[i], MAX_JSON_DEPTH - depth)
    decreases items, 0, 0
  {
    if items != [] {
      PrintsExactly(items[0], depth);
      ItemsPrintExactly(items[1..], depth);
      assert forall i | 0 < i < |items| :: items[i] == items[1..][i - 1];
    }
  }

  lemma {:induction false} MembersPrintExactly(props: seq<Prop>, parent: Js, depth: nat)
    requires parent.Obj? && forall p | p in props :: p in parent.props
    ensures EmitMembers(props, parent, depth).Some? <==>
            forall p | p in props && !p.value.Undefined? :: MemberPrints(p, depth)
    decreases parent, 0, |props|
  {
    if props != [] {
      assert props[0] in parent.props;
      PrintsExactly(props[0].value, depth);
      MembersPrintExactly(props[1..], parent, depth);
      assert forall p :: p in props <==> p == props[0] || p in props[1..];
    }
  }

  // ---------------------------------------------------------------------------------------------
  // The printer and the unsigning loop, as loops
  // ---------------------------------------------------------------------------------------------

  method EmitText(v: Js, depth: nat) returns (text: Option<Text>)
    ensures text == Emit(v, depth)
    decreases v, 1
  {
    match v {
      case Null => return Some(NULL);
      case Undefined => return None;
      case NotJson(_) => return None;
      case Bool(b) => return Some(if b then TRUE else FALSE);
      case Num(n) => return Some(PrintInteger(n));
      case Str(t) => return Quote(t);
      case Arr(items) =>
        if depth >= MAX_JSON_DEPTH { return None; }
        var parts := ItemTexts(items, depth + 1);
        return if parts.None? then None else Some([OPEN_BRACKET] + Join(parts.value, COMMA) + [CLOSE_BRACKET]);
      case Obj(props) =>
        if depth >= MAX_JSON_DEPTH { return None; }
        SameElements(props);
        var parts := MemberTexts(v, SortByKey(props), depth + 1);
        return if parts.None? then None else Some([OPEN_BRACE] + Join(parts.value, COMMA) + [CLOSE_BRACE]);
    }
  }

  method ItemTexts(items: seq<Js>, depth: nat) returns (texts: Option<seq<Text>>)
    ensures texts == EmitItems(items, depth)
    decreases items, 0
  {
    var parts: seq<Text> := [];
    PrependNext([], [], EmitItems(items, depth));
    assert items[0..] == items;
    for i := 0 to |items|
      invariant EmitItems(items, depth) == Prepend(parts, EmitItems(items[i..], depth))
    {
      var part := EmitText(items[i], depth);
      assert items[i..][1..] == items[i + 1..];
      if part.None? { return None; }
      PrependNext(parts, part.value, EmitItems(items[i + 1..], depth));
      parts := parts + [part.value];
    }
    PrependNext(parts, [], None);
    return Some(parts);
  }

  method MemberTexts(parent: Js, sorted: seq<Prop>, depth: nat) returns (texts: Option<seq<Text>>)
    requires parent.Obj? && forall p | p in sorted :: p in parent.props
    ensures texts == EmitMembers(sorted, parent, depth)
    decreases parent, 0
  {
    var parts: seq<Text> := [];
    PrependNext([], [], EmitMembers(sorted, parent, depth));
    assert sorted[0..] == sorted;
    for i := 0 to |sorted|
      invariant EmitMembers(sorted, parent, depth) == Prepend(parts, EmitMembers(sorted[i..], parent, depth))
    {
      assert sorted[i] in parent.props && sorted[i..][1..] == sorted[i + 1..];
      if !sorted[i].value.Undefined? {
        var key := Quote(sorted[i].key);
        if key.None? { return None; }
        var part := EmitText(sorted[i].value, depth);
        if part.None? { return None; }
        PrependNext(parts, key.value + [COLON] + part.value, EmitMembers(sorted[i + 1..], parent, depth));
        parts := parts + [key.value + [COLON] + part.value];
      }
    }
    PrependNext(parts, [], None);
    return Some(parts);
  }

  function Prepend(parts: seq<Text>, rest: Option<seq<Text>>): Option<seq<Text>> {
    if rest.None? then None else Some(parts + rest.value)
  }

  lemma PrependNext(parts: seq<Text>, x: Text, rest: Option<seq<Text>>)
    ensures Prepend(parts, if rest.None? then None else Some([x] + rest.value)) == Prepend(parts + [x], rest)
    ensures Prepend([], rest) == rest
    ensures Prepend(parts, Some([])) == Some(parts)
  {
    if rest.Some? {
      assert parts + ([x] + rest.value) == parts + [x] + rest.value;
      assert [] + rest.value == rest.value;
    }
    assert parts + [] == parts;
  }
}
