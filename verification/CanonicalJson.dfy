/**
 * The canonical JSON printer (RFC 8785) and the reader that shows it loses nothing: strings as in
 * section 3.2.2.2, object keys sorted by UTF-16 code units as in section 3.2.3. Texts are UTF-16
 * code units; numbers are the integers a double carries exactly.
 */
module CanonicalJson {
  import opened Basics
  import opened JsonValues
  import opened Splits

  const MAX_JSON_DEPTH := 128

  const NULL: Text := [110, 117, 108, 108]
  const TRUE: Text := [116, 114, 117, 101]
  const FALSE: Text := [102, 97, 108, 115, 101]
  const QUOTE: Unit := 34
  const COMMA: Unit := 44
  const MINUS: Unit := 45
  const COLON: Unit := 58
  const OPEN_BRACKET: Unit := 91
  const BACKSLASH: Unit := 92
  const CLOSE_BRACKET: Unit := 93
  const OPEN_BRACE: Unit := 123
  const CLOSE_BRACE: Unit := 125
  const NEWLINE: Unit := 10

  // ---------------------------------------------------------------------------------------------
  // Strings
  // ---------------------------------------------------------------------------------------------

  predicate IsHigh(u: Unit) { 0xD800 <= u <= 0xDBFF }

  predicate IsLow(u: Unit) { 0xDC00 <= u <= 0xDFFF }

  /** No lone surrogate: every high one is followed by a low one, every low one follows a high one. */
  predicate WellFormed(t: Text) {
    forall i | 0 <= i < |t| :: PairedAt(t, i)
  }

  predicate PairedAt(t: Text, i: nat)
    requires i < |t|
  {
    (IsHigh(t[i]) ==> i + 1 < |t| && IsLow(t[i + 1])) && (IsLow(t[i]) ==> i > 0 && IsHigh(t[i - 1]))
  }

  lemma WellFormedTail(t: Text)
    requires WellFormed(t) && t != []
    ensures !IsLow(t[0])
    ensures if IsHigh(t[0]) then |t| > 1 && IsLow(t[1]) && WellFormed(t[2..]) else WellFormed(t[1..])
  {
    assert PairedAt(t, 0);
    var k := if IsHigh(t[0]) then 2 else 1;
    var r := t[k..];
    forall i | 0 <= i < |r| ensures PairedAt(r, i) {
      assert PairedAt(t, k + i);
      assert i == 0 && k == 2 ==> PairedAt(t, 2);
    }
  }

  lemma WellFormedPair(head: Text, rest: Text)
    requires WellFormed(head) && WellFormed(rest)
    ensures WellFormed(head + rest)
  {
    var t := head + rest;
    forall i | 0 <= i < |t| ensures PairedAt(t, i) {
      if i < |head| { assert PairedAt(head, i); } else { assert PairedAt(rest, i - |head|); }
    }
  }

  function Hex(d: nat): Unit
    requires d < 16
  {
    if d < 10 then 48 + d else 87 + d
  }

  /** One code unit inside a JSON string. */
  function Escape(u: Unit): Text {
    if u == QUOTE then [BACKSLASH, QUOTE]
    else if u == BACKSLASH then [BACKSLASH, BACKSLASH]
    else if u == 8 then [BACKSLASH, 98]
    else if u == 9 then [BACKSLASH, 116]
    else if u == 10 then [BACKSLASH, 110]
    else if u == 12 then [BACKSLASH, 102]
    else if u == 13 then [BACKSLASH, 114]
    else if u < 32 then [BACKSLASH, 117, 48, 48, Hex(u / 16), Hex(u % 16)]
    else [u]
  }

  function EscapeAll(t: Text): Text {
    if t == [] then [] else Escape(t[0]) + EscapeAll(t[1..])
  }

  function Quote(t: Text): Option<Text> {
    if WellFormed(t) then Some([QUOTE] + EscapeAll(t) + [QUOTE]) else None
  }

  // ---------------------------------------------------------------------------------------------
  // Numbers, key order, lists
  // ---------------------------------------------------------------------------------------------

  function Digits(n: nat): Text {
    if n < 10 then [48 + n] else Digits(n / 10) + [48 + n % 10]
  }

  function PrintInteger(n: int): Text {
    if n < 0 then [MINUS] + Digits(-n) else Digits(n)
  }

  /** Code units compared in order, a proper prefix first. */
  predicate Less(a: Text, b: Text) {
    b != [] && (a == [] || a[0] < b[0] || (a[0] == b[0] && Less(a[1..], b[1..])))
  }

  function Insert(p: Prop, sorted: seq<Prop>): (r: seq<Prop>)
    ensures multiset(r) == multiset(sorted) + multiset{p}
  {
    if sorted == [] || !Less(sorted[0].key, p.key) then [p] + sorted
    else
      assert sorted == [sorted[0]] + sorted[1..];
      [sorted[0]] + Insert(p, sorted[1..])
  }

  /** The properties by ascending key. */
  function SortByKey(props: seq<Prop>): (r: seq<Prop>)
    ensures multiset(r) == multiset(props)
  {
    if props == [] then []
    else
      assert props == [props[0]] + props[1..];
      Insert(props[0], SortByKey(props[1..]))
  }

  lemma SameElements(props: seq<Prop>)
    ensures forall p :: p in SortByKey(props) <==> p in props
  {
    forall p ensures p in SortByKey(props) <==> p in props {
      assert p in SortByKey(props) <==> p in multiset(SortByKey(props));
      assert p in props <==> p in multiset(props);
    }
  }

  // ---------------------------------------------------------------------------------------------
  // The printer
  // ---------------------------------------------------------------------------------------------

  /** The canonical text of `v` at nesting `depth`, or None where the printer throws. */
  function Emit(v: Js, depth: nat): Option<Text>
    decreases v, 1, 0
  {
    match v
    case Null => Some(NULL)
    case Undefined => None
    case NotJson(_) => None
    case Bool(b) => Some(if b then TRUE else FALSE)
    case Num(n) => Some(PrintInteger(n))
    case Str(t) => Quote(t)
    case Arr(items) =>
      if depth >= MAX_JSON_DEPTH then None
      else
        var parts := EmitItems(items, depth + 1);
        if parts.None? then None else Some([OPEN_BRACKET] + Join(parts.value, COMMA) + [CLOSE_BRACKET])
    case Obj(props) =>
      if depth >= MAX_JSON_DEPTH then None
      else
        SameElements(props);
        var parts := EmitMembers(SortByKey(props), v, depth + 1);
        if parts.None? then None else Some([OPEN_BRACE] + Join(parts.value, COMMA) + [CLOSE_BRACE])
  }

  function EmitItems(items: seq<Js>, depth: nat): Option<seq<Text>>
    decreases items, 0, 0
  {
    if items == [] then Some([])
    else
      var first := Emit(items[0], depth);
      if first.None? then None
      else
        var rest := EmitItems(items[1..], depth);
        if rest.None? then None else Some([first.value] + rest.value)
  }

  /** Members in the order given; an undefined property is left out. */
  function EmitMembers(props: seq<Prop>, ghost parent: Js, depth: nat): Option<seq<Text>>
    requires parent.Obj? && forall p | p in props :: p in parent.props
    decreases parent, 0, |props|
  {
    if props == [] then Some([])
    else
      assert props[0] in parent.props;
      if props[0].value.Undefined? then EmitMembers(props[1..], parent, depth)
      else
        var key := Quote(props[0].key);
        var value := Emit(props[0].value, depth);
        if key.None? || value.None? then None
        else
          var rest := EmitMembers(props[1..], parent, depth);
          if rest.None? then None else Some([key.value + [COLON] + value.value] + rest.value)
  }

  /** `canonicalJson(value)`. */
  function Canonical(v: Js): Option<Text> { Emit(v, 0) }

  // ---------------------------------------------------------------------------------------------
  // What a value means
  // ---------------------------------------------------------------------------------------------

  /** The JSON value `v` stands for: undefined properties dropped, key order forgotten. */
  function Meaning(v: Js): Value
    decreases v, 1, 0
  {
    match v
    case Null => VNull
    case Undefined => VNull
    case NotJson(_) => VNull
    case Bool(b) => VBool(b)
    case Num(n) => VNum(n)
    case Str(t) => VStr(t)
    case Arr(items) => VArr(Meanings(items))
    case Obj(props) => VObj(MembersOf(props, v))
  }

  function Meanings(items: seq<Js>): seq<Value>
    decreases items, 0, 0
  {
    if items == [] then [] else [Meaning(items[0])] + Meanings(items[1..])
  }

  function MembersOf(props: seq<Prop>, ghost parent: Js): map<Text, Value>
    requires parent.Obj? && forall p | p in props :: p in parent.props
    decreases parent, 0, |props|
  {
    if props == [] then map[]
    else
      assert props[0] in parent.props;
      var rest := MembersOf(props[1..], parent);
      if props[0].value.Undefined? then rest else map[props[0].key := Meaning(props[0].value)] + rest
  }

  ghost predicate DistinctKeys(props: seq<Prop>) {
    forall i, j | 0 <= i < j < |props| :: props[i].key != props[j].key
  }

  /** Every object in it has each key once, as JavaScript objects do. */
  ghost predicate Proper(v: Js) {
    match v
    case Arr(items) => forall i | 0 <= i < |items| :: Proper(items[i])
    case Obj(props) => DistinctKeys(props) && forall i | 0 <= i < |props| :: Proper(props[i].value)
    case _ => true
  }

  // ---------------------------------------------------------------------------------------------
  // The key order is total, so an object has one sorted form
  // ---------------------------------------------------------------------------------------------

  lemma {:induction false} LessIsOrder(a: Text, b: Text)
    ensures !(Less(a, b) && Less(b, a))
    ensures a == b || Less(a, b) || Less(b, a)
    ensures !Less(a, a)
  {
    if a != [] { LessIsOrder(a[1..], a[1..]); }
    if a != [] && b != [] && a[0] == b[0] {
      LessIsOrder(a[1..], b[1..]);
      if a[1..] == b[1..] { assert a == [a[0]] + a[1..] && b == [b[0]] + b[1..]; }
    }
  }

  lemma {:induction false} LessIsTransitive(a: Text, b: Text, c: Text)
    requires Less(a, b) && Less(b, c)
    ensures Less(a, c)
  {
    if a != [] && a[0] == b[0] && b[0] == c[0] { LessIsTransitive(a[1..], b[1..], c[1..]); }
  }

  ghost predicate StrictlySorted(props: seq<Prop>) {
    forall i, j | 0 <= i < j < |props| :: Less(props[i].key, props[j].key)
  }

  lemma {:induction false} InsertKeepsSorted(p: Prop, sorted: seq<Prop>)
    requires StrictlySorted(sorted) && forall q | q in sorted :: q.key != p.key
    ensures StrictlySorted(Insert(p, sorted))
    ensures forall q :: q in Insert(p, sorted) <==> q == p || q in sorted
  {
    if sorted == [] {
    } else if !Less(sorted[0].key, p.key) {
      LessIsOrder(sorted[0].key, p.key);
      forall q | q in sorted ensures Less(p.key, q.key) {
        if q != sorted[0] { LessIsTransitive(p.key, sorted[0].key, q.key); }
      }
    } else {
      InsertKeepsSorted(p, sorted[1..]);
      var rest := Insert(p, sorted[1..]);
      forall i | 0 <= i < |rest| ensures Less(sorted[0].key, rest[i].key) {
        assert rest[i] in rest;
      }
    }
  }

  /** Properties with distinct keys sort strictly. */
  lemma {:induction false} SortIsStrict(props: seq<Prop>)
    requires DistinctKeys(props)
    ensures StrictlySorted(SortByKey(props)) && DistinctKeys(SortByKey(props))
  {
    if props != [] {
      SortIsStrict(props[1..]);
      SameElements(props[1..]);
      forall q | q in SortByKey(props[1..]) ensures q.key != props[0].key {
        var i :| 0 <= i < |props[1..]| && props[1..][i] == q;
        assert q == props[i + 1];
      }
      InsertKeepsSorted(props[0], SortByKey(props[1..]));
    }
    var r := SortByKey(props);
    forall i, j | 0 <= i < j < |r| ensures r[i].key != r[j].key { LessIsOrder(r[i].key, r[j].key); }
  }
}
