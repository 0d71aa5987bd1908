/**
 * What a device signs: the canonical bytes of the receipt without `sig`, copied property by property
 * into a plain object. Assigning `__proto__` to a plain object stores nothing: a primitive is
 * ignored, and null or an object becomes the prototype. So the bytes cover every property but two.
 */
module Signing {
  import opened Basics
  import opened JsonValues
  import opened CanonicalJson
  import opened JsonReader
  import opened CanonicalForms
  import opened Preimages
  import Utf8

  const SIG: Text := [115, 105, 103]

  /** What a plain object inherits from: as made, nothing, or some other object. */
  datatype Prototype = ObjectPrototype | NoPrototype | AnotherObject

  datatype Built = Built(props: seq<Prop>, prototype: Prototype)

  const Empty := Built([], ObjectPrototype)

  predicate IsObject(v: Js) {
    v.Arr? || v.Obj? || (v.NotJson? && v.isObject)
  }

  /** `object[key] = value`. */
  function Assign(o: Built, p: Prop): Built {
    if p.key != PROTO || o.prototype.NoPrototype? then Built(o.props + [p], o.prototype)
    else if p.value.Null? then Built(o.props, NoPrototype)
    else if IsObject(p.value) then Built(o.props, AnotherObject)
    else o
  }

  /** The copy without `sig`, one property after another. */
  function CopyOnto(o: Built, props: seq<Prop>): Built
    decreases |props|
  {
    if props == [] then o
    else CopyOnto(if props[0].key == SIG then o else Assign(o, props[0]), props[1..])
  }

  /** `canonicalJson` of the copy: one that inherits from another object is no plain object. */
  function SigningText(receipt: Js): Option<Text>
    requires receipt.Obj?
  {
    var o := CopyOnto(Empty, receipt.props);
    if o.prototype.AnotherObject? then None else Canonical(Obj(o.props))
  }

  /** `receiptSigningBytes`; None where it throws. */
  function SigningBytes(receipt: Js): Option<seq<Byte>>
    requires receipt.Obj?
  {
    var text := SigningText(receipt);
    if text.None? then None else Some(Utf8.Encode(text.value))
  }

  /** The loop of `receiptSigningBytes`. */
  method CopyUnsigned(receipt: seq<Prop>) returns (o: Built)
    ensures o == CopyOnto(Empty, receipt)
  {
    o := Empty;
    for i := 0 to |receipt|
      invariant CopyOnto(Empty, receipt) == CopyOnto(o, receipt[i..])
    {
      assert receipt[i..][1..] == receipt[i + 1..];
      if receipt[i].key != SIG { o := Assign(o, receipt[i]); }
    }
  }

  // ---------------------------------------------------------------------------------------------
  // What the copy holds
  // ---------------------------------------------------------------------------------------------

  /** The properties that are signed. */
  function Signed(props: seq<Prop>): seq<Prop> {
    if props == [] then []
    else if props[0].key == SIG || props[0].key == PROTO then Signed(props[1..])
    else [props[0]] + Signed(props[1..])
  }

  /** An own `__proto__` whose value is an object. */
  ghost predicate SetsPrototype(props: seq<Prop>) {
    exists p :: p in props && p.key == PROTO && IsObject(p.value)
  }

  ghost predicate Has(props: seq<Prop>, key: Text) {
    exists p :: p in props && p.key == key
  }

  lemma HasNext(props: seq<Prop>)
    requires props != [] && DistinctKeys(props)
    ensures SetsPrototype(props) <==> (props[0].key == PROTO && IsObject(props[0].value)) || SetsPrototype(props[1..])
    ensures Has(props, PROTO) <==> props[0].key == PROTO || Has(props[1..], PROTO)
    ensures props[0].key == PROTO ==> !Has(props[1..], PROTO)
  {
    assert props == [props[0]] + props[1..];
    assert props[0] in props;
    forall i | 0 <= i < |props[1..]| ensures props[1..][i].key != props[0].key {
      assert props[i + 1] == props[1..][i];
    }
  }

  lemma {:induction false} CopyHolds(o: Built, props: seq<Prop>)
    requires DistinctKeys(props) && (o.prototype.ObjectPrototype? || !Has(props, PROTO))
    ensures CopyOnto(o, props).props == o.props + Signed(props)
    ensures CopyOnto(o, props).prototype.AnotherObject? <==> o.prototype.AnotherObject? || SetsPrototype(props)
    decreases |props|
  {
    if props == [] {
      assert o.props + [] == o.props;
    } else {
      var p, rest := props[0], props[1..];
      HasNext(props);
      assert SIG[0] != PROTO[0];
      var next := if p.key == SIG then o else Assign(o, p);
      CopyHolds(next, rest);
      if SetsPrototype(rest) { assert Has(rest, PROTO); }
      Regroup(o.props, [p], Signed(rest));
    }
  }

  lemma {:induction false} SignedKeeps(props: seq<Prop>)
    requires DistinctKeys(props)
    ensures DistinctKeys(Signed(props))
    ensures forall p :: p in Signed(props) <==> p in props && p.key != SIG && p.key != PROTO
  {
    if props != [] {
      SignedKeeps(props[1..]);
      assert props == [props[0]] + props[1..];
      var rest := Signed(props[1..]);
      forall i | 0 <= i < |rest| ensures rest[i].key != props[0].key {
        assert rest[i] in rest;
        var j :| 0 <= j < |props[1..]| && props[1..][j] == rest[i];
        assert props[j + 1] == rest[i];
      }
    }
  }

  /** The signed part of a receipt, as a value. */
  ghost function SignedPart(receipt: Js): map<Text, Value>
    requires receipt.Obj?
  {
    Meaning(receipt).members - {SIG, PROTO}
  }

  lemma SignedMeans(receipt: Js)
    requires receipt.Obj? && Proper(receipt)
    ensures Proper(Obj(Signed(receipt.props))) && Meaning(Obj(Signed(receipt.props))) == VObj(SignedPart(receipt))
  {
    SignedIsProper(receipt);
    MembersRepresent(receipt.props);
    MembersRepresent(Signed(receipt.props));
    SignedMembers(receipt.props, MembersOf(receipt.props, receipt), MembersOf(Signed(receipt.props), Obj(Signed(receipt.props))));
  }

  lemma SignedIsProper(receipt: Js)
    requires receipt.Obj? && Proper(receipt)
    ensures Proper(Obj(Signed(receipt.props)))
  {
    var signed := Signed(receipt.props);
    SignedKeeps(receipt.props);
    forall i | 0 <= i < |signed| ensures Proper(signed[i].value) {
      assert signed[i] in receipt.props;
    }
  }

  lemma SignedMembers(props: seq<Prop>, m: map<Text, Value>, n: map<Text, Value>)
    requires DistinctKeys(props) && Represents(m, props) && Represents(n, Signed(props))
    ensures n == m - {SIG, PROTO}
  {
    SignedKeeps(props);
    forall k ensures k in n <==> k in m && k != SIG && k != PROTO {
      if HoldsKey(props, k) && k != SIG && k != PROTO {
        var p :| p in props && p.key == k && !p.value.Undefined?;
        assert p in Signed(props);
      }
    }
    forall k | k in n ensures n[k] == m[k] {
      var p :| p in Signed(props) && p.key == k && !p.value.Undefined?;
      assert p in props;
    }
  }

  // ---------------------------------------------------------------------------------------------
  // What the signature covers
  // ---------------------------------------------------------------------------------------------

  lemma SigningTextIs(receipt: Js)
    requires receipt.Obj? && Proper(receipt)
    ensures SigningText(receipt) ==
            if SetsPrototype(receipt.props) then None else Canonical(Obj(Signed(receipt.props)))
  {
    CopyHolds(Empty, receipt.props);
    assert [] + Signed(receipt.props) == Signed(receipt.props);
  }

  /** Leaving properties out leaves what prints printable. */
  lemma FewerPropertiesPrint(props: seq<Prop>, fewer: seq<Prop>)
    requires (forall p | p in fewer :: p in props) && Clean(Obj(props)) && NestsWithin(Obj(props), MAX_JSON_DEPTH)
    ensures Clean(Obj(fewer)) && NestsWithin(Obj(fewer), MAX_JSON_DEPTH)
  {
    forall i | 0 <= i < |fewer| && !fewer[i].value.Undefined?
      ensures WellFormed(fewer[i].key) && Clean(fewer[i].value) && NestsWithin(fewer[i].value, MAX_JSON_DEPTH - 1)
    {
      assert fewer[i] in fewer;
      var j :| 0 <= j < |props| && props[j] == fewer[i];
    }
  }

  lemma PrintableIsClean(v: Js)
    requires Canonical(v).Some?
    ensures Clean(v) && NestsWithin(v, MAX_JSON_DEPTH)
  {
    PrintsExactly(v, 0);
  }

  lemma SignedPrints(props: seq<Prop>)
    requires DistinctKeys(props) && Clean(Obj(props)) && NestsWithin(Obj(props), MAX_JSON_DEPTH)
    ensures Canonical(Obj(Signed(props))).Some?
  {
    SignedKeeps(props);
    FewerPropertiesPrint(props, Signed(props));
    PrintsExactly(Obj(Signed(props)), 0);
  }

  /**
   * A receipt that has a canonical form has signing bytes exactly when it has no own `__proto__`, or
   * a primitive or null there.
   */
  lemma SigningBytesExistExactly(receipt: Js)
    requires receipt.Obj? && Proper(receipt) && Canonical(receipt).Some?
    ensures SigningBytes(receipt).Some? <==> !SetsPrototype(receipt.props)
  {
    PrintableIsClean(receipt);
    SignedPrints(receipt.props);
    SigningTextIs(receipt);
  }

  /**
   * Two receipts have the same signing bytes exactly when they are equal outside `sig` and
   * `__proto__`; so the bytes separate all receipts that differ outside `sig` where neither has an
   * own `__proto__`, or both have the same there.
   */
  lemma SigningBytesExactly(a: Js, b: Js)
    requires a.Obj? && b.Obj? && Proper(a) && Proper(b) && SigningBytes(a).Some? && SigningBytes(b).Some?
    ensures SigningBytes(a) == SigningBytes(b) <==> SignedPart(a) == SignedPart(b)
    ensures SameProto(a, b) ==>
              (SigningBytes(a) == SigningBytes(b) <==> Meaning(a).members - {SIG} == Meaning(b).members - {SIG})
    ensures SigningBytes(a) == SigningBytes(b) && !SameProto(a, b) ==> Meaning(a).members - {SIG} != Meaning(b).members - {SIG}
  {
    SigningTextIs(a);
    SigningTextIs(b);
    SignedMeans(a);
    SignedMeans(b);
    CanonicalBytesExactly(Obj(Signed(a.props)), Obj(Signed(b.props)));
    SameOutside(Meaning(a).members, Meaning(b).members);
  }

  /** The same own `__proto__`, or none on either side. */
  ghost predicate SameProto(a: Js, b: Js)
    requires a.Obj? && b.Obj?
  {
    AgreeAt(Meaning(a).members, Meaning(b).members, PROTO)
  }

  ghost predicate AgreeAt(m: map<Text, Value>, n: map<Text, Value>, key: Text) {
    (key in m <==> key in n) && (key in m ==> m[key] == n[key])
  }

  lemma SameOutside(m: map<Text, Value>, n: map<Text, Value>)
    ensures m - {SIG} == n - {SIG} <==> m - {SIG, PROTO} == n - {SIG, PROTO} && AgreeAt(m, n, PROTO)
  {
    assert SIG[0] != PROTO[0];
    var x, y := m - {SIG}, n - {SIG};
    assert m - {SIG, PROTO} == x - {PROTO} && n - {SIG, PROTO} == y - {PROTO};
    if x == y {
      assert AgreeAt(x, y, PROTO);
    }
    if x - {PROTO} == y - {PROTO} && AgreeAt(m, n, PROTO) {
      forall k ensures k in x <==> k in y {
        if k != PROTO { assert k in x <==> k in x - {PROTO}; assert k in y <==> k in y - {PROTO}; }
      }
      forall k | k in x ensures x[k] == y[k] {
        if k != PROTO { assert x[k] == (x - {PROTO})[k] && y[k] == (y - {PROTO})[k]; }
      }
    }
  }

  /**
   * Not every property is covered: whatever the receipt, adding an own `__proto__` with a number
   * changes the receipt outside `sig` and not one signing byte.
   */
  lemma ProtoIsNotSigned(receipt: Js, n: SafeInteger)
    requires receipt.Obj? && Proper(receipt) && !Has(receipt.props, PROTO) && SigningBytes(receipt).Some?
    ensures var other := Obj(receipt.props + [Prop(PROTO, Num(n))]);
            && Proper(other) && SigningBytes(other) == SigningBytes(receipt)
            && Meaning(other).members - {SIG} != Meaning(receipt).members - {SIG}
  {
    var p := Prop(PROTO, Num(n));
    var other := Obj(receipt.props + [p]);
    StaysProper(receipt.props, p);
    OneMoreProperty(receipt, other, p);
    SigningTextIs(receipt);
    SigningTextIs(other);
    DifferAt(Meaning(other).members, Meaning(receipt).members);
  }

  lemma StaysProper(props: seq<Prop>, p: Prop)
    requires Proper(Obj(props)) && !Has(props, p.key) && p.value.Num?
    ensures Proper(Obj(props + [p]))
  {
    forall i | 0 <= i < |props| ensures props[i].key != p.key {
      assert props[i] in props;
    }
  }

  lemma DifferAt(m: map<Text, Value>, n: map<Text, Value>)
    requires PROTO in m && PROTO !in n
    ensures m - {SIG} != n - {SIG}
  {
    assert SIG[0] != PROTO[0];
    assert PROTO in m - {SIG};
  }

  lemma OneMoreProperty(receipt: Js, other: Js, p: Prop)
    requires receipt.Obj? && Proper(receipt) && other == Obj(receipt.props + [p]) && Proper(other)
    requires p.key == PROTO && p.value.Num? && !Has(receipt.props, PROTO)
    ensures SetsPrototype(other.props) <==> SetsPrototype(receipt.props)
    ensures Signed(other.props) == Signed(receipt.props)
    ensures PROTO in Meaning(other).members && PROTO !in Meaning(receipt).members
  {
    SignedConcat(receipt.props, p);
    MembersOfExactly(receipt.props, receipt);
    MembersOfExactly(other.props, other);
    assert p in other.props;
    assert forall q :: q in other.props <==> q in receipt.props || q == p;
  }

  lemma {:induction false} SignedConcat(props: seq<Prop>, p: Prop)
    requires p.key == PROTO
    ensures Signed(props + [p]) == Signed(props)
  {
    if props == [] {
      assert props + [p] == [p] && [p][1..] == [];
    } else {
      SignedConcat(props[1..], p);
      assert (props + [p])[1..] == props[1..] + [p];
    }
  }
}
