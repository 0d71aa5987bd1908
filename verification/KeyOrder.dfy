/**
 * The order object keys print in, position by position, and the printed text of an object spelled
 * out with it.
 */
module KeyOrder {
  import opened Basics
  import opened JsonValues
  import opened Splits
  import opened CanonicalJson
  import opened CanonicalForms

  /** The texts agree on their first `i` code units, and then `a` has ended or has the smaller one. */
  predicate DepartsAt(a: Text, b: Text, i: nat) {
    i <= |a| && i < |b| && a[..i] == b[..i] && (i == |a| || a[i] < b[i])
  }

  /** `a` comes before `b` by UTF-16 code units (RFC 8785 section 3.2.3). */
  ghost predicate Precedes(a: Text, b: Text) {
    exists i: nat :: DepartsAt(a, b, i)
  }

  lemma {:induction false} LessDeparts(a: Text, b: Text) returns (i: nat)
    requires Less(a, b)
    ensures DepartsAt(a, b, i)
  {
    i := 0;
    if a != [] && a[0] == b[0] {
      var k := LessDeparts(a[1..], b[1..]);
      i := k + 1;
      assert a[..i] == [a[0]] + a[1..][..k] && b[..i] == [b[0]] + b[1..][..k];
    }
  }

  lemma {:induction false} DepartsLess(a: Text, b: Text, i: nat)
    requires DepartsAt(a, b, i)
    ensures Less(a, b)
  {
    if i > 0 {
      assert a[0] == a[..i][0] && b[0] == b[..i][0];
      assert a[1..][..i - 1] == a[..i][1..] && b[1..][..i - 1] == b[..i][1..];
      DepartsLess(a[1..], b[1..], i - 1);
    }
  }

  /** The sort compares by the first code unit that differs, the smaller one first, and puts a text ahead of its extensions. */
  lemma LessByIndex(a: Text, b: Text)
    ensures Less(a, b) <==> Precedes(a, b)
  {
    if Less(a, b) { var i := LessDeparts(a, b); }
    if i: nat :| DepartsAt(a, b, i) { DepartsLess(a, b, i); }
  }

  /** A member's text: its key as a string, a colon, its value. */
  ghost predicate IsMember(text: Text, p: Prop, depth: nat) {
    && Quote(p.key).Some? && Emit(p.value, depth).Some?
    && text == Quote(p.key).value + [COLON] + Emit(p.value, depth).value
  }

  ghost predicate AreMembers(texts: seq<Text>, props: seq<Prop>, depth: nat) {
    |texts| == |props| && forall i | 0 <= i < |props| :: IsMember(texts[i], props[i], depth)
  }

  lemma {:induction false} MembersEmitted(props: seq<Prop>, parent: Js, depth: nat)
    requires parent.Obj? && (forall p | p in props :: p in parent.props && !p.value.Undefined?)
    requires EmitMembers(props, parent, depth).Some?
    ensures AreMembers(EmitMembers(props, parent, depth).value, props, depth)
    decreases |props|
  {
    if props != [] {
      assert props[0] in parent.props;
      MembersEmitted(props[1..], parent, depth);
    }
  }

  /** The object's defined properties, each once, by ascending key. */
  ghost predicate InOrder(members: seq<Prop>, props: seq<Prop>) {
    && (forall p :: p in members <==> p in props && !p.value.Undefined?)
    && forall i, j | 0 <= i < j < |members| :: Precedes(members[i].key, members[j].key)
  }

  /**
   * An object prints as its defined properties between braces, separated by commas, every key before
   * the keys that come after it by code units.
   */
  lemma ObjectPrintsInOrder(props: seq<Prop>, depth: nat) returns (members: seq<Prop>, texts: seq<Text>)
    requires DistinctKeys(props) && Emit(Obj(props), depth).Some?
    ensures InOrder(members, props) && AreMembers(texts, members, depth + 1)
    ensures Emit(Obj(props), depth).value == [OPEN_BRACE] + Join(texts, COMMA) + [CLOSE_BRACE]
  {
    var v := Obj(props);
    members := Printed(props);
    PrintedMeans(props, v);
    EmitPrinted(v, depth);
    texts := EmitMembers(members, v, depth + 1).value;
    MembersEmitted(members, v, depth + 1);
    forall i, j | 0 <= i < j < |members| ensures Precedes(members[i].key, members[j].key) {
      LessByIndex(members[i].key, members[j].key);
    }
  }
}
