/**
 * What is hashed: the canonical text of data, and a challenge with the canonical text of the inputs
 * it was answered with. As text and as UTF-8, each determines exactly what it was made from.
 */
module Preimages {
  import opened Basics
  import opened JsonValues
  import opened Splits
  import opened CanonicalJson
  import opened JsonReader
  import opened CanonicalForms
  import Utf8

  // ---------------------------------------------------------------------------------------------
  // Texts
  // ---------------------------------------------------------------------------------------------

  /** The inputs `inputsHash` prints: an empty object when there are none. */
  function InputsOf(inputs: Js): Js {
    if inputs.Null? || inputs.Undefined? then Obj([]) else inputs
  }

  function ChallengeText(challenge: Option<Text>): Text {
    if challenge.None? then [] else challenge.value
  }

  /** What `inputsHash` hashes: the challenge, a newline, the canonical inputs. */
  function InputsPreimage(challenge: Option<Text>, inputs: Js): Option<Text> {
    var text := Canonical(InputsOf(inputs));
    if text.None? then None else Some(ChallengeText(challenge) + [NEWLINE] + text.value)
  }

  /** Text that travels safely: no raw newline, no lone surrogate. */
  predicate Plain(t: Text) {
    NEWLINE !in t && WellFormed(t)
  }

  lemma PlainPair(a: Text, b: Text)
    requires Plain(a) && Plain(b)
    ensures Plain(a + b)
  {
    WellFormedPair(a, b);
  }

  lemma EscapeNext(u: Unit, rest: Text)
    ensures EscapeAll([u] + rest) == Escape(u) + EscapeAll(rest)
  {
    assert ([u] + rest)[1..] == rest;
  }

  lemma EscapedPair(high: Unit, low: Unit, rest: Text)
    requires IsHigh(high) && IsLow(low)
    ensures EscapeAll([high, low] + rest) == [high, low] + EscapeAll(rest)
  {
    EscapeNext(low, rest);
    EscapeNext(high, [low] + rest);
    assert [high, low] + rest == [high] + ([low] + rest);
  }

  lemma PlainEscape(u: Unit)
    requires !IsHigh(u) && !IsLow(u)
    ensures Plain(Escape(u))
  {
  }

  lemma {:induction false} PlainString(t: Text)
    requires WellFormed(t)
    ensures Plain(EscapeAll(t))
  {
    if t != [] {
      WellFormedTail(t);
      if IsHigh(t[0]) {
        PlainString(t[2..]);
        EscapedPair(t[0], t[1], t[2..]);
        assert t == [t[0], t[1]] + t[2..];
        assert PairedAt([t[0], t[1]], 0) && PairedAt([t[0], t[1]], 1);
        PlainPair([t[0], t[1]], EscapeAll(t[2..]));
      } else {
        PlainString(t[1..]);
        PlainEscape(t[0]);
        PlainPair(Escape(t[0]), EscapeAll(t[1..]));
      }
    }
  }

  lemma PlainQuote(t: Text)
    requires Quote(t).Some?
    ensures Plain(Quote(t).value)
  {
    PlainString(t);
    PlainPair([QUOTE], EscapeAll(t));
    PlainPair([QUOTE] + EscapeAll(t), [QUOTE]);
  }

  lemma {:induction false} PlainDigits(n: nat)
    ensures Plain(Digits(n))
  {
    if n >= 10 {
      PlainDigits(n / 10);
      PlainPair(Digits(n / 10), [48 + n % 10]);
    }
  }

  lemma {:induction false} PlainJoin(parts: seq<Text>)
    requires forall p | p in parts :: Plain(p)
    ensures Plain(Join(parts, COMMA))
  {
    if |parts| > 1 {
      PlainJoin(parts[1..]);
      PlainPair(parts[0], [COMMA]);
      PlainPair(parts[0] + [COMMA], Join(parts[1..], COMMA));
    }
  }

  lemma PlainBrackets(open: Unit, inside: Text, close: Unit)
    requires Plain(inside) && Plain([open]) && Plain([close])
    ensures Plain([open] + inside + [close])
  {
    PlainPair([open], inside);
    PlainPair([open] + inside, [close]);
  }

  /** Canonical JSON never holds a raw newline, nor a lone surrogate. */
  lemma {:induction false} CanonicalIsPlain(v: Js, depth: nat)
    requires Emit(v, depth).Some?
    ensures Plain(Emit(v, depth).value)
    decreases v, 1, 0
  {
    match v {
      case Num(n) =>
        PlainDigits(if n < 0 then -n else n);
        if n < 0 { PlainPair([MINUS], Digits(-n)); }
      case Str(t) => PlainQuote(t);
      case Arr(items) =>
        PlainItems(items, depth + 1);
        PlainJoin(EmitItems(items, depth + 1).value);
        PlainBrackets(OPEN_BRACKET, Join(EmitItems(items, depth + 1).value, COMMA), CLOSE_BRACKET);
      case Obj(props) =>
        SameElements(props);
        PlainMembers(SortByKey(props), v, depth + 1);
        PlainJoin(EmitMembers(SortByKey(props), v, depth + 1).value);
        PlainBrackets(OPEN_BRACE, Join(EmitMembers(SortByKey(props), v, depth + 1).value, COMMA), CLOSE_BRACE);
      case _ =>
    }
  }

  lemma {:induction false} PlainItems(items: seq<Js>, depth: nat)
    requires EmitItems(items, depth).Some?
    ensures forall p | p in EmitItems(items, depth).value :: Plain(p)
    decreases items, 0, 0
  {
    if items != [] {
      CanonicalIsPlain(items[0], depth);
      PlainItems(items[1..], depth);
    }
  }

  lemma {:induction false} PlainMembers(props: seq<Prop>, parent: Js, depth: nat)
    requires parent.Obj? && (forall p | p in props :: p in parent.props) && EmitMembers(props, parent, depth).Some?
    ensures forall p | p in EmitMembers(props, parent, depth).value :: Plain(p)
    decreases parent, 0, |props|
  {
    if props != [] {
      assert props[0] in parent.props;
      PlainMembers(props[1..], parent, depth);
      if !props[0].value.Undefined? {
        CanonicalIsPlain(props[0].value, depth);
        PlainQuote(props[0].key);
        PlainPair(Quote(props[0].key).value, [COLON]);
        PlainPair(Quote(props[0].key).value + [COLON], Emit(props[0].value, depth).value);
      }
    }
  }

  /** The preimage of `inputsHash` determines the challenge text, whatever it holds, and the inputs. */
  lemma PreimageExactly(c1: Option<Text>, i1: Js, c2: Option<Text>, i2: Js)
    requires Proper(i1) && Proper(i2) && InputsPreimage(c1, i1).Some? && InputsPreimage(c2, i2).Some?
    ensures InputsPreimage(c1, i1) == InputsPreimage(c2, i2) <==>
            ChallengeText(c1) == ChallengeText(c2) && Meaning(InputsOf(i1)) == Meaning(InputsOf(i2))
  {
    var a, b := InputsOf(i1), InputsOf(i2);
    CanonicalExactly(a, b);
    CanonicalIsPlain(a, 0);
    CanonicalIsPlain(b, 0);
    if InputsPreimage(c1, i1) == InputsPreimage(c2, i2) {
      LastSeparator(ChallengeText(c1), Canonical(a).value, ChallengeText(c2), Canonical(b).value, NEWLINE);
    }
  }

  /** An inputs hash is never a data hash: only the one's preimage holds a newline. */
  lemma InputsAreNotData(challenge: Option<Text>, inputs: Js, data: Js)
    requires InputsPreimage(challenge, inputs).Some? && Canonical(data).Some?
    ensures InputsPreimage(challenge, inputs) != Canonical(data)
  {
    CanonicalIsPlain(data, 0);
    assert InputsPreimage(challenge, inputs).value[|ChallengeText(challenge)|] == NEWLINE;
  }

  // ---------------------------------------------------------------------------------------------
  // The same, as the bytes that are hashed
  // ---------------------------------------------------------------------------------------------

  /** Canonical texts are the same text exactly when they are the same bytes. */
  lemma CanonicalBytesExactly(v: Js, w: Js)
    requires Proper(v) && Proper(w) && Canonical(v).Some? && Canonical(w).Some?
    ensures Utf8.Encode(Canonical(v).value) == Utf8.Encode(Canonical(w).value) <==> Meaning(v) == Meaning(w)
  {
    CanonicalExactly(v, w);
    CanonicalIsPlain(v, 0);
    CanonicalIsPlain(w, 0);
    Utf8.RoundTrip(Canonical(v).value);
    Utf8.RoundTrip(Canonical(w).value);
  }

  lemma PreimageBytes(challenge: Option<Text>, inputs: Js)
    requires InputsPreimage(challenge, inputs).Some?
    ensures Utf8.Encode(InputsPreimage(challenge, inputs).value) ==
            Utf8.Encode(ChallengeText(challenge)) + [Utf8.NEWLINE_BYTE] + Utf8.Encode(Canonical(InputsOf(inputs)).value)
    ensures Utf8.NEWLINE_BYTE !in Utf8.Encode(Canonical(InputsOf(inputs)).value)
  {
    CanonicalIsPlain(InputsOf(inputs), 0);
    Utf8.BytesWithoutNewline(Canonical(InputsOf(inputs)).value);
    JoinedBytes(ChallengeText(challenge), Canonical(InputsOf(inputs)).value);
  }

  lemma JoinedBytes(c: Text, text: Text)
    ensures Utf8.Encode(c + [NEWLINE] + text) == Utf8.Encode(c) + [Utf8.NEWLINE_BYTE] + Utf8.Encode(text)
  {
    Regroup(c, [NEWLINE], text);
    Utf8.EncodeConcat(c, [NEWLINE] + text);
    Utf8.EncodeAscii(NEWLINE, text);
    Regroup(Utf8.Encode(c), [Utf8.NEWLINE_BYTE], Utf8.Encode(text));
  }

  /**
   * The bytes `inputsHash` hashes determine the challenge's bytes and the inputs, for any challenge
   * at all. The challenge's text as well when it is well formed: a lone surrogate and U+FFFD are
   * the same bytes.
   */
  lemma PreimageBytesExactly(c1: Option<Text>, i1: Js, c2: Option<Text>, i2: Js)
    requires Proper(i1) && Proper(i2) && InputsPreimage(c1, i1).Some? && InputsPreimage(c2, i2).Some?
    ensures Utf8.Encode(InputsPreimage(c1, i1).value) == Utf8.Encode(InputsPreimage(c2, i2).value) <==>
            Utf8.Encode(ChallengeText(c1)) == Utf8.Encode(ChallengeText(c2)) && Meaning(InputsOf(i1)) == Meaning(InputsOf(i2))
    ensures WellFormed(ChallengeText(c1)) && WellFormed(ChallengeText(c2)) ==>
              (Utf8.Encode(ChallengeText(c1)) == Utf8.Encode(ChallengeText(c2)) <==> ChallengeText(c1) == ChallengeText(c2))
  {
    var a, b := InputsOf(i1), InputsOf(i2);
    PreimageBytes(c1, i1);
    PreimageBytes(c2, i2);
    CanonicalBytesExactly(a, b);
    var e1, e2 := Utf8.Encode(ChallengeText(c1)), Utf8.Encode(ChallengeText(c2));
    var t1, t2 := Utf8.Encode(Canonical(a).value), Utf8.Encode(Canonical(b).value);
    if e1 + [Utf8.NEWLINE_BYTE] + t1 == e2 + [Utf8.NEWLINE_BYTE] + t2 {
      LastSeparator(e1, t1, e2, t2, Utf8.NEWLINE_BYTE);
    }
    if WellFormed(ChallengeText(c1)) && WellFormed(ChallengeText(c2)) {
      Utf8.RoundTrip(ChallengeText(c1));
      Utf8.RoundTrip(ChallengeText(c2));
    }
  }
}
