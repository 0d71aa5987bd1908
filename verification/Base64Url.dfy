/** base64url without padding (RFC 4648 section 5), strict: one text per byte string. */
module Base64Url {
  import opened Basics
  import opened JsonValues

  /** The 64 characters, by value. */
  function Character(d: nat): Unit
    requires d < 64
  {
    if d < 26 then 65 + d
    else if d < 52 then 97 + (d - 26)
    else if d < 62 then 48 + (d - 52)
    else if d == 62 then 45
    else 95
  }

  function ValueOf(u: Unit): (d: Option<nat>)
    ensures d.Some? ==> d.value < 64 && Character(d.value) == u
  {
    if 65 <= u <= 90 then Some(u - 65)
    else if 97 <= u <= 122 then Some(u - 97 + 26)
    else if 48 <= u <= 57 then Some(u - 48 + 52)
    else if u == 45 then Some(62)
    else if u == 95 then Some(63)
    else None
  }

  lemma CharacterHasItsValue(d: nat)
    requires d < 64
    ensures ValueOf(Character(d)) == Some(d)
  {
  }

  /** The four, three or two characters of one group of three, two or one bytes. */
  function EncodeGroup(b: seq<Byte>): Text
    requires 1 <= |b| <= 3
  {
    var b1 := if |b| > 1 then b[1] else 0;
    var b2 := if |b| > 2 then b[2] else 0;
    [Character(b[0] / 4), Character(b[0] % 4 * 16 + b1 / 16)] +
    (if |b| > 1 then [Character(b1 % 16 * 4 + b2 / 64)] else []) +
    (if |b| > 2 then [Character(b2 % 64)] else [])
  }

  function Encode(b: seq<Byte>): Text {
    if b == [] then []
    else if |b| <= 3 then EncodeGroup(b)
    else EncodeGroup(b[..3]) + Encode(b[3..])
  }

  predicate InAlphabet(t: Text) {
    forall i | 0 <= i < |t| :: ValueOf(t[i]).Some?
  }

  function V(t: Text, i: nat): nat
    requires i < |t| && InAlphabet(t)
  {
    ValueOf(t[i]).value
  }

  /** The bytes of one group, spare bits ignored. */
  function DecodeGroup(t: Text): seq<Byte>
    requires 2 <= |t| <= 4 && InAlphabet(t)
  {
    [V(t, 0) * 4 + V(t, 1) / 16] +
    (if |t| > 2 then [V(t, 1) % 16 * 16 + V(t, 2) / 4] else []) +
    (if |t| > 3 then [V(t, 2) % 4 * 64 + V(t, 3)] else [])
  }

  /** The forgiving decoder: what `Buffer.from(text, "base64url")` does with a text of the alphabet. */
  function Lenient(t: Text): seq<Byte>
    requires InAlphabet(t)
  {
    if |t| < 2 then []
    else if |t| <= 4 then DecodeGroup(t)
    else DecodeGroup(t[..4]) + Lenient(t[4..])
  }

  /** `fromBase64Url`: the bytes, if `t` is the one encoding of them. */
  function Decode(t: Text): Option<seq<Byte>> {
    if !InAlphabet(t) || |t| % 4 == 1 then None
    else
      var b := Lenient(t);
      if Encode(b) == t then Some(b) else None
  }

  lemma GroupRoundTrip(b: seq<Byte>)
    requires 1 <= |b| <= 3
    ensures |EncodeGroup(b)| == |b| + 1 && InAlphabet(EncodeGroup(b)) && DecodeGroup(EncodeGroup(b)) == b
  {
    var t := EncodeGroup(b);
    var b1 := if |b| > 1 then b[1] else 0;
    var b2 := if |b| > 2 then b[2] else 0;
    CharacterHasItsValue(b[0] / 4);
    CharacterHasItsValue(b[0] % 4 * 16 + b1 / 16);
    CharacterHasItsValue(b1 % 16 * 4 + b2 / 64);
    CharacterHasItsValue(b2 % 64);
    assert V(t, 0) == b[0] / 4 && V(t, 1) == b[0] % 4 * 16 + b1 / 16;
    assert V(t, 0) * 4 + V(t, 1) / 16 == b[0];
    if |b| > 1 {
      assert V(t, 2) == b1 % 16 * 4 + b2 / 64;
      assert V(t, 1) % 16 * 16 + V(t, 2) / 4 == b1;
    }
    if |b| > 2 {
      assert V(t, 3) == b2 % 64;
      assert V(t, 2) % 4 * 64 + V(t, 3) == b2;
    }
  }

  lemma LenientGroups(head: Text, rest: Text)
    requires |head| == 4 && InAlphabet(head) && InAlphabet(rest)
    ensures InAlphabet(head + rest) && Lenient(head + rest) == DecodeGroup(head) + Lenient(rest)
  {
    var t := head + rest;
    assert InAlphabet(t);
    assert t[..4] == head && t[4..] == rest;
    if rest == [] { assert t == head; }
  }

  /** `t` is accepted text that the forgiving decoder reads as `b`. */
  predicate ReadsAs(t: Text, b: seq<Byte>) {
    InAlphabet(t) && |t| % 4 != 1 && Lenient(t) == b
  }

  lemma LastGroup(b: seq<Byte>)
    requires 1 <= |b| <= 3
    ensures ReadsAs(EncodeGroup(b), b)
  {
    GroupRoundTrip(b);
  }

  lemma FullGroup(head: seq<Byte>, text: Text, rest: seq<Byte>)
    requires |head| == 3 && ReadsAs(text, rest)
    ensures ReadsAs(EncodeGroup(head) + text, head + rest)
  {
    GroupRoundTrip(head);
    LenientGroups(EncodeGroup(head), text);
  }

  lemma {:induction false} EncodingReadsBack(b: seq<Byte>)
    ensures ReadsAs(Encode(b), b)
  {
    if b == [] {
    } else if |b| <= 3 {
      LastGroup(b);
      EncodeNext(b, |b|);
      assert b[..|b|] == b && b[|b|..] == [];
    } else {
      EncodingReadsBack(b[3..]);
      FullGroup(b[..3], Encode(b[3..]), b[3..]);
      EncodeNext(b, 3);
      assert b[..3] + b[3..] == b;
    }
  }

  /** Four characters for three bytes, rounded up. */
  lemma {:induction false} EncodedLength(b: seq<Byte>)
    ensures |Encode(b)| == CeilDiv(4 * |b|, 3)
  {
    if |b| > 3 {
      EncodedLength(b[3..]);
      EncodeNext(b, 3);
    }
  }

  /** The strict decoder is a bijection between accepted texts and byte strings. */
  lemma DecodeExactly(t: Text, b: seq<Byte>)
    ensures Decode(t) == Some(b) <==> t == Encode(b)
  {
    EncodingReadsBack(b);
  }

  /** Different bytes have different texts, and no text decodes to two byte strings. */
  lemma EncodeIsInjective(a: seq<Byte>, b: seq<Byte>)
    requires Encode(a) == Encode(b)
    ensures a == b
  {
    EncodingReadsBack(a);
    EncodingReadsBack(b);
  }

  // ---------------------------------------------------------------------------------------------
  // The Rust SDK's encoder
  // ---------------------------------------------------------------------------------------------

  /** `base64_url_nopad`: groups of three bytes packed into one 24-bit number, six bits at a time. */
  method Base64UrlNoPad(bytes: seq<Byte>) returns (out: Text)
    ensures out == Encode(bytes)
  {
    out := [];
    var i := 0;
    while i < |bytes|
      invariant 0 <= i <= |bytes|
      invariant out + Encode(bytes[i..]) == Encode(bytes)
    {
      var k := Min(3, |bytes| - i);
      var text := SixBitCharacters(bytes[i..i + k]);
      EncodeFrom(bytes, i, k, out);
      out := out + text;
      i := i + k;
    }
    assert bytes[i..] == [];
  }

  lemma EncodeFrom(bytes: seq<Byte>, i: nat, k: nat, out: Text)
    requires i < |bytes| && k == Min(3, |bytes| - i)
    ensures out + Encode(bytes[i..]) == out + EncodeGroup(bytes[i..i + k]) + Encode(bytes[i + k..])
  {
    EncodeNext(bytes[i..], k);
    assert bytes[i..][..k] == bytes[i..i + k] && bytes[i..][k..] == bytes[i + k..];
    assert out + (EncodeGroup(bytes[i..i + k]) + Encode(bytes[i + k..])) == out + EncodeGroup(bytes[i..i + k]) + Encode(bytes[i + k..]);
  }

  lemma EncodeNext(b: seq<Byte>, k: nat)
    requires b != [] && k == Min(3, |b|)
    ensures Encode(b) == EncodeGroup(b[..k]) + Encode(b[k..])
  {
    if |b| <= 3 { assert b[..k] == b && b[k..] == []; }
  }

  method SixBitCharacters(chunk: seq<Byte>) returns (text: Text)
    requires 1 <= |chunk| <= 3
    ensures text == EncodeGroup(chunk)
  {
    var b1 := if |chunk| > 1 then chunk[1] else 0;
    var b2 := if |chunk| > 2 then chunk[2] else 0;
    var n := Packed(chunk[0], b1, b2);
    SixBits(chunk[0], b1, b2);
    text := [Character(n / 0x4_0000 % 64), Character(n / 0x1000 % 64)];
    if |chunk| > 1 { text := text + [Character(n / 0x40 % 64)]; }
    if |chunk| > 2 { text := text + [Character(n % 64)]; }
  }

  /** `(b0 << 16) | (b1 << 8) | b2`. */
  function Packed(b0: Byte, b1: Byte, b2: Byte): nat {
    var n: int := b0;
    (n * 0x100 + b1) * 0x100 + b2
  }

  /** Four six-bit digits come back out of the number they make. */
  lemma DigitsOf(n: nat, d0: nat, d1: nat, d2: nat, d3: nat)
    requires d0 < 64 && d1 < 64 && d2 < 64 && d3 < 64
    requires n == d0 * 0x4_0000 + d1 * 0x1000 + d2 * 0x40 + d3
    ensures n / 0x4_0000 % 64 == d0 && n / 0x1000 % 64 == d1 && n / 0x40 % 64 == d2 && n % 64 == d3
  {
    assert n / 0x40 == d0 * 0x1000 + d1 * 0x40 + d2;
    assert n / 0x1000 == d0 * 0x40 + d1;
    assert n / 0x4_0000 == d0;
  }

  /** The six-bit digits of three bytes side by side. */
  lemma SixBits(b0: Byte, b1: Byte, b2: Byte)
    ensures var n := Packed(b0, b1, b2);
            && n / 0x4_0000 % 64 == b0 / 4
            && n / 0x1000 % 64 == b0 % 4 * 16 + b1 / 16
            && n / 0x40 % 64 == b1 % 16 * 4 + b2 / 64
            && n % 64 == b2 % 64
  {
    DigitsOf(Packed(b0, b1, b2), b0 / 4, b0 % 4 * 16 + b1 / 16, b1 % 16 * 4 + b2 / 64, b2 % 64);
  }
}
