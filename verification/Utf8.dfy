/**
 * UTF-8 as Node writes and reads it: a lone surrogate is written as U+FFFD, and reading replaces
 * each maximal ill-formed run by U+FFFD (the UTF-8 decoder of the WHATWG Encoding Standard).
 */
module Utf8 {
  import opened Basics
  import opened JsonValues
  import opened CanonicalJson

  const REPLACEMENT: Unit := 0xFFFD

  /** The bytes of a code point below 0x1_0000. */
  function UnitBytes(u: Unit): (b: seq<Byte>)
    ensures 1 <= |b| <= 3
  {
    if u < 0x80 then [u]
    else if u < 0x800 then [0xC0 + u / 64, 0x80 + u % 64]
    else [0xE0 + u / 4096, 0x80 + u / 64 % 64, 0x80 + u % 64]
  }

  /** The code point of a surrogate pair, less 0x1_0000. */
  function PairPoint(high: Unit, low: Unit): (c: nat)
    requires IsHigh(high) && IsLow(low)
    ensures c < 0x10_0000
  {
    (high - 0xD800) * 1024 + (low - 0xDC00)
  }

  function PairBytes(high: Unit, low: Unit): (b: seq<Byte>)
    requires IsHigh(high) && IsLow(low)
    ensures |b| == 4
  {
    var c := PairPoint(high, low) + 0x1_0000;
    [0xF0 + c / 0x4_0000, 0x80 + c / 4096 % 64, 0x80 + c / 64 % 64, 0x80 + c % 64]
  }

  /** How many code units the first character takes. */
  function Taken(t: Text): (n: nat)
    requires t != []
    ensures 1 <= n <= |t|
  {
    if IsHigh(t[0]) && |t| > 1 && IsLow(t[1]) then 2 else 1
  }

  /** Its bytes. */
  function Lead(t: Text): (b: seq<Byte>)
    requires t != []
    ensures |b| <= 3 * Taken(t)
  {
    if Taken(t) == 2 then PairBytes(t[0], t[1])
    else if IsHigh(t[0]) || IsLow(t[0]) then UnitBytes(REPLACEMENT)
    else UnitBytes(t[0])
  }

  function Encode(t: Text): (b: seq<Byte>)
    ensures |b| <= 3 * |t|
  {
    if t == [] then [] else Lead(t) + Encode(t[Taken(t)..])
  }

  predicate IsTail(b: Byte) { 0x80 <= b < 0xC0 }

  /** The second bytes that may follow the lead byte of a three- or four-byte sequence. */
  predicate Follows(lead: Byte, b: Byte)
    requires 0xE0 <= lead <= 0xF4
  {
    (if lead == 0xE0 then 0xA0 else if lead == 0xF0 then 0x90 else 0x80) <= b <=
      (if lead == 0xED then 0x9F else if lead == 0xF4 then 0x8F else 0xBF)
  }

  /** The surrogate pair of a code point at or above 0x1_0000. */
  function Surrogates(point: int): Text
    requires 0x1_0000 <= point < 0x11_0000
  {
    [0xD800 + (point - 0x1_0000) / 1024, 0xDC00 + (point - 0x1_0000) % 1024]
  }

  /** The payload bits of a byte. */
  function Payload(b: Byte, size: nat): (p: nat)
    requires size > 0
    ensures p < size
  {
    var n: nat := b;
    n % size
  }

  datatype Piece = Piece(text: Text, used: nat)

  /** The first character read, and how many bytes it took. */
  function First(b: seq<Byte>): (p: Piece)
    requires b != []
    ensures 1 <= p.used <= |b|
  {
    if b[0] < 0x80 then Piece([b[0]], 1)
    else if 0xC2 <= b[0] <= 0xDF && |b| > 1 && IsTail(b[1]) then
      Piece([Payload(b[0], 32) * 64 + Payload(b[1], 64)], 2)
    else if 0xE0 <= b[0] <= 0xF4 && |b| > 1 && Follows(b[0], b[1]) then
      if |b| == 2 || !IsTail(b[2]) then Piece([REPLACEMENT], 2)
      else if b[0] < 0xF0 then
        Piece([Payload(b[0], 16) * 4096 + Payload(b[1], 64) * 64 + Payload(b[2], 64)], 3)
      else if |b| == 3 || !IsTail(b[3]) then Piece([REPLACEMENT], 3)
      else
        Piece(Surrogates(Payload(b[0], 8) * 0x4_0000 + Payload(b[1], 64) * 4096 + Payload(b[2], 64) * 64 + Payload(b[3], 64)), 4)
    else Piece([REPLACEMENT], 1)
  }

  function Decode(b: seq<Byte>): Text {
    if b == [] then [] else First(b).text + Decode(b[First(b).used..])
  }

  lemma FirstOfTwo(u: Unit, b: seq<Byte>)
    requires 0x80 <= u < 0x800 && |b| >= 2 && b[0] == 0xC0 + u / 64 && b[1] == 0x80 + u % 64
    ensures First(b) == Piece([u], 2)
  {
    assert Payload(b[0], 32) == u / 64 && Payload(b[1], 64) == u % 64;
  }

  lemma FirstOfThree(u: Unit, b: seq<Byte>)
    requires u >= 0x800 && !IsHigh(u) && !IsLow(u) && |b| >= 3
    requires b[0] == 0xE0 + u / 4096 && b[1] == 0x80 + u / 64 % 64 && b[2] == 0x80 + u % 64
    ensures First(b) == Piece([u], 3)
  {
    var hi, mid, lo := u / 4096, u / 64 % 64, u % 64;
    assert u == hi * 4096 + mid * 64 + lo;
    assert Payload(b[0], 16) == hi && Payload(b[1], 64) == mid && Payload(b[2], 64) == lo;
    assert Follows(b[0], b[1]) && IsTail(b[2]);
  }

  lemma FirstOfFour(top: nat, hi: nat, mid: nat, lo: nat, b: seq<Byte>)
    requires hi < 64 && mid < 64 && lo < 64 && 0x10 <= top * 64 + hi < 0x110
    requires |b| >= 4 && b[0] == 0xF0 + top && b[1] == 0x80 + hi && b[2] == 0x80 + mid && b[3] == 0x80 + lo
    ensures var c := top * 0x4_0000 + hi * 4096 + mid * 64 + lo;
            0x1_0000 <= c < 0x11_0000 && First(b) == Piece(Surrogates(c), 4)
  {
    assert Payload(b[0], 8) == top && Payload(b[1], 64) == hi && Payload(b[2], 64) == mid && Payload(b[3], 64) == lo;
    assert Follows(b[0], b[1]);
    assert IsTail(b[2]) && IsTail(b[3]);
  }

  /** The four groups of bits of a code point. */
  lemma Groups(c: nat)
    requires 0x1_0000 <= c < 0x11_0000
    ensures c == c / 0x4_0000 * 0x4_0000 + c / 4096 % 64 * 4096 + c / 64 % 64 * 64 + c % 64
    ensures 0x10 <= c / 0x4_0000 * 64 + c / 4096 % 64 < 0x110
  {
    assert c / 4096 / 64 == c / 0x4_0000 && c / 64 / 64 == c / 4096;
  }

  lemma UnitReadsBack(u: Unit, rest: seq<Byte>)
    requires !IsHigh(u) && !IsLow(u)
    ensures Decode(UnitBytes(u) + rest) == [u] + Decode(rest)
  {
    var b := UnitBytes(u) + rest;
    if u >= 0x800 { FirstOfThree(u, b); } else if u >= 0x80 { FirstOfTwo(u, b); }
    assert First(b) == Piece([u], |UnitBytes(u)|);
    assert b[|UnitBytes(u)|..] == rest;
  }

  lemma PairReadsBack(high: Unit, low: Unit, rest: seq<Byte>)
    requires IsHigh(high) && IsLow(low)
    ensures Decode(PairBytes(high, low) + rest) == [high, low] + Decode(rest)
  {
    var b := PairBytes(high, low) + rest;
    var c := PairPoint(high, low) + 0x1_0000;
    Groups(c);
    FirstOfFour(c / 0x4_0000, c / 4096 % 64, c / 64 % 64, c % 64, b);
    assert Surrogates(c) == [high, low];
    assert b[4..] == rest;
  }

  /** Text without a lone surrogate comes back from its bytes. */
  lemma {:induction false} RoundTrip(t: Text)
    requires WellFormed(t)
    ensures Decode(Encode(t)) == t
  {
    if t != [] {
      WellFormedTail(t);
      if IsHigh(t[0]) {
        RoundTrip(t[2..]);
        PairReadsBack(t[0], t[1], Encode(t[2..]));
        assert t == [t[0], t[1]] + t[2..];
      } else {
        RoundTrip(t[1..]);
        UnitReadsBack(t[0], Encode(t[1..]));
        assert t == [t[0]] + t[1..];
      }
    }
  }

  /** ... and text with one does not: its bytes are those of other text. */
  lemma ReadsBackExactly(t: Text)
    ensures Decode(Encode(t)) == t <==> WellFormed(t)
  {
    if WellFormed(t) { RoundTrip(t); } else { DecodedIsWellFormed(Encode(t)); }
  }

  lemma LeadOfConcat(a: Text, b: Text)
    requires a != [] && (b == [] || !IsLow(b[0]))
    ensures Taken(a + b) == Taken(a) && Lead(a + b) == Lead(a)
    ensures (a + b)[Taken(a)..] == a[Taken(a)..] + b
  {
    assert (a + b)[0] == a[0];
    assert |a| > 1 ==> (a + b)[1] == a[1];
    assert |a| == 1 && b != [] ==> (a + b)[1] == b[0];
  }

  /** Texts encode piece by piece where the cut splits no pair. */
  lemma {:induction false} EncodeConcat(a: Text, b: Text)
    requires b == [] || !IsLow(b[0])
    ensures Encode(a + b) == Encode(a) + Encode(b)
  {
    if a == [] {
      assert a + b == b;
    } else {
      LeadOfConcat(a, b);
      EncodeConcat(a[Taken(a)..], b);
      assert Encode(a + b) == Lead(a) + (Encode(a[Taken(a)..]) + Encode(b));
    }
  }

  lemma EncodeAscii(u: Unit, t: Text)
    requires u < 0x80
    ensures Encode([u] + t) == [u] + Encode(t)
  {
    assert ([u] + t)[1..] == t;
  }

  const NEWLINE_BYTE: Byte := 10

  lemma {:induction false} BytesWithoutNewline(t: Text)
    requires NEWLINE !in t
    ensures NEWLINE_BYTE !in Encode(t)
  {
    if t != [] { BytesWithoutNewline(t[Taken(t)..]); }
  }

  lemma {:induction false} DecodedIsWellFormed(b: seq<Byte>)
    ensures WellFormed(Decode(b))
  {
    if b != [] {
      DecodedIsWellFormed(b[First(b).used..]);
      FirstIsWellFormed(b);
      WellFormedPair(First(b).text, Decode(b[First(b).used..]));
    }
  }

  lemma FirstIsWellFormed(b: seq<Byte>)
    requires b != []
    ensures WellFormed(First(b).text)
  {
    var text := First(b).text;
    FirstIsUnitOrPair(b);
    if |text| == 1 { assert PairedAt(text, 0); } else { assert PairedAt(text, 0) && PairedAt(text, 1); }
  }

  /** What is read first is one code unit that is no surrogate, or a surrogate pair. */
  lemma FirstIsUnitOrPair(b: seq<Byte>)
    requires b != []
    ensures var text := First(b).text;
            (|text| == 1 && !IsHigh(text[0]) && !IsLow(text[0])) || (|text| == 2 && IsHigh(text[0]) && IsLow(text[1]))
  {
    if 0xE0 <= b[0] < 0xF0 && |b| > 2 && Follows(b[0], b[1]) && IsTail(b[2]) { ThreeIsNoSurrogate(b); }
  }

  lemma ThreeIsNoSurrogate(b: seq<Byte>)
    requires |b| > 2 && 0xE0 <= b[0] < 0xF0 && Follows(b[0], b[1]) && IsTail(b[2])
    ensures var u := Payload(b[0], 16) * 4096 + Payload(b[1], 64) * 64 + Payload(b[2], 64);
            !(0xD800 <= u <= 0xDFFF)
  {
    assert Payload(b[0], 16) == b[0] - 0xE0;
    assert b[0] == 0xED ==> Payload(b[1], 64) < 32;
  }
}
