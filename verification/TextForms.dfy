/**
 * The texts that are hashed, signed and sent, spelled out: words, numbers and escapes as RFC 8785
 * has them, the alphabet and examples of RFC 4648, examples of UTF-8, and the names in tokens,
 * receipts and contracts.
 */
module TextForms {
  import opened Basics
  import opened JsonValues
  import opened Literals
  import opened CanonicalJson
  import Base64Url
  import Contract
  import Signing
  import Tokens
  import Utf8

  // ---------------------------------------------------------------------------------------------
  // Canonical JSON
  // ---------------------------------------------------------------------------------------------

  lemma WordsExactly(depth: nat)
    ensures Emit(Null, depth) == Some(Chars("null"))
    ensures Emit(Bool(true), depth) == Some(Chars("true")) && Emit(Bool(false), depth) == Some(Chars("false"))
  {
    assert Chars("null") == NULL && Chars("true") == TRUE && Chars("false") == FALSE;
  }

  predicate IsDigit(u: Unit) { Chars("0")[0] <= u <= Chars("9")[0] }

  /** The number that decimal digits spell. */
  function Spelled(t: Text): int {
    if t == [] then 0
    else
      var zero: int, last: int := Chars("0")[0], t[|t| - 1];
      10 * Spelled(t[..|t| - 1]) + (last - zero)
  }

  /** Decimal digits, no leading zero but in "0" itself. */
  predicate IsDecimal(t: Text) {
    t != [] && (forall i | 0 <= i < |t| :: IsDigit(t[i])) && (|t| > 1 ==> t[0] != Chars("0")[0])
  }

  lemma {:induction false} DigitsSpell(n: nat)
    ensures IsDecimal(Digits(n)) && Spelled(Digits(n)) == n && (n > 0 ==> Digits(n)[0] != Chars("0")[0])
  {
    if n >= 10 {
      DigitsSpell(n / 10);
      var t := Digits(n);
      assert t[..|t| - 1] == Digits(n / 10);
    } else {
      assert Digits(n)[..0] == [];
    }
  }

  lemma {:induction false} SpelledDigits(t: Text)
    requires IsDecimal(t)
    ensures Spelled(t) >= 0 && Digits(Spelled(t)) == t && (t[0] != Chars("0")[0] ==> Spelled(t) > 0)
  {
    var last := t[|t| - 1];
    if |t| == 1 {
      assert t[..0] == [] && t == [last];
    } else {
      var init := t[..|t| - 1];
      assert init[0] == t[0] && forall i | 0 <= i < |init| :: init[i] == t[i];
      SpelledDigits(init);
      assert t == init + [last];
    }
  }

  /** A natural number prints as the one text of decimal digits without a leading zero that spells it. */
  lemma NumbersExactly(n: nat, t: Text)
    ensures Digits(n) == t <==> IsDecimal(t) && Spelled(t) == n
  {
    DigitsSpell(n);
    if IsDecimal(t) { SpelledDigits(t); }
  }

  lemma SignsExactly(n: SafeInteger, depth: nat)
    ensures Emit(Num(n), depth) == Some(if n < 0 then Chars("-") + Digits(-n) else Digits(n))
  {
    assert Chars("-") == [MINUS];
  }

  function HexDigit(d: nat): Unit
    requires d < 16
  {
    if d < 10 then Chars("0")[0] + d else Chars("a")[0] + (d - 10)
  }

  /** Section 3.2.2.2 of RFC 8785: every code unit prints as itself but the quote, the backslash and the control characters. */
  lemma EscapesExactly(u: Unit)
    ensures Escape(u) ==
            if u == Chars("\"")[0] then Chars("\\\"")
            else if u == Chars("\\")[0] then Chars("\\\\")
            else if u == 0x08 then Chars("\\b")
            else if u == 0x09 then Chars("\\t")
            else if u == 0x0A then Chars("\\n")
            else if u == 0x0C then Chars("\\f")
            else if u == 0x0D then Chars("\\r")
            else if u < 0x20 then Chars("\\u00") + [HexDigit(u / 16), HexDigit(u % 16)]
            else [u]
  {
  }

  // ---------------------------------------------------------------------------------------------
  // Encodings
  // ---------------------------------------------------------------------------------------------

  /** Table 2 of RFC 4648: the letters, the small letters, the digits, and the two of section 5. */
  lemma AlphabetExactly(d: nat)
    requires d < 64
    ensures Base64Url.Character(d) ==
            if d < 26 then Chars("A")[0] + d
            else if d < 52 then Chars("a")[0] + (d - 26)
            else if d < 62 then Chars("0")[0] + (d - 52)
            else if d == 62 then Chars("-")[0]
            else Chars("_")[0]
  {
  }

  /** The bits of `high`, and six more. */
  function SixMore(high: int, low: int): int { high * 64 + low }

  /** The bits of `high`, and a byte more. */
  function ByteMore(high: int, low: int): int { high * 256 + low }

  /** The bits of a group's characters, six apiece, are the bits of its bytes and then zeros. */
  lemma GroupsExactly(b: seq<Byte>)
    requires 1 <= |b| <= 3
    ensures var t := Base64Url.EncodeGroup(b);
            && |t| == |b| + 1 && Base64Url.InAlphabet(t)
            && (|b| == 1 ==> SixMore(Base64Url.V(t, 0), Base64Url.V(t, 1)) == ByteMore(0, b[0]) * 16)
            && (|b| == 2 ==> SixMore(SixMore(Base64Url.V(t, 0), Base64Url.V(t, 1)), Base64Url.V(t, 2)) == ByteMore(b[0], b[1]) * 4)
            && (|b| == 3 ==> SixMore(SixMore(SixMore(Base64Url.V(t, 0), Base64Url.V(t, 1)), Base64Url.V(t, 2)), Base64Url.V(t, 3)) ==
                             ByteMore(ByteMore(b[0], b[1]), b[2]))
  {
    var b1, b2: Byte := if |b| > 1 then b[1] else 0, if |b| > 2 then b[2] else 0;
    GroupValues(b, b1, b2);
    GroupBits(b[0], b1, b2);
  }

  lemma GroupValues(b: seq<Byte>, b1: Byte, b2: Byte)
    requires 1 <= |b| <= 3 && b1 == (if |b| > 1 then b[1] else 0) && b2 == if |b| > 2 then b[2] else 0
    ensures var t := Base64Url.EncodeGroup(b);
            && |t| == |b| + 1 && Base64Url.InAlphabet(t)
            && Base64Url.V(t, 0) == b[0] / 4 && Base64Url.V(t, 1) == b[0] % 4 * 16 + b1 / 16
            && (|b| > 1 ==> Base64Url.V(t, 2) == b1 % 16 * 4 + b2 / 64)
            && (|b| > 2 ==> Base64Url.V(t, 3) == b2 % 64)
  {
    Base64Url.GroupRoundTrip(b);
    var t := Base64Url.EncodeGroup(b);
    assert t[0] == Base64Url.Character(b[0] / 4) && t[1] == Base64Url.Character(b[0] % 4 * 16 + b1 / 16);
    if |b| > 1 { assert t[2] == Base64Url.Character(b1 % 16 * 4 + b2 / 64); }
    if |b| > 2 { assert t[3] == Base64Url.Character(b2 % 64); }
    forall d: nat | d < 64 ensures Base64Url.ValueOf(Base64Url.Character(d)) == Some(d) { Base64Url.CharacterHasItsValue(d); }
  }

  lemma GroupBits(b0: Byte, b1: Byte, b2: Byte)
    ensures var two := SixMore(b0 / 4, b0 % 4 * 16 + b1 / 16);
            var three := SixMore(two, b1 % 16 * 4 + b2 / 64);
            && (b1 == 0 ==> two == ByteMore(0, b0) * 16)
            && (b2 == 0 ==> three == ByteMore(b0, b1) * 4)
            && SixMore(three, b2 % 64) == ByteMore(ByteMore(b0, b1), b2)
  {
  }

  /** Section 10 of RFC 4648, without the padding. */
  lemma Base64UrlVectors()
    ensures Base64Url.Encode(Chars("f")) == Chars("Zg") && Base64Url.Encode(Chars("fo")) == Chars("Zm8")
    ensures Base64Url.Encode(Chars("foobar")) == Chars("Zm9vYmFy")
  {
    assert Chars("f") == [102] && Chars("Zg") == [90, 103] && Base64Url.Encode([102]) == [90, 103];
    assert Chars("fo") == [102, 111] && Chars("Zm8") == [90, 109, 56] && Base64Url.Encode([102, 111]) == [90, 109, 56];
    Foobar();
  }

  lemma Foobar()
    ensures Base64Url.Encode(Chars("foobar")) == Chars("Zm9vYmFy")
  {
    var t: seq<Byte> := [102, 111, 111, 98, 97, 114];
    assert Chars("foobar") == t && t[..3] == [102, 111, 111] && t[3..] == [98, 97, 114];
    assert Base64Url.EncodeGroup([102, 111, 111]) == [90, 109, 57, 118];
    assert Base64Url.EncodeGroup([98, 97, 114]) == [89, 109, 70, 121];
    assert Chars("Zm9vYmFy") == [90, 109, 57, 118] + [89, 109, 70, 121];
  }

  /** A byte of the form 10xxxxxx. */
  predicate IsSixBits(b: int) { 0x80 <= b < 0xC0 }

  /** The code point of two, three or four bytes: the lead's bits above `mark`, and six bits of each other byte. */
  function Point(b: seq<int>, mark: int): int
    requires b != []
  {
    if |b| == 1 then b[0] - mark else SixMore(Point(b[..|b| - 1], mark), b[|b| - 1] - 0x80)
  }

  lemma PointUnfolds(b: seq<int>, mark: int)
    requires b != []
    ensures |b| == 2 ==> Point(b, mark) == SixMore(b[0] - mark, b[1] - 0x80)
    ensures |b| == 3 ==> Point(b, mark) == SixMore(SixMore(b[0] - mark, b[1] - 0x80), b[2] - 0x80)
    ensures |b| == 4 ==> Point(b, mark) == SixMore(SixMore(SixMore(b[0] - mark, b[1] - 0x80), b[2] - 0x80), b[3] - 0x80)
  {
    if |b| >= 2 { PointNext(b, mark, |b| - 1); }
    if |b| >= 3 { PointNext(b[..|b| - 1], mark, |b| - 2); }
    if |b| == 4 { PointNext(b[..3][..2], mark, 1); }
  }

  lemma PointNext(b: seq<int>, mark: int, n: nat)
    requires n > 0 && |b| == n + 1
    ensures Point(b, mark) == SixMore(Point(b[..n], mark), b[n] - 0x80)
    ensures n == 1 ==> Point(b[..n], mark) == b[0] - mark
  {
  }

  /** The lead byte tells the length, six bits follow in every other byte, and together they are the code unit. */
  lemma UnitBytesExactly(u: Unit)
    ensures var b := Utf8.UnitBytes(u);
            && (u < 0x80 ==> b == [u])
            && (0x80 <= u < 0x800 ==> |b| == 2 && 0xC0 <= b[0] < 0xE0 && IsSixBits(b[1]) && Point(b, 0xC0) == u)
            && (0x800 <= u ==> |b| == 3 && 0xE0 <= b[0] < 0xF0 && IsSixBits(b[1]) && IsSixBits(b[2]) && Point(b, 0xE0) == u)
  {
    var b: seq<int> := Utf8.UnitBytes(u);
    PointUnfolds(b, if |b| == 2 then 0xC0 else 0xE0);
    assert u / 4096 == u / 64 / 64;
  }

  /** The same for the code point of a surrogate pair. */
  lemma PairBytesExactly(high: Unit, low: Unit)
    requires IsHigh(high) && IsLow(low)
    ensures var b := Utf8.PairBytes(high, low);
            && 0xF0 <= b[0] < 0xF8 && IsSixBits(b[1]) && IsSixBits(b[2]) && IsSixBits(b[3])
            && Point(b, 0xF0) == 0x1_0000 + (high - 0xD800) * 0x400 + (low - 0xDC00)
  {
    var c := Utf8.PairPoint(high, low) + 0x1_0000;
    var b: seq<int> := Utf8.PairBytes(high, low);
    assert b == [0xF0 + c / 0x4_0000, 0x80 + c / 4096 % 64, 0x80 + c / 64 % 64, 0x80 + c % 64];
    FourBytes(c);
    PointUnfolds(b, 0xF0);
  }

  lemma FourBytes(c: nat)
    ensures SixMore(SixMore(SixMore(c / 0x4_0000, c / 4096 % 64), c / 64 % 64), c % 64) == c
  {
    assert c / 64 / 64 == c / 4096 && c / 4096 / 64 == c / 0x4_0000;
  }

  /** "a€😀" and a lone surrogate, which becomes U+FFFD. */
  lemma Utf8Vectors()
    ensures Utf8.Encode([0x61, 0x20AC]) == [0x61, 0xE2, 0x82, 0xAC]
    ensures Utf8.Encode([0xD83D, 0xDE00]) == [0xF0, 0x9F, 0x98, 0x80]
    ensures Utf8.Encode([0xD83D]) == [0xEF, 0xBF, 0xBD]
  {
    assert [0x61, 0x20AC][1..] == [0x20AC];
  }

  /** A truncated character is one U+FFFD; an overlong form, a surrogate or a stray byte is one for each byte. */
  lemma IllFormedVectors()
    ensures Utf8.Decode([0xE2, 0x82]) == [0xFFFD] && Utf8.Decode([0xF0, 0x9F, 0x98]) == [0xFFFD]
    ensures Utf8.Decode([0xC0, 0x80]) == [0xFFFD, 0xFFFD] && Utf8.Decode([0xED, 0xA0]) == [0xFFFD, 0xFFFD]
    ensures Utf8.Decode([0x80]) == [0xFFFD] && Utf8.Decode([0xE2, 0x82, 0x61]) == [0xFFFD, 0x61]
  {
    assert [0xC0, 0x80][1..] == [0x80] && [0xED, 0xA0][1..] == [0xA0] && [0xE2, 0x82, 0x61][2..] == [0x61];
  }

  // ---------------------------------------------------------------------------------------------
  // Names
  // ---------------------------------------------------------------------------------------------

  lemma NamesExactly()
    ensures Signing.SIG == Chars("sig") && PROTO == Chars("__proto__")
    ensures Contract.RESERVED_SEGMENTS == {Chars("then"), Chars("__proto__"), Chars("constructor"), Chars("prototype")}
  {
    assert Chars("sig") == Signing.SIG && Chars("__proto__") == PROTO;
    assert Chars("then") == Contract.THEN && Chars("constructor") == Contract.CONSTRUCTOR && Chars("prototype") == Contract.PROTOTYPE;
  }

  /** `[a-z0-9]` */
  predicate IsKeyStart(u: Unit) {
    Chars("a")[0] <= u <= Chars("z")[0] || Chars("0")[0] <= u <= Chars("9")[0]
  }

  /** `[a-z0-9][a-z0-9._-]{0,63}` */
  lemma KeysExactly(key: Text)
    ensures Contract.MatchesPattern(key) <==>
            && 1 <= |key| <= 64 && IsKeyStart(key[0])
            && forall i | 0 <= i < |key| :: IsKeyStart(key[i]) || key[i] in Chars("._-")
  {
    assert Chars("._-") == [46, 95, 45];
    assert forall u: Unit :: IsKeyStart(u) <==> Contract.IsAlphanumeric(u);
  }

  lemma TokenNamesExactly()
    ensures Tokens.EXP == Chars("exp") && Tokens.KEY == Chars("key") && Tokens.NONCE == Chars("nonce")
    ensures Tokens.SUB == Chars("sub") && Tokens.TYP == Chars("typ") && Tokens.V == Chars("v")
    ensures Tokens.USER == Chars("user") && Tokens.CHALLENGE == Chars("challenge") && [Tokens.DOT] == Chars(".")
  {
  }

  /** A challenge says whom it is for, which function, its nonce and its expiry, and nothing else. */
  lemma ChallengeSays(c: Tokens.Challenge)
    ensures Meaning(Tokens.ChallengePayload(c)) ==
            VObj(map[Chars("v") := VNum(1), Chars("typ") := VStr(Chars("challenge")), Chars("sub") := VStr(c.sub),
                     Chars("key") := VStr(c.key), Chars("nonce") := VStr(c.nonce), Chars("exp") := VNum(c.exp)])
  {
    TokenNamesExactly();
    Tokens.ChallengeMeans(c);
  }

  lemma UserTokenSays(u: Tokens.UserToken)
    ensures Meaning(Tokens.UserPayload(u)) ==
            VObj(map[Chars("v") := VNum(1), Chars("typ") := VStr(Chars("user")), Chars("sub") := VStr(u.sub),
                     Chars("exp") := VNum(u.exp)])
  {
    TokenNamesExactly();
    Tokens.UserMeans(u);
  }

  /** The field is there with this value. */
  predicate Field(m: map<Text, Value>, name: Text, value: Value) { name in m && m[name] == value }

  /** What opens as a challenge, minted by whomever: exactly what has these fields, not yet expired. */
  lemma ChallengeReadsExactly(m: map<Text, Value>, nowSeconds: int, c: Tokens.Challenge)
    ensures Tokens.ChallengeOf(m, nowSeconds) == Tokens.Ok(c) <==>
            && Field(m, Chars("v"), VNum(1)) && Field(m, Chars("typ"), VStr(Chars("challenge")))
            && Field(m, Chars("sub"), VStr(c.sub)) && Field(m, Chars("key"), VStr(c.key))
            && Field(m, Chars("nonce"), VStr(c.nonce)) && Field(m, Chars("exp"), VNum(c.exp))
            && Tokens.IsSubject(c.sub) && c.key != [] && Tokens.IsNonce(c.nonce) && nowSeconds < c.exp
  {
    TokenNamesExactly();
  }

  lemma UserReadsExactly(m: map<Text, Value>, nowSeconds: int, u: Tokens.UserToken)
    ensures Tokens.UserOf(m, nowSeconds) == Some(u) <==>
            && Field(m, Chars("v"), VNum(1)) && Field(m, Chars("typ"), VStr(Chars("user")))
            && Field(m, Chars("sub"), VStr(u.sub)) && Field(m, Chars("exp"), VNum(u.exp))
            && Tokens.IsSubject(u.sub) && nowSeconds < u.exp
  {
    TokenNamesExactly();
  }
}
