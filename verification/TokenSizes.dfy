/** Every challenge the bridge mints for a page is within what Writ and the page channel accept, so it opens. */
module TokenSizes {
  import opened Basics
  import opened JsonValues
  import opened Splits
  import opened CanonicalJson
  import opened CanonicalForms
  import opened Preimages
  import opened Tokens
  import Contract
  import Utf8
  import Base64Url

  /** An upper bound of the UTF-8 bytes of a text. */
  function Weight(t: Text): nat {
    if t == [] then 0 else (if t[0] < 0x80 then 1 else 3) + Weight(t[1..])
  }

  lemma {:induction false} WeightBounds(t: Text)
    ensures |Utf8.Encode(t)| <= Weight(t) <= 3 * |t|
  {
    if t != [] {
      WeightBounds(t[Utf8.Taken(t)..]);
      WeightBounds(t[1..]);
      if Utf8.Taken(t) == 2 { assert t[1..][1..] == t[2..]; }
    }
  }

  lemma {:induction false} WeightOfConcat(a: Text, b: Text)
    ensures Weight(a + b) == Weight(a) + Weight(b)
  {
    if a == [] {
      assert a + b == b;
    } else {
      assert (a + b)[1..] == a[1..] + b;
      WeightOfConcat(a[1..], b);
    }
  }

  /** No control character, so no six-character escape. */
  predicate Printable(t: Text) {
    forall i | 0 <= i < |t| :: t[i] >= 0x20
  }

  lemma {:induction false} EscapedWeight(t: Text)
    requires Printable(t)
    ensures Weight(EscapeAll(t)) <= 3 * |t|
  {
    if t != [] {
      EscapedWeight(t[1..]);
      WeightOfConcat(Escape(t[0]), EscapeAll(t[1..]));
      WeightOfEscape(t[0]);
    }
  }

  lemma WeightOfEscape(u: Unit)
    requires u >= 0x20
    ensures Weight(Escape(u)) <= 3
  {
    if u == QUOTE || u == BACKSLASH {
      assert Escape(u) == [BACKSLASH, u] && Escape(u)[1..] == [u];
      assert Weight([u]) == 1;
    }
  }

  lemma QuoteWeight(t: Text)
    requires Printable(t) && WellFormed(t)
    ensures Weight(Quote(t).value) <= 3 * |t| + 2
  {
    EscapedWeight(t);
    WeightOfConcat([QUOTE] + EscapeAll(t), [QUOTE]);
    WeightOfConcat([QUOTE], EscapeAll(t));
  }

  function Pow10(k: nat): nat { if k == 0 then 1 else 10 * Pow10(k - 1) }

  lemma {:induction false} DigitsWeight(n: nat, k: nat)
    requires 1 <= k && n < Pow10(k)
    ensures Weight(Digits(n)) <= k
  {
    if n >= 10 {
      DigitsWeight(n / 10, k - 1);
      WeightOfConcat(Digits(n / 10), [48 + n % 10]);
    }
  }

  lemma NumberWeight(n: SafeInteger)
    ensures Weight(PrintInteger(n)) <= 17
  {
    assert Pow10(4) == 10_000;
    assert Pow10(8) == 100_000_000;
    assert Pow10(12) == 1_000_000_000_000;
    assert Pow10(16) == 10_000_000_000_000_000;
    DigitsWeight(if n < 0 then -n else n, 16);
    if n < 0 { WeightOfConcat([MINUS], Digits(-n)); }
  }

  // ---------------------------------------------------------------------------------------------
  // An object's text, by its members
  // ---------------------------------------------------------------------------------------------

  /** The weight of one member's text with its colon, and of a comma. */
  function MemberWeight(p: Prop, depth: nat): nat {
    var key, value := Quote(p.key), Emit(p.value, depth);
    if key.None? || value.None? then 0 else Weight(key.value) + Weight(value.value) + 2
  }

  function MembersWeight(props: seq<Prop>, depth: nat): nat {
    if props == [] then 0 else MemberWeight(props[0], depth) + MembersWeight(props[1..], depth)
  }

  lemma {:induction false} InsertedWeight(p: Prop, sorted: seq<Prop>, depth: nat)
    ensures MembersWeight(Insert(p, sorted), depth) == MemberWeight(p, depth) + MembersWeight(sorted, depth)
  {
    if sorted == [] || !Less(sorted[0].key, p.key) {
      assert ([p] + sorted)[1..] == sorted;
    } else {
      InsertedWeight(p, sorted[1..], depth);
      assert Insert(p, sorted)[1..] == Insert(p, sorted[1..]);
    }
  }

  lemma {:induction false} SortedWeight(props: seq<Prop>, depth: nat)
    ensures MembersWeight(SortByKey(props), depth) == MembersWeight(props, depth)
  {
    if props != [] {
      SortedWeight(props[1..], depth);
      InsertedWeight(props[0], SortByKey(props[1..]), depth);
    }
  }

  function TextsWeight(parts: seq<Text>): nat {
    if parts == [] then 0 else Weight(parts[0]) + 1 + TextsWeight(parts[1..])
  }

  lemma {:induction false} JoinWeight(parts: seq<Text>)
    ensures Weight(Join(parts, COMMA)) <= TextsWeight(parts)
  {
    if |parts| > 1 {
      JoinWeight(parts[1..]);
      WeightOfConcat(parts[0] + [COMMA], Join(parts[1..], COMMA));
      WeightOfConcat(parts[0], [COMMA]);
    }
  }

  lemma {:induction false} EmittedWeight(props: seq<Prop>, parent: Js, depth: nat)
    requires parent.Obj? && (forall p | p in props :: p in parent.props) && EmitMembers(props, parent, depth).Some?
    ensures TextsWeight(EmitMembers(props, parent, depth).value) <= MembersWeight(props, depth)
  {
    if props != [] {
      EmittedWeight(props[1..], parent, depth);
      if !props[0].value.Undefined? {
        var key, value := Quote(props[0].key).value, Emit(props[0].value, depth).value;
        WeightOfConcat(key + [COLON], value);
        WeightOfConcat(key, [COLON]);
        var rest := EmitMembers(props[1..], parent, depth).value;
        assert ([key + [COLON] + value] + rest)[1..] == rest;
      }
    }
  }

  lemma ObjectWeight(v: Js)
    requires v.Obj? && Canonical(v).Some?
    ensures Weight(Canonical(v).value) <= MembersWeight(v.props, 1) + 2
  {
    SameElements(v.props);
    var parts := EmitMembers(SortByKey(v.props), v, 1).value;
    EmittedWeight(SortByKey(v.props), v, 1);
    SortedWeight(v.props, 1);
    JoinWeight(parts);
    WeightOfConcat([OPEN_BRACE] + Join(parts, COMMA), [CLOSE_BRACE]);
    WeightOfConcat([OPEN_BRACE], Join(parts, COMMA));
  }

  // ---------------------------------------------------------------------------------------------
  // Challenges
  // ---------------------------------------------------------------------------------------------

  /** The fields the bridge mints with: a valid user, a contract's key, 16 random bytes. */
  ghost predicate BridgeFields(c: Challenge, random: seq<Byte>) {
    && IsSubject(c.sub)
    && Contract.MatchesPattern(c.key)
    && |random| == NONCE_BYTES && c.nonce == Base64Url.Encode(random)
  }

  lemma TextMember(key: Text, t: Text)
    requires Printable(key) && WellFormed(key) && Printable(t) && WellFormed(t)
    ensures MemberWeight(Prop(key, Str(t)), 1) <= 3 * |key| + 3 * |t| + 6
  {
    QuoteWeight(key);
    QuoteWeight(t);
  }

  lemma NumberMember(key: Text, n: SafeInteger)
    requires Printable(key) && WellFormed(key)
    ensures MemberWeight(Prop(key, Num(n)), 1) <= 3 * |key| + 21
  {
    QuoteWeight(key);
    NumberWeight(n);
  }

  predicate Ascii(t: Text) {
    forall i | 0 <= i < |t| :: 0x20 <= t[i] < 0x80
  }

  lemma AsciiIsPlain(t: Text)
    requires Ascii(t)
    ensures Printable(t) && WellFormed(t)
  {
  }

  lemma NonceIsAscii(random: seq<Byte>)
    requires |random| == NONCE_BYTES
    ensures var nonce := Base64Url.Encode(random); Ascii(nonce) && |nonce| == 22 && IsNonce(nonce)
  {
    Base64Url.EncodingReadsBack(random);
    Base64Url.EncodedLength(random);
    Base64Url.DecodeExactly(Base64Url.Encode(random), random);
  }

  lemma FieldsArePlain(c: Challenge, random: seq<Byte>)
    requires BridgeFields(c, random)
    ensures Printable(c.sub) && WellFormed(c.key) && Printable(c.key) && WellFormed(c.nonce) && Printable(c.nonce) && |c.nonce| == 22
  {
    NonceIsAscii(random);
    AsciiIsPlain(c.nonce);
    assert Ascii(c.key);
    AsciiIsPlain(c.key);
  }

  lemma NamesArePlain()
    ensures Printable(V) && WellFormed(V) && Printable(TYP) && WellFormed(TYP) && Printable(SUB) && WellFormed(SUB)
    ensures Printable(KEY) && WellFormed(KEY) && Printable(NONCE) && WellFormed(NONCE) && Printable(EXP) && WellFormed(EXP)
    ensures Printable(CHALLENGE) && WellFormed(CHALLENGE)
    ensures |V| == 1 && |TYP| == |SUB| == |KEY| == |EXP| == 3 && |NONCE| == 5 && |CHALLENGE| == 9
  {
    assert Ascii(V) && Ascii(TYP) && Ascii(SUB) && Ascii(KEY) && Ascii(NONCE) && Ascii(EXP) && Ascii(CHALLENGE);
  }

  lemma ChallengePrintsExactly(c: Challenge, random: seq<Byte>)
    requires BridgeFields(c, random)
    ensures Canonical(ChallengePayload(c)).Some? <==> WellFormed(c.sub)
  {
    if WellFormed(c.sub) { PlainFieldsPrint(c, random); } else { FlatRefuses(ChallengePayload(c).props, 2); }
  }

  lemma PlainFieldsPrint(c: Challenge, random: seq<Byte>)
    requires BridgeFields(c, random) && WellFormed(c.sub)
    ensures Canonical(ChallengePayload(c)).Some?
  {
    NamesArePlain();
    FieldsArePlain(c, random);
    FlatPrints(ChallengePayload(c).props);
  }

  lemma FlatRefuses(props: seq<Prop>, i: nat)
    requires i < |props| && props[i].value.Str? && !WellFormed(props[i].value.text)
    ensures Canonical(Obj(props)).None?
  {
    PrintsExactly(Obj(props), 0);
    assert !Clean(props[i].value);
  }

  /** An object of numbers and well-formed texts prints. */
  lemma FlatPrints(props: seq<Prop>)
    requires forall p | p in props :: WellFormed(p.key) && (p.value.Num? || (p.value.Str? && WellFormed(p.value.text)))
    ensures Canonical(Obj(props)).Some?
  {
    forall i | 0 <= i < |props| ensures WellFormed(props[i].key) && Clean(props[i].value) && NestsWithin(props[i].value, 127) {
      assert props[i] in props;
    }
    PrintsExactly(Obj(props), 0);
  }

  lemma SixMembers(p: seq<Prop>)
    requires |p| == 6
    ensures MembersWeight(p, 1) == MemberWeight(p[0], 1) + MemberWeight(p[1], 1) + MemberWeight(p[2], 1) +
                                   MemberWeight(p[3], 1) + MemberWeight(p[4], 1) + MemberWeight(p[5], 1)
  {
    assert p[1..][1..] == p[2..] && p[2..][1..] == p[3..] && p[3..][1..] == p[4..] && p[4..][1..] == p[5..] && p[5..][1..] == [];
    assert MembersWeight(p[5..], 1) == MemberWeight(p[5], 1);
    assert MembersWeight(p[4..], 1) == MemberWeight(p[4], 1) + MembersWeight(p[5..], 1);
    assert MembersWeight(p[3..], 1) == MemberWeight(p[3], 1) + MembersWeight(p[4..], 1);
    assert MembersWeight(p[2..], 1) == MemberWeight(p[2], 1) + MembersWeight(p[3..], 1);
    assert MembersWeight(p[1..], 1) == MemberWeight(p[1], 1) + MembersWeight(p[2..], 1);
  }

  lemma ChallengeWeight(c: Challenge, random: seq<Byte>)
    requires BridgeFields(c, random) && WellFormed(c.sub)
    ensures MembersWeight(ChallengePayload(c).props, 1) <= 1300
  {
    NamesArePlain();
    FieldsArePlain(c, random);
    SixMembers(ChallengePayload(c).props);
    NumberMember(V, 1);
    TextMember(TYP, CHALLENGE);
    TextMember(SUB, c.sub);
    TextMember(KEY, c.key);
    TextMember(NONCE, c.nonce);
    NumberMember(EXP, c.exp);
  }

  /**
   * The challenge for a command is minted exactly when the user id has no lone surrogate, which a
   * valid subject may have; it is never longer than Writ accepts, and reads back as minted at every
   * moment before its expiry and at none from then on.
   */
  lemma BridgeChallengeReadsUntilExpiry(mac: Mac, json: Json, c: Challenge, random: seq<Byte>, nowSeconds: int)
    requires BridgeFields(c, random) && ReadsCanonical(json) && forall body :: |mac(body)| == 32
    ensures MintChallenge(mac, c).Some? <==> WellFormed(c.sub)
    ensures MintChallenge(mac, c).Some? ==>
              var token := MintChallenge(mac, c).value;
              |token| <= MAX_CHALLENGE_CHARS &&
              (ReadChallenge(mac, json, token, nowSeconds) == Ok(c) <==> nowSeconds < c.exp)
  {
    ChallengePrintsExactly(c, random);
    if WellFormed(c.sub) {
      ChallengeFits(mac, c, random);
      NonceIsAscii(random);
      MintedReadsExactly(mac, json, c, nowSeconds);
    }
  }

  lemma ChallengeFits(mac: Mac, c: Challenge, random: seq<Byte>)
    requires BridgeFields(c, random) && MintChallenge(mac, c).Some? && WellFormed(c.sub) && forall body :: |mac(body)| == 32
    ensures |MintChallenge(mac, c).value| <= MAX_CHALLENGE_CHARS
  {
    var p := ChallengePayload(c);
    ChallengeWeight(c, random);
    ObjectWeight(p);
    var bytes := Utf8.Encode(Canonical(p).value);
    WeightBounds(Canonical(p).value);
    Base64Url.EncodedLength(bytes);
    Base64Url.EncodedLength(mac(Base64Url.Encode(bytes)));
  }
}
