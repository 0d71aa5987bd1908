/**
 * Server-minted tokens: `base64url(canonical JSON) "." base64url(mac(first part))`. The HMAC is a
 * parameter, any function of the first part; nothing is assumed about it but, where a length
 * matters, that it makes 32 bytes.
 */
module Tokens {
  import opened Basics
  import opened JsonValues
  import opened CanonicalJson
  import opened JsonReader
  import opened CanonicalForms
  import opened Preimages
  import Utf8
  import Base64Url

  const MAX_TOKEN_CHARS := 4096
  const MAX_CHALLENGE_CHARS := 2048
  const MAX_SUBJECT_LENGTH := 256
  const NONCE_BYTES := 16
  const DOT: Unit := 46

  type Mac = Text -> seq<Byte>

  /** `JSON.parse`. Assumed of it, where anything is: that it reads what the canonical reader reads. */
  type Json = Text -> Option<Value>

  ghost predicate ReadsCanonical(json: Json) {
    forall t | ReadAll(t).Some? :: json(t) == ReadAll(t)
  }

  // ---------------------------------------------------------------------------------------------
  // Signing and opening
  // ---------------------------------------------------------------------------------------------

  /** The token whose first part spells `bytes`. */
  function Signed(mac: Mac, bytes: seq<Byte>): Text {
    var body := Base64Url.Encode(bytes);
    body + [DOT] + Base64Url.Encode(mac(body))
  }

  /** `signToken`; None where the payload has no canonical form. */
  function SignToken(mac: Mac, payload: Js): Option<Text> {
    var text := Canonical(payload);
    if text.None? then None else Some(Signed(mac, Utf8.Encode(text.value)))
  }

  /** The bytes of a token's first part, where its shape, its spelling and its tag are right. */
  function CheckedBody(mac: Mac, token: Text): Option<seq<Byte>> {
    if token == [] || |token| > MAX_TOKEN_CHARS then None
    else
      var dot := IndexOf(token, DOT);
      if dot <= 0 || dot != LastIndexOf(token, DOT) then None
      else
        var body, given := token[..dot], token[dot + 1..];
        if Base64Url.Decode(given).None? || given != Base64Url.Encode(mac(body)) then None
        else Base64Url.Decode(body)
  }

  /** `openToken`: the members of the payload, or None. Expiry and type are the caller's. */
  function OpenToken(mac: Mac, json: Json, token: Text): Option<map<Text, Value>> {
    var bytes := CheckedBody(mac, token);
    if bytes.None? then None
    else
      var payload := json(Utf8.Decode(bytes.value));
      if payload.Some? && payload.value.VObj? then Some(payload.value.members) else None
  }

  lemma {:induction false} NoDotInside(b: seq<Byte>)
    ensures DOT !in Base64Url.Encode(b)
  {
    Base64Url.EncodingReadsBack(b);
    assert Base64Url.ValueOf(DOT).None?;
  }

  lemma OpenedParts(mac: Mac, t: Text)
    requires CheckedBody(mac, t).Some?
    ensures var i := IndexOf(t, DOT);
            && 0 < i < |t| && t[i] == DOT && t[i + 1..] == Base64Url.Encode(mac(t[..i]))
            && Base64Url.Decode(t[..i]) == CheckedBody(mac, t)
  {
  }

  lemma PartsAreSigned(mac: Mac, t: Text, i: nat, body: Text, bytes: seq<Byte>)
    requires i < |t| && t[i] == DOT && body == t[..i] == Base64Url.Encode(bytes) && t[i + 1..] == Base64Url.Encode(mac(body))
    ensures t == body + [DOT] + Base64Url.Encode(mac(body)) && t == Signed(mac, bytes)
  {
    assert t == t[..i] + [DOT] + t[i + 1..];
  }

  lemma OpenedIsSigned(mac: Mac, t: Text)
    requires CheckedBody(mac, t).Some?
    ensures var i := IndexOf(t, DOT);
            i > 0 && t == t[..i] + [DOT] + Base64Url.Encode(mac(t[..i])) && t == Signed(mac, CheckedBody(mac, t).value)
  {
    OpenedParts(mac, t);
    var i, bytes := IndexOf(t, DOT), CheckedBody(mac, t).value;
    Base64Url.DecodeExactly(t[..i], bytes);
    PartsAreSigned(mac, t, i, t[..i], bytes);
  }

  /** The tokens that open are exactly the signed ones within the length, of bytes that read as an object. */
  lemma OpensExactly(mac: Mac, json: Json, token: Text, members: map<Text, Value>)
    ensures OpenToken(mac, json, token) == Some(members) <==>
            |token| <= MAX_TOKEN_CHARS &&
            exists bytes :: bytes != [] && token == Signed(mac, bytes) && json(Utf8.Decode(bytes)) == Some(VObj(members))
  {
    if OpenToken(mac, json, token) == Some(members) {
      OpenedIsSigned(mac, token);
    }
    if |token| <= MAX_TOKEN_CHARS {
      forall bytes | bytes != [] && token == Signed(mac, bytes) && json(Utf8.Decode(bytes)) == Some(VObj(members))
        ensures OpenToken(mac, json, token) == Some(members)
      {
        SignedOpens(mac, json, bytes, members);
      }
    }
  }

  lemma SignedOpens(mac: Mac, json: Json, bytes: seq<Byte>, members: map<Text, Value>)
    requires bytes != [] && |Signed(mac, bytes)| <= MAX_TOKEN_CHARS && json(Utf8.Decode(bytes)) == Some(VObj(members))
    ensures OpenToken(mac, json, Signed(mac, bytes)) == Some(members)
  {
    var body := Base64Url.Encode(bytes);
    var tag := mac(body);
    NoDotInside(bytes);
    NoDotInside(tag);
    OnlySeparator(body, Base64Url.Encode(tag), DOT);
    Base64Url.DecodeExactly(body, bytes);
    Base64Url.DecodeExactly(Base64Url.Encode(tag), tag);
    Base64Url.EncodedLength(bytes);
  }

  /** A token spells one body: its bytes can be read off it. */
  lemma SignedIsInjective(mac: Mac, a: seq<Byte>, b: seq<Byte>)
    requires Signed(mac, a) == Signed(mac, b)
    ensures a == b
  {
    NoDotInside(mac(Base64Url.Encode(a)));
    NoDotInside(mac(Base64Url.Encode(b)));
    LastSeparator(Base64Url.Encode(a), Base64Url.Encode(mac(Base64Url.Encode(a))),
                  Base64Url.Encode(b), Base64Url.Encode(mac(Base64Url.Encode(b))), DOT);
    Base64Url.EncodeIsInjective(a, b);
  }

  /** Opening inverts signing, for every payload whose token is within the length. */
  lemma OpenInvertsSign(mac: Mac, json: Json, payload: Js)
    requires ReadsCanonical(json) && payload.Obj? && Proper(payload) && SignToken(mac, payload).Some?
    ensures var token := SignToken(mac, payload).value;
            OpenToken(mac, json, token) ==
              if |token| <= MAX_TOKEN_CHARS then Some(Meaning(payload).members) else None
  {
    var text := Canonical(payload).value;
    CanonicalIsPlain(payload, 0);
    Utf8.RoundTrip(text);
    ReadsBack(payload);
    assert json(text) == ReadAll(text);
    assert Utf8.Encode(text) != [] by { assert Utf8.Decode([]) == []; }
    if |Signed(mac, Utf8.Encode(text))| <= MAX_TOKEN_CHARS {
      SignedOpens(mac, json, Utf8.Encode(text), Meaning(payload).members);
    }
  }

  /** Exactly one token opens for each first part: no second spelling of body or tag verifies. */
  lemma OneTokenPerBody(mac: Mac, json: Json, t: Text, u: Text)
    requires OpenToken(mac, json, t).Some? && OpenToken(mac, json, u).Some?
    ensures t == u <==> t[..IndexOf(t, DOT)] == u[..IndexOf(u, DOT)]
  {
    OpenedIsSigned(mac, t);
    OpenedIsSigned(mac, u);
  }

  /** Payloads share a token exactly when they mean the same. */
  lemma SameTokenExactly(mac: Mac, p: Js, q: Js)
    requires Proper(p) && Proper(q) && SignToken(mac, p).Some? && SignToken(mac, q).Some?
    ensures SignToken(mac, p) == SignToken(mac, q) <==> Meaning(p) == Meaning(q)
  {
    CanonicalBytesExactly(p, q);
    if SignToken(mac, p) == SignToken(mac, q) {
      SignedIsInjective(mac, Utf8.Encode(Canonical(p).value), Utf8.Encode(Canonical(q).value));
    }
  }

  // ---------------------------------------------------------------------------------------------
  // User tokens and challenges
  // ---------------------------------------------------------------------------------------------

  const V: Text := [118]
  const TYP: Text := [116, 121, 112]
  const SUB: Text := [115, 117, 98]
  const KEY: Text := [107, 101, 121]
  const NONCE: Text := [110, 111, 110, 99, 101]
  const EXP: Text := [101, 120, 112]
  const USER: Text := [117, 115, 101, 114]
  const CHALLENGE: Text := [99, 104, 97, 108, 108, 101, 110, 103, 101]

  datatype UserToken = UserToken(sub: Text, exp: SafeInteger)

  datatype Challenge = Challenge(sub: Text, key: Text, nonce: Text, exp: SafeInteger)

  datatype Flaw = NotMinted | NotAChallenge | NoSubject | NoFunction | BadNonce | NoExpiry | Expired

  datatype Reading = Ok(payload: Challenge) | Refused(why: Flaw)

  function UserPayload(u: UserToken): Js {
    Obj([Prop(V, Num(1)), Prop(TYP, Str(USER)), Prop(SUB, Str(u.sub)), Prop(EXP, Num(u.exp))])
  }

  function ChallengePayload(c: Challenge): Js {
    Obj([Prop(V, Num(1)), Prop(TYP, Str(CHALLENGE)), Prop(SUB, Str(c.sub)), Prop(KEY, Str(c.key)),
         Prop(NONCE, Str(c.nonce)), Prop(EXP, Num(c.exp))])
  }

  function MintUserToken(mac: Mac, u: UserToken): Option<Text> { SignToken(mac, UserPayload(u)) }

  function MintChallenge(mac: Mac, c: Challenge): Option<Text> { SignToken(mac, ChallengePayload(c)) }

  /** `subjectOf` of a string: 1 to 256 code units, none of them a control character. */
  predicate IsSubject(sub: Text) {
    1 <= |sub| <= MAX_SUBJECT_LENGTH && forall i | 0 <= i < |sub| :: sub[i] >= 0x20 && sub[i] != 0x7F
  }

  predicate Is(m: map<Text, Value>, key: Text, value: Value) {
    key in m && m[key] == value
  }

  predicate HasText(m: map<Text, Value>, key: Text) {
    key in m && m[key].VStr?
  }

  /** What `readUserToken` makes of an opened payload. */
  function UserOf(m: map<Text, Value>, nowSeconds: int): Option<UserToken> {
    if !Is(m, V, VNum(1)) || !Is(m, TYP, VStr(USER)) then None
    else if !HasText(m, SUB) || !IsSubject(m[SUB].text) then None
    else if EXP !in m || !m[EXP].VNum? || m[EXP].n <= nowSeconds then None
    else Some(UserToken(m[SUB].text, m[EXP].n))
  }

  function ReadUserToken(mac: Mac, json: Json, token: Text, nowSeconds: int): Option<UserToken> {
    var payload := OpenToken(mac, json, token);
    if payload.None? then None else UserOf(payload.value, nowSeconds)
  }

  /** What `readChallenge` makes of an opened payload. */
  function ChallengeOf(m: map<Text, Value>, nowSeconds: int): Reading {
    if !Is(m, V, VNum(1)) || !Is(m, TYP, VStr(CHALLENGE)) then Refused(NotAChallenge)
    else if !HasText(m, SUB) || !IsSubject(m[SUB].text) then Refused(NoSubject)
    else if !HasText(m, KEY) || m[KEY].text == [] then Refused(NoFunction)
    else if !HasText(m, NONCE) || !IsNonce(m[NONCE].text) then Refused(BadNonce)
    else if EXP !in m || !m[EXP].VNum? then Refused(NoExpiry)
    else if m[EXP].n <= nowSeconds then Refused(Expired)
    else Ok(Challenge(m[SUB].text, m[KEY].text, m[NONCE].text, m[EXP].n))
  }

  function ReadChallenge(mac: Mac, json: Json, token: Text, nowSeconds: int): Reading {
    var payload := OpenToken(mac, json, token);
    if payload.None? then Refused(NotMinted) else ChallengeOf(payload.value, nowSeconds)
  }

  predicate IsNonce(nonce: Text) {
    var bytes := Base64Url.Decode(nonce);
    bytes.Some? && |bytes.value| == NONCE_BYTES
  }

  /** A user token never reads as a challenge, nor a challenge as a user token. */
  lemma KindsNeverMix(mac: Mac, json: Json, token: Text, now: int, later: int)
    requires ReadUserToken(mac, json, token, now).Some?
    ensures ReadChallenge(mac, json, token, later) == Refused(NotAChallenge)
  {
    assert USER[0] != CHALLENGE[0];
  }

  lemma KeysDiffer()
    ensures V != TYP && V != SUB && V != KEY && V != NONCE && V != EXP
    ensures TYP != SUB && TYP != KEY && TYP != NONCE && TYP != EXP
    ensures SUB != KEY && SUB != NONCE && SUB != EXP
    ensures KEY != NONCE && KEY != EXP && NONCE != EXP
  {
    assert V[0] == 118 && TYP[0] == 116 && SUB[0] == 115 && KEY[0] == 107 && NONCE[0] == 110 && EXP[0] == 101;
  }

  function ChallengeFields(c: Challenge): map<Text, Value> {
    map[V := VNum(1), TYP := VStr(CHALLENGE), SUB := VStr(c.sub), KEY := VStr(c.key), NONCE := VStr(c.nonce),
        EXP := VNum(c.exp)]
  }

  function UserFields(u: UserToken): map<Text, Value> {
    map[V := VNum(1), TYP := VStr(USER), SUB := VStr(u.sub), EXP := VNum(u.exp)]
  }

  /** `m` holds the value of every property, and nothing else. */
  ghost predicate Lists(m: map<Text, Value>, props: seq<Prop>) {
    (forall i | 0 <= i < |props| :: Is(m, props[i].key, Meaning(props[i].value))) &&
    (forall key | key in m :: exists i :: 0 <= i < |props| && props[i].key == key)
  }

  lemma ListsOnce(m: map<Text, Value>, r: map<Text, Value>, props: seq<Prop>)
    requires Lists(m, props) && Lists(r, props)
    ensures m == r
  {
    forall key | key in m ensures key in r && m[key] == r[key] {
      var i :| 0 <= i < |props| && props[i].key == key;
      assert Is(m, props[i].key, Meaning(props[i].value)) && Is(r, props[i].key, Meaning(props[i].value));
    }
    forall key | key in r ensures key in m {
      var i :| 0 <= i < |props| && props[i].key == key;
      assert Is(m, props[i].key, Meaning(props[i].value));
    }
  }

  lemma MembersLists(props: seq<Prop>, parent: Js)
    requires parent == Obj(props) && DistinctKeys(props) && forall p | p in props :: !p.value.Undefined?
    ensures Lists(MembersOf(props, parent), props)
  {
    MembersOfExactly(props, parent);
    var r := MembersOf(props, parent);
    forall i | 0 <= i < |props| ensures Is(r, props[i].key, Meaning(props[i].value)) {
      assert props[i] in props;
    }
  }

  /** An object of scalars means its own entries. */
  lemma FlatMeans(props: seq<Prop>, m: map<Text, Value>)
    requires DistinctKeys(props) && Lists(m, props)
    requires forall p | p in props :: p.value.Num? || p.value.Str?
    ensures Proper(Obj(props)) && Meaning(Obj(props)) == VObj(m)
  {
    MembersLists(props, Obj(props));
    ListsOnce(m, MembersOf(props, Obj(props)), props);
  }

  lemma ChallengeLists(c: Challenge)
    ensures Lists(ChallengeFields(c), ChallengePayload(c).props)
  {
    KeysDiffer();
    var props, m := ChallengePayload(c).props, ChallengeFields(c);
    assert props[0].key == V && props[1].key == TYP && props[2].key == SUB;
    assert props[3].key == KEY && props[4].key == NONCE && props[5].key == EXP;
  }

  lemma ChallengeKeysDiffer(c: Challenge)
    ensures DistinctKeys(ChallengePayload(c).props)
  {
    KeysDiffer();
    var props := ChallengePayload(c).props;
    var keys := [V, TYP, SUB, KEY, NONCE, EXP];
    assert forall i | 0 <= i < 6 :: props[i].key == keys[i];
    assert forall i, j | 0 <= i < j < 6 :: keys[i] != keys[j];
  }

  lemma ChallengeMeans(c: Challenge)
    ensures Proper(ChallengePayload(c)) && Meaning(ChallengePayload(c)) == VObj(ChallengeFields(c))
  {
    ChallengeKeysDiffer(c);
    ChallengeLists(c);
    FlatMeans(ChallengePayload(c).props, ChallengeFields(c));
  }

  lemma UserLists(u: UserToken)
    ensures Lists(UserFields(u), UserPayload(u).props)
  {
    KeysDiffer();
    var props := UserPayload(u).props;
    assert props[0].key == V && props[1].key == TYP && props[2].key == SUB && props[3].key == EXP;
  }

  lemma UserKeysDiffer(u: UserToken)
    ensures DistinctKeys(UserPayload(u).props)
  {
    KeysDiffer();
    var props := UserPayload(u).props;
    var keys := [V, TYP, SUB, EXP];
    assert forall i | 0 <= i < 4 :: props[i].key == keys[i];
    assert forall i, j | 0 <= i < j < 4 :: keys[i] != keys[j];
  }

  lemma UserMeans(u: UserToken)
    ensures Proper(UserPayload(u)) && Meaning(UserPayload(u)) == VObj(UserFields(u))
  {
    UserLists(u);
    UserKeysDiffer(u);
    FlatMeans(UserPayload(u).props, UserFields(u));
  }

  lemma ChallengeFieldsRead(c: Challenge, nowSeconds: int)
    ensures ChallengeOf(ChallengeFields(c), nowSeconds) == Ok(c) <==>
            IsSubject(c.sub) && c.key != [] && IsNonce(c.nonce) && nowSeconds < c.exp
  {
    KeysDiffer();
  }

  lemma UserFieldsRead(u: UserToken, nowSeconds: int)
    ensures UserOf(UserFields(u), nowSeconds) == Some(u) <==> IsSubject(u.sub) && nowSeconds < u.exp
  {
    KeysDiffer();
  }

  lemma FieldsTellChallenges(c: Challenge, d: Challenge)
    requires ChallengeFields(c) == ChallengeFields(d)
    ensures c == d
  {
    KeysDiffer();
    var m := ChallengeFields(c);
    assert m[SUB] == VStr(c.sub) == VStr(d.sub) && m[KEY] == VStr(c.key) == VStr(d.key);
    assert m[NONCE] == VStr(c.nonce) == VStr(d.nonce) && m[EXP] == VNum(c.exp) == VNum(d.exp);
  }

  /** A minted challenge reads back as minted exactly while it is well made and unexpired. */
  lemma MintedReadsExactly(mac: Mac, json: Json, c: Challenge, nowSeconds: int)
    requires ReadsCanonical(json) && MintChallenge(mac, c).Some?
    ensures var token := MintChallenge(mac, c).value;
            ReadChallenge(mac, json, token, nowSeconds) == Ok(c) <==>
            |token| <= MAX_TOKEN_CHARS && IsSubject(c.sub) && c.key != [] && IsNonce(c.nonce) && nowSeconds < c.exp
  {
    ChallengeMeans(c);
    ChallengeFieldsRead(c, nowSeconds);
    OpenInvertsSign(mac, json, ChallengePayload(c));
  }

  lemma MintedUserReadsExactly(mac: Mac, json: Json, u: UserToken, nowSeconds: int)
    requires ReadsCanonical(json) && MintUserToken(mac, u).Some?
    ensures var token := MintUserToken(mac, u).value;
            ReadUserToken(mac, json, token, nowSeconds) == Some(u) <==>
            |token| <= MAX_TOKEN_CHARS && IsSubject(u.sub) && nowSeconds < u.exp
  {
    UserMeans(u);
    UserFieldsRead(u, nowSeconds);
    OpenInvertsSign(mac, json, UserPayload(u));
  }

  /** One challenge per set of fields: a different command id, key, user or expiry is a different text. */
  lemma MintIsInjective(mac: Mac, c: Challenge, d: Challenge)
    requires MintChallenge(mac, c).Some? && MintChallenge(mac, c) == MintChallenge(mac, d)
    ensures c == d
  {
    ChallengeMeans(c);
    ChallengeMeans(d);
    SameTokenExactly(mac, ChallengePayload(c), ChallengePayload(d));
    FieldsTellChallenges(c, d);
  }
}
