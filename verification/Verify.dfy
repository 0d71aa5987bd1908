/**
 * `checkReceipt`, cut where it awaits: the guards before the device check, the device check, the
 * spending of the challenge, the guards after it. Signatures and digests are symbolic.
 */
module Verify {
  import opened Basics
  import opened BridgeTypes
  import opened JsonValues
  import opened StoreSpec
  import opened Challenges

  /** Which signers verify for a user. `Registry` is the developer's own function. */
  datatype DevicePolicy = FirstUse | Off | Registry(allowed: set<(User, PublicKey)>)

  datatype Expectations = Expectations(
    nowSeconds: int,
    challenge: Challenge,
    key: Key,
    subject: Option<User>,
    nonce: Option<Id>,
    origin: Option<nat>,
    data: Option<Posted>,
    inputs: Option<Posted>,
    inputsHash: Option<Digest>,
    requireSuccess: bool)

  datatype Verdict = Ok(receipt: Receipt) | No(unknownDevice: Option<PublicKey>)

  /** The signature is by the device the receipt names, over the receipt's own body. */
  predicate Genuine(r: Receipt) {
    r.sig == SignedBy(r.body.device, r.body)
  }

  function ReadChallenge(challenge: Challenge, nowSeconds: int): Option<ChallengePayload> {
    match challenge
    case Foreign(_) => None
    case Minted(payload) => if payload.exp <= nowSeconds then None else Some(payload)
  }

  /** The guards before the device check; the payload of the challenge the receipt answers. */
  function GuardsBefore(receipt: Option<Receipt>, e: Expectations): Option<ChallengePayload> {
    if receipt.None? || !Genuine(receipt.value) then None
    else
      var b := receipt.value.body;
      if b.key != e.key || b.challenge.None? || b.challenge.value != e.challenge then None
      else
        var payload := ReadChallenge(e.challenge, e.nowSeconds);
        if payload.None? || payload.value.key != e.key then None
        else if e.subject.Some? && payload.value.sub != e.subject.value then None
        else if e.nonce.Some? && payload.value.nonce != e.nonce.value then None
        else if e.origin.Some? && b.origin != e.origin.value then None
        else payload
  }

  function DevicePinned(policy: DevicePolicy, s: Store, subject: User, device: PublicKey): (Store, bool) {
    match policy
    case Off => (s, true)
    case FirstUse => var (s', check) := CheckDevice(s, subject, device, true); (s', check != Unknown)
    case Registry(allowed) => (s, (subject, device) in allowed)
  }

  /** The inputs hash a receipt must carry: the one expected, or that of the inputs expected, if they have one. */
  function WantedInputs(e: Expectations): Option<Digest> {
    if e.inputsHash.Some? then e.inputsHash
    else if e.inputs.Some? && e.inputs.value.Form? then Some(OfInputs(e.challenge, e.inputs.value.value))
    else None
  }

  /** The guards after the challenge was spent. */
  predicate GuardsAfter(r: Receipt, e: Expectations) {
    && (e.requireSuccess ==> r.body.outcome == Success)
    && (e.inputs.Some? || e.inputsHash.Some? ==> r.body.inputsHash.Some? && r.body.inputsHash == WantedInputs(e))
    && (e.data.Some? && r.body.outcome == Success ==>
          e.data.value.Form? && r.body.dataHash == Some(OfData(e.data.value.value)))
  }

  /** The whole check: the device is checked at once, the nonce spent at `t`. */
  function CheckReceipt(policy: DevicePolicy, s: Store, t: nat, receipt: Option<Receipt>, e: Expectations): (Store, Verdict) {
    var payload := GuardsBefore(receipt, e);
    if payload.None? then (s, No(None))
    else
      var r := receipt.value;
      var (s1, pinned) := DevicePinned(policy, s, payload.value.sub, r.body.device);
      if !pinned then (s1, No(Some(r.body.device)))
      else
        var (s2, unspent) := SpendNonce(s1, t, payload.value.nonce, SpentTtl(payload.value.exp, e.nowSeconds));
        if unspent && GuardsAfter(r, e) then (s2, Ok(r)) else (s2, No(None))
  }

  /** What an accepted receipt proves, and that nothing else is refused. */
  lemma AcceptedExactly(policy: DevicePolicy, s: Store, t: nat, receipt: Option<Receipt>, e: Expectations)
    ensures CheckReceipt(policy, s, t, receipt, e).1.Ok? <==>
            && receipt.Some?
            && var b := receipt.value.body;
            && receipt.value.sig == SignedBy(b.device, b)
            && b.key == e.key && b.challenge == Some(e.challenge)
            && e.challenge.Minted?
            && var p := e.challenge.payload;
            && p.exp > e.nowSeconds && p.key == e.key
            && (e.subject.Some? ==> p.sub == e.subject.value)
            && (e.nonce.Some? ==> p.nonce == e.nonce.value)
            && (e.origin.Some? ==> b.origin == e.origin.value)
            && (policy.FirstUse? ==> PinsOf(s, p.sub) == {} || b.device in PinsOf(s, p.sub))
            && (policy.Registry? ==> (p.sub, b.device) in policy.allowed)
            && (p.nonce in s.nonces ==> s.nonces[p.nonce] <= t)
            && (e.requireSuccess ==> b.outcome == Success)
            && (e.inputsHash.Some? ==> b.inputsHash == e.inputsHash)
            && (e.inputsHash.None? && e.inputs.Some? ==>
                  e.inputs.value.Form? && b.inputsHash == Some(OfInputs(e.challenge, e.inputs.value.value)))
            && (e.data.Some? && b.outcome == Success ==>
                  e.data.value.Form? && b.dataHash == Some(OfData(e.data.value.value)))
  {
  }

  /**
   * One receipt is never accepted for two sets of inputs, nor a successful one for two results: what
   * it is accepted for, at any times and by any policies, is one challenge, its inputs and its data.
   */
  lemma AcceptedForOneThing(policy: DevicePolicy, s: Store, t: nat, e: Expectations,
                            policy': DevicePolicy, s': Store, t': nat, e': Expectations, r: Receipt)
    requires CheckReceipt(policy, s, t, Some(r), e).1.Ok? && CheckReceipt(policy', s', t', Some(r), e').1.Ok?
    ensures e.challenge == e'.challenge && e.key == e'.key
    ensures e.inputs.Some? && e'.inputs.Some? && e.inputsHash.None? && e'.inputsHash.None? ==> e.inputs == e'.inputs
    ensures e.inputsHash.Some? && e'.inputsHash.Some? ==> e.inputsHash == e'.inputsHash
    ensures e.data.Some? && e'.data.Some? && r.body.outcome == Success ==> e.data == e'.data
  {
    AcceptedExactly(policy, s, t, Some(r), e);
    AcceptedExactly(policy', s', t', Some(r), e');
  }

  /**
   * A genuine receipt that answers its challenge spends it whatever the verdict is after that: the
   * same receipt, or any other for that challenge, is refused until the record expires.
   */
  lemma SpentWhateverTheOutcome(policy: DevicePolicy, s: Store, t: nat, t': nat, r: Receipt, e: Expectations,
                                other: Option<Receipt>, e': Expectations, policy': DevicePolicy)
    requires GuardsBefore(Some(r), e).Some?
    requires e.challenge.Minted? && DevicePinned(policy, s, e.challenge.payload.sub, r.body.device).1
    requires e'.challenge == e.challenge
    requires var n := e.challenge.payload.nonce; n in s.nonces ==> s.nonces[n] <= t
    requires t <= t' < t + SpentTtl(e.challenge.payload.exp, e.nowSeconds)
    ensures CheckReceipt(policy', CheckReceipt(policy, s, t, Some(r), e).0, t', other, e').1.No?
  {
    var nonce := e.challenge.payload.nonce;
    SpendingIsRecorded(policy, s, t, r, e);
    var s' := CheckReceipt(policy, s, t, Some(r), e).0;
    assert s'.nonces[nonce] > t';
    SpentIsRefused(policy', s', t', other, e');
  }

  lemma SpendingIsRecorded(policy: DevicePolicy, s: Store, t: nat, r: Receipt, e: Expectations)
    requires GuardsBefore(Some(r), e).Some?
    requires e.challenge.Minted? && DevicePinned(policy, s, e.challenge.payload.sub, r.body.device).1
    requires var n := e.challenge.payload.nonce; n in s.nonces ==> s.nonces[n] <= t
    ensures var s' := CheckReceipt(policy, s, t, Some(r), e).0;
            var n := e.challenge.payload.nonce;
            n in s'.nonces && s'.nonces[n] >= t + SpentTtl(e.challenge.payload.exp, e.nowSeconds)
  {
    var payload := e.challenge.payload;
    assert GuardsBefore(Some(r), e) == Some(payload);
    var s1 := DevicePinned(policy, s, payload.sub, r.body.device).0;
    assert s1.nonces == s.nonces;
  }

  lemma SpentIsRefused(policy: DevicePolicy, s: Store, t: nat, receipt: Option<Receipt>, e: Expectations)
    requires e.challenge.Minted? && e.challenge.payload.nonce in s.nonces && s.nonces[e.challenge.payload.nonce] > t
    ensures CheckReceipt(policy, s, t, receipt, e).1.No?
  {
  }
}
