/** What `checkReceipt` answers besides yes, and what it leaves in the store, spelled on the receipt. */
module VerifyAnswers {
  import opened Basics
  import opened BridgeTypes
  import opened StoreSpec
  import opened Verify

  /** The receipt is genuine and answers the challenge that is expected, in time. */
  predicate AnswersChallenge(r: Receipt, e: Expectations) {
    && r.sig == SignedBy(r.body.device, r.body)
    && r.body.key == e.key && r.body.challenge == Some(e.challenge)
    && (e.origin.Some? ==> r.body.origin == e.origin.value)
    && match e.challenge
       case Foreign(_) => false
       case Minted(p) =>
         && p.exp > e.nowSeconds && p.key == e.key
         && (e.subject.Some? ==> p.sub == e.subject.value) && (e.nonce.Some? ==> p.nonce == e.nonce.value)
  }

  /** The policy lets the device sign for the user, or first use pins it. */
  predicate MaySign(policy: DevicePolicy, s: Store, user: User, device: PublicKey) {
    match policy
    case Off => true
    case FirstUse => PinsOf(s, user) == {} || device in PinsOf(s, user)
    case Registry(allowed) => (user, device) in allowed
  }

  /** The device to approve is named if and only if everything before the device check was right and it was not. */
  lemma DeviceNamedExactly(policy: DevicePolicy, s: Store, t: nat, receipt: Option<Receipt>, e: Expectations, device: PublicKey)
    ensures CheckReceipt(policy, s, t, receipt, e).1 == No(Some(device)) <==>
            && receipt.Some? && AnswersChallenge(receipt.value, e) && receipt.value.body.device == device
            && !MaySign(policy, s, e.challenge.payload.sub, device)
  {
  }

  /** The record of a spent challenge outlasts the challenge by a second, and is kept for a second at least. */
  function SpentUntil(t: nat, exp: int, nowSeconds: int): int {
    if exp >= nowSeconds then t + 1_000 * (exp - nowSeconds) + 1_000 else t + 1_000
  }

  /**
   * A check leaves the store as it was but for two things: a user without pins gets the device of a
   * receipt that answers its challenge, at first use; and a device that may sign spends the
   * challenge, if it is unspent, whatever the receipt says of outcome, inputs and data.
   */
  lemma LeavesExactly(policy: DevicePolicy, s: Store, t: nat, receipt: Option<Receipt>, e: Expectations)
    ensures var s' := CheckReceipt(policy, s, t, receipt, e).0;
            if receipt.None? || !AnswersChallenge(receipt.value, e) then s' == s
            else
              var p, device := e.challenge.payload, receipt.value.body.device;
              var spends := MaySign(policy, s, p.sub, device) && !(p.nonce in s.nonces && s.nonces[p.nonce] > t);
              && s' == s.(devices := s'.devices, nonces := s'.nonces)
              && s'.devices == (if policy.FirstUse? && PinsOf(s, p.sub) == {} then s.devices[p.sub := {device}] else s.devices)
              && s'.nonces == if spends then s.nonces[p.nonce := SpentUntil(t, p.exp, e.nowSeconds)] else s.nonces
  {
    GuardsExactly(receipt, e);
    if receipt.Some? && AnswersChallenge(receipt.value, e) {
      PinsOnFirstUse(policy, s, e.challenge.payload.sub, receipt.value.body.device);
    }
  }

  lemma GuardsExactly(receipt: Option<Receipt>, e: Expectations)
    ensures GuardsBefore(receipt, e) ==
            if receipt.Some? && AnswersChallenge(receipt.value, e) then Some(e.challenge.payload) else None
  {
  }

  lemma PinsOnFirstUse(policy: DevicePolicy, s: Store, user: User, device: PublicKey)
    ensures DevicePinned(policy, s, user, device).1 == MaySign(policy, s, user, device)
    ensures DevicePinned(policy, s, user, device).0 ==
            if policy.FirstUse? && PinsOf(s, user) == {} then s.(devices := s.devices[user := {device}]) else s
  {
  }
}
