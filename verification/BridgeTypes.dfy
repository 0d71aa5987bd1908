/**
 * What the bridge's server calls, page polls and result posts pass around.
 *
 * Users, contract keys, command ids and device keys are only ever compared, so naturals stand for
 * them. Signatures, MACs and hashes are symbolic: a challenge IS the payload that was signed into
 * it, a digest IS what was hashed. Module Tokens and module CanonicalJson prove that the texts
 * behind them are told apart exactly as these values are.
 */
module BridgeTypes {
  import opened Basics
  import opened JsonValues

  type User = nat
  type Key = nat
  type Id = nat
  type PublicKey = nat

  const RESULT_GRACE_MS := 5_000
  const PICKUP_TIMEOUT_MS := 15_000
  const MAX_COMMANDS_PER_POLL := 16

  /** What a challenge minted by this server opens to; `exp` in unix seconds. */
  datatype ChallengePayload = ChallengePayload(sub: User, key: Key, nonce: Id, exp: int)

  /** A challenge text: one this server minted, or any other text. */
  datatype Challenge = Minted(payload: ChallengePayload) | Foreign(text: nat)

  datatype Digest = OfInputs(challenge: Challenge, inputs: Value) | OfData(data: Value)

  /** Data or inputs as JSON: what they mean, or that they have no canonical form. */
  datatype Posted = Form(value: Value) | NoForm

  datatype ReceiptOutcome = Success | Failed | Error | Timeout | Cancelled

  /** Everything a receipt's signature covers; `other` is the rest of the fields it covers. */
  datatype ReceiptBody = ReceiptBody(
    origin: nat,
    key: Key,
    challenge: Option<Challenge>,
    inputsHash: Option<Digest>,
    outcome: ReceiptOutcome,
    dataHash: Option<Digest>,
    device: PublicKey,
    other: nat)

  /** A signature: made by a device over a body, or bytes that verify for nothing. */
  datatype Signature = SignedBy(device: PublicKey, body: ReceiptBody) | Junk(bytes: nat)

  datatype Receipt = Receipt(body: ReceiptBody, sig: Signature)

  /** The error codes that steer a call; every other code ends it with an error. */
  datatype Code = NOT_GRANTED | RESULT_UNVERIFIED | OTHER_CODE(code: nat)

  /** A command's outcome, as handed to the caller waiting for it. */
  datatype Outcome =
    | Done(data: Value, receipt: Receipt)
    | Refused(code: Code, evidence: Option<Receipt>, unknownDevice: Option<PublicKey>)

  datatype Presence = Presence(ready: bool, granted: set<Key>, lastSeen: int, everReady: bool)

  /** `expiresAt`: unix seconds after which the page must not start it. */
  datatype Command = Command(id: Id, key: Key, inputs: Value, timeoutMs: int, challenge: Challenge, expiresAt: int)

  datatype Pending = Pending(id: Id, user: User, key: Key, challenge: Challenge, expiresAt: int, inputsHash: Option<Digest>)

  datatype DeviceCheck = Known | Pinned | Unknown

  const NoInputs: Value := VObj(map[])
}
