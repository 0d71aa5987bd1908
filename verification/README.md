# Writ Bridge and SDK protocols: models and proofs

A Dafny model of the stateful parts of the Writ Bridge server library (TypeScript, `server-node`) and
of the Go and Rust SDKs, with proofs about every run. `dafny verify dfyconfig.toml` checks it all.

* **The command protocol** (`StoreSpec`, `StoreRuns`, `StoreOutcomes`, `StoreAnswers`, `QueueAnswers`,
  `MemoryStore`, `Challenges`, `Verify`, `VerifyAnswers`, `Bridge`, `BridgePlaces`, `BridgeOutcomes`,
  `BridgeLosses`, `BridgeRuns`, `BridgeDevices`, `BridgeCalls`, `BridgeDeliveries`, `RedisRuns`,
  `RedisAnswers`, `RedisQueues`, `RedisExpiry`). `StoreSpec` gives each stretch of the in-memory store
  between two awaits as a function of the state and the clock.
  Class `MemoryStore` is the same store updated in place, with its parked waits, and is proved against
  those functions. `Bridge` is the whole system as steps: callers, page polls, result posts, devices,
  sweeps and time, in any order; pages may post anything, except that a signature is one some device
  made. `RedisRuns`, `RedisQueues` and `RedisExpiry` are the Redis store one command at a time. Clock
  readings never go back.
* **Canonical JSON, base64url, UTF-8, tokens, inputs** (`JsonValues`, `CanonicalJson`, `JsonReader`,
  `CanonicalForms`, `KeyOrder`, `Preimages`, `Signing`, `Base64Url`, `Utf8`, `Tokens`, `TokenSizes`,
  `TextForms`, `Literals`, `Inputs`, `InputAnswers`). The printer
  (RFC 8785), a reader the repository does not have, and the round trip between them, down to bytes.
  The HMAC is any function of the first part of a token.
* **Watchers and event streams** (`Feed`, `Watch`, `WatchAnswers`, `WatchFeed`, `WatchStream`, `Sse`,
  `SseFields`, `SseFrames`, `EventStream`, `RunEventStream`). Loops against a server that is any function, then against a keyset
  feed that grows and re-stamps its rows, or a log replayed on every connection and cut anywhere, to
  the byte.
* **Retry and the contract tree** (`Retry`, `RetryAnswers`, `Int64`, `Contract`). `Basics`, `Splits` and `BridgeTypes`
  hold what these share.

Safety says what an answer may be at most. The modules named `...Answers`, `BridgeCalls`,
`BridgeDeliveries`, `KeyOrder`, `SseFields` and `TextForms` say what each answer is, from the calls
made before it, or from the characters, statuses and times themselves.

Command ids are fresh in every run of the protocol. Signatures and digests are symbolic there: a
digest is what was hashed. That this is sound for the texts that are really hashed and signed, and for
which part of a receipt, is what `Preimages`, `Signing` and `Tokens` prove.

## Where the code and what it promises differ

The models do what the code does. These are the places where that is not what the comments say, each
with the exact condition.

* A challenge is single-use exactly if no check takes more than one second from reading the clock to
  spending the nonce (`Challenges.SingleUseExactly`). The developer's device hook is awaited in between.
* `withdraw` never looks at the clock, so a sweep changes its answer exactly for an expired entry
  (`StoreRuns.WithdrawAgreesExactly`). No other method's answer depends on when the sweep runs.
* In the Redis store an outcome can be collected after `cancel`, exactly when a winning `resolve` had
  not pushed it yet (`RedisRuns.CollectableAfterCancelExactly`).
* In the Redis store a user's queue is one key with one time to live. A command keeps its own exactly
  when every later PEXPIRE before it ends finds the list alive and the last reaches as far
  (`RedisExpiry.LaterEnqueuesKeepExactly`). A requeue that finds no key, because the list expired
  or because the poll that is now aborted took all of it, makes one that never expires
  (`RedisExpiry.RequeuedNeverExpiresExactly`, `RedisExpiry.AbortedPollLosesExpiry`).
* The signature does not cover every field of a receipt: an own `__proto__` is lost when it is copied,
  or makes the receipt refused, so receipts that differ outside `sig` have different signing bytes
  exactly where they do not differ in that property alone (`Signing.SigningBytesExactly`,
  `Signing.SigningBytesExistExactly`, `Signing.ProtoIsNotSigned`).
* A user id with a lone surrogate is a valid subject that no challenge can be minted for
  (`TokenSizes.BridgeChallengeReadsUntilExpiry`).
* A watcher that is not to replay history replays it from the floor exactly when its read of the
  newest row failed and polling went on (`WatchFeed.SkipsHistoryExactly`).
* A malformed page is said never to loop for ever. A full one without a row above the cursor does, and
  is requested again without a pause (`Watch.RepeatsAtOnceExactly`, `Watch.StalePagesLoop`); Rust
  pauses for a millisecond there.
* The waits after errors are meant to double up to ten intervals. They do exactly when the doubled
  interval does not wrap round to something positive below the cap, or ten intervals themselves
  (`WatchStream.CappedExactly`, with `BackoffOverflows` for an interval at which they do not). The steps
  between retries likewise (`Retry.StepExactly`, `Retry.StepOverflows`).
* The event stream's comment says a finished run yields exactly one terminal event. If so, a stream
  that dropped after delivering something never notices that event (`EventStream.FinishedRunSeenExactly`).
* When the reconnects run out on a clean end, Go yields an error
  (`EventStream.CleanEndIsReportedExactly`). Rust, whose comment promises an error item too, just ends,
  exactly when nothing new is left in the budget's connections, all of which open, and the last ends
  cleanly (`RunEventStream.QuietExactly`, `RunEventStream.QuietEndHappens`).
* `checkInputs` looks required inputs up through the prototype, so one named like something every
  object inherits passes for given (`Inputs.RequiredArePresentExactly`, `Inputs.InheritedNamePasses`).
* A payload line that ends in CR loses it in the event-stream parser (`SseFrames.ReadsBackExactly`).

## Model

| member | source | states |
|---|---|---|
| StoreRuns.StoreRefinesIdeal | server-node/src/store.ts:180-193 | Over every run with a monotone clock the store answers as a store would whose entries vanish the instant they expire, sweeps and all, provided no `withdraw` meets an expired entry of its command. |
| StoreRuns.SweepsChangeNoAnswer | server-node/src/store.ts:180-193 | Adding or removing sweeps anywhere in a run changes no method's answer, with the same proviso. |
| StoreRuns.WithdrawAgreesExactly | server-node/src/store.ts:296-304 | `withdraw` answers the same before and after a sweep if and only if the entry it would find has not expired. |
| StoreOutcomes.OneWinner | server-node/src/store.ts:316-326 | In every run at most one `resolve` of a command id returns true. |
| StoreOutcomes.CollectedIsTheWinners | server-node/src/store.ts:237-242 | Whoever collects an outcome gets the one a winning `resolve` handed over before. |
| StoreOutcomes.OneCollector | server-node/src/store.ts:328-337 | At most one `awaitResult` of a command id ever returns an outcome. |
| StoreOutcomes.CancelIsFinal | server-node/src/store.ts:339-342 | After `cancel` no `resolve` of the command wins and no `awaitResult` returns anything. |
| StoreOutcomes.PinsAreFirstUsedAndApproved | server-node/src/store.ts:353-371 | Between two `forgetDevices` the pinned keys are exactly those pinned at first use and those approved. |
| StoreOutcomes.OneFirstPin | server-node/src/store.ts:353-361 | Of first receipts that race, only one pins its key. |
| StoreOutcomes.AcceptedSigners | server-node/src/store.ts:353-361 | A device check accepts a key if and only if it is the one first-pinned key or an approved one. |
| StoreAnswers.CollectsExactly | server-node/src/store.ts:237-242 | Over every run, an `awaitResult` pass answers an outcome if and only if a `resolve` that won handed over that outcome, no pass or `cancel` came since, and the time given at its `enqueue` is not over: none is lost. |
| StoreAnswers.ResolveExactly | server-node/src/store.ts:316-326 | `resolve` answers true if and only if the command was enqueued, not resolved or cancelled since, and is unexpired. |
| StoreAnswers.PendingExactly | server-node/src/store.ts:306-314 | `pending` answers what was enqueued, for as long as `resolve` would answer true. |
| StoreAnswers.PresenceExactly | server-node/src/store.ts:245-259 | `getPresence` answers what was last set for that user, if and only if its time to live is not over. |
| StoreAnswers.SpendExactly | server-node/src/store.ts:344-351 | `spendNonce` answers true if and only if every earlier spending of the nonce is over. |
| QueueAnswers.TakesFirstInFirstOut | server-node/src/store.ts:226-235 | Where nothing is requeued, `take` answers unexpired commands in the order they were enqueued, and leaves one out only if it was taken or withdrawn before, or the answer is full of older ones. |
| QueueAnswers.RequeuedComesFirst | server-node/src/store.ts:285-294 | What is requeued and still pending is taken next, in its order, ahead of everything else. |
| QueueAnswers.LiveIsWithdrawn | server-node/src/store.ts:296-304 | `withdraw` gets an unexpired command back unless it was taken or withdrawn before. |
| Challenges.SingleUseExactly | server-node/src/verify.ts:130-131 | In every run a challenge is accepted at most once, if and only if checks spend within 1000 ms of reading the clock; sweeps of spent nonces included. |
| Challenges.AcceptedOnce | server-node/src/verify.ts:115-131 | Two acceptances of one challenge cannot both occur when each spends within a second. |
| Challenges.AcceptedTwice | server-node/src/store.ts:344-351 | A run with a delay of 1001 ms in which one challenge is accepted twice. |
| Verify.AcceptedExactly | server-node/src/verify.ts:104-163 | `checkReceipt` accepts if and only if every one of its conditions on signature, key, challenge, subject, nonce, origin, device, single use, outcome, inputs or inputs hash, and data holds; inputs or data without a canonical form are refused. |
| Verify.AcceptedForOneThing | server-node/src/verify.ts:111-161 | Whatever the times, stores and policies, one receipt is accepted for one challenge, one key, one set of inputs and, if a success, one result. |
| Verify.SpentWhateverTheOutcome | server-node/src/verify.ts:98-103 | A genuine receipt spends its challenge whatever the verdict: until the record expires every receipt for it is refused. |
| VerifyAnswers.DeviceNamedExactly | server-node/src/verify.ts:104-129 | A refusal names a device to approve if and only if the receipt is genuine, answers the expected challenge in time, and its device may not sign. |
| VerifyAnswers.LeavesExactly | server-node/src/verify.ts:88-131 | A check leaves the store as it was, except that first use pins the device of a receipt that answers its challenge, and a device that may sign spends the unspent challenge until a second after it expires. |
| MemoryStores.MemoryStore.SweepIfDue | server-node/src/store.ts:180-193 | Sweeps only when due, to exactly the unexpired entries, and loses no wake-up. |
| MemoryStores.MemoryStore.GetPresence | server-node/src/store.ts:245-254 | Answers and changes the state as specified; the waits stay parked. |
| MemoryStores.MemoryStore.Enqueue | server-node/src/store.ts:261-269 | The state as specified; exactly the waits parked for this user's queue are woken. |
| MemoryStores.MemoryStore.TakeTurn | server-node/src/store.ts:271-283 | Takes the oldest live commands, gives up or parks; a wait parks only when the queue is empty. |
| MemoryStores.MemoryStore.TakeNow | server-node/src/store.ts:226-235 | The oldest live commands, at most `max`, are removed in order; nothing else changes. |
| MemoryStores.MemoryStore.Requeue | server-node/src/store.ts:285-294 | The commands still pending go back in front, in order, with the expiry of their pending entry, and only then wake the user's waits. |
| MemoryStores.MemoryStore.Withdraw | server-node/src/store.ts:296-304 | Removes the first entry of the command and says whether there was one. |
| MemoryStores.MemoryStore.Resolve | server-node/src/store.ts:316-326 | Wins if and only if the command is pending and unexpired, stores the outcome under the same expiry and wakes exactly its waits. |
| MemoryStores.MemoryStore.AwaitTurn | server-node/src/store.ts:328-337 | Collects as `StoreAnswers.CollectsExactly` says, gives up or parks; a wait parks only when there is no outcome. |
| MemoryStores.MemoryStore.PendingCommand | server-node/src/store.ts:306-314 | The pending command if it is alive; an expired one is forgotten. |
| MemoryStores.MemoryStore.Cancel | server-node/src/store.ts:339-342 | Neither pending nor outcome is left, and nothing else changes. |
| MemoryStores.MemoryStore.EndQueueWait | server-node/src/store.ts:203-224 | A wait that ends by its timer or signal leaves its set, and no other wait does. |
| MemoryStores.MemoryStore.EndResultWait | server-node/src/store.ts:203-224 | The same for a wait parked for an outcome. |
| MemoryStores.MemoryStore.Close | server-node/src/store.ts:373-378 | Every parked wait ends, each once. |
| MemoryStores.MemoryStore.SpendNonce | server-node/src/store.ts:344-351 | True exactly for a nonce without a live record, which it then gets. |
| MemoryStores.MemoryStore.CheckDevice | server-node/src/store.ts:353-361 | Known, pinned at first use, or unknown, pinning in the second case only. |
| MemoryStores.CheckReceiptNow | server-node/src/verify.ts:104-163 | The chain of guards against the store in place gives the specified verdict and live state, sweep or not. |
| MemoryStores.FoundAt | server-node/src/store.ts:299-301 | The linear search by command id finds the first entry, and splicing it out is removing it. |
| BridgeRuns.StepKeepsInv | server-node/src/bridge.ts:428-472 | Every step of callers, polls, posts, devices, sweeps and the clock keeps the whole protocol invariant: places, outcomes, and that no due command is lost. |
| BridgeRuns.OnePlacePerCommand | server-node/src/channel.ts:118-127 | In every reachable state a command is in at most one place, once, as sent, and only in its own user's queue and hands. |
| BridgeRuns.DueCommandIsInExactlyOnePlace | server-node/src/store.ts:271-304 | In every reachable state a command that is pending and that a poll answering now may hand out is in exactly one place: nothing loses it. |
| BridgeRuns.AwayWasNeverHanded | server-node/src/bridge.ts:461-465 | When a call answers away because it took its command back, no page was or will be handed it. |
| BridgeRuns.FallbackRunsOnce | server-node/src/bridge.ts:511-516 | A `recommended` call goes on to Writ Cloud only if no page is ever handed the command, or the user's page itself reported NOT_GRANTED without a receipt. |
| BridgeRuns.TimedOutIsNotHandedLater | server-node/src/channel.ts:121-127 | After TIMEOUT no poll hands the command out, not even when it was requeued late. |
| BridgeRuns.SuccessIsAttested | server-node/src/channel.ts:224-251 | A success reaches a caller only with a receipt some device signed earlier in the run, for this function, challenge, inputs and data. |
| BridgeDeliveries.SuccessSettlesExactly | server-node/src/channel.ts:224-246 | In every run, with any steps between, a winning success post settles its command as its own data and receipt if and only if the receipt stood at its check, the challenge was unspent at its spending, and the receipt names the call's inputs, success and this data. |
| BridgeDeliveries.FailureSettlesExactly | server-node/src/channel.ts:235-246 | A winning failure post with a receipt is handed on with it, as its own code, if and only if the receipt stood, unspent, for the call's inputs. |
| BridgeDeliveries.PostSettlesExactly | server-node/src/channel.ts:212-248 | Whatever a winning post with a receipt says, its command is settled as what it is worth when both hold, and as RESULT_UNVERIFIED otherwise. |
| BridgeDeliveries.CheckPassesExactly | server-node/src/verify.ts:104-129 | A post passes its check if and only if its receipt is genuine, for this function and unexpired challenge, by a device the policy lets sign; the refusal names the device if and only if that alone was wrong. |
| BridgeDeliveries.LookOpensExactly | server-node/src/channel.ts:218-222 | A result is looked at if and only if its command is pending and unexpired, for the very user who posts it. |
| BridgeDeliveries.BarePostsAreSettled | server-node/src/channel.ts:226-239 | A failure without a receipt is settled as the page says, a success without data or receipt as RESULT_UNVERIFIED. |
| BridgeDeliveries.CallerGetsTheOutcome | server-node/src/bridge.ts:459-472 | In every run a waiting caller's next pass answers the outcome that settled its command, as long as its entries last. |
| BridgeCalls.SentIsQueued | server-node/src/bridge.ts:434-457 | A call puts one command last in its user's queue, with its expiry and challenge expiry rounded up to seconds, and pending six seconds past its timeout. |
| BridgeCalls.WaitsExactly | server-node/src/bridge.ts:459-472 | A caller goes on waiting if and only if no outcome is there and 15 seconds, or five more than its timeout, are not over; which of the two ends it is exact. |
| BridgeCalls.TakesBackExactly | server-node/src/bridge.ts:461-465 | In every run a caller gets its command back if and only if it is still queued, and it is queued no more. |
| BridgeCalls.PollTakesExactly | server-node/src/store.ts:271-283 | In every run a poll takes the oldest unexpired commands of its user, sixteen at most, and skips none. |
| BridgeCalls.HandsOutExactly | server-node/src/channel.ts:121-127 | In every run an answering poll hands a command to its page if and only if the second of the answer began before `sentAt` plus timeout. |
| BridgeCalls.GivesUpExactly | server-node/src/bridge.ts:461-472 | A caller that gives up leaves nothing pending and no outcome, and falls back if and only if it had its command back. |
| BridgeDevices.SettledByAcceptedDevice | server-node/src/verify.ts:126-128 | Every success that reaches a caller, and every refusal with a receipt, came through an earlier device check for that command, after which its device was among the user's pins, or is one the registry allows. |
| BridgeDevices.SettledByPinnedDevice | server-node/src/verify.ts:88-97 | Under first-use pinning that device was approved, or pinned at first use, since its user was last forgotten. |
| BridgeDevices.PinsHaveOrigins | server-node/src/store.ts:353-371 | In every reachable state a pinned key was approved, or pinned at first use, with no forgetting since. |
| BridgeDevices.OneFirstPin | server-node/src/verify.ts:88-97 | Between two forgettings of a user the whole bridge pins one key at first use, whatever posts race. |
| BridgeCalls.PinsChangeExactly | server-node/src/store.ts:363-371 | Approving a device adds it to that user's pins, forgetting the user leaves none, and no other user's pins change. |
| BridgeRuns.ReceiptSettlesOne | server-node/src/verify.ts:115-131 | No receipt settles two commands. |
| BridgeRuns.OneEndPerCall | server-node/src/bridge.ts:459-472 | A call ends in one way for good, and its answer is the outcome of the one `resolve` that won. |
| BridgeRuns.OneExpiryPerCommand | server-node/src/store.ts:261-294 | The queue, pending and result entries of one command carry one expiry, the queueing time plus budget plus a second, in every reachable state. |
| BridgeRuns.PendingOutlivesTheWait | server-node/src/bridge.ts:456-466 | The stored entries last to the caller's deadline if and only if the wait starts within a second of the queueing. |
| BridgeRuns.ChallengeOutlivesTheWaitExactly | server-node/src/bridge.ts:436-439 | For all calls the challenge is unexpired to the caller's deadline, if and only if the wait starts within a second of `sentAt`. |
| RedisRuns.StepKeepsInv | server-node/src/redis-store.ts:204-226 | Between any two Redis commands an outcome is pending, in flight, stored or collected, in one of them only, and the winner's. |
| RedisRuns.OneWinner | server-node/src/redis-store.ts:204-211 | One DEL per command id removes the pending key, so one `resolve` wins. |
| RedisRuns.OneCollector | server-node/src/redis-store.ts:213-222 | One LPOP per command id gets an outcome, and it is the winner's. |
| RedisRuns.CollectableAfterCancelExactly | server-node/src/redis-store.ts:224-226 | After `cancel`'s DEL an outcome can still be collected if and only if a winner's RPUSH is outstanding. |
| RedisAnswers.WinsExactly | server-node/src/redis-store.ts:204-207 | A `resolve` wins if and only if the command was enqueued, and no `resolve`, `cancel` or expiry ended that since. |
| RedisAnswers.PopsExactly | server-node/src/redis-store.ts:213-222 | An LPOP gives an outcome if and only if a winner of the command pushed it and it was not popped, cancelled or expired since. |
| RedisExpiry.LaterEnqueuesKeepExactly | server-node/src/redis-store.ts:165-191 | Whatever enqueues and requeues follow, one Redis command at a time, a queued command nobody takes stays to a given moment if and only if every PEXPIRE before it finds the list alive and the last lets it live that long. |
| RedisExpiry.OwnTimeToLiveExactly | server-node/src/redis-store.ts:165-170 | From its own RPUSH on, a command keeps its time to live if and only if its PEXPIRE finds the list still alive and the later ones reach its expiry. |
| RedisExpiry.ShorterTakesEarlier | server-node/src/redis-store.ts:165-170 | A later command with a shorter time to live takes the earlier with it, and does not where a third is enqueued in time. |
| RedisExpiry.RequeuedNeverExpiresExactly | server-node/src/redis-store.ts:186-192 | A requeued command nobody takes never expires if and only if the requeue found no key, expired or emptied, or one without a time to live. |
| RedisExpiry.AbortedPollLosesExpiry | server-node/src/redis-store.ts:172-192 | The ordinary aborted poll that took the whole queue does this, at all times and with all times to live. |
| RedisExpiry.PushesKeepForEver | server-node/src/redis-store.ts:186-192 | ... and no later push changes it before the next PEXPIRE. |
| RedisQueues.StepConserves | server-node/src/redis-store.ts:165-197 | No Redis command and no answered or aborted poll loses or doubles a command: list, hands, handed, withdrawn and dropped together are always what was sent. |
| RedisQueues.ExactlyOnePlace | server-node/src/redis-store.ts:165-197 | In every reachable state each sent command is in exactly one of those places, once. |
| RedisQueues.WithdrawnIsNeverHanded | server-node/src/redis-store.ts:194-197 | When `withdraw`'s LREM removed a command, no page was or will be handed it. |
| RedisQueues.ExpiredIsNotHanded | server-node/src/channel.ts:126-127 | A poll hands out no expired command, also one put back after its caller timed out, which Redis does not refuse. |
| RedisQueues.ListIsInSentOrder | server-node/src/redis-store.ts:165-184 | In every run in which nothing is put back, the list holds commands in the order they were sent. |
| RedisQueues.AnswerHandsExactly | server-node/src/channel.ts:121-127 | An answering poll hands out exactly those of its commands that have not expired. |
| RedisQueues.PutBackUndoesPop | server-node/src/redis-store.ts:172-192 | A poll pops the front of the list, full unless the list is used up, and putting it back restores the list. |
| RedisQueues.RemovedExactly | server-node/src/redis-store.ts:194-197 | LREM takes out the first equal command and leaves the others in place. |
| RedisRuns.ScriptIsCheckDevice | server-node/src/redis-store.ts:67-71 | The first-use script is the in-memory check, for every set of pins. |
| JsonReader.RoundTrip | server-node/src/canonical.ts:39-89 | The reader recovers the value from its text followed by any tail that does not go on a number. |
| CanonicalForms.CanonicalExactly | server-node/src/canonical.ts:35-89 | Two values print alike if and only if they are equal up to key order and undefined properties. |
| CanonicalForms.PrintsExactly | server-node/src/canonical.ts:39-94 | The printer refuses exactly values with a non-JSON part, a hole in an array, a lone surrogate or more than 128 levels. |
| CanonicalForms.EmitText | server-node/src/canonical.ts:39-89 | The printer's loops over items and sorted keys compute `CanonicalJson.Emit`, whose key order `KeyOrder.LessByIndex` spells out. |
| KeyOrder.LessByIndex | server-node/src/canonical.ts:77-78 | Keys sort by the first UTF-16 code unit that differs, the smaller first, a text before its extensions. |
| KeyOrder.ObjectPrintsInOrder | server-node/src/canonical.ts:76-85 | An object prints as its defined properties between braces, with commas between, each key ahead of all greater ones. |
| TextForms.EscapesExactly | server-node/src/canonical.ts:92-96 | Every code unit prints as itself but the quote, the backslash and the control characters, each by its literal escape. |
| TextForms.NumbersExactly | server-node/src/canonical.ts:44-47 | A natural number prints as the one text of decimal digits without a leading zero that spells it. |
| Preimages.CanonicalIsPlain | server-node/src/canonical.ts:91-96 | Canonical JSON never holds a raw newline or a lone surrogate. |
| Signing.SigningBytesExactly | server-node/src/receipt.ts:119-125 | Two receipts have equal signing bytes if and only if they are equal outside `sig` and `__proto__`; so, where they have the same own `__proto__` or none, if and only if they are equal outside `sig`, and never otherwise. |
| Signing.SigningBytesExistExactly | server-node/src/receipt.ts:119-125 | A receipt with a canonical form has signing bytes if and only if its own `__proto__`, if any, is a primitive or null. |
| Signing.ProtoIsNotSigned | server-node/src/receipt.ts:66-68 | Adding an own `__proto__` with any number to any receipt that has signing bytes and no `__proto__` changes the receipt and no signing byte. |
| Signing.CopyHolds | server-node/src/receipt.ts:120-123 | Assigning the properties one by one stores all but `sig` and `__proto__`, in order, and changes the prototype to an object exactly when `__proto__` is one. |
| Preimages.PreimageBytesExactly | server-node/src/canonical.ts:111-113 | The bytes `inputsHash` hashes determine the inputs and the challenge's bytes, for any challenge text; its text too when well formed. |
| Preimages.PreimageExactly | server-node/src/canonical.ts:111-113 | The text hashed determines challenge and inputs; no challenge and an empty one coincide. |
| Preimages.InputsAreNotData | server-node/src/canonical.ts:111-121 | What is hashed for inputs is never what is hashed for data. |
| Signing.CopyUnsigned | server-node/src/receipt.ts:120-123 | The loop that copies all properties but `sig` leaves the properties and the prototype of the specified copy. |
| Base64Url.DecodeExactly | server-node/src/canonical.ts:140-144 | A text decodes to some bytes if and only if it is the one encoding of them. |
| Base64Url.EncodingReadsBack | server-node/src/canonical.ts:130-133 | Encoding stays in the alphabet, has a possible length, and reads back. |
| Base64Url.Base64UrlNoPad | rust/src/cloud.rs:2000-2018 | The shift-and-mask encoder writes the same text, for every byte string. |
| TextForms.GroupsExactly | server-node/src/canonical.ts:130-133 | The characters of a group carry, six apiece, the bits of its bytes and then zeros. |
| TextForms.AlphabetExactly | server-node/src/canonical.ts:127-133 | The alphabet is that of RFC 4648 section 5. |
| TextForms.UnitBytesExactly | server-node/src/canonical.ts:99-104 | One, two or three bytes: the lead tells how many, and their bits are those of the code unit. |
| TextForms.PairBytesExactly | server-node/src/canonical.ts:99-104 | Four bytes carry the bits of the surrogate pair's code point. |
| Utf8.RoundTrip | server-node/src/canonical.ts:99-104 | Well-formed text comes back from its UTF-8 bytes. |
| Utf8.ReadsBackExactly | server-node/src/canonical.ts:91-92 | Text comes back from its UTF-8 bytes if and only if it has no lone surrogate. |
| Tokens.OpensExactly | server-node/src/tokens.ts:54-72 | For any `JSON.parse`, a token opens if and only if it is at most 4096 characters and the signed form of some bytes that parse to an object. |
| Tokens.OpenInvertsSign | server-node/src/tokens.ts:45-72 | With a `JSON.parse` that reads canonical JSON, opening a signed payload gives the payload, for every payload whose token is within the length. |
| Tokens.OneTokenPerBody | server-node/src/tokens.ts:54-72 | For each signed body exactly one token text opens. |
| Tokens.SameTokenExactly | server-node/src/tokens.ts:45-48 | Two payloads have one token if and only if they mean the same. |
| Tokens.KindsNeverMix | server-node/src/tokens.ts:118-152 | What reads as a user token at any time never reads as a challenge at any time, and the reverse. |
| Tokens.MintedReadsExactly | server-node/src/tokens.ts:94-164 | A minted challenge reads back as minted if and only if subject, key, nonce and length are valid and it has not expired. |
| Tokens.MintedUserReadsExactly | server-node/src/tokens.ts:88-130 | The same for user tokens. |
| Tokens.MintIsInjective | server-node/src/tokens.ts:94-107 | Challenges with different fields are different texts. |
| TextForms.ChallengeSays | server-node/src/tokens.ts:94-107 | A challenge's payload has the literal fields v, typ, sub, key, nonce and exp, each with its own value, and no other. |
| TextForms.UserTokenSays | server-node/src/tokens.ts:88-91 | The same for user tokens. |
| TextForms.ChallengeReadsExactly | server-node/src/tokens.ts:132-164 | What opens reads as a challenge if and only if it has those literal fields, a valid subject, function and nonce, and has not expired. |
| TextForms.UserReadsExactly | server-node/src/tokens.ts:109-130 | The same for user tokens. |
| TokenSizes.BridgeChallengeReadsUntilExpiry | server-node/src/bridge.ts:435-439 | The challenge of a command is minted if and only if its user id has no lone surrogate; it is then at most 2048 characters and reads back at exactly the moments before its expiry. |
| Inputs.AcceptedMeansGiven | server-node/src/contract.ts:344-364 | Accepted inputs are sent as a copy that means what was given, hashes alike for every challenge, and has only declared names. |
| Inputs.CopyPrintsTheSame | server-node/src/json.ts:46-115 | The plain-JSON copy of a value prints if and only if the value does, and the same text. |
| Inputs.RequiredArePresentExactly | server-node/src/contract.ts:357-358 | Inputs found complete have every required one in the copy if and only if no required input that was not given has an inherited name. |
| Inputs.CheckInputs | server-node/src/contract.ts:344-364 | The loops give the verdict of `Inputs.Check`, which `InputAnswers.CheckExactly` spells out. |
| InputAnswers.CheckExactly | server-node/src/contract.ts:344-364 | For every declaration and object, each verdict if and only if: the first property that is no input's, else all absent required inputs in the order declared, else not JSON, else too large, else accepted. |
| InputAnswers.ObjectsExactly | server-node/src/contract.ts:345-347 | Whatever is neither a plain object nor nothing is refused as such, and only that. |
| InputAnswers.CopiesExactly | server-node/src/json.ts:46-115 | A value is copied if and only if it holds nothing but JSON, undefined properties apart, in at most 128 levels. |
| Contract.ValidateKeys | server-node/src/contract.ts:173-203 | Accepts if and only if the keys are non-empty, well formed in every segment, unique, and none is a namespace of another. |
| Contract.CheckKey | server-node/src/contract.ts:192-203 | Accepts a key if and only if it matches the pattern and no segment is empty or reserved. |
| Contract.AddMethod | server-node/src/contract.ts:428-441 | Filling in one key changes only nodes of the tree, and the tree then holds that method besides the others. |
| Contract.CheckNamespaces | server-node/src/contract.ts:325-338 | Accepts if and only if no key's segments begin another's, else names such a pair. |
| Contract.BuildTree | server-node/src/contract.ts:423-444 | The nodes filled in place form a tree that holds exactly the keys' methods. |
| Contract.WalkExactly | server-node/src/contract.ts:423-444 | A walk meets a method exactly at a key, a namespace exactly at what begins a key, and nothing elsewhere. |
| Contract.MethodsAreKeys | server-node/src/contract.ts:423-444 | Every key's segments lead to that key's method, and only keys' segments lead to a method. |
| Contract.OrderDoesNotMatter | server-node/src/contract.ts:423-444 | Trees built from the same keys in any orders meet the same on every walk. |
| Contract.TreesArePrefixFree | server-node/src/contract.ts:324-338 | No tree holds two methods of which one would be a namespace of the other, so the check is needed. |
| TextForms.KeysExactly | server-node/src/constants.ts:12 | A key matches if and only if it is 1 to 64 of the literal characters, the first a small letter or digit. |
| Watch.WatchChanges | go/watch.go:114-189 | The loop's deliveries, cursor and pauses are those of the specified run, start included. |
| Watch.WatchersClimb | go/watch.go:114-175 | However a watcher starts, and against any server, the keys it delivers are strictly increasing and above its start, and its cursor is the last of them. |
| Watch.Deliver | go/watch.go:162-175 | The inner loop delivers the rows `Watch.Kept` keeps, which `WatchAnswers.LeadsAreDelivered` spells out. |
| WatchAnswers.LeadsAreDelivered | go/watch.go:162-175 | Of any page exactly those rows are delivered, in order, whose stamp is later, or equal with a larger id, than the cursor's and every earlier row's. |
| WatchAnswers.RequestExactly | go/watch.go:143-187 | While a watcher goes on, a failed request hands out its error and moves nothing, a page hands out the rows that lead and moves the cursor to the last; the next request waits unless the page was full. |
| WatchAnswers.StopsExactly | go/watch.go:149-151 | A watcher has stopped if and only if some request got an error its caller does not go on from. |
| WatchAnswers.FailuresAreInARow | go/watch.go:152-160 | The count that sets the wait after an error is of the failures since the last page. |
| WatchAnswers.MissesNothing | go/watch.go:114-187 | After a short page a watcher has handed out every row later than the place asked for: the given cursor, the newest row at the start, or 1970. |
| Watch.RestartContinues | go/watch.go:25-28 | Stopping and starting again at the last delivered key delivers, together, what one watcher would. |
| Watch.RepeatsAtOnceExactly | go/watch.go:163-183 | The loop makes the same request again without a pause if and only if a page was full and had no row above the cursor. |
| Watch.StalePagesLoop | go/watch.go:163-183 | A server that keeps answering so is asked for ever, without a pause and to no effect. |
| WatchFeed.RunCatches | go/watch.go:114-189 | Against a growing keyset feed every current row above the start that the cursor has passed was delivered at its current key, and nothing else was. |
| WatchFeed.ShortPageIsComplete | go/watch.go:177-187 | After a short page every row in the feed at that request above the start has been delivered at its current key. |
| WatchFeed.Drains | go/watch.go:177-184 | On a quiet feed k requests deliver exactly the first k pages' worth of rows above the cursor, in order. |
| WatchFeed.FullPagesExactly | go/watch.go:177-187 | On a quiet feed with a backlog of R rows the loop makes exactly R / PageSize requests that it follows by the next at once, and then one before it sleeps. |
| WatchFeed.SkipsHistoryExactly | go/watch.go:119-141 | A fresh watcher opens past all recorded rows if and only if its head read succeeded or no row is above the floor. |
| WatchStream.Stream.Turn | rust/src/watch.rs:129-219 | One turn of the stream's loop on its fields changed in place is the specified step and hands out the specified item. |
| WatchStream.SamePicksExactly | rust/src/watch.rs:181-193 | The stream picks from a page what the Go loop picks if and only if the rows it picks are in order. |
| WatchStream.StreamIsLoop | rust/src/watch.rs:129-219 | On sorted pages, at every moment the Go loop after as many requests has delivered what the stream handed out plus its buffer. |
| WatchStream.StreamFailuresAreInARow | rust/src/watch.rs:181-219 | The stream's count that sets the wait after an error is of the failures since the last page. |
| WatchStream.KeysetPagesAreSorted | rust/src/watch.rs:172-193 | A keyset feed's pages are sorted, so the two agree on every keyset feed. |
| WatchStream.CappedExactly | go/watch.go:200-209 | For every interval and number of failures: when the wait is the smaller of interval * 2^min(n-1, 10) and ten intervals, if and only if, in terms of whether and to what the two products wrap round. |
| WatchStream.SaturatesExactly | rust/src/watch.rs:72-78 | Rust waits that if and only if it fits in a duration. |
| WatchStream.BackoffIsCapped | go/watch.go:200-209 | So for intervals up to 2^54 ns both wait that. |
| WatchStream.BackoffOverflows | go/watch.go:200-209 | One nanosecond above that, the eleventh failure waits 1024 ns, far below the cap. |
| WatchStream.BackoffRecovers | go/watch.go:200-209 | At 3 * 2^53 ns, above both, the wait is as it should be for all failures. |
| Sse.SseParser.Feed | rust/src/sse.rs:31-41 | Feeding a chunk leaves the specified buffer, data lines and payloads. |
| Sse.ChunksDoNotMatter | rust/src/sse.rs:31-60 | However a stream is cut into chunks the payloads and the final state are those of feeding it whole. |
| Sse.CutYieldsPrefix | rust/src/sse.rs:31-60 | A stream cut at any byte yields a prefix of its payloads. |
| SseFrames.ReadsBackExactly | rust/src/sse.rs:43-60 | Rendered payloads, with any comments and other fields between their lines, parse back if and only if no payload line ends in CR; nothing stays pending. |
| SseFields.DataExactly | rust/src/sse.rs:49-58 | A line adds a data line with a value if and only if it is `data: value`, `data:value` where that starts with no space, or `data` alone with none; other lines add nothing. |
| SseFields.BlankExactly | rust/src/sse.rs:42-48 | A blank line hands out the data lines before it, with line feeds between, if there are any. |
| SseFrames.CutWire | rust/src/sse.rs:31-60 | A rendered stream cut at any byte yields a prefix of the payloads. |
| EventStream.Events | go/runs.go:82-147 | The loop hands out the events and the error of the specified session and opens as many connections. |
| EventStream.Read | go/runs.go:106-121 | Of one connection exactly the frames after those delivered are handed out, up to a terminal one. |
| EventStream.StreamIsPrefix | go/runs.go:82-147 | Over an append-only log replayed and cut anywhere, the caller gets a prefix with nothing after a terminal event, at most budget + 1 connections are opened, and an error comes exactly if no terminal event did. |
| EventStream.EndsWellExactly | go/runs.go:82-147 | The stream ends without an error if and only if a connection within the budget shows a terminal event and none before it was refused; then everything up to it is delivered. |
| EventStream.CleanEndIsReportedExactly | go/runs.go:128-140 | The stream ends with its own error if and only if every connection in the budget opens, none shows a terminal event, and the last ends cleanly. |
| EventStream.GivenErrorExactly | go/runs.go:96-140 | An error handed on is the refusal of the last connection opened, or its fault when no reconnect is left. |
| EventStream.GoingExactly | go/runs.go:106-120 | While the stream goes on the caller has exactly as much of the log as the best connection showed. |
| EventStream.FinishedRunSeenExactly | go/runs.go:72-80 | A lone terminal event on later connections is noticed if and only if nothing had been delivered before. |
| RunEventStream.RunEvents.Next | rust/src/resources.rs:482-535 | Every item handed out is the log's next event and after a terminal event there is none; whether an event, an error and which, or a quiet end comes is exactly what the connections left in the budget decide. |
| RunEventStream.QuietExactly | rust/src/resources.rs:517-534 | The stream ends without terminal event and without error if and only if nothing not handed out is left in this connection and those the budget allows, all of them open, and the last ends cleanly. |
| RunEventStream.EndsExactly | rust/src/resources.rs:510-534 | The stream ends with a given error if and only if nothing new is shown up to a connection that is the last of the budget, or before a refused one, and the error is that connection's fault, else the refusal. |
| RunEventStream.QuietEndHappens | rust/src/resources.rs:530-533 | It happens, whatever the budget and the bytes: a server that shows the same frames on each connection and ends it cleanly. |
| RunEventStream.RunEvents.Pop | rust/src/resources.rs:484-492 | The first queued event is handed out; a terminal one ends the stream and empties the queue. |
| RunEventStream.RunEvents.ReadChunk | rust/src/resources.rs:496-508 | A chunk, cut anywhere, queues exactly the events after those delivered. |
| RunEventStream.RunEvents.Reconnect | rust/src/resources.rs:565-583 | A reopened stream replays from the start with a fresh parser, within the budget, and repeats nothing. |
| Retry.DoWithRetry | go/retry.go:162-233 | The loop's answer, sends, waits and effects are those of `Retry.From`, which `RetryAnswers.CallExactly` spells out. |
| RetryAnswers.CallExactly | go/retry.go:176-232 | Every call: it is sent again exactly after a lost reply not cancelled, or a reply with status 408, 425, 429, 500, 502, 503 or 504 and no Retry-After above the cap, while attempts are left and the caller waits; each wait is the Retry-After if there is one; the first attempt not followed by another decides the result. |
| RetryAnswers.AnswersExactly | go/retry.go:187-222 | A reply answered though worth another try comes only from the last attempt allowed, and every reply before the answered one was worth it. |
| RetryAnswers.SteadyReplies | go/retry.go:187-222 | A server that gives one reply for ever is asked as often as allowed if the reply is worth another try, and once otherwise. |
| RetryAnswers.CloudCallAllowed | go/cloud.go:545-549 | A cloud call is sent as often as its policy says, but an unsafe one once if it has no key or is not opted in. |
| Retry.SendsAtMost | go/retry.go:169-175 | A call is sent at most max(1, MaxAttempts) times, and at most once when unsafe and not opted in. |
| Retry.AnswerIsLastReply | go/retry.go:179-205 | The response returned is the reply to the last request sent. |
| Retry.KeyedOnce | go/retry.go:236-238 | Against a server that replays per key, a call with a fresh key takes effect exactly once if any send was executed, else not at all, whatever replies are lost. |
| Retry.CloudCallOnce | go/cloud.go:508-551 | Every unsafe cloud call takes effect at most once, also when no key could be minted. |
| Retry.GuardIsNeeded | go/cloud.go:545-549 | Without that guard a lost reply makes a keyless unsafe call take effect twice. |
| Retry.BackoffExactly | go/retry.go:97-111 | Every draw gives a wait in [d/2, 3d/2) if and only if d/2 + d - 1 fits in 64 bits. |
| Retry.StepExactly | go/retry.go:106-109 | For all base delays, d is base * 2^min(n-1, 20) capped at MaxDelay if and only if that product fits in 64 bits, or wraps round to nothing or less, or to the cap or more. |
| Retry.StepDoubles | go/retry.go:106-109 | So for base delays up to 2^44 ns it always is. |
| Retry.StepOverflows | go/retry.go:106-109 | One nanosecond above that, the twenty-first step is 2^20 ns. |
| Retry.SleepIsBounded | go/retry.go:207-231 | Total sleep is at most (attempts - 1) times the longest jittered step or honoured Retry-After. |

## Left out

- Cryptography: Ed25519, SHA-256 and HMAC are symbolic or any function; what is proved is that distinct meanings are distinct bytes.
- Numbers in canonical JSON other than integers a double carries exactly; ECMAScript number printing and bigints are not modelled, and a text with such a number does not read.
- How `JSON.parse` reads texts the printer never writes: it is any function that reads what `JsonReader` reads.
- Cycles and shared subobjects in values being printed or copied: values are trees.
- MemoryStores.CheckReceiptNow: the awaits between its device check and its spending are taken as uninterrupted; `Bridge` cuts the check at each of them.
- Prototypes of objects given to the printers: they are those `JSON.parse` and literals give; only the copy that is signed changes its own.
- The receipt's field-by-field shape checks and the key-id derivation; a receipt is its signed fields and its signature.
- Presence in `Bridge`: `routeFor`, `waitForUser` and `hello` decide whether a call is sent at all; calls in the model may be sent at any time, which includes theirs.
- The in-flight counter of `run`, request parsing, HTTP status codes and error texts.
- Several caller-side waits for one command: each call waits for its own id.
- Result posts and callers over the Redis store as one system with its queues: `Bridge` runs over the in-memory store, `RedisRuns` and `RedisQueues` cover the keys of one command and of one user each. A requeued command's JSON text is taken to be the one first queued.
- Redis publish and subscribe: waits there are also bounded by polling.
- `checkInputs`' size limit: the size of the JSON text is a parameter.
- Freezing of the contract and of the tree, and the rest of `validateContract` (packages, settings, modes).
- Breaking out of a watcher or event stream, and cancelling its context: the caller then has a prefix of what the model delivers.
- Contents of feed rows and how Retry-After is parsed: rows are their keys, a header is a duration.
- `cloud.ts` polling, run tokens, webhooks, adapters, pagination helpers and the REST wrappers.
