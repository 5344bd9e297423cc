# Aegis Vault: verified model

Aegis Vault controls what autonomous agents may spend and sign. It is a set of small stateful
protocols, and what it promises is about whole runs: money spent, nonces issued, messages accepted,
audit records kept, policy changes delivered. This project models those protocols in Dafny and proves
the promises for every input, every run and every interleaving. Where the code does not meet an
obvious promise, the project states exactly when it does.

Check it with `dafny verify dfyconfig.toml`.

## How it is organised

| module | what it models |
|---|---|
| `SmartAccount`, `SmartAccountRuns` | the smart-account engine: sessions, nonces, spend window, brakes |
| `SmartAccountSuspended`, `SmartAccountWindow` | what calls suspended at their signature check may break, and how far the window stretches |
| `SmartAccountControls` | what registration, revocation, reduction and the brakes do to every run after them |
| `SpendLedger`, `SpendLedgerRuns` | the payment guardrail's reservations and interleaved evaluations |
| `SharedStore`, `NonceSequencer`, `RelayLoop` | versioned rows, nonces issued by many instances, the bounded broadcast loop |
| `MessageEnvelope`, `ReplayProtection` | signed envelopes, and acceptance at most once although records are purged |
| `RemoteSigning`, `RemoteSigningRuns` | client and Keeper over a hostile network |
| `JsonText`, `JsonReader`, `CanonicalJson` | JSON text is uniquely readable and reads back, and the canonical serialiser is injective up to what it drops |
| `AuditChain`, `AuditAnchors`, `AuditWriter` | the hash chain: two verifiers, anchors, and the writer with rotation and restart |
| `SpendPolicy`, `SessionKeys` | the spend decision under merged policies, session narrowing |
| `PolicyTimelock`, `PolicyTimelockRuns` | delayed policy changes over a store that may fail, with crashes |
| `Positional`, `Base58Text`, `IntentDigest` | positional loops and round trips, the signed preimage |
| `Common` | option and result types |

Objects that the program updates in place are classes, and each of their methods is proved equal to a
function from the old state to the new one. Runs and invariants are about those functions. Clock
readings, randomness, store failures, the network and what a chain answers are inputs. A signature or
keccak check is a bit or an arbitrary function. The audit hash and keccak are arbitrary functions. No
hash to 64 hexadecimal digits is injective, so what injectivity would give is proved with the one
exception it needs: two records or texts of the very case at hand, named by the theorem, that differ
and hash alike. The message code of remote signing is ideal: only a text that an honest party
authenticated passes.

## What the code does not promise

These are results about the code as it is. Each has a lemma and, where the promise can hold, the
condition under which it does.

- The account policy's `maxPerTx` is validated but never consulted
  (`SmartAccount.AccountPerTxIsUnused`).
- The account window tumbles: it restarts at a call. The bound over any one window length is twice
  `maxDaily`, which is reached under every limited policy (`TwiceIsReached`, `OnceBoundsExactly`).
- The comment in `executeFromAgent` calls preview free of side effects; it rolls the window exactly when
  it gets that far after the window has passed (`PreviewChangesExactly`, `PreviewCanRoll`).
- A call resumed after the signature check is checked again for its signature, amount, expiry and the
  ceilings, not for freezing, pausing, revocation or its nonce (`ResumedExactly`,
  `ResumeIgnoresBrakes`). Nonces are used once, and revocation holds, exactly in the runs whose resumed
  calls still meet those checks (`SingleUseExactly`, `RevocationExactly`, `SuspendedCallsShareNonce`);
  expiry holds in every run (`CommitsPrecedeExpiry`).
- Merging a bound policy with a request never loosens the bound exactly for the bounds `SafeBound` describes
  (`MergeTightensExactly`). A bound with thresholds out of order or a `limit` without a ceiling is loosened
  (`SafeBoundPlainly`). So may be one with a JSON number past the safe range: the spend check reads the
  number, the merge its text, which may be rounded up or have an exponent and then count as absent
  (`RoundedThresholdLoosens`, `LargeNumberLoosens`).
- The reservation ledger also reads `maxDaily` by its text. The day stays within that reading, which is the
  policy's own ceiling where it is no larger (`DailyCeiling`, `DailyCeilingPlainly`).
- `takeoverGuard` is documented to return true only if control is unchanged or tightened. It also passes
  ceilings that go from none to some, which turns a policy that denies everything into one that
  does not, and it orders negative ceilings the other way round from the spend check (`GuardExactly`).
- A negative limit passes as narrower in `narrowSession` but enforces nothing (`NarrowingExactly`).
- A policy change whose removal could not be written is back after a restart, but is lost without a report
  if another write succeeds first (`LossExactly`, `NothingLostExactly`).
- `purgeExpired` takes no prefix: a replay store that purges a shared backend also removes old rows of
  other users, such as a nonce counter (`ForeignRowsGoToo`). What is issued next is safe exactly when its
  start is not below the purged counter (`PurgeIsSafeExactly`, `PurgeReissues`), and all that is issued
  later, by any number of instances, exactly when issuing begins no lower (`RunAfterPurgeExactly`).
- The comment on `retentionMs` says a retention of one freshness window suffices. It takes two, since messages
  may be dated ahead (`AcceptedOnce`, `ShorterRetentionFails`).
- The signed text of a message joins its fields by line breaks and does not tell a string from a value with
  that JSON text. Another message has the same text exactly when there is a break in the sender, target,
  payload or nonce, or the payload is a value or the JSON text of one (`SharesTextExactly`).
- An audit entry with an undefined member is hashed with `null` there but written without the member, so the
  collector reports the log as tampered (`WriteKeepsIntactExactly`). An entry's own `timestamp` replaces the
  clock's (`RecordHolds`).
- A payment that fails gives its reservation back only if no expired entry of the same amount stands in front
  of it (`FailFreesExactly`).
- When volume `.1` is deleted, anchors within reach are compared with later records and fail, at the first
  deletion and every later one (`DeletionShifts`).
- The Keeper remembers a nonce from admission. Each moment that approval takes brings a second signature
  under the nonce as much nearer, down to the same moment (`SignedApartInTime`, `SlowApprovalSignsTwice`).
- Base58 gives a buffer of n zero bytes back as n + 1 of them (`DecodeEncodeZeros`, `DecodeEncode`).

## Model

| member | source | states |
|---|---|---|
| `SmartAccount.NormalizeIdempotent` | packages/chain-eth/src/smart-account.js:146-149 | normalising an action name twice changes nothing, so a denied action cannot hide behind its own normal form |
| `SmartAccount.NormalFormExactly` | packages/chain-eth/src/smart-account.js:146-149 | a normal form has no separator and no capital letter, and exactly such names stay as they are |
| `SmartAccount.SeparatorIgnored` | packages/chain-eth/src/smart-account.js:146-149 | a separator anywhere in a name makes no difference |
| `SmartAccount.CharacterKept` | packages/chain-eth/src/smart-account.js:146-149 | any other character stays, in lower case, between the normal forms of what is around it |
| `SmartAccount.Separators` | packages/chain-eth/src/smart-account.js:146-149 | spaces, underscores and hyphens are separators; letters and digits are not |
| `SmartAccount.AdmittedExactly` | packages/chain-eth/src/smart-account.js:476-560 | the checks before the signature pass exactly when account, session and signed payload agree in every respect, whatever the order |
| `SmartAccount.BoundExactly` | packages/chain-eth/src/smart-account.js:569-630 | the amount is bound exactly when the claimed one is the signed one under a valid signature |
| `SmartAccount.ExecutedExactly` | packages/chain-eth/src/smart-account.js:473-700 | a call moves money exactly when everything agrees, the amount is bound and every ceiling leaves room; it moves the signed amount under the signed nonce |
| `SmartAccount.RefusalIsTrue` | packages/chain-eth/src/smart-account.js:473-663 | the reason of a refusal is true of the call, for every reason there is |
| `SmartAccount.BeginFinishIsExecute` | packages/chain-eth/src/smart-account.js:473-700 | a call suspended and resumed at once does what an uninterrupted call does |
| `SmartAccount.ResumedExactly` | packages/chain-eth/src/smart-account.js:618-681 | a resumed call moves money exactly when the amount is bound, the signature has not outlived the session and the ceilings leave room |
| `SmartAccount.SuspendedExactly` | packages/chain-eth/src/smart-account.js:473-560 | a call is suspended exactly when it is admitted and its session has no address, with the nonce and the clock it read |
| `SmartAccount.PreviewChangesExactly` | packages/chain-eth/src/smart-account.js:640-673 | a preview changes the account exactly when it reaches the account ceiling after the window has passed, and then only rolls it |
| `SmartAccount.AccountPerTxIsUnused` | packages/chain-eth/src/smart-account.js:632-660 | changing the account policy's per-transaction ceiling changes no call, preview, or part of a suspended call |
| `SmartAccount.MaxLossExactly` | packages/chain-eth/src/smart-account.js:254-307 | the maximum loss is reported exactly for active, unexpired sessions, and while the window lasts it is the largest amount the daily ceilings leave room for |
| `SmartAccount.Engine.constructor` | packages/chain-eth/src/smart-account.js:205-218 | a new account has no sessions, nothing spent and no brake on |
| `SmartAccount.Engine.RegisterSession` | packages/chain-eth/src/smart-account.js:332-370 | the whole new account state and answer of a registration, owner and ceilings checked |
| `SmartAccount.Engine.RevokeSession` | packages/chain-eth/src/smart-account.js:377-385 | owner or emergency key deactivates the session and nothing else changes |
| `SmartAccount.Engine.SetSwitch` | packages/chain-eth/src/smart-account.js:387-415 | the emergency key can only brake, the owner releases |
| `SmartAccount.Engine.EmergencyReduceLimit` | packages/chain-eth/src/smart-account.js:421-451 | ceilings only fall; a bad daily ceiling leaves the per-transaction one reduced |
| `SmartAccount.Engine.RollWindow` | packages/chain-eth/src/smart-account.js:705-711 | the window restarts, empty, exactly when its length has passed |
| `SmartAccount.Engine.SettleCall` | packages/chain-eth/src/smart-account.js:632-681 | ceilings, window roll, preview return and commit in this order |
| `SmartAccount.Engine.ExecuteFromAgent` | packages/chain-eth/src/smart-account.js:473-700 | an uninterrupted call or preview is the specified transition of the account |
| `SmartAccount.Engine.BeginExecute` | packages/chain-eth/src/smart-account.js:473-560 | nothing is written before the signature check is awaited |
| `SmartAccount.Engine.FinishExecute` | packages/chain-eth/src/smart-account.js:618-681 | what a resumed call does to the account as it is by then |
| `SmartAccountRuns.Classify` | packages/chain-eth/src/smart-account.js:332-711 | every event is silent, a registration or a commit; a commit meets every ceiling, an uninterrupted one also a live session and a new nonce |
| `SmartAccountRuns.LifetimeSpend` | packages/chain-eth/src/smart-account.js:421-451 | in every run, suspended calls and half-failed reductions included, a session's spent is the sum of its commits, at most the daily ceiling it was registered with, and each commit within the per-transaction ceiling in force |
| `SmartAccountRuns.NoncesSingleUse` | packages/chain-eth/src/smart-account.js:533-560 | with uninterrupted calls, whatever the clock, a session's committed nonces strictly increase and every commit precedes expiry |
| `SmartAccountRuns.RevokedStaysQuiet` | packages/chain-eth/src/smart-account.js:377-385 | with uninterrupted calls, whatever the clock, a revoked session makes no commit more |
| `SmartAccountRuns.WindowCeiling` | packages/chain-eth/src/smart-account.js:640-677 | in every run, suspended calls and clocks that run back included, commits of one window total at most maxDaily |
| `SmartAccountRuns.SpendCeilings` | packages/chain-eth/src/smart-account.js:640-677 | with uninterrupted calls, commits within any span of one window length total at most twice maxDaily, previews and refusals rolling the window included |
| `SmartAccountRuns.MaxLossBounds` | packages/chain-eth/src/smart-account.js:254-307 | the reported maximum loss, clamped at zero, bounds what the session still commits in the current window, whatever else happens |
| `SmartAccountControls.SwitchAcceptedExactly` | packages/chain-eth/src/smart-account.js:388-415 | the emergency key freezes, it or the owner pauses, and only the owner resumes and unfreezes |
| `SmartAccountControls.FlagsExactly` | packages/chain-eth/src/smart-account.js:388-415 | no event but those by those callers sets or clears either flag |
| `SmartAccountControls.BrakesStandExactly` | packages/chain-eth/src/smart-account.js:388-415 | over every run the account is frozen, or paused, exactly when it was braked and the owner has not released it since |
| `SmartAccountControls.BrakeHolds` | packages/chain-eth/src/smart-account.js:388-478 | from a brake until a release no uninterrupted call of any session commits and none is begun; at most the calls then suspended still commit |
| `SmartAccountControls.BrakeBrakes` | packages/chain-eth/src/smart-account.js:388-478 | after an accepted freeze or pause, until a release, nothing commits and every execution, preview and begin is refused |
| `SmartAccountControls.ReleaseRestores` | packages/chain-eth/src/smart-account.js:388-415 | braking and releasing leaves the account as it was, so admissible calls pass again |
| `SmartAccountControls.RegisteredExactly` | packages/chain-eth/src/smart-account.js:332-370 | the owner registers exactly complete sessions under new names; the session holds what was asked, is active and has spent nothing |
| `SmartAccountControls.IdentityKept` | packages/chain-eth/src/smart-account.js:345-369 | over every run a session keeps its agent, keys, dates and lists |
| `SmartAccountControls.ActiveExactly` | packages/chain-eth/src/smart-account.js:377-385 | a session stops being active exactly when the owner or the emergency key revokes it, and never starts again |
| `SmartAccountControls.RevocationLasts` | packages/chain-eth/src/smart-account.js:377-385 | after an accepted revocation the session makes no commit in any run of uninterrupted calls |
| `SmartAccountControls.ReducedExactly` | packages/chain-eth/src/smart-account.js:421-451 | the emergency key reduces exactly to ceilings that are no higher; one out of line leaves itself and those after it alone, and nothing else changes |
| `SmartAccountControls.ReductionLasts` | packages/chain-eth/src/smart-account.js:421-451 | after an accepted reduction every later commit of the session, suspended calls included, is within the new transaction ceiling, and it spends no more unless its total stays within the new daily one |
| `SmartAccountControls.ExecutionsCount` | packages/chain-eth/src/smart-account.js:674-678 | over every run the execution counter is the number of commits |
| `SmartAccountControls.UnlimitedCountsNothing` | packages/chain-eth/src/smart-account.js:676 | without an account ceiling nothing counts towards the window, in any run |
| `SmartAccountSuspended.ResumeIgnoresBrakes` | packages/chain-eth/src/smart-account.js:618-681 | a resumed call's answer does not depend on freeze, pause, revocation or the last nonce |
| `SmartAccountSuspended.SingleUseExactly` | packages/chain-eth/src/smart-account.js:533-560 | over every run, each session's nonces strictly increase exactly when every resumed call that commits does so over a smaller last nonce |
| `SmartAccountSuspended.RevocationExactly` | packages/chain-eth/src/smart-account.js:377-385 | over every run, a revoked session commits nothing more exactly when every resumed call that commits does so on an active session |
| `SmartAccountSuspended.CommitsPrecedeExpiry` | packages/agent-sdk/src/verifier.js:111-161 | in every run, suspended calls included, a commit is started and made before its session expires |
| `SmartAccountSuspended.SuspendedCallsShareNonce` | packages/chain-eth/src/smart-account.js:618-681 | two calls suspended under one nonce both commit it, under any policy, given room for both |
| `SmartAccountWindow.TwiceIsReached` | packages/chain-eth/src/smart-account.js:640-711 | under every limited policy uninterrupted calls can commit twice maxDaily within one window length |
| `SmartAccountWindow.OnceBoundsExactly` | packages/chain-eth/src/smart-account.js:640-711 | spans of one window length stay within maxDaily in all runs exactly when maxDaily is zero |
| `SmartAccountWindow.PreviewCanRoll` | packages/chain-eth/src/smart-account.js:640-673 | under every limited policy an admissible preview one window length after a commit rolls the window |
| `SpendLedger.FirstOf` | packages/guardrail-x402/src/index.js:84-91 | the first reservation of an amount, and that none before it has that amount |
| `SpendLedger.LiveExactly` | packages/guardrail-x402/src/index.js:52-60 | pruning keeps each entry that has not expired as often as it was there, and no other |
| `SpendLedger.LiveConcat` | packages/guardrail-x402/src/index.js:52-60 | pruning keeps the order |
| `SpendLedger.ReservedExactly` | packages/guardrail-x402/src/index.js:68-83 | an amount is reserved exactly when it fits a positive maximum beside what is spent and held, and then that much more is held |
| `SpendLedger.ReservedEntries` | packages/guardrail-x402/src/index.js:68-83 | what is held then is every unexpired entry and the new one, dated by the time to live |
| `SpendLedger.ReleasedExactly` | packages/guardrail-x402/src/index.js:84-91 | a release takes out the one entry of the amount that stands in front of the others |
| `SpendLedger.Ledger.Prune` | packages/guardrail-x402/src/index.js:52-60 | exactly the unexpired reservations remain, in order, and no other agent's list changes |
| `SpendLedger.Ledger.Pending` | packages/guardrail-x402/src/index.js:63-65 | the held amount is the sum of the unexpired reservations |
| `SpendLedger.Ledger.ReserveFor` | packages/guardrail-x402/src/index.js:68-83 | reserves exactly when base, held and amount fit under a positive maximum; prunes either way |
| `SpendLedger.Ledger.ReleaseFor` | packages/guardrail-x402/src/index.js:84-91 | removes the first reservation of the amount, if there is one |
| `SpendLedgerRuns.RemoveCovers` | packages/guardrail-x402/src/index.js:84-91 | releasing by amount may take another payment's entry, yet what is left still covers all payments left |
| `SpendLedgerRuns.HeadroomIsReal` | packages/guardrail-x402/src/index.js:245-310 | what an evaluation read plus what is reserved when it reserves covers every payment that can still be allowed |
| `SpendLedgerRuns.InvStep` | packages/guardrail-x402/src/index.js:245-344 | reading, looking up, deciding, signing and failing each keep reservations covering payments and the day within budget |
| `SpendLedgerRuns.DailyCeiling` | packages/guardrail-x402/src/index.js:224-354 | however many evaluations interleave over a late-settling total, all payments allowed in a day stay within the reading of maxDaily that the reservation uses, given the timing assumptions of `Enabled`; that is within the policy's maxDaily where the text reads back no larger |
| `SpendLedgerRuns.DailyCeilingPlainly` | packages/guardrail-x402/src/index.js:224-354 | for a positive maxDaily given as text or as a number in the safe range, the day stays within maxDaily itself |
| `SpendLedgerRuns.DecidedExactly` | packages/guardrail-x402/src/index.js:245-310 | a decision reserves a payment exactly when the spend check lets the agent act alone on all that was read and the amount fits beside what is held by then |
| `SpendLedgerRuns.EvaluationCompletes` | packages/guardrail-x402/src/index.js:224-354 | without delay an evaluation ends in an allowed payment exactly then |
| `SpendLedgerRuns.FailFreesExactly` | packages/guardrail-x402/src/index.js:84-91 | a failure gives its amount back exactly when the first entry of that amount has not expired |
| `SharedStore.IndexFacts` | packages/agent-sdk/src/store-interface.js:114-122 | a lookup finds the row with the key, or there is none |
| `SharedStore.FindPut` | packages/agent-sdk/src/store-interface.js:132-140 | after a write the key reads back as written and every other key as before |
| `SharedStore.FindRemove` | packages/agent-sdk/src/store-interface.js:159-164 | after a delete the key is gone and every other key reads as before |
| `SharedStore.FindSurvivor` | packages/agent-sdk/src/store-interface.js:173-180 | a purge forgets exactly the rows last written before the limit, whatever their keys |
| `SharedStore.EvictedMatching` | packages/agent-sdk/src/store-interface.js:182-189 | eviction leaves the last inserted keys of the prefix |
| `SharedStore.EvictedOthers` | packages/agent-sdk/src/store-interface.js:182-189 | eviction touches no key outside the prefix |
| `SharedStore.PutInPlace` | packages/agent-sdk/src/store-interface.js:132-140 | writing a key that is there replaces its row where it is |
| `SharedStore.PutBehind` | packages/agent-sdk/src/store-interface.js:132-140 | writing a new key adds its row behind the others |
| `SharedStore.RemoveInOrder` | packages/agent-sdk/src/store-interface.js:159-164 | a delete keeps the order of the other rows |
| `SharedStore.SurvivorsInOrder` | packages/agent-sdk/src/store-interface.js:173-180 | a purge keeps the order of the rows it leaves |
| `SharedStore.EvictedInOrder` | packages/agent-sdk/src/store-interface.js:182-189 | an eviction keeps the order of the rows it leaves |
| `SharedStore.LocalStore.Claim` | packages/agent-sdk/src/store-interface.js:124-131 | claims exactly when the key is absent, adding a first version, and changes nothing otherwise |
| `SharedStore.LocalStore.Write` | packages/agent-sdk/src/store-interface.js:132-140 | the version grows by one and the row is replaced in place or appended |
| `SharedStore.LocalStore.WriteAtomically` | packages/agent-sdk/src/store-interface.js:142-158 | read, change and write as one step, or no change at all |
| `SharedStore.LocalStore.Delete` | packages/agent-sdk/src/store-interface.js:159-164 | removes the row and says whether there was one |
| `SharedStore.LocalStore.PurgeExpired` | packages/agent-sdk/src/store-interface.js:173-180 | the loop leaves exactly the rows not older than the limit, and counts those removed |
| `SharedStore.LocalStore.EvictOldest` | packages/agent-sdk/src/store-interface.js:182-189 | drops the first excess rows of the prefix |
| `SharedStore.SqliteStore.WriteAtomically` | packages/agent-sdk/src/store-interface.js:310-360 | success means the update met the version it read, in the table as others had left it by then, and wrote the changed value one version up; any failure wrote nothing; exhaustion means no attempt was undisturbed |
| `NonceSequencer.AcquireNonce` | mcp-server/src/relayer-coordinator.js:83-126 | a nonce is the counter it read and the counter is one higher, or ten exhausted attempts and nothing written |
| `NonceSequencer.SyncAtLeast` | mcp-server/src/relayer-coordinator.js:138-150 | the counter becomes the larger of itself and the chain count, or nothing is written |
| `NonceSequencer.UpdateCommits` | packages/agent-sdk/src/store-interface.js:310-360 | an update whose version check passes commits on the history as it stands |
| `NonceSequencer.InvStep` | mcp-server/src/relayer-coordinator.js:83-150 | every move of every instance keeps the counter equal to the replayed history of commits |
| `NonceSequencer.LaterIsHigher` | mcp-server/src/relayer-coordinator.js:83-150 | in a sequential history later nonces exceed earlier ones and are at least earlier synced counts |
| `NonceSequencer.NoncesIncrease` | mcp-server/src/relayer-coordinator.js:83-150 | over every interleaving of N instances without a purge of the counter, commits form a sequential history: nonces strictly increase, none is issued twice, each is at least every chain count synced before |
| `NonceSequencer.CallsEnd` | mcp-server/src/relayer-coordinator.js:34-111 | every own move of a call brings its end nearer, and no other move does; it has at most 520 of them |
| `NonceSequencer.GivesUpExactly` | mcp-server/src/relayer-coordinator.js:34-111 | a call gives up exactly when the twenty-sixth try of a write fails, and for an acquisition in the tenth write |
| `NonceSequencer.UndisturbedCommits` | mcp-server/src/relayer-coordinator.js:83-150 | from every reachable state a call that nothing disturbs issues the counter, or the start where there is none, or brings the counter to at least the chain count |
| `NonceSequencer.PurgeIsSafeExactly` | packages/agent-sdk/src/store-interface.js:173-180 | from every reachable state, after a purge of the counter the next nonce is the caller's start, and it is above every nonce issued and count synced before exactly when the start is not below the purged counter |
| `NonceSequencer.RunAfterPurgeExactly` | mcp-server/src/relayer-coordinator.js:83-150 | over every run of every instance after a purge that meets no update under way, the new commits are again a sequential history, and every nonce in it is above everything before exactly when issuing begins, by the count synced or the first start, no lower than the purged counter |
| `NonceSequencer.PurgeReissues` | mcp-server/src/relayer-coordinator.js:83-95 | after a purge the first nonce ever issued is issued again to a caller with the same start |
| `RelayLoop.MaxRetries` | mcp-server/src/relayer-operations.js:25-29 | the setting is truncated and clamped to 0 to 5 |
| `RelayLoop.ExecuteWithResilience` | mcp-server/src/relayer-operations.js:146-235 | the loop is the specified sequence of rounds, or none for an intent already landed |
| `RelayLoop.StopsExactly` | mcp-server/src/relayer-operations.js:180-234 | the loop goes past round j exactly when every round up to j may be followed and retries remain |
| `RelayLoop.BroadcastsAgainOnlyAfter` | mcp-server/src/relayer-operations.js:47-72 | at most six broadcasts, another only after a retryable failure, never after a decoded contract error, after a doubtful one only when both look-ups found nothing |
| `RelayLoop.EndingIsTrue` | mcp-server/src/relayer-operations.js:196-207 | what the loop reports is true of its last round, code and receipt included |
| `RelayLoop.FoundMeansDone` | mcp-server/src/relayer-operations.js:199-203 | a receipt found right after a doubtful broadcast ends the loop with it |
| `MessageEnvelope.PreimageBinds` | packages/agent-sdk/src/message-security.js:25-35 | equal signed texts mean equal messages up to whether the payload was a string or a value, and wholly for payloads of one kind, when sender, target and nonce are single lines; the payload may hold breaks |
| `MessageEnvelope.SharesTextExactly` | packages/agent-sdk/src/message-security.js:25-35 | a signed text stands for another message as well exactly when a line break occurs in the sender, target, payload or nonce, or the payload is a value, or a string that is the JSON text of one |
| `MessageEnvelope.JsonTextWrites` | packages/agent-sdk/src/message-security.js:26 | JSON text without indentation has no line break and tells values apart, as the two results above ask of it |
| `MessageEnvelope.PassedMeans` | packages/agent-sdk/src/transport-security.js:120-142 | the inbound checks pass exactly for fresh, verified envelopes to this service from a known sender with every field present |
| `MessageEnvelope.RefusalIsTrue` | packages/agent-sdk/src/message-security.js:68-118 | a refusal names a check that fails |
| `ReplayProtection.ReplayStore.EnforceCapacity` | packages/agent-sdk/src/transport-security.js:74-80 | purge when over capacity, then evict if still over |
| `ReplayProtection.ReplayStore.Record` | packages/agent-sdk/src/transport-security.js:86-90 | first exactly when the key is not on record; capacity is enforced only then |
| `ReplayProtection.VerifyRequest` | packages/agent-sdk/src/transport-security.js:120-142 | the checks, then the record; the new table and the refusal |
| `ReplayProtection.KeysDistinct` | packages/agent-sdk/src/message-security.js:120 | keys of two messages differ when no sender holds a colon |
| `ReplayProtection.RefusedChangesNothing` | packages/agent-sdk/src/message-security.js:99-125 | a refused envelope leaves the replay state unchanged |
| `ReplayProtection.AcceptedExactly` | packages/agent-sdk/src/transport-security.js:120-142 | accepted exactly when the checks pass and the key is not on record |
| `ReplayProtection.EnforcedExactly` | packages/agent-sdk/src/transport-security.js:74-80 | capacity control leaves at most the allowed number of records: it takes nothing while there are no more, only what is past retention while that is enough, and otherwise leaves the last inserted |
| `ReplayProtection.ForeignRowsGoToo` | packages/agent-sdk/src/transport-security.js:74-80 | a row of another user of the store goes exactly when the purge runs and it is past retention |
| `ReplayProtection.AcceptedAgainOnlyLater` | packages/agent-sdk/src/transport-security.js:45-101 | without eviction, a sender and nonce are accepted again only after retention has passed |
| `ReplayProtection.AcceptedOnce` | packages/agent-sdk/src/transport-security.js:45-101 | in every run without eviction, purges included, of all envelopes with one sender, nonce and timestamp at most one is accepted if retention is at least twice the freshness window |
| `ReplayProtection.ShorterRetentionFails` | packages/agent-sdk/src/transport-security.js:45-101 | for every shorter retention a run without eviction accepts one envelope twice |
| `JsonText.QuotedUnique` | mcp-server/src/audit-log.js:58-60 | quoting by section 7 of RFC 8259, lone surrogates escaped, is uniquely readable |
| `JsonText.TextUnique` | mcp-server/src/audit-log.js:53-61 | two values whose texts begin one text, up to a delimiter, are the same value |
| `JsonText.TextOneLine` | packages/agent-sdk/src/message-security.js:26 | the JSON text of a value is a single line, whatever its strings hold |
| `JsonText.EscapedExactly` | mcp-server/src/audit-log.js:58-60 | which units are written by number, by two characters, or as they are |
| `JsonReader.ReadsBack` | mcp-server/src/audit-log.js:38-39 | a value written as JSON text is read back, by the grammar of RFC 8259, as that value, whatever may follow it |
| `JsonReader.StringReads` | mcp-server/src/audit-log.js:38-39 | a quoted string is read back, escapes and lone surrogates included |
| `CanonicalJson.LessTotal` | mcp-server/src/audit-log.js:57 | the order of keys by code unit is strict and total |
| `CanonicalJson.CanonIsText` | mcp-server/src/audit-log.js:53-61 | the canonical text is the plain text of the sorted, filtered value |
| `CanonicalJson.NormalFacts` | mcp-server/src/audit-log.js:53-61 | sorting and filtering keep the meaning |
| `CanonicalJson.NormalUnique` | mcp-server/src/audit-log.js:53-61 | one meaning has one normal form |
| `CanonicalJson.CanonInjective` | mcp-server/src/audit-log.js:53-61 | two values serialise equally exactly when they are equal up to key order, dropped keys at every depth, and null for undefined |
| `CanonicalJson.SameField` | mcp-server/src/remote-signer-keeper.js:82-87 | values that serialise alike hold the same text under every kept key |
| `CanonicalJson.DiskKeepsCanonExactly` | mcp-server/src/audit-log.js:129 | writing and reading back keeps the canonical text exactly when no kept member is undefined |
| `CanonicalJson.OnDiskIsClean` | mcp-server/src/audit-log.js:129 | reading back gives a value with nothing undefined in it, and one without anything undefined as it was |
| `AuditChain.VerifyAuditHashChain` | mcp-server/src/audit-log.js:174-206 | the loop computes the specified report of a volume |
| `AuditChain.VerifyExactly` | mcp-server/src/audit-log.js:174-206 | a volume is intact exactly when every line is a sealed record linked to the one before and the first to the anchor; the report gives its length and tail |
| `AuditChain.BrokenIsTrue` | mcp-server/src/audit-log.js:174-206 | a volume reported broken is linked up to the line named, and that line has the fault named |
| `AuditChain.ThrewIsTrue` | mcp-server/src/audit-log.js:174-206 | a check that throws has come, over linked lines, to one that is null |
| `AuditChain.ReplayAuditTrail` | mcp-server/src/audit-anchor.js:87-120 | the nested loops compute the replay of both volumes and where it stopped |
| `AuditChain.ReplayMeansLinked` | mcp-server/src/audit-anchor.js:87-120 | the replay completes exactly when all lines are sealed and linked, with their hashes in order |
| `AuditChain.ReplayStopIsTrue` | mcp-server/src/audit-anchor.js:87-120 | a replay that stops has the hashes of the linked lines before, and the line it stops at has the fault named, or is null where it throws |
| `AuditChain.LinkedConcat` | mcp-server/src/audit-collector.js:70-87 | two volumes are one chain exactly when each is and the second starts at the first's tail |
| `AuditChain.CollectorExactly` | mcp-server/src/audit-collector.js:57-88 | the collector says intact exactly when the current file exists, all lines are linked, and a chain with nothing before it starts at null |
| `AuditChain.NotIntactIsTrue` | mcp-server/src/audit-collector.js:57-88 | a status that is not intact has no tail and counts lines that are linked |
| `AuditChain.ThrowsExactly` | mcp-server/src/audit-collector.js:57-88 | the collector fails exactly when one of its readings comes to a null record |
| `AuditChain.CollectorImpliesReplay` | mcp-server/src/audit-collector.js:57-88 | what the collector reports intact replays completely with the same count and tail |
| `AuditAnchors.VerifyAuditAgainstAnchors` | mcp-server/src/audit-anchor.js:145-179 | the loop computes the specified verdict over all anchors |
| `AuditAnchors.NoProblemExactly` | mcp-server/src/audit-anchor.js:145-179 | no problem exactly when anchors are numbered without gaps and each within reach matches; nothing dropped exactly when all are in reach |
| `AuditAnchors.VerdictExactly` | mcp-server/src/audit-anchor.js:145-179 | the problems named are exactly the mismatches within reach and the numbers that do not follow, and the anchors dropped are exactly those out of reach |
| `AuditAnchors.MatchesExactly` | mcp-server/src/audit-anchor.js:158-162 | an anchor matches exactly when its hash is the one at its position up to letter case and the 0x prefix |
| `AuditAnchors.AnchorBindsPrefix` | mcp-server/src/audit-anchor.js:145-179 | two trails that replay and match one anchor agree on every record it covers, or at some covered position from there on the two trails hold records that serialise differently and hash alike |
| `AuditAnchors.AnchorOutlivesGrowth` | mcp-server/src/audit-anchor.js:87-120 | an anchor made of a trail still fits after the trail has grown |
| `AuditAnchors.HonestAnchorsVerify` | mcp-server/src/audit-anchor.js:145-179 | a linked trail that extends every trail the numbered anchors were made of replays, verifies all of them, and drops none |
| `AuditAnchors.HashesDiffer` | mcp-server/src/audit-anchor.js:107-116 | in a chain from its start no two positions have one hash, or two records as far apart collide |
| `AuditAnchors.DeletionShifts` | mcp-server/src/audit-anchor.js:158-160 | whatever was deleted before, once more of the oldest records are deleted an anchor within reach matches what is kept exactly when nothing was deleted, unless two records of the whole chain that far apart collide |
| `AuditWriter.AuditLog.EnsureChainInitialized` | mcp-server/src/audit-log.js:30-44 | the chain continues from a 64-digit hash on the last line, once per process |
| `AuditWriter.AuditLog.MaybeRotate` | mcp-server/src/audit-log.js:209-229 | a full current volume replaces the older one |
| `AuditWriter.AuditLog.RecordAudit` | mcp-server/src/audit-log.js:106-144 | initialise, build and seal the record, rotate, append |
| `AuditWriter.InitializedExactly` | mcp-server/src/audit-log.js:30-44 | the first write after a start takes up the last line's hash if that is a text of 64 characters, and nothing else changes what a writer goes on from |
| `AuditWriter.RecordHolds` | mcp-server/src/audit-log.js:117-123 | what a record holds under every key: the seal, the link, the entry's own value where it has the key, the time unless the entry has one, and nothing else |
| `AuditWriter.RecordWhole` | mcp-server/src/audit-log.js:117-129 | a record has no undefined member exactly when its entry has none, but for the two keys the writer sets |
| `AuditWriter.VolumesExactly` | mcp-server/src/audit-log.js:209-229 | a write to a full volume makes it the older one and starts anew; any other extends the current volume |
| `AuditWriter.LineReadsBack` | mcp-server/src/audit-log.js:129-138 | the text of a line holds no line break and is read back as the record is taken to be on disk |
| `AuditWriter.RunsHoldEntries` | mcp-server/src/audit-log.js:106-144 | over every run of records, rotations and restarts the n-th line written holds the n-th entry, under every key with a value but the two the writer sets |
| `AuditWriter.SealedExactly` | mcp-server/src/audit-log.js:114-130 | a record read back verifies exactly when its entry had no undefined member, or its two texts, as hashed and as read back, hash alike |
| `AuditWriter.InitializedTail` | mcp-server/src/audit-log.js:30-44 | after any run of rotations and restarts the writer continues from the last record |
| `AuditWriter.RunsStayIntact` | mcp-server/src/audit-log.js:106-229 | every run of records, rotations and restarts leaves volume .1 and the current volume a contiguous suffix of the history that the collector reports intact, in full |
| `AuditWriter.WriteKeepsIntactExactly` | mcp-server/src/audit-log.js:114-130 | after any sound history the next record leaves the log reported intact exactly when its entry has no undefined member, but for the two keys the writer sets, or its own two texts hash alike |
| `RemoteSigning.RequestTextBinds` | mcp-server/src/remote-signer.js:59-73 | one authenticated request text stands for one request, all six fields |
| `RemoteSigning.ResponseTextBinds` | mcp-server/src/remote-signer.js:197-204 | one authenticated response text stands for one response |
| `RemoteSigning.RequestTextReads` | mcp-server/src/remote-signer.js:59-73 | whoever reads an authenticated request finds its six fields under their names |
| `RemoteSigning.ResponseTextReads` | mcp-server/src/remote-signer.js:197-204 | whoever reads an authenticated response finds its fields under their names, and that all is well |
| `RemoteSigning.NamesDistinguish` | mcp-server/src/remote-signer.js:59-73 | the member names of requests and responses are such that the two begin differently |
| `RemoteSigning.DirectionsDiffer` | mcp-server/src/remote-signer.js:59-73 | under the one shared secret no response passes for a request |
| `RemoteSigning.WellShapedExactly` | mcp-server/src/remote-signer.js:75-113 | the shape check passes exactly for requests with every field, an intent with a nonce and a positive time |
| `RemoteSigning.AllowedExactly` | mcp-server/src/remote-signer-keeper.js:153-221 | the policy allows exactly the registered session, up to key order, not past its expiry, for what is on each list that restricts and an amount within a positive limit per transaction and, with the day's charges, per day; the agent's day grows by what is allowed, and nobody else's entry changes |
| `RemoteSigning.Keeper.RecordNonce` | mcp-server/src/remote-signer-keeper.js:226-240 | expired nonces go, a remembered one is refused, a new one is remembered for its time to live |
| `RemoteSigning.Keeper.Authorize` | mcp-server/src/remote-signer-keeper.js:153-221 | the decision and the ledger of the policy check, whose meaning is `AllowedExactly` |
| `RemoteSigningRuns.AuthenticRequest` | mcp-server/src/remote-signer.js:151-155 | a request that passes the message code was sent by a client, exactly as it is |
| `RemoteSigningRuns.InvStep` | mcp-server/src/remote-signer.js:143-275 | every step of clients, Keeper and network keeps all requests in hand, signatures and acceptances accounted for |
| `RemoteSigningRuns.Agreement` | mcp-server/src/remote-signer.js:143-275 | whatever a client accepts the Keeper signed for exactly its agent, registered session and intent, after custody, replay and approval, with each list, the expiry and the transaction limit kept to |
| `RemoteSigningRuns.AuthorizedExactly` | mcp-server/src/remote-signer-keeper.js:153-221 | over every run a request in hand is authorised exactly when its session is the registered one, the terms grant what it asks, and the amount fits the day beside all that was charged to the agent on it |
| `RemoteSigningRuns.AdmittedExactly` | mcp-server/src/remote-signer.js:143-172 | a delivered request is taken in hand exactly when it is complete and authentic, its custody token holds and its nonce is not remembered |
| `RemoteSigningRuns.SignedExactly` | mcp-server/src/remote-signer.js:180-207 | an authorised request is answered exactly when it is approved and the signer gives a signature; either way it is done with |
| `RemoteSigningRuns.AcceptedExactly` | mcp-server/src/remote-signer.js:214-226 | a response is accepted exactly when it is signed, authentic and answers the call's nonce |
| `RemoteSigningRuns.ExchangeCompletes` | mcp-server/src/remote-signer.js:143-275 | in every state a request that the Keeper would admit and authorise, delivered, approved and signed without delay, is accepted by its client with that signature |
| `RemoteSigningRuns.SignedOncePerNonce` | mcp-server/src/remote-signer-keeper.js:226-240 | two signatures under one nonce are for requests admitted at least the time to live apart |
| `RemoteSigningRuns.SignedApartInTime` | mcp-server/src/remote-signer.js:166-207 | with approval bounded by a wait, signatures under one nonce are at least the time to live less that wait apart |
| `RemoteSigningRuns.SlowApprovalSignsTwice` | mcp-server/src/remote-signer.js:166-207 | the bound is reached for every wait up to the time to live: one request is signed that long after its admission and again, time to live less wait later |
| `RemoteSigningRuns.DailyLimitHolds` | mcp-server/src/remote-signer-keeper.js:202-217 | what is authorised for an agent on a day stays within its session's daily limit |
| `SpendPolicy.AutoExactly` | packages/agent-keys/src/takeover.js:93-180 | an agent acts alone exactly on a valid amount below the small threshold, thresholds in order, in a mode and under ceilings that allow it |
| `SpendPolicy.DecidedExactly` | packages/agent-keys/src/takeover.js:93-180 | when the answer is a delay, a denial or a failure, exactly; approval is asked for in all cases left |
| `SpendPolicy.ThresholdReads` | packages/agent-keys/src/takeover.js:93-110 | which fields a default stands in for, and how all others read |
| `SpendPolicy.SafeBoundTightens` | packages/agent-keys/src/takeover.js:477-565 | for a safe bound the tiered decision under the merge is at least as strict, for every request, amount and total, whatever the text of large numbers |
| `SpendPolicy.UnsafeBoundLoosens` | packages/agent-keys/src/takeover.js:477-565 | every other bound is loosened by some request, which the lemma constructs |
| `SpendPolicy.MergeTightensExactly` | packages/agent-keys/src/takeover.js:542-633 | merging never loosens a bound exactly when the bound is safe, numbers past the safe range, which the merge reads by their text, included |
| `SpendPolicy.MergedExactly` | packages/agent-keys/src/takeover.js:542-633 | the merge lets a payment through exactly when both policies do: neither asks for approval, every positive ceiling of either is kept to where either limits, and the amount is below every large threshold given; at once exactly when it is also below every small one |
| `SpendPolicy.MergedFields` | packages/agent-keys/src/takeover.js:542-565 | the merged policy has the stricter mode, ceilings only in a limit, and both thresholds; without a bound the request stands |
| `SpendPolicy.SafeBoundPlainly` | packages/agent-keys/src/takeover.js:483-524 | without such numbers a bound is safe exactly when it never lets the agent act alone, its merged tiers are inverted, or its thresholds are positive and in order and a limit has a ceiling |
| `SpendPolicy.RoundedThresholdLoosens` | packages/agent-keys/src/takeover.js:510-524 | a threshold of the number 2^60 becomes 1152921504606847000 in the merge, and an amount between the two is spent at once |
| `SpendPolicy.LargeNumberLoosens` | packages/agent-keys/src/takeover.js:483-502 | a limit whose daily ceiling is a number with an exponent in its text is loosened, though everything in it is in order |
| `SpendPolicy.MergeIdempotent` | packages/agent-keys/src/takeover.js:542-565 | merging the result with the bound again changes nothing |
| `SpendPolicy.GuardExactly` | packages/agent-keys/src/takeover.js:643-666 | committing under the guard means no more spending power exactly when the ceilings compare |
| `SpendPolicy.GuardCommitsExactly` | packages/agent-keys/src/takeover.js:643-666 | the guard commits exactly when the mode stays and allows spending and a limit has parsed ceilings that are no looser, as it orders them |
| `SessionKeys.AdmittedExactly` | packages/agent-keys/src/session.js:275-361 | access exactly when not expired, listed in every dimension given, and a given amount valid and within both limits; the check fails exactly on a limit that it reaches and that does not parse |
| `SessionKeys.CreatedExactly` | packages/agent-keys/src/session.js:105-153 | a session is created exactly for a named agent, a time to live in range and dates that far apart, and holds what it was given |
| `SessionKeys.DerivedLimits` | packages/agent-keys/src/session.js:179-190 | derived limits parse and are no larger than the parent's |
| `SessionKeys.DerivedAdmitsExactly` | packages/agent-keys/src/session.js:208-361 | a derived session admits exactly what the scope asks for, and the parent where the scope says nothing, in every list and limit, until the earlier of the two expiries |
| `SessionKeys.DerivesExactly` | packages/agent-keys/src/session.js:208-259 | a derivation succeeds exactly for a live parent's own agent, a scope that narrows in every dimension, and a time to live in range |
| `SessionKeys.DerivationRefusalIsTrue` | packages/agent-keys/src/session.js:208-259 | a refused derivation names something that is wrong |
| `SessionKeys.NarrowingExactly` | packages/agent-keys/src/session.js:167-361 | a derivation admits nothing new exactly when it keeps the parent's limits |
| `SessionKeys.ChainRefines` | packages/agent-keys/src/session.js:208-361 | along any chain of derivations with non-negative limits the last session admits nothing the first does not |
| `SessionKeys.DerivationFailsOnlyOnScopeOrTtl` | packages/agent-keys/src/session.js:113-259 | the derived expiry always passes the equality check, so derivation fails exactly on scope or ttl range |
| `PolicyTimelock.SelectFacts` | packages/agent-keys/src/takeover.js:400-421 | splitting the pending list keeps exactly the chosen changes and distinct ids |
| `PolicyTimelock.Timelock.constructor` | packages/agent-keys/src/takeover.js:223-271 | construction over a store is a restart from what it holds |
| `PolicyTimelock.Timelock.ScheduleChange` | packages/agent-keys/src/takeover.js:330-367 | pending and stored after a schedule, rolled back if the write fails |
| `PolicyTimelock.Timelock.RevokeChange` | packages/agent-keys/src/takeover.js:376-393 | pending, store and answer of a revocation, early, late or failed |
| `PolicyTimelock.Timelock.GetEffectiveChanges` | packages/agent-keys/src/takeover.js:400-421 | returns exactly the due changes and keeps exactly the others |
| `PolicyTimelock.Timelock.ClearAll` | packages/agent-keys/src/takeover.js:457-465 | empties memory, and the store if there was something |
| `PolicyTimelockRuns.InvStep` | packages/agent-keys/src/takeover.js:244-465 | every call keeps memory within the store, dates as scheduled, and every reply true of a change that is in neither list |
| `PolicyTimelockRuns.ToldOnceAndInTime` | packages/agent-keys/src/takeover.js:376-421 | no change is returned before it is due or confirmed revoked after, and none is told of twice, so none is returned again or after its revocation was confirmed |
| `PolicyTimelockRuns.DueIsKept` | packages/agent-keys/src/takeover.js:338-367 | a change is due one delay after it was scheduled and keeps that time |
| `PolicyTimelockRuns.ScheduledExactly` | packages/agent-keys/src/takeover.js:330-367 | a change is scheduled exactly for a named agent and a store that writes, and is what was asked for, due one delay on |
| `PolicyTimelockRuns.RevokedExactly` | packages/agent-keys/src/takeover.js:376-393 | a revocation finds exactly a pending change, takes it out and answers by its date once the store has written |
| `PolicyTimelockRuns.PolledExactly` | packages/agent-keys/src/takeover.js:400-421 | a poll hands over exactly what is due and keeps exactly the rest; only a failing store keeps the answer back |
| `PolicyTimelockRuns.ClearedExactly` | packages/agent-keys/src/takeover.js:457-465 | clearing leaves nothing, in the store too once it has written; a restart takes over what the store has |
| `PolicyTimelockRuns.ChangesAreAsAsked` | packages/agent-keys/src/takeover.js:330-421 | over every run every change held, stored or handed over has the agent, the policy and the time some call scheduled it with |
| `PolicyTimelockRuns.EveryChangeAccounted` | packages/agent-keys/src/takeover.js:330-465 | every change ever scheduled is in exactly one of memory, the store alone, the log of replies (once), or nowhere |
| `PolicyTimelockRuns.HowItLeft` | packages/agent-keys/src/takeover.js:376-465 | a change leaves memory only by a poll, its revocation or a clear; the store still has it if the write failed, and otherwise the reply told of it: returned, revoked, too late or cleared, by the call and the change's date |
| `PolicyTimelockRuns.StoreAgrees` | packages/agent-keys/src/takeover.js:243-281 | store and memory agree after every successful write and until one fails |
| `PolicyTimelockRuns.LossExactly` | packages/agent-keys/src/takeover.js:274-465 | a scheduled change is in neither list and in no reply after a call exactly when it was so before, or the store alone had it and the call reported success after writing |
| `PolicyTimelockRuns.NothingLostExactly` | packages/agent-keys/src/takeover.js:244-465 | a run loses no change exactly when no call writes while the store alone has some change |
| `Base58Text.Base58Encode` | packages/agent-keys/src/base58.js:12-24 | the loops compute the encoding |
| `Base58Text.Base58Decode` | packages/agent-keys/src/base58.js:27-42 | the loops compute the decoding or name the first bad character |
| `Base58Text.DecodeEncode` | packages/agent-keys/src/base58.js:12-42 | decoding inverts encoding exactly on the empty buffer and buffers with a nonzero byte |
| `Base58Text.DecodeEncodeZeros` | packages/agent-keys/src/base58.js:27-42 | n zero bytes come back as n + 1 |
| `Base58Text.EncodeDecode` | packages/agent-keys/src/base58.js:12-42 | encoding inverts decoding exactly on the empty text and valid texts with a character other than 1 |
| `Base58Text.FirstInvalidIsFirst` | packages/agent-keys/src/base58.js:30-36 | the character reported is the first outside the alphabet |
| `Positional.ValueOfDigits` | packages/agent-keys/src/base58.js:16-22 | the division loop's digits denote the number |
| `Positional.DigitsOfValue` | packages/agent-keys/src/base58.js:30-36 | a digit string without leading zeros is recovered from its value |
| `IntentDigest.WordIsBigEndian` | packages/chain-eth/src/canonical.js:55-78 | a number has a word exactly below 2^256, and the word decodes to it |
| `IntentDigest.ToU256` | packages/chain-eth/src/canonical.js:55-78 | the byte loop fills exactly that word |
| `IntentDigest.Bytes32Exactly` | packages/chain-eth/src/canonical.js:81-87 | a session id is accepted exactly when it spells 64 hexadecimal digits, and its 32 bytes are the number they spell |
| `IntentDigest.Bytes32Binds` | packages/chain-eth/src/canonical.js:81-87 | two session ids stand for the same bytes exactly when they spell the same digits |
| `IntentDigest.HexDigitExactly` | packages/chain-eth/src/canonical.js:81-87 | the digits are those of either case and stand for their places |
| `IntentDigest.DigestExists` | packages/chain-eth/src/canonical.js:95-154 | a digest exists exactly for intents with all seven texts, four numbers below 2^256 and a session id of 32 bytes |
| `IntentDigest.RefusalIsTrue` | packages/chain-eth/src/canonical.js:55-138 | a refusal is true of the field it names, of some number, or of the session id, and what is missing is told first |
| `IntentDigest.PreimageLayout` | packages/chain-eth/src/canonical.js:139-153 | which of the twelve words of the preimage is which field: seven hashed texts in their places, five numbers that read back |
| `IntentDigest.PreimageBinds` | packages/chain-eth/src/canonical.js:111-154 | equal preimages mean the same twelve fields, or the two texts of one named field collide |
| `IntentDigest.DigestBinds` | packages/chain-eth/src/canonical.js:111-154 | a digest signs exactly its twelve fields, unless the two preimages, or the two texts of one field, collide |

## Left out

- Cryptography itself (Dilithium, secp256k1, ed25519, keccak, SHA-256, HMAC, key derivation): ideal checks or arbitrary functions.
- HTTP servers and clients, MCP tools, command lines, chain calls, SQLite and file-system errors: plumbing around the modelled steps.
- SmartAccount.NormalizeIdempotent: letters outside ASCII keep their case, because full case mapping is a table of its own; white space is as regular expressions have it.
- Reading raw fields of a smart-account request (`Number(...)` of times, non-integer amounts): the model starts from absent, blank, unparsable or a number.
- The exposure report over all sessions (`estimateMaxLoss`): the model has the ceiling of one session.
- Scoping of payments by recipient, asset and chain, which only denies more, and ledgers injected in place of the in-memory one.
- The guardrail's nonce registry and `verifySnapshot`: the remember-until-expiry pattern of the Keeper's nonces, and checks of one branch each.
- The store's JSON file, its key and value validation, and errors other than contention, which propagate.
- The nonce lease record, back-off sleeps and counters: they only observe.
- In the relay loop: back-off time, the acquired nonce and the resynchronisation call; failure texts are reduced to whether they hold words of either list.
- The broadcast reconciler is a read-only scan; its result is an input of the relay loop.
- Fractional timestamps and versions that are no integers in message envelopes, and senders or targets that are no strings but have one's text.
- The in-process `createReplayGuard` evicts by count only and promises nothing after eviction.
- In JSON: numbers are given as their shortest text; NaN, infinities, functions, symbols and `toJSON` are outside the model, and member lists are linked lists.
- In the audit writer: failed appends, the memory ring and schema warnings; the size check of rotation is a bit.
- Cursor paging of the collector and the anchoring schedule (`tick`): easy members.
- In remote signing: custody tokens and how limits are read off JSON are arbitrary functions; a Keeper restart, which forgets nonces and daily totals, is not modelled.
- In the time-lock: notifiers, the webhook and the mode without a store.
- Case folding is a parameter of session access; booleans, fractions and NaN in policy and session fields are not modelled.
- Which texts count as white space in an intent is decided before the model starts.
- The Solidity contracts, sharded secrets, the policy engine's daily store, chain-state rows, configuration, metrics and thin wrappers.
