# A verified model of the wallet enclave

This project models, in Dafny, the trust state of an SGX wallet enclave and of the contract it trusts, and
proves what holds of it over whole runs. `dafny verify dfyconfig.toml` checks everything.

Each component has its state and operations as functions over tables (maps keyed by the primary key or
UNIQUE constraint of `sgx-enclave/src/database/schema.js`), classes whose methods change fields in place and
are proved equal to those functions, and lemmas about the functions: every step, every run, every input. The
files named `Laws` say what the operations do of their inputs and the tables alone, without the functions.

| files | component |
|---|---|
| `Tables`, `Revocations`, `Signing`, `LedgerRuns`, `LedgerInvariants`, `LedgerLimits`, `LedgerAmounts`, `LedgerRaces`, `LedgerLaws`, `CleanupLaws`, `StateManagement` | authorization ledger: revocation records from two ranked sources, chain mirror, limits, charging, the transaction bundle of a signing |
| `Accounts`, `AccountRuns`, `FreezeRuns`, `RegistrationRuns`, `RegistrationLaws`, `AccountManagement` | passkeys, account freezes, registration scenarios, Owner recovery, the freeze gate |
| `Digits`, `Tar`, `TarArchive`, `CodeIntegrity` | the ustar/pax reader, a reference writer, and the comparison of the running code with its repository |
| `Gossip`, `PeerManagement`, `Backoff` | peer discovery over pin-checked links, reconnect delays |
| `WritePath`, `WriteManagement` | the leader's two-phase write path over manual transactions |
| `KeyExport`, `ExportLaws`, `KeyExporting` | exporting wallet rows and deleting them on confirmation |
| `ContractPin`, `PinLaws`, `ContractClient` | the pinned contract identity over boots, refreshes and migrations |
| `TrustContract` | the on-chain whitelists and revocation lists |
| `NtpClock`, `AbiTokens` | NTP arithmetic and the calibrated clock; calldata decoding |

What the model takes from outside, as parameters or events: clocks, hashes, signature verdicts, what the
contract answers, which writes the store takes, acknowledgements, timeouts and terms, the file system, the
download, and the order in which unordered rows are read. A request handler is one step, except where a
property is about two requests meeting: `LateCommit` in the ledger is the commit of a request checked at any
earlier time, and the write path is interleaved event by event.

Assumptions on runs, each stated in the lemma that needs it: authorization ids are not shared between users
(with the exact condition when they are, `LedgerRaces.SharedIdsKeepBooksIff`); the clock does not go back;
only registrations carry an attestation response; a registration that names no user uses a challenge whose
account is not inside a freeze (with the exact condition, `FreezeRuns.RegistrationIsSoundIff`; challenges
minted without a user carry a fresh id, `sgx-enclave/src/api/challenge.js:136`).

Where the code does something other than its documentation or names suggest, the model follows the code:

- The chain sync means to fill a record's expiry from the stored authorization text, but it parses the
  already parsed text again (`sgx-enclave/src/modules/state-management/state-manager.js:566-568` and
  `911-914`), which throws; so the expiry of a mirrored record stays empty.
- The token count test inside the transaction compares with the total count limit (`state-manager.js:486`).
  A missing or numeric zero limit is no limit, the text "0" is one. Raw mode tests the first derived token
  only. The status of a row is tested in the transaction only when cumulative limits are signed.
- A refused registration has already spent its register challenge; the register_passkey challenge of an
  added passkey is spent only once its signature is verified.
- The slices of a transferFrom (114 to 178) are not those of the ABI layout.
- A calibration takes the median of estimates made when each answer came, but applies it when the slowest
  server has answered or timed out, so the clock is set back by that wait.
- A migration to a contract for which no certificate is declared leaves the client without one: the fallback
  to the old certificate comes after it has been overwritten.
- A later save of the pin never updates the stored certificate and flag, only the snapshot.

## Model

| member | source | states |
|---|---|---|
| `LedgerRuns.PlatformRevocationIsFinal` | `sgx-enclave/src/modules/auth-engine/auth-engine.js:149-213` | In every run of forwarded revocations, chain syncs, reconciliations, clean-ups, account deletions and signings: if a platform record stands at step i and a signing request of that authorization is approved at a later step j, then somewhere from i to j the record's stored expiry had passed or its account was deleted |
| `LedgerRuns.RevocationsOnlyStrengthen` | `sgx-enclave/src/modules/state-management/state-manager.js:667-743` | Along any stretch of a run that does not drop a record: it stays, its source never falls from platform to contract, its time never moves later, its expiry and hash never become empty again |
| `LedgerRuns.RecordSurvives` | `sgx-enclave/src/modules/state-management/state-manager.js:667-869` | For every step: unless it is one of the five listed ways of dropping the record, the record is still there and at least as strong |
| `LedgerRuns.DroppedRecordIsGone` | `sgx-enclave/src/modules/state-management/state-manager.js:760-869` | The list of ways of dropping is exact: after one of them the record is gone, unless the same request finds the authorization revoked on chain and stores it again as a contract record |
| `LedgerRuns.StandingRecordRefuses` | `sgx-enclave/src/modules/auth-engine/auth-engine.js:149-189` | While an unexpired local record stands, no signing request of that authorization is accepted, whatever the contract would answer |
| `LedgerLaws.SignedIff` | `sgx-enclave/src/modules/auth-engine/auth-engine.js:67-288` | A signing request is signed if and only if its stateless checks pass, it is not late, no unexpired local record stands, the contract says not revoked or cannot be asked and that is allowed, its guid is new, and under cumulative limits its row is active, new, or given back by clearing an expired contract record, and the totals, the token's amount and its count with the first charge fit; limits that are missing or the number zero allow everything |
| `LedgerLaws.ChainAnswerIsStored` | `sgx-enclave/src/modules/auth-engine/auth-engine.js:177-191` | An authorization the contract has revoked is refused; when the write is taken it stands recorded as the contract's, with the contract's time and the request's deadline and hash, over what was left of an expired record, and its row is revoked; nothing else changes |
| `LedgerLaws.StandingRecordIsCompleted` | `sgx-enclave/src/modules/auth-engine/auth-engine.js:157-173` | A local record that stands refuses; only a missing hash, or a missing expiry the request can give, is filled in from the request, and nothing else changes |
| `LedgerLaws.ChecksWrite` | `sgx-enclave/src/modules/auth-engine/auth-engine.js:192-213` | When neither a local record nor the contract refuses: an expired record is dropped or cleared, clearing gives its revoked row back, a request without a row gets one, nothing else changes |
| `LedgerLaws.CommitIff` | `sgx-enclave/src/modules/state-management/state-manager.js:442-490` | The transaction goes through if and only if the guid is new and, under cumulative limits, the row is active or new and the totals, the token's amount and the in-transaction count test fit |
| `LedgerLaws.CommitStores` | `sgx-enclave/src/api/tx-signing.js:220-256` | A commit adds the guid and, if there was none, the text; charges its own row all amounts and once per charge, every token its own charges; nothing else changes |
| `LedgerLaws.ForwardedIsStored` | `sgx-enclave/src/api/auth-revocation.js:167-182` | For every state of the tables a forwarded revocation leaves a platform record with its grantee, the time now or an earlier stored one, and the expiry and hash of the authorization's text, which is then stored; the row is revoked; nothing else changes |
| `LedgerLaws.ForwardedRevocationIsFinal` | `sgx-enclave/src/api/auth-revocation.js:167-182` | In every run, after a forwarded revocation no signing of that authorization is accepted before its account was deleted or the expiry on its record had passed |
| `CleanupLaws.ExpiredAreDropped` | `sgx-enclave/src/modules/state-management/state-manager.js:800-816` | Exactly the records whose expiry has come go; nothing else changes |
| `CleanupLaws.ReconcileDropsTheMissing` | `sgx-enclave/src/modules/state-management/state-manager.js:827-869` | Exactly the unexpired contract records go that a list which could be read does not name; their revoked rows become active; nothing else changes |
| `CleanupLaws.CleaningTakesTheInactive` | `sgx-enclave/src/modules/state-management/state-manager.js:984-1020` | Rows, token rows and guids of exactly the ids under which some row is not active go |
| `CleanupLaws.CascadeTakesTheAccount` | `sgx-enclave/src/modules/webauthn/passkey-manager.js:174-184` | Rows and records of the user go, token rows and guids of the ids of those rows go; texts and everything else stay |
| `CleanupLaws.SyncStoresTheChain` | `sgx-enclave/src/modules/state-management/state-manager.js:885-950` | For an authorization of a user whose list was read: listed, its record has the earliest time, the last grantee and the stored text's hash, a platform record only a missing hash, and its row is revoked; not listed, a contract record goes and its revoked row is active again |
| `Revocations.SyncMirrorsChain` | `sgx-enclave/src/modules/state-management/state-manager.js:885-950` | After a sync, a user whose list was read has as contract-sourced ids exactly the chain ids without the platform-sourced ones, platform records keep source and time, and users whose call failed (or who were not asked about) are unchanged |
| `Revocations.SyncIsIdempotent` | `sgx-enclave/src/modules/state-management/state-manager.js:885-950` | Syncing twice against the same chain equals syncing once, on all tables |
| `Revocations.SyncAt` | `sgx-enclave/src/modules/state-management/state-manager.js:885-950` | The whole sync loop, row by row: what it leaves at any (user, authorization) depends only on that row, the stored hash and that user's chain list |
| `LedgerInvariants.LedgerIsConserved` | `sgx-enclave/src/modules/state-management/state-manager.js:415-431` | In every state of every run from empty tables, the total amount and count of each authorization equal the sums over its token rows, and token rows and guids exist only beside a state row (ids not shared between users) |
| `LedgerInvariants.CommitBalances` | `sgx-enclave/src/api/tx-signing.js:220-256` | A transaction bundle that commits moves totals and token rows by the same amounts, for any number of derived tokens |
| `LedgerInvariants.DropBalances` | `sgx-enclave/src/modules/state-management/state-manager.js:984-1020` | Removing authorizations with everything stored under their ids keeps the sums and leaves no orphan rows |
| `LedgerRaces.NoGuidIsAcceptedTwice` | `sgx-enclave/src/modules/state-management/state-manager.js:962-975` | In any run, if two steps are accepted with the same guid of one authorization, that authorization was purged in between |
| `LedgerRaces.SharedIdsKeepBooksIff` | `sgx-enclave/src/modules/state-management/state-manager.js:500-536` | Without the assumption on ids: a commit keeps totals equal to sums if and only if it opens no new row under an id that has already been charged |
| `LedgerLimits.SingleTokenRunsStayWithinLimits` | `sgx-enclave/src/modules/state-management/state-manager.js:442-536` | With fixed signed limits and one token charged per request, total amount, total count and every token's amount never exceed their limits in any run, also when commits come long after their checks |
| `LedgerLimits.RunsOvershootByExtraTokens` | `sgx-enclave/src/api/tx-signing.js:406-442` | Runs whose requests charge at most n + 1 tokens never pass the total count limit by more than n |
| `LedgerLimits.RawTransactionCanOvershoot` | `sgx-enclave/src/api/tx-signing.js:415-421` | The bound is reached: a raw transaction with two derived tokens is checked for one and charged for both |
| `LedgerAmounts.CommitCapsAmountsIff` | `sgx-enclave/src/api/tx-signing.js:406-442` | A commit with any number of charges keeps total and per-token amounts within their limits if and only if its charges fit together on top of what was used, though the transaction tests the first alone |
| `LedgerAmounts.AcceptedRequestCapsAmountsIff` | `sgx-enclave/src/api/tx-signing.js:406-442` | The same at every accepted request of every run from empty tables |
| `LedgerAmounts.SecondTokenIsNotTested` | `sgx-enclave/src/api/tx-signing.js:415-441` | Whatever the amount of a second charge, the bundle commits; the limits then hold exactly when it happens to fit |
| `LedgerRaces.RecordsStandBesideRevokedRows` | `sgx-enclave/src/modules/state-management/state-manager.js:680-788` | In every run in which no step strands a record (the exact condition of the next row), a record stands only beside a revoked state row |
| `LedgerRaces.StepIsCoherentIff` | `sgx-enclave/src/modules/state-management/state-manager.js:680-788` | Each step of any kind keeps records beside revoked rows if and only if it does not strand one |
| `LedgerRaces.SigningIsCoherentIff` | `sgx-enclave/src/modules/auth-engine/auth-engine.js:149-213` | A signing request breaks it exactly when its record is expired and the store fails to drop it, there was no row, the contract neither says revoked nor has its record cleared, and the checks or the commit open a row |
| `LedgerRaces.SigningCanStrand` | `sgx-enclave/src/modules/auth-engine/auth-engine.js:149-213` | A run from empty tables in which a signing does |
| `LedgerRaces.LateCommitCanStrand` | `sgx-enclave/src/api/tx-signing.js:220-256` | A run from empty tables in which the commit of a request checked earlier does |
| `LedgerRaces.CommitIsCoherentIff` | `sgx-enclave/src/api/tx-signing.js:220-256` | A commit leaves records beside revoked rows if and only if they were so before and it does not open a row beside one |
| `LedgerRaces.LateCommitAfterRevocationIff` | `sgx-enclave/src/modules/state-management/state-manager.js:442-456` | A request checked before a revocation arrived commits after it if and only if its guid is new and either it has no cumulative limits, or its revoked row was already cleaned and the limits allow one charge from zero |
| `LedgerRaces.RevocationCanLoseTheRace` | `sgx-enclave/src/modules/state-management/state-manager.js:442-456` | Such a run: a request without cumulative limits is accepted although the platform record stands |
| `LedgerRaces.TokenCountTestInTxAddsNothing` | `sgx-enclave/src/modules/state-management/state-manager.js:484-488` | The token count test inside the transaction compares with the total count limit, so in a balanced ledger it refuses nothing more, except everything when that limit is a numeric zero |
| `LedgerRaces.TokenCountKeptInTxIff` | `sgx-enclave/src/modules/state-management/state-manager.js:486` | What the transaction accepts keeps the token's own count limit if and only if the total count limit is a numeric zero, or set and no larger |
| `LedgerRaces.UninterruptedRunsCapTokenCounts` | `sgx-enclave/src/modules/state-management/state-manager.js:187-244` | When no request is interrupted between checks and commit, the check before the transaction keeps every token count within its own limit for ever |
| `StateManagement.StateManager.RecordRevocation` | `sgx-enclave/src/modules/state-management/state-manager.js:667-743` | The new tables: merged with the record that was there (higher source, earlier time, first known grantee, newest known expiry and hash), the state row revoked |
| `StateManagement.StateManager.DeleteRevocation` | `sgx-enclave/src/modules/state-management/state-manager.js:760-788` | The record goes only if it has the expected source; then, if asked, its state row is given back when revoked |
| `StateManagement.StateManager.CleanExpiredRevocations` | `sgx-enclave/src/modules/state-management/state-manager.js:800-816` | Exactly the expired records go, their number is returned, no state row is given back |
| `StateManagement.StateManager.ReconcileContractRevocations` | `sgx-enclave/src/modules/state-management/state-manager.js:827-869` | Exactly the unexpired contract records missing from a chain list that could be read go, their rows are restored, their number returned |
| `StateManagement.StateManager.SyncRevocationsFromContract` | `sgx-enclave/src/modules/state-management/state-manager.js:885-950` | The loop over users and chain records leaves the tables the specification of sync gives, and counts exactly the records created, the contract records dropped and the users whose call failed |
| `StateManagement.StateManager.SyncOneUser` | `sgx-enclave/src/modules/state-management/state-manager.js:901-944` | One user's sync and its two counters: records gained and contract records lost |
| `StateManagement.SyncCountsChanges` | `sgx-enclave/src/modules/state-management/state-manager.js:885-950` | The counters of a sync count exactly the records there now and not before, and those there before and not now |
| `StateManagement.StateManager.CleanInvalidatedStates` | `sgx-enclave/src/modules/state-management/state-manager.js:984-1020` | Every authorization with a state row that is not active goes, with all rows, token rows and guids under its id; the number of state rows gone is returned |
| `StateManagement.StateManager.CheckLimits` | `sgx-enclave/src/modules/state-management/state-manager.js:442-490` | The verdict of the limit test in its two forms, before and inside the transaction, on a row found by authorization id: the one there is, or any of several |
| `StateManagement.StateManager.IncrementUsage` | `sgx-enclave/src/modules/state-management/state-manager.js:500-536` | The amount read from a row of the id plus the charge is written to every row of the id, the token row is created or increased |
| `StateManagement.StateManager.CommitBundle` | `sgx-enclave/src/api/tx-signing.js:220-256` | Guid, state row, limits, authorization text and every charge together, or nothing at all; a guid seen before is refused |
| `StateManagement.StateManager.CascadeAccount` | `sgx-enclave/src/modules/webauthn/passkey-manager.js:174-184` | Deleting an account takes its states, revocations, and the token rows and guids under its authorization ids |
| `StateManagement.AuthEngine.CheckRevocation` | `sgx-enclave/src/modules/auth-engine/auth-engine.js:149-213` | Step 6, local first: tables and verdict for every answer of the contract and every write that may fail; it approves if and only if no unexpired local record stands and the contract says not revoked, or cannot be asked and that is allowed |
| `StateManagement.AuthEngine.CheckAll` | `sgx-enclave/src/modules/auth-engine/auth-engine.js:67-288` | The checks in order with the writes step 6 makes on the way |
| `StateManagement.TxSigningHandler.HandleSigningRequest` | `sgx-enclave/src/api/tx-signing.js:132-256` | Verify, then commit: a signature is handed out if and only if the conditions of `LedgerLaws.SignedIff` hold, the guid is then new, and otherwise only the checks have written |
| `StateManagement.AuthRevocationHandler.HandleRevoke` | `sgx-enclave/src/api/auth-revocation.js:167-182` | Whatever the tables hold, a forwarded revocation is stored as a platform record with its grantee, the earlier time, the expiry and hash of the stored text or of the supplied one, which is then stored, and the row is revoked |
| `FreezeRuns.ReachableAccountsAreSound` | `sgx-enclave/src/api/passkey-register.js:201-237` | In every reachable state, at every later time: a freeze in force names a passkey bound to the account, inside the window that is its only passkey, and an account exists exactly while it has a passkey |
| `FreezeRuns.AccountsAreSoundFromTheStart` | `sgx-enclave/src/api/passkey-register.js:201-237` | The same in every run that starts without accounts |
| `FreezeRuns.RecoveryNormalizesTheAccount` | `sgx-enclave/src/api/passkey-register.js:317-352` | From any state, a registration is taken as Owner recovery if and only if it is attested, entitled, has a live challenge, and the key is not already there in an unfrozen account; it ends with exactly the new passkey, no freeze row, the challenge spent, and no other account touched |
| `FreezeRuns.RecoveryIsNotRepeated` | `sgx-enclave/src/api/passkey-register.js:328-340` | The same key again, after its recovery, is refused |
| `FreezeRuns.RegistrationIsSoundIff` | `sgx-enclave/src/api/passkey-register.js:256-261` | A registration keeps the accounts sound if and only if it is not one that names no user and uses the live register challenge of an account inside its freeze, with a credential it does not have |
| `FreezeRuns.FreezeEndsOnlyTwoWays` | `sgx-enclave/src/server.js:370-382` | If a freeze ends at the last step of a run, that step is an Owner recovery, or a handled signed request with the passkey named by the latest freeze or reset, later than that by the freeze time less the cut second |
| `FreezeRuns.FreezeComesFromItsLatestStart` | `sgx-enclave/src/modules/webauthn/account-freeze-manager.js:75-233` | A freeze in force is the one begun by the latest freeze or reset in the run: its passkey and its end; nothing later began or ended it |
| `FreezeRuns.TimeAloneNeverUnfreezes` | `sgx-enclave/src/modules/webauthn/account-freeze-manager.js:317-362` | A run with neither an Owner recovery nor an unfreezing request leaves a frozen account frozen, however late its steps come |
| `FreezeRuns.OnlyTheFrozenPasskeyPasses` | `sgx-enclave/src/modules/webauthn/account-freeze-manager.js:317-362` | A gated request of a frozen account is served if and only if it is handled, signed, after the window and by the named passkey; then the account is unfrozen, otherwise nothing changes |
| `FreezeRuns.StepAndFreeze` | `sgx-enclave/src/server.js:251-302` | Each step begins the freeze with the new passkey and end, ends it in one of the two ways, or leaves the freeze exactly as it was |
| `FreezeRuns.WindowIsWholeSeconds` | `sgx-enclave/src/modules/webauthn/account-freeze-manager.js:97-101` | The stored end lies less than a second before now plus the duration, and never after |
| `RegistrationLaws.OutcomeIff` | `sgx-enclave/src/api/passkey-register.js:184-437` | For every registration and state: exactly when it is a first passkey that freezes a funded account, an added passkey (first without wallets, named by the challenge, or signed by a bound one), a replacement inside a freeze, or an Owner recovery |
| `RegistrationLaws.AddedIsBound` | `sgx-enclave/src/api/passkey-register.js:411-437` | A passkey added comes with the attested key beside those bound; the first of a funded account freezes it with itself for the configured seconds or 72 hours, end cut to a whole second, unless frozen already; nothing else changes |
| `RegistrationLaws.ReplacedIsRenamed` | `sgx-enclave/src/api/passkey-register.js:404-429` | The replacement takes the place of the passkey the freeze named, with the attested key, and the freeze starts over with it; nothing else changes |
| `RegistrationLaws.RecoveredIsAlone` | `sgx-enclave/src/api/passkey-register.js:317-352` | After a recovery the account has this passkey with the attested key alone, and no freeze row |
| `RegistrationLaws.RefusedBindsNothing` | `sgx-enclave/src/api/passkey-register.js:251-284` | A refused registration changes nothing but its challenge, with the exact condition under which that is spent |
| `RegistrationLaws.ServedIff` | `sgx-enclave/src/server.js:251-382` | A gated request is served if and only if its handler takes it and it is exempt, names no user, or its account is not frozen or unlocked by the named passkey after the window; served by unlocking it lifts the freeze, otherwise no freeze changes |
| `RegistrationLaws.ServedDeletes` | `sgx-enclave/src/modules/webauthn/passkey-manager.js:148-191` | A served request deletes exactly the passkeys it names of its own account, and the account when none is left |
| `AccountRuns.RegistrationIsSound` | `sgx-enclave/src/api/passkey-register.js:323-437` | Every registration outcome (first passkey, added passkey, frozen replacement, recovery, refusal) keeps the accounts sound |
| `AccountRuns.ServingIsSound` | `sgx-enclave/src/server.js:251-382` | Gate, handler (including deletion of passkeys) and lift keep the accounts sound |
| `AccountRuns.DeletionTakesTheAccountWithTheLastPasskey` | `sgx-enclave/src/modules/webauthn/passkey-manager.js:148-191` | Exactly the named passkeys go, and the account goes exactly when none is left; no other account changes |
| `RegistrationRuns.NoChallengeBindsTwice` | `sgx-enclave/src/modules/webauthn/challenge-manager.js:180-228` | In any run, between two registrations that go through with the same challenge it has been minted again |
| `RegistrationRuns.BindingSpendsItsChallenge` | `sgx-enclave/src/api/passkey-register.js:251-284` | A registration that goes through found its challenge live, of its user and purpose, and the challenge is gone afterwards |
| `RegistrationRuns.OnlyEntitledKeysAreBound` | `sgx-enclave/src/api/passkey-register.js:201-400` | A passkey appears at an account that already has some only by an attested registration that is an Owner recovery, signed by a bound passkey, a replacement during a freeze, or naming the account through its challenge; no other request adds one |
| `AccountManagement.PasskeyManager.RegisterPasskey` | `sgx-enclave/src/modules/webauthn/passkey-manager.js:36-71` | Row and account are inserted, or nothing when the credential is already bound |
| `AccountManagement.PasskeyManager.DeletePasskeys` | `sgx-enclave/src/modules/webauthn/passkey-manager.js:148-191` | The new tables, how many passkeys went, and whether the account went |
| `AccountManagement.PasskeyManager.RecoveryReplace` | `sgx-enclave/src/modules/webauthn/passkey-manager.js:264-314` | All passkeys of the user are replaced by one; the search for the old key only reports one that had it, and reports one whenever there is one |
| `AccountManagement.PasskeyManager.ReplacePasskey` | `sgx-enclave/src/modules/webauthn/passkey-manager.js:326-342` | The row is renamed in place; it fails without such a row or on a duplicate, and then changes nothing |
| `AccountManagement.AccountFreezeManager.FreezeAccount` | `sgx-enclave/src/modules/webauthn/account-freeze-manager.js:75-129` | A freeze in force is kept, otherwise a new one starts; the end returned is the stored one |
| `AccountManagement.AccountFreezeManager.ResetFreeze` | `sgx-enclave/src/modules/webauthn/account-freeze-manager.js:195-233` | Only a freeze in force starts over, with the new passkey |
| `AccountManagement.AccountFreezeManager.ClearFreeze` | `sgx-enclave/src/modules/webauthn/account-freeze-manager.js:243-263` | The row goes, whatever its state |
| `AccountManagement.AccountFreezeManager.LiftFreeze` | `sgx-enclave/src/modules/webauthn/account-freeze-manager.js:271-293` | Only a freeze in force is marked lifted |
| `AccountManagement.AccountFreezeManager.GetFreezeStatus` | `sgx-enclave/src/modules/webauthn/account-freeze-manager.js:148-174` | Frozen, inside the window, and the passkey named |
| `AccountManagement.AccountFreezeManager.CheckRequest` | `sgx-enclave/src/modules/webauthn/account-freeze-manager.js:317-362` | The gate's verdict for a request |
| `AccountManagement.ChallengeManager.FindChallenge` | `sgx-enclave/src/modules/webauthn/challenge-manager.js:118-152` | Found exactly when live, of the user if one is given, and of the purpose |
| `AccountManagement.ChallengeManager.VerifyAndConsumeChallenge` | `sgx-enclave/src/modules/webauthn/challenge-manager.js:180-228` | As above; and then, and only then, it is gone |
| `AccountManagement.PasskeyRegisterHandler.ChooseScenario` | `sgx-enclave/src/api/passkey-register.js:193-246` | The scenario the flags stand for |
| `AccountManagement.PasskeyRegisterHandler.ForceRecovery` | `sgx-enclave/src/api/passkey-register.js:317-352` | Owner recovery over the three tables, with the guard against repeating it |
| `AccountManagement.PasskeyRegisterHandler.BindInScenario` | `sgx-enclave/src/api/passkey-register.js:355-437` | Each scenario: refused, or bound with the attested key beside the others; a funded account's first passkey freezes it with that passkey and an explicit end, unless frozen already |
| `AccountManagement.PasskeyRegisterHandler.HandleComplete` | `sgx-enclave/src/api/passkey-register.js:152-463` | The whole registration: the tables and the outcome, with the exact condition for a first passkey that freezes, a replacement and a recovery, and the freeze row it leaves |
| `AccountManagement.GatedServer.CheckFreeze` | `sgx-enclave/src/server.js:251-302` | Which requests skip the gate, and the gate's verdict for the others |
| `AccountManagement.GatedServer.Wrap` | `sgx-enclave/src/server.js:248-382` | Gate, handler, lift: a blocked or failing request changes nothing |
| `TarArchive.ReadingUndoesWriting` | `sgx-enclave/src/utils/code-integrity.js:265-318` | For every archive written from a list of items under one top directory (paths in the name field, split over prefix and name, or in pax records; pax headers with other records before any entry; directories and links with prefixes and pax headers of their own; arbitrary other header fields; global headers; duplicates): the reader returns exactly the written paths, each with the hash of its last content |
| `TarArchive.FileIsNamedIff` | `sgx-enclave/src/utils/code-integrity.js:271-300` | However a path is written, the reader uses it if and only if no other pax record before it is taken for a path |
| `TarArchive.HeaderReadsBack` | `sgx-enclave/src/utils/code-integrity.js:271-283` | Octal size, type and name of a written header are read back, and it is never taken for the end of the archive |
| `TarArchive.PaxRecordIsFoundIff` | `sgx-enclave/src/utils/code-integrity.js:291-295` | The path record of a pax header is the one found if and only if the records before it name no path in that form, or the same one |
| `TarArchive.PaxPathOfRecord` | `sgx-enclave/src/utils/code-integrity.js:291-295` | What is found in a pax header: the path of an earlier record if there is one in that form, and else the whole value of the path record |
| `TarArchive.NewlineIsNeverFound` | `sgx-enclave/src/utils/code-integrity.js:294` | A path with a newline is never found, whatever the records |
| `TarArchive.CommentCanHideThePath` | `sgx-enclave/src/utils/code-integrity.js:293-295` | Records are not taken apart by length: a comment that mentions a path in that form is read as the path, whatever follows |
| `TarArchive.LaterFilesWin` | `sgx-enclave/src/utils/code-integrity.js:296-308` | Of several files under one path the last is kept |
| `TarArchive.CutEntryIsCorrupt` | `sgx-enclave/src/utils/code-integrity.js:286-289` | After any well-formed entries, an archive cut inside the data of one is reported as corrupt |
| `TarArchive.FieldIsCut` | `sgx-enclave/src/utils/code-integrity.js:276-281` | A header field ends before its first NUL that no line terminator follows, or is all text without one |
| `TarArchive.SizeOfText` | `sgx-enclave/src/utils/code-integrity.js:281-282` | A size field is read as white space, an optional sign, the octal digits there are and whatever follows them; without digits it is zero |
| `TarArchive.StoreIs` | `sgx-enclave/src/utils/code-integrity.js:301-307` | The part of a name below its first slash is stored if the parts before and after are not empty, otherwise nothing |
| `TarArchive.EntryTaken` | `sgx-enclave/src/utils/code-integrity.js:291-311` | What each type of entry does to the map and to a pax path still waiting, also with several pax or global headers in a row |
| `Tar.ParseTarToSha256Map` | `sgx-enclave/src/utils/code-integrity.js:265-318` | The loop over offsets equals reading entry by entry from the front; the offset is always a multiple of 512 and every slice is in bounds, for every buffer |
| `CodeIntegrity.PassesIffPublished` | `sgx-enclave/src/utils/code-integrity.js:448-523` | Against a written archive, a nonempty local tree matches if and only if package-lock.json below the application root is among its files and every file is the last published under its repository path with the same hash |
| `CodeIntegrity.VerifyCodeIntegrity` | `sgx-enclave/src/utils/code-integrity.js:422-524` | Verified if and only if no repository is set, there is nothing to check, or the local table matches the archive; then every file of the application below an absolute root is archived below sgx-enclave with its hash; rejections count the files at fault |
| `CodeIntegrity.RepoPathIsInjective` | `sgx-enclave/src/utils/code-integrity.js:167-172` | Two absolute enclave paths never map to the same repository path |
| `CodeIntegrity.EveryLocalFileIsHashed` | `sgx-enclave/src/utils/code-integrity.js:448-454` | The local table holds every file with its own hash, and nothing else |
| `CodeIntegrity.CheckedFiles` | `sgx-enclave/src/utils/code-integrity.js:85-99` | A file is checked if and only if some entry stands for it that has no template mark or placeholder and is not below node_modules or one of the system prefixes, each given literally |
| `CodeIntegrity.EntryBelowRoot` | `sgx-enclave/src/utils/code-integrity.js:85-99` | Below an absolute, plain root outside the system prefixes, a plain entry is left out if and only if it begins with node_modules |
| `CodeIntegrity.PassingCoversTheApplication` | `sgx-enclave/src/utils/code-integrity.js:422-524` | A check that passes against a repository means that every file of the application is archived below sgx-enclave with the hash it has here |
| `CodeIntegrity.RepoPathIs` | `sgx-enclave/src/utils/code-integrity.js:167-172` | A file below the root, and only such a file, goes by its path below sgx-enclave; any other by its own path |
| `CodeIntegrity.IncludesIff` | `sgx-enclave/src/utils/code-integrity.js:88` | The filter's text search finds a part exactly when the text has it somewhere |
| `CodeIntegrity.CollectAppFiles` | `sgx-enclave/src/utils/code-integrity.js:85-150` | The files of the entries that are application code, in order (which those are: `CodeIntegrity.CheckedFiles`) |
| `CodeIntegrity.CountMismatches` | `sgx-enclave/src/utils/code-integrity.js:496-508` | The number of local files whose hash differs |
| `Gossip.GossipReachesDistance` | `sgx-enclave/src/sync/sync-manager.js:932-1006` | Once all links are checked in both directions, after k rounds every node knows every other node within distance k + 1; in a round every link delivers a list sent in it at a moment when the addresses of the nodes its sender knew at the start can be connected to, among any other events, unknown nodes dialling in included |
| `Gossip.GossipWithoutStrangers` | `sgx-enclave/src/sync/sync-manager.js:932-1006` | When all known addresses can be connected to and no unknown node dials in, any list sent in the round will do |
| `Gossip.GossipAfterIntroductions` | `sgx-enclave/src/sync/sync-manager.js:525-1006` | The same from any start, once each link has seen a handshake or an advertised address at both ends |
| `Gossip.DeliveryCarriesIff` | `sgx-enclave/src/sync/sync-manager.js:932-1006` | A list that arrives makes known exactly the nodes its sender knew, when it was sent, by an address that can be connected to |
| `Gossip.KnownPeersNeverShrink` | `sgx-enclave/src/sync/sync-manager.js:525-1006` | Over any run what a node knows it keeps knowing |
| `Gossip.NobodyListsItself` | `sgx-enclave/src/sync/sync-manager.js:971-1006` | Over any run no node lists itself and no node is invented |
| `Gossip.LearnAt` | `sgx-enclave/src/sync/sync-manager.js:971-1006` | After a peer list: what was known is unchanged, and exactly the listed connectable other nodes are new |
| `Gossip.HandshakeTells` | `sgx-enclave/src/sync/sync-manager.js:525-542` | A handshake makes its node known, and changes the address only of one known by an inbound address, to one that is not |
| `Gossip.AdvertiseTells` | `sgx-enclave/src/sync/sync-manager.js:758-775` | A ws or wss address advertised by another node replaces what was there; any other is ignored |
| `Gossip.InboundEntryIsStuck` | `sgx-enclave/src/sync/sync-manager.js:932-1006` | Why addresses must be connectable: a node known only by an inbound address stays so through any peer list and is never passed on |
| `PeerManagement.PinChecksAgree` | `sgx-enclave/src/sync/sync-manager.js:680-790` | Between two nodes whose pins hold still, both accept or both refuse; they accept if and only if neither is pinned or both are to the same contract, chain, certificate and mode |
| `PeerManagement.AcceptsPinIff` | `sgx-enclave/src/sync/sync-manager.js:680-751` | An unpinned peer is accepted if and only if the node has no pin even after a refresh, a pinned one if and only if contract, chain, mode and certificate agree now or after a refresh |
| `PeerManagement.SyncManager.ExtractNodeIdFromHandshake` | `sgx-enclave/src/sync/sync-manager.js:525-542` | The peer tables after a handshake |
| `PeerManagement.SyncManager.RecordPeerAdvertisedUrl` | `sgx-enclave/src/sync/sync-manager.js:758-775` | The peer tables after an advertised address |
| `PeerManagement.SyncManager.HandlePinCheck` | `sgx-enclave/src/sync/sync-manager.js:658-675` | An unchecked peer changes the tables only when its pin is accepted |
| `PeerManagement.SyncManager.VerifyPeerPin` | `sgx-enclave/src/sync/sync-manager.js:680-751` | Accepted by comparison with the local pin, read again after a refresh |
| `PeerManagement.SyncManager.HandlePinCheckAck` | `sgx-enclave/src/sync/sync-manager.js:643-656` | A positive answer marks the link as checked, a negative one does not |
| `PeerManagement.SyncManager.BroadcastPeers` | `sgx-enclave/src/sync/sync-manager.js:932-965` | Who gets the list, and that it holds each known connectable other node exactly once |
| `PeerManagement.SyncManager.HandlePeersList` | `sgx-enclave/src/sync/sync-manager.js:971-1006` | Lists of unchecked peers are ignored; otherwise learned, and the count is of the nodes newly known |
| `Backoff.NextDelay` | `sgx-enclave/src/sync/sync-manager.js:827-845` | The step rule and the closed form initial + (n mod k) * increment agree |
| `Backoff.DelayStaysInRange` | `sgx-enclave/src/sync/sync-manager.js:827-845` | The delay stays from initial to max |
| `Backoff.PendingConnections.AddToPending` | `sgx-enclave/src/sync/sync-manager.js:827-845` | After its n-th failure a peer waits the closed form's delay, and is retried then; a connected peer is left alone |
| `Backoff.ReconnectTimer.AdvanceReconnectDelay` | `sgx-enclave/src/modules/contract-client/index.js:843-851` | The same for the contract client's timer |
| `Backoff.FailTogether` | `sgx-enclave/src/modules/contract-client/index.js:843-851` | Run side by side, the two give the same delay after any number of failures |
| `WritePath.LogIsTheCommittedWrites` | `sgx-enclave/src/server.js:313-364` | Over any interleaving of writes, acks, timeouts, term changes and failing commits, the log is the entries of the committed writes, whole and in commit order, and the tables are those the last of them left |
| `WritePath.OnlyCommitsChangeTheDatabase` | `sgx-enclave/src/server.js:326-344` | A step changes the committed database if and only if it is a commit: nothing was logged, or the quorum acked in the term of the prepare; every failure leaves it as before begin |
| `WritePath.EveryPrepareIsSettledOnce` | `sgx-enclave/src/server.js:352-363` | Over any run the prepares of a write are its commits, its aborts and at most one still waiting: abort goes out exactly for what was prepared and not committed |
| `WritePath.PreparedAtMostOnce` | `sgx-enclave/src/server.js:329-334` | A write that begins once is prepared at most once |
| `WritePath.OpenWriteIsAlone` | `sgx-enclave/src/database/connection-manager.js:214-227` | While a write is open, no event of another has any effect |
| `WritePath.PreparedWriteEnds` | `sgx-enclave/src/server.js:313-364` | One write that logs something, whatever other writes try meanwhile: acked in the term of its prepare and committed, its tables and entries are there and prepare and commit were sent; otherwise tables and log are as before and its prepare is followed by an abort |
| `WritePath.UnloggedWriteEnds` | `sgx-enclave/src/server.js:313-364` | One write that logs nothing commits at once and sends nothing; a throwing handler or a failing commit leaves everything as it was |
| `WriteManagement.WriteCoordinator.ExecuteWrite` | `sgx-enclave/src/server.js:319-364` | One request: success if and only if the handler returned, COMMIT worked, and it logged nothing or was acked in an unchanged term; otherwise the database is as before begin; no transaction stays open; which messages were sent |
| `WriteManagement.WriteCoordinator.HandleRequest` | `sgx-enclave/src/server.js:313-364` | A request that begins while another is open is refused and leaves that one as it was |
| `WriteManagement.ConnectionManager.BeginManualTransaction` | `sgx-enclave/src/database/connection-manager.js:214-227` | Refused while one is open; otherwise the view inside starts from the committed one |
| `WriteManagement.ConnectionManager.GetManualTransactionEntries` | `sgx-enclave/src/database/connection-manager.js:236-245` | The rows past the noted sequence number are exactly those this transaction logged |
| `WriteManagement.ConnectionManager.CommitManualTransaction` | `sgx-enclave/src/database/connection-manager.js:253-261` | The view inside becomes the committed one |
| `WriteManagement.ConnectionManager.RollbackManualTransaction` | `sgx-enclave/src/database/connection-manager.js:268-282` | The committed view stays; without an open transaction nothing happens, without a write id whichever is open is rolled back, and the id of another throws |
| `KeyExport.ConfirmDeletesWhatWasExported` | `sgx-enclave/src/modules/key-management/key-export.js:154-339` | Export, any change of the table, confirm: only rows listed with all their fields, private key included, are deleted if and only if no row the export selects was inserted in between; on an unchanged table the rows deleted are exactly those listed |
| `KeyExport.EveryRowIsListedOnce` | `sgx-enclave/src/modules/key-management/key-export.js:346-370` | Each row is listed exactly once over the groups, no two groups share a key, and a group lists the rows of its mnemonic in table order |
| `KeyExport.ExportListsWhatIsSelected` | `sgx-enclave/src/modules/key-management/key-export.js:154-208` | The containers of an export list a row, with its chain, coin type, address, private key and path in the group of its mnemonic, if and only if some item selects it |
| `KeyExport.ConfirmRemovesTheSelected` | `sgx-enclave/src/modules/key-management/key-export.js:259-339` | Confirming needs a live session, removes exactly the rows selected now, counts each once, leaves other sessions, and can be done once |
| `ExportLaws.ExportHandsOut` | `sgx-enclave/src/modules/key-management/key-export.js:154-208` | An export succeeds if and only if every item asks for some row by user, wallet and address; container by container, every row asked for is listed with its private key and other fields in its group, every entry is that of a row asked for, and groups are distinct |
| `ExportLaws.InitiateOpensASession` | `sgx-enclave/src/modules/key-management/key-export.js:205-241` | An export that hands out containers opens a session with its user, items and expiry; otherwise nothing changes |
| `ExportLaws.ConfirmDeletesTheWanted` | `sgx-enclave/src/modules/key-management/key-export.js:259-339` | Confirming goes through for a session that has not run out, deletes exactly the rows its items ask for and ends it; otherwise nothing changes |
| `ExportLaws.NoKeyIsLost` | `sgx-enclave/src/modules/key-management/key-export.js:154-339` | Whatever a confirmation deletes from an unchanged table was handed out with its private key, address and chain |
| `ExportLaws.ListedInTableOrder` | `sgx-enclave/src/modules/key-management/key-export.js:346-370` | A group lists the rows of its mnemonic, or its one bare key, in table order, and over all groups there are as many entries as rows |
| `ExportLaws.GroupHasTypeOfFirstRow` | `sgx-enclave/src/modules/key-management/key-export.js:346-370` | A group has the wallet type of its first row |
| `KeyExporting.KeyExporter.BuildContainerFromRows` | `sgx-enclave/src/modules/key-management/key-export.js:346-370` | The groups built row by row: every row is listed with all its fields in its group, and every entry is that of a row |
| `KeyExporting.KeyExporter.InitiateExport` | `sgx-enclave/src/modules/key-management/key-export.js:154-252` | Containers and session, or nothing when some item selects no row; each container lists exactly the rows its item asks for, field by field |
| `KeyExporting.KeyExporter.ConfirmExport` | `sgx-enclave/src/modules/key-management/key-export.js:259-339` | The tables and the count after deleting item by item and address by address |
| `KeyExporting.KeyExporter.DeleteItem` | `sgx-enclave/src/modules/key-management/key-export.js:293-328` | One item's deletions leave exactly the rows it does not select, and count the others once |
| `ContractPin.ReachablePinHolds` | `sgx-enclave/src/modules/contract-client/index.js:171-241` | Over boots, refreshes and migrations, with no late read and no migration finishing while writes are queued: the stored snapshot came from the stored identity, and the client works with it |
| `ContractPin.IdentityFollowsDeclarations` | `sgx-enclave/src/modules/contract-client/index.js:932-1010` | Over every such run in which no step moves the node between the last declaration of a migration and its end: whenever what is pinned changes, the contract pinned until then declared the new identity as its target in an earlier read of the run, and the new contract's own read returned runtime params |
| `ContractPin.DeclaredMigrationMoves` | `sgx-enclave/src/modules/contract-client/index.js:932-1010` | From any pinned state, a declared target that answers with runtime params becomes the pinned identity |
| `ContractPin.InFlightWasDeclared` | `sgx-enclave/src/modules/contract-client/index.js:311-321` | Every migration under way was declared in a read of the run |
| `ContractPin.DeclaredByTheCurrentIff` | `sgx-enclave/src/modules/contract-client/index.js:932-940` | A migration under way was declared by the contract that is current if and only if the node is where it was when the migration was last declared |
| `ContractPin.UnmovedNodeKeepsItsDeclarer` | `sgx-enclave/src/modules/contract-client/index.js:932-940` | A step that does not move the node keeps every migration under way declared by the current contract |
| `ContractPin.IdentityChangesOnlyByMigration` | `sgx-enclave/src/modules/contract-client/contract-pin-store.js:117-206` | The stored identity appears with a contract that has been read, and afterwards changes, with its flag and certificate, only by a finished migration whose target's own read returned runtime params |
| `ContractPin.EnvironmentNeverReplacesThePin` | `sgx-enclave/src/modules/contract-client/index.js:449-490` | Once a row exists, a boot gives the same result for every environment, and its identity is the row's |
| `ContractPin.OnlyMigrationsMoveThePin` | `sgx-enclave/src/modules/contract-client/contract-pin-store.js:117-160` | Without a finished migration, identity, flag and certificate stay for ever, also under late reads and failing writes |
| `ContractPin.PinnedForever` | `sgx-enclave/src/modules/contract-client/contract-pin-store.js:117-206` | A row that exists never disappears |
| `PinLaws.TrustOnFirstUse` | `sgx-enclave/src/modules/contract-client/index.js:171-241` | A node without a pin that boots, reads its contract and gets its engine has that contract pinned, with the flag and certificate of that read, through all later boots, refreshes and failing writes, until a migration |
| `PinLaws.BootIs` | `sgx-enclave/src/modules/contract-client/index.js:171-241` | Row, queue, identity, certificate, flag and cache after a boot, field by field |
| `PinLaws.EngineSetIs` | `sgx-enclave/src/modules/contract-client/contract-pin-store.js:42-53` | The write queued last is made when the engine comes: a save keeps an existing row's identity, a move replaces the row |
| `PinLaws.RefreshIs` | `sgx-enclave/src/modules/contract-client/index.js:247-321` | What a refresh leaves, saved, queued or failing, field by field |
| `PinLaws.MigrationIs` | `sgx-enclave/src/modules/contract-client/index.js:932-1010` | A migration moves row and client to its target if and only if the target was read, has runtime params, and the write goes through or is queued; in any case it is no longer under way |
| `ContractPin.RefreshKeepsPinIff` | `sgx-enclave/src/modules/contract-client/index.js:247-252` | A refresh keeps the snapshot with its identity if and only if it read the contract that is current when it is applied |
| `ContractPin.QueuedMigrationIsLost` | `sgx-enclave/src/modules/contract-client/contract-pin-store.js:42-53` | A migration that finishes before the engine is injected, followed by a refresh, is lost at the flush: the old identity stays with the new contract's snapshot |
| `ContractPin.OvertakenMigrationStillMoves` | `sgx-enclave/src/modules/contract-client/index.js:932-1010` | From any pinned state, a regular run in which a contract declares b, then c, and the node moves to b and on to c although b declared nothing |
| `ContractClient.ContractPinStore.Save` | `sgx-enclave/src/modules/contract-client/contract-pin-store.js:99-112` | Written, or queued before the engine is there; identity, flag and certificate of a row stay |
| `ContractClient.ContractPinStore.UpdateIdentity` | `sgx-enclave/src/modules/contract-client/contract-pin-store.js:167-179` | Written whole, or queued over what was queued |
| `ContractClient.ContractPinStore.SetEngine` | `sgx-enclave/src/modules/contract-client/contract-pin-store.js:42-53` | The one queued write is flushed in its mode |
| `ContractClient.ContractPinStore.WriteSave` | `sgx-enclave/src/modules/contract-client/contract-pin-store.js:117-152` | A row that exists keeps its identity and gets the snapshot |
| `ContractClient.ContractClient.LoadPinAndOverrideIdentity` | `sgx-enclave/src/modules/contract-client/index.js:449-490` | The row, if there is one, replaces what the environment says |
| `ContractClient.ContractClient.Initialize` | `sgx-enclave/src/modules/contract-client/index.js:171-241` | A boot: client and store for any environment and any outcome of the read |
| `ContractClient.ContractClient.ApplyContractData` | `sgx-enclave/src/modules/contract-client/index.js:311-321` | Cache, pin and started migration after a read |
| `ContractClient.ContractClient.SavePin` | `sgx-enclave/src/modules/contract-client/index.js:497-516` | The pin saved; a failing save leaves flag and certificate of the client |
| `ContractClient.ContractClient.RefreshCache` | `sgx-enclave/src/modules/contract-client/index.js:247-252` | A refresh: cache, pin and migration after a read, nothing after a failed one |
| `ContractClient.ContractClient.FinishMigration` | `sgx-enclave/src/modules/contract-client/index.js:932-1010` | The end of a migration, for any answer of the target and any failure |
| `ContractClient.ContractClient.SwitchTo` | `sgx-enclave/src/modules/contract-client/index.js:974-1004` | The pin is updated first; when that fails nothing has changed |
| `TrustContract.EveryRunRefines` | `contracts/contracts/WalletTrustContract.sol:181-265` | Over every run of adds and swap-and-pop removes, by owners and others, flag, array and index stand for the plain table the same calls build: flags say who is a member, the index finds each |
| `TrustContract.ArrayListsMembersOnce` | `contracts/contracts/WalletTrustContract.sol:181-265` | The array lists every member exactly once, with its details, and nothing else |
| `TrustContract.RemoveRefines` | `contracts/contracts/WalletTrustContract.sol:205-221` | Swap and pop, the last element included, removes exactly that key |
| `TrustContract.WhitelistStorage.AddEntry` | `contracts/contracts/WalletTrustContract.sol:236-243` | Accepted exactly for owner, nonzero key, not yet a member; a refused call changes nothing |
| `TrustContract.WhitelistStorage.RemoveEntry` | `contracts/contracts/WalletTrustContract.sol:248-265` | Accepted exactly for owner and member |
| `TrustContract.WhitelistStorage.SwapAndPop` | `contracts/contracts/WalletTrustContract.sol:254-262` | The three structures after the removal |
| `TrustContract.RevocationListsAreAppendOnly` | `contracts/contracts/WalletTrustContract.sol:312-352` | Over any calls each user's list grows only at its end and holds exactly one record per revoked authorization and none for others; nothing is taken back |
| `TrustContract.RevokedOnce` | `contracts/contracts/WalletTrustContract.sol:312-352` | A valid first call appends its record; a second is refused |
| `TrustContract.RevokedByItsFirstCall` | `contracts/contracts/WalletTrustContract.sol:312-352` | Over any calls to a new contract an authorization is revoked if and only if one of them for it gave user, authorization, grantee and a valid signature, and the user's list holds exactly the first such calls, with their grantee and time |
| `TrustContract.RevocationRegistry.RevokeAuthorization` | `contracts/contracts/WalletTrustContract.sol:312-352` | Flag and list after a call, accepted exactly when its checks pass |
| `NtpClock.EstimateIsWithinHalfTheDelay` | `sgx-enclave/src/utils/monotonic-clock.js:124-131` | With an exact server and non-negative path delays, the estimate at receipt is off by at most half the round trip plus the truncation, whatever the error of the local clock |
| `NtpClock.TimestampIsAccurateIff` | `sgx-enclave/src/utils/monotonic-clock.js:45-51` | A server's timestamp is read as its time less the truncation if and only if the 32-bit seconds have not wrapped |
| `NtpClock.MajorityBindsTheMedian` | `sgx-enclave/src/utils/monotonic-clock.js:159-173` | If more than half of the valid answers lie in an interval, so does the median of an odd number; of an even number up to the rounding to a millisecond |
| `NtpClock.CalibratedClockIsBound` | `sgx-enclave/src/utils/monotonic-clock.js:187-212` | With a majority of good answers the clock is, from then on, late by no more than those and early by no more than those, the wait for the slowest server and a millisecond |
| `NtpClock.WaitingSetsTheClockBack` | `sgx-enclave/src/utils/monotonic-clock.js:187-212` | The wait is really lost: a server that times out beside an exact one sets the clock back by as long as it was waited for |
| `NtpClock.SortedIsOrdered` | `sgx-enclave/src/utils/monotonic-clock.js:166` | Sorting orders the answers and keeps as many in any interval |
| `NtpClock.MedianIs` | `sgx-enclave/src/utils/monotonic-clock.js:159-173` | The median is the middle one of the answers in order, or of an even number the mean of the two middle ones without its fraction |
| `NtpClock.EstimateIff` | `sgx-enclave/src/utils/monotonic-clock.js:107-131` | A reply gives an estimate if and only if it is in server mode and of some stratum, by the offset formula over its two timestamps |
| `NtpClock.ValidAre` | `sgx-enclave/src/utils/monotonic-clock.js:159-163` | The valid answers are those there are, each as often as given |
| `NtpClock.MonotonicClock.CalibrateFromNtp` | `sgx-enclave/src/utils/monotonic-clock.js:187-212` | The clock then reads the median of the valid answers; without any it is left as it was |
| `AbiTokens.TransferAndApproveReadBack` | `sgx-enclave/src/modules/signing/transaction-signer.js:478-546` | For every amount below 2^256, deriving tokens from an encoded transfer or approve gives exactly the contract and the amount, after the native entry when value moves |
| `AbiTokens.OneOrTwoTokens` | `sgx-enclave/src/modules/signing/transaction-signer.js:478-602` | There are always one or two tokens; a native one exactly when value moves, and first |
| `AbiTokens.FailsIff` | `sgx-enclave/src/modules/signing/transaction-signer.js:478-602` | The derivation throws if and only if data calls a 42-character address other than zero with none of the four selectors, or with an amount that is missing or not hexadecimal |
| `AbiTokens.DerivedTokens` | `sgx-enclave/src/modules/signing/transaction-signer.js:478-602` | The list of tokens otherwise: native when value moves, then the contract called, or unknown |
| `AbiTokens.DecimalIsTheNumber` | `sgx-enclave/src/modules/signing/transaction-signer.js:478-500` | The chain id in a token's name is its decimal text |
| `AbiTokens.TransferFromIsReadAcrossWords` | `sgx-enclave/src/modules/signing/transaction-signer.js:548-566` | What is derived for a transferFrom: the low 96 bits of the recipient above the high 160 bits of the amount |
| `AbiTokens.TransferFromIsExactIff` | `sgx-enclave/src/modules/signing/transaction-signer.js:552-554` | The amount derived for a transferFrom is the encoded one if and only if it has one particular form made of the recipient's low bits |
| `AbiTokens.DeriveTokenAddressFromParsedTx` | `sgx-enclave/src/modules/signing/transaction-signer.js:478-602` | Tokens of any parsed transaction, or the failure of an unknown selector or unreadable amount |

## Left out

- Cryptography and key derivation: verdicts of signatures, attestations and WebAuthn are inputs, hashes are functions; encryption of exports is not modelled.
- The replication engine of the sync library: elections, follower transactions, last-writer-wins merging between nodes and full sync are not part of this model; acks, timeouts and terms are events, and rows arriving from other nodes are not modelled.
- Network, sockets, timers, routing, HTTP statuses, logging, attestation quotes, the Gramine launcher and deployment scripts.
- Read-only and formatting handlers, field-presence validation and JSON syntax: payloads are parsed records; a blank user id counts as absent.
- The columns created_at, updated_at and _hlc, the signature counter of passkeys, import sessions and lifted_at.
- Text encoding: paths and header fields are compared as bytes; replacement of invalid UTF-8 and non-ASCII white space in a size field are not modelled.
- `Tar.ParseTar` ends with Backwards on a size of -512 or less, by which the source would step back in the buffer; what it does then is not modelled.
- Archives with two pax headers before one entry, or with a global header between a pax header and its entry, are not written by the reference writer.
- Rounding of floating point: NTP arithmetic is over real numbers; the timestamp conversion itself is exact in the source.
- `NtpClock.Sort` stands for the library's sort, so the answers are sorted as a value and not in place.
- Downloading and unpacking the archive, resolving repository URLs and walking directories: the buffer and the files below an entry are parameters.
- Two refreshes of the contract cache interleaving inside one application of its data, and a pin row that cannot be read at boot.
- A recovery whose passkeys were replaced but whose freeze row could not be deleted: a handler's writes go through together.
- AccountManagement.PasskeyManager.DeletePasskeys: import sessions and wallets of the account are not tables here; its authorization data is in the ledger (`StateManagement.StateManager.CascadeAccount`).
- `signAndUpdate`, the standalone `incrementUsage` and `deepMergeConfig`, which the request handlers do not use.
- StateManagement.StateManager.CascadeAccount: does not remove wallets and import sessions, which are not tables of the ledger.
- WritePath.OpenWriteIsAlone: covers requests that go through the coordinator; writes of timer tasks that join an open transaction inside the sync library are not part of this model.
- StateManagement.StateManager.CommitBundle: with several rows under one authorization id it promises all or nothing, the guid and the text, but not which row the limits were tested on.
- WriteManagement.ConnectionManager.WriteInside logs one row per entry of the handler, as the engine's triggers do; row formats are not modelled.
