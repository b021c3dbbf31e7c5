# RouteKit, verified

A Dafny model of the stateful protocols and algorithms at the core of RouteKit, a
daemon that pools subscription accounts behind a gateway. Each module follows one
source file in that file's own form: objects that are updated in place are classes
with methods and loops, expression code is functions, and protocols whose steps
interleave are step functions over which runs are quantified. Every method is
proved against a specification, and the main results are lemmas about all inputs,
all runs or all crash points.

`dafny verify dfyconfig.toml` checks the project.

## Modules

- `AccountTransaction`, `DaemonGenerations`, `AccountEnroll`: crash-safe account
  mutation. The disk is a map of files with atomic writes plus the transaction
  directories, and keeps the history of its states, so that "a crash at any point"
  is "any state of the history". Every write, removal, hook and start may fail.
- `AuthHealth`: the coordinator of credential recovery, with deferreds as cells
  that are written once.
- `SubscriptionExecutor`: the failover loop with its selector. Other requests act
  between two steps (`PoolSelector.Interfere`), the capacity pool grants or refuses
  at will, and the answers of providers and of the coordinator are arbitrary.
- `RateLimitTracker`: cooldown revisions of trackers that share one map, with what
  others run in between as a parameter.
- `RuntimeState`, `Idempotency`: serialised mutations and at-most-once control calls.
- `Utf16`, `JcsText`, `Jcs`: the RFC 8785 canonicalizer, with a JSON reader as its
  independent reference.
- `ThemeWrap`: wrapping of styled text, with plain greedy wrapping as its reference.
- `Reasoning`: effort-qualified model names, advertised and resolved.
- `Flags`: edit distance, with scripts of single edits as its reference, and typo
  suggestions.
- `Octets`, `Jwt`: DER signatures to JOSE, against the grammar of DER elements.
- `SubscriptionStream`: the relay of event streams, for every chunking and every
  behaviour of the decoder.
- `Activity`: entry objects that attempts hold on to while accounts are renamed,
  removed and reloaded.
- `CallIndex`: the bounded call index, against a list of everything recorded.
- `Wrappers`: options and results.

## Where the code differs from what it promises

- The commit marker of an enrollment is durable before the router is swapped, and a
  failure between the two (refreshing the sidecar, the commit stage) undoes config,
  revisions and the covered files without resetting it. A crash inside that undoing
  can leave a mix of old and new files: `AccountEnroll.WholeIffOnDisk` says exactly
  when, from what a caller knows before the call, `AccountEnroll.LateCrash` for any
  disk, and `AccountEnroll.MixedAfterLateCrash` is an instance.
- What throws inside a generator (the hooks behind the prepare record, the marker and
  the swap, writing the marker, reading the config back, applying the config, reading
  the credential files) does not reach the handlers that undo. Nothing is undone then:
  a crash is all or nothing throughout, but the daemon may go on with its old views
  over new files, and the branch of an enrollment that swaps the router back is never
  reached (`AccountEnroll.Enroll`).
- If it is the commit stage that throws, the views are the new ones, the active router
  is a closed candidate, and the proxy goes on serving the previous router, which the
  next success leaves open for good (`DaemonGenerations.Daemon.Replace`,
  `DaemonGenerations.Daemon.DieThenReplace`; `DaemonGenerations.DeadCommit` is an
  instance).
- `markRefreshed` overwrites whatever its new key holds; a waiter is lost exactly if
  that is another live recovery (`AuthHealth.AccountAuthCoordinator.MarkRefreshed`;
  `AuthHealth.LoseWaiter` is a run).
- A request on probation can wait for itself: when its streaming response shows output
  and a rejected credential, the recovery that it starts waits for the claim that the
  request itself holds, if no other member is eligible. It never answers, and keeps its
  lease and its claim, unless others take the entry away
  (`SubscriptionExecutor.Executor.ObserveFailure` has the exact condition,
  `AuthHealth.WaitsForItself` the same on the coordinator).
- A claim on a recovery stays open, and its waiters wait, in six cases: the refresh
  dies, the refreshed file cannot be read, a write fails after the claim was marked
  refreshed, no attempt can be made on its member, the attempt on probation throws, or
  it does not end. `SubscriptionExecutor.Executor.Execute` proves that there is no
  other; `AuthHealth.FailAfterMark` shows why the third is not repaired.
- A request whose attempt begins when the activity coordinator is closed keeps its
  lease counted for good, and one that throws, or is aborted while it waits, while a
  leased member is made ready never returns that lease to the capacity pool
  (`SubscriptionExecutor.Executor.Execute`, `stranded`).
- A pool member's cached cooldown can be stale after expired cooldowns are cleared:
  when it was cooled for good while the tracker persisted, when a later turn of the
  loop let its cooldown change, or when a write failed
  (`RateLimitTracker.ClearExpiredCooldowns`; `RateLimitTracker.CooledAgain` is an
  instance).
- An interrupted queued mutation releases its successor early
  (`RuntimeState.PrematureOverlaps`), and a daemon that is shut down while paused can
  be resumed (`RuntimeState.ShutdownRetires`).
- `canonicalize` writes nothing for a hole in an array (`Jcs.HolesCollide`), and it
  escapes lone surrogates where RFC 8785 asks for an error.
- `wrapAnsi` passes a paragraph that fits on as it is, so a style that it leaves open
  is neither closed at its end nor reopened on the next line (`ThemeWrap.Wrapped`).
- Model ids are meant to be resolved against the longest base first, but entries are
  ordered by the longer of their two names; without collisions an id may still not
  resolve (`Reasoning.NoCollisionsIsNotEnough`).
- After a rename that is rolled back, `reload` keeps accounts with live attempts under
  their new identity although the file does not name it
  (`Activity.AccountActivityCoordinator.Reload`).

## Model

| member | source | states |
|---|---|---|
| `AccountTransaction.AccountRelativePath` | packages/daemon/src/account-transaction.ts:63-71 | Succeeds exactly for paths strictly inside the root; root plus result is the path. |
| `AccountTransaction.DescribeTargets` | packages/daemon/src/account-transaction.ts:132-162 | The targets of a transaction are the distinct account paths, each below the first allowed root that contains it, then config and revisions; an error exactly when a path has no root. |
| `AccountTransaction.SaveTargets` | packages/daemon/src/account-transaction.ts:163-189 | Backups and records describe every target as it is on disk; no file changes, and after a crash in any state recovery gives the untouched files. |
| `AccountTransaction.WritePrepareRecord` | packages/daemon/src/account-transaction.ts:190-207 | The prepare record exists only behind complete backups: on success the disk is armed to go back to the present files, and recovery gives the present files in any case. |
| `AccountTransaction.Prepare` | packages/daemon/src/account-transaction.ts:116-208 | Preparing changes no file; every state on the way recovers to the files it started from; on success exactly the account paths, config and revisions are covered. |
| `AccountTransaction.ReplayForgets` | packages/daemon/src/account-transaction.ts:210-229 | Replaying restoring writes gives the same files whatever the touched files held before. |
| `AccountTransaction.RestoreAgain` | packages/daemon/src/account-transaction.ts:210-229 | A restore cut short after any number of writes and run again ends where an uninterrupted one ends. |
| `AccountTransaction.RecoverAgain` | packages/daemon/src/account-transaction.ts:266-281 | Recovery from any cut inside the restoration of a directory gives the result of recovery from its start. |
| `AccountTransaction.ArmedRecovers` | packages/daemon/src/account-transaction.ts:256-282 | A prepared, intact transaction takes the disk back to exactly the files it was prepared on. |
| `AccountTransaction.QuietRecovers` | packages/daemon/src/account-transaction.ts:266-282 | When only unprepared and committed transactions are left, recovery changes no file and clears them. |
| `AccountTransaction.RestorePrepared` | packages/daemon/src/account-transaction.ts:210-229 | Restores in order, stops at the first backup that cannot be trusted or write that fails; every state on the way is a partial restore of the first one. |
| `AccountTransaction.Rollback` | packages/daemon/src/account-transaction.ts:231-237 | On success the disk is the fully restored one without the transaction, whatever the marker says; on failure it is a partial restore. |
| `AccountTransaction.MarkCommitted` | packages/daemon/src/account-transaction.ts:239-242 | One atomic write of the marker: files stay, and the record in memory says committed even if the write fails. |
| `AccountTransaction.RecoverDirectory` | packages/daemon/src/account-transaction.ts:266-281 | Settles one directory; every state on the way, and the last one, has the recovery outcome of the first. |
| `AccountTransaction.RecoverAll` | packages/daemon/src/account-transaction.ts:256-291 | Recovery under any number of crashes: every state it leaves on disk has the same recovery outcome as the first, and the counters are the numbers of prepared and other directories. |
| `DaemonGenerations.FollowsUndo` | packages/daemon/src/daemon-generations.ts:175-207 | Undoing steps leave an unmarked course unmarked and are what makes a marked one late, with each file new or the one that undoing writes. |
| `DaemonGenerations.NewFilesRead` | packages/daemon/src/daemon-generations.ts:166-175 | What a restarted daemon reads after a successful mutation is the new document and revisions. |
| `DaemonGenerations.Daemon.PrepareCandidate` | packages/daemon/src/daemon-generations.ts:129-157 | A candidate is started and validated, or closed again with the sidecar restored unless something threw; the views and the disk do not change. |
| `DaemonGenerations.Daemon.PersistStage` | packages/daemon/src/daemon-generations.ts:166-175 | Writes config, revisions and the mutation state along the allowed course, and reads back the document it committed; once the marker is set the files are the new ones. |
| `DaemonGenerations.Daemon.UndoPersist` | packages/daemon/src/daemon-generations.ts:180-190 | Every file on the way is as found or the undone one, and a complete undo puts the previous document and revisions back on disk. |
| `DaemonGenerations.Daemon.CommitOrUndo` | packages/daemon/src/daemon-generations.ts:213-266 | The stage dies exactly if applying the config or reading the credential files throws, and the views are then the candidate and its document and revisions, as on success; after a failure they are the previous ones again. |
| `DaemonGenerations.Daemon.Replace` | packages/daemon/src/daemon-generations.ts:107-296 | With a failure at any stage: on success the proxy serves the active router; the views change exactly on success and when the commit stage dies, and in the latter case the active router is one that is not served; only a success closes a router that was open before; a clean rollback of a settled daemon is settled; the disk follows the marker course. |
| `DaemonGenerations.Daemon.Retire` | packages/daemon/src/daemon-generations.ts:267-293 | Retiring the previous router never fails and closes nothing else. |
| `DaemonGenerations.Daemon.ReplaceEach` | packages/daemon/src/daemon-generations.ts:107-296 | Over any sequence of replacements: the proxy serves the active router if and only if no commit stage has died since the last success, or since a start that served; the views are those of the last replacement that switched them; a run with only successes and clean rollbacks keeps a settled daemon settled. |
| `DaemonGenerations.Daemon.DieThenReplace` | packages/daemon/src/daemon-generations.ts:267-283 | After a dead commit the next success retires the candidate that was never served; the router that was served stays open and nothing refers to it. |
| `DaemonGenerations.DeadCommit` | packages/daemon/src/daemon-generations.ts:213-222 | An instance: with a credential file that cannot be read the commit stage leaves new views and revisions over an unserved router. |
| `DaemonGenerations.RevisionsCountSwitches` | packages/daemon/src/daemon-generations.ts:161-164 | Over any such sequence each revision is its start plus the number of requests that asked for it and switched the views, by success or by a dead commit. |
| `AccountEnroll.CrashThenRecover` | packages/daemon/src/account-enroll-service.ts:249-352 | What the old-or-new clause in the contract of `Enroll` means for a crash: recovery ends with all the old files or with all the new ones. The result itself is that contract. |
| `AccountEnroll.LateCrash` | packages/daemon/src/account-enroll-service.ts:310-324 | Once undoing runs behind the marker, every crash leaves all old or all new files if and only if undoing changed nothing, or old and new files differ at one path at most and undoing wrote nothing else. |
| `AccountEnroll.SteadyBlends` | packages/daemon/src/daemon-generations.ts:182-189 | On a disk that holds what the daemon would write back, undoing writes old files only. |
| `AccountEnroll.OnlyRevisionsDiffer` | packages/daemon/src/account-enroll-service.ts:228-266 | A condition to check before the call: on such a disk old and new files differ at one path at most exactly if the credentials and the config are on disk already. |
| `AccountEnroll.WholeIffOnDisk` | packages/daemon/src/account-enroll-service.ts:228-352 | The exact boundary from what a caller knows: on such a disk all crashes behind the marker are all or nothing iff undoing changed nothing or credentials and config were on disk already. |
| `AccountEnroll.WholeIffUnmoved` | packages/daemon/src/account-enroll-service.ts:228-247 | For what gets past the early return, where the provider is new or a credential is not on disk, they are all or nothing iff undoing changed nothing. |
| `AccountEnroll.MixedAfterLateCrash` | packages/daemon/src/account-enroll-service.ts:296-316 | The boundary is real: a disk on which recovery after such a crash is neither old nor new. |
| `AccountEnroll.ReplacementIsAtomic` | packages/daemon/src/account-enroll-service.ts:282-303 | Every disk state of the replacement is pending on the old files, or committed to the new ones until an undoing step runs behind the marker; from there on it is quiet and a blend of new and undone files. |
| `AccountEnroll.RestoredIsBase` | packages/daemon/src/account-enroll-service.ts:313-316 | A complete rollback brings every covered file back. |
| `AccountEnroll.Begin` | packages/daemon/src/account-enroll-service.ts:249-266 | Beginning changes no file and every state recovers to the old files. |
| `AccountEnroll.Activate` | packages/daemon/src/account-enroll-service.ts:270-308 | Credentials, replacement, marker and cleanup: on success all files are the new ones and the daemon serves them; what fails, fails before the swap with the old views and keeps the way back; the views are new without a swap exactly if the commit stage died. |
| `AccountEnroll.Undo` | packages/daemon/src/account-enroll-service.ts:310-350 | The failure handler restores the covered files and, if the router was swapped, swaps back; behind the marker each state is quiet and a blend of what it found and the old files. |
| `AccountEnroll.Enroll` | packages/daemon/src/account-enroll-service.ts:228-352 | The whole transaction: all old or all new under a crash in any state before `late`, which is the end unless an undoing step ran behind the marker; from `late` on, recovery keeps a mix whose all-or-nothing condition is exact; and what files and views each outcome leaves: the views are new exactly after the swap and when the commit stage died, and only a step that threw can follow the swap, so nothing is ever swapped back. |
| `AuthHealth.KeyParts` | packages/accounts/src/auth-health.ts:108-110 | Identity and fingerprint are read back from an entry key when the identity has no NUL. |
| `AuthHealth.EntryKeyInjective` | packages/accounts/src/auth-health.ts:108-110 | Keys of NUL-free identities determine identity and fingerprint. |
| `AuthHealth.BelongsToIdentity` | packages/accounts/src/auth-health.ts:507-512 | For NUL-free identities the prefix test is equality of identities. |
| `AuthHealth.BackoffBaseGrows` | packages/accounts/src/auth-health.ts:475-478 | The backoff base never shrinks with more attempts. |
| `AuthHealth.RetryDelay` | packages/accounts/src/auth-health.ts:476-480 | The delay is at least 0.8 times the base and at most 1.2 times it or the provider delay, whichever is larger, with the base capped at 300000 ms. |
| `AuthHealth.MoveRecovery` | packages/accounts/src/auth-health.ts:394-406 | Moving a recovery to another key keeps the unsettled deferreds exactly those held if and only if that key holds no other live recovery. |
| `AuthHealth.AccountAuthCoordinator.OneOwner` | packages/accounts/src/auth-health.ts:614-619 | Two live claims are for the same recovery exactly when they are for the same key. |
| `AuthHealth.AccountAuthCoordinator.ClosedIsSettled` | packages/accounts/src/auth-health.ts:598-608 | A closed coordinator has no live recovery. |
| `AuthHealth.AccountAuthCoordinator.Register` | packages/accounts/src/auth-health.ts:306-318 | Adds an unknown entry and a current fingerprint where there is none, and changes nothing else. |
| `AuthHealth.AccountAuthCoordinator.TakeSnapshot` | packages/accounts/src/auth-health.ts:320-331 | A superseded fingerprint is reported as such; otherwise the entry is reported, registering it if it is new. |
| `AuthHealth.AccountAuthCoordinator.MarkAccepted` | packages/accounts/src/auth-health.ts:333-352 | Accepts exactly when the fingerprint is current and its entry is unknown or accepted. |
| `AuthHealth.AccountAuthCoordinator.BeginRecovery` | packages/accounts/src/auth-health.ts:354-392 | Owner, waiter, blocked or superseded, each under its exact condition; only an owner changes anything, and it adds the one unsettled deferred of its entry. |
| `AuthHealth.AccountAuthCoordinator.MarkRefreshed` | packages/accounts/src/auth-health.ts:394-406 | A stale claim changes nothing; a live one goes on probation with its deferred. No waiter is lost if and only if the new key holds no other live recovery. |
| `AuthHealth.LoseWaiter` | packages/accounts/src/auth-health.ts:394-406 | A run that loses a waiter: both fingerprints of an identity are being recovered, and one refresh yields the other fingerprint. |
| `AuthHealth.FailAfterMark` | packages/accounts/src/auth-health.ts:394-455 | A refresh that was marked can no longer be failed: the recovery stays on probation and its waiters are told nothing. |
| `AuthHealth.WaitsForItself` | packages/accounts/src/auth-health.ts:354-392 | Whoever asks for a recovery of a credential that is on probation under its own claim is told to wait for that very claim. |
| `AuthHealth.AccountAuthCoordinator.FinishProbation` | packages/accounts/src/auth-health.ts:408-446 | Exactly a probation of the claim, in the claim identity, ends; its entry and its waiters get the same outcome. |
| `AuthHealth.AccountAuthCoordinator.FailRefresh` | packages/accounts/src/auth-health.ts:448-495 | Exactly the owner can fail a refresh; the entry is rejected or backs off and its waiters are told the same. |
| `AuthHealth.AccountAuthCoordinator.ActivateFingerprint` | packages/accounts/src/auth-health.ts:507-521 | Other fingerprints of the identity go, their waiters are told unknown, and nobody else is told anything. |
| `AuthHealth.AccountAuthCoordinator.ReconcileActiveCredentials` | packages/accounts/src/auth-health.ts:523-543 | Exactly the active credentials keep or get entries; waiters of stale ones are told unknown. |
| `AuthHealth.AccountAuthCoordinator.Rename` | packages/accounts/src/auth-health.ts:545-568 | Entries of the source move below the target, pending ones as unknown; waiters on either side are told unknown; other identities keep everything. |
| `AuthHealth.MovedIsRenamed` | packages/accounts/src/auth-health.ts:545-562 | Relocating the entries one by one gives the renamed map. |
| `AuthHealth.AccountAuthCoordinator.Remove` | packages/accounts/src/auth-health.ts:570-576 | The entries of the identity go and their waiters are told unknown. |
| `AuthHealth.AccountAuthCoordinator.Reload` | packages/accounts/src/auth-health.ts:578-596 | Entries come from the file except pending recoveries, which are kept; the current fingerprints are rebuilt from the keys in map order; an invalid file changes nothing. |
| `AuthHealth.LastDecides` | packages/accounts/src/auth-health.ts:588-594 | Rebuilt that way, the current fingerprint of an identity is that of its last key, and identities without keys have none. |
| `AuthHealth.AccountAuthCoordinator.Close` | packages/accounts/src/auth-health.ts:598-608 | Every unsettled deferred is settled as unknown. |
| `AuthHealth.DecodeAuthState` | packages/accounts/src/auth-health.ts:130-189 | The loop computes the decoding: later entries win, one bad entry makes the file invalid. |
| `AuthHealth.EncodeAuthState` | packages/accounts/src/auth-health.ts:191-217 | The encoding lists exactly the rejected and backoff entries. |
| `AuthHealth.RoundTrip` | packages/accounts/src/auth-health.ts:130-217 | Decoding the encoding of a keyed, storable state gives exactly its rejected and backoff entries, in whatever order they are listed. |
| `AuthHealth.RoundTripNeedsNulFree` | packages/accounts/src/auth-health.ts:191-194 | One entry survives the round trip if and only if its identity has no NUL. |
| `SubscriptionExecutor.CountConserves` | packages/accounts/src/subscription-pool-selection.ts:203-204 | Counting a lease keeps every member counter equal to its leases in flight. |
| `SubscriptionExecutor.ReleaseConserves` | packages/accounts/src/subscription-pool-selection.ts:247-249 | So does releasing one; its member counter is at least one before. |
| `SubscriptionExecutor.PoolSelector.Acquire` | packages/accounts/src/subscription-pool-selection.ts:122-222 | A granted lease is new, counted, and on a member that is not excluded. Every other lease that it took is returned, except for one whose member was being made ready when the request threw or stopped answering. Leases of others are untouched, and retrying ends. |
| `SubscriptionExecutor.PoolSelector.UseLease` | packages/accounts/src/subscription-pool-selection.ts:180-221 | A leased member is made ready and revalidated; the lease is granted, or returned before the search goes on, or kept uncounted by a throw or an endless wait. |
| `SubscriptionExecutor.PoolSelector.AcquireProbation` | packages/accounts/src/subscription-pool-selection.ts:224-245 | A granted lease is new, counted, and on the member on probation. |
| `SubscriptionExecutor.PoolSelector.Release` | packages/accounts/src/subscription-pool-selection.ts:247-249 | The counter drops by one; the clamp at zero never decides. |
| `SubscriptionExecutor.Accounts.RecoverAuthentication` | packages/accounts/src/account-set.ts:570-648 | A recovery excludes the member, yields a claim on probation, fails, spends one of the answers that settle nothing, or waits without end. A claim that is not handed on is settled, taken away by others, or left open by one recorded fault, which only an exclusion after a failed write and a death can add. It waits for its own caller exactly if it meets a claim of the caller that is still open and has nobody to give way to. |
| `SubscriptionExecutor.Accounts.AwaitItself` | packages/accounts/src/account-set.ts:589-603 | Such a wait ends exactly if others take the entry away meanwhile. |
| `SubscriptionExecutor.Accounts.RefreshCredential` | packages/accounts/src/account-set.ts:606-630 | The owner takes a claim and accounts for it: it is left refreshing only with a fault of its own, when the refresh dies or the fingerprint of the refreshed file cannot be read, and then the recovery dies. |
| `SubscriptionExecutor.Accounts.PutOnProbation` | packages/accounts/src/account-set.ts:609-630 | A refreshed claim is handed on, settled for a caller that went away, or given up when others took it; a write that fails after it was marked leaves it on probation. |
| `SubscriptionExecutor.Accounts.AfterFailure` | packages/accounts/src/account-set.ts:631-645 | The handler of a failed refresh settles a claim that is still refreshing and does nothing for one on probation. |
| `SubscriptionExecutor.Accounts.EnsureFresh` | packages/accounts/src/account-set.ts:822-852 | A claim taken to refresh a leased credential is settled at once, taken away by others, or one of the faults. |
| `SubscriptionExecutor.Executor.Conclude` | packages/accounts/src/subscription-request-executor.ts:191-331 | What follows an attempt: each retry makes progress on exclusion, absorption, a claim, or an answer spent; the claim of a probation attempt is left open exactly if the attempt threw or does not end. |
| `SubscriptionExecutor.Executor.ObserveFailure` | packages/accounts/src/subscription-request-executor.ts:384-408 | A rejected credential seen in a stream that goes on is recovered without keeping the claim; what fails is ignored and what dies fails the attempt. The request waits for its own claim iff the attempt is on probation, its claim is open under the fingerprint in use, and no other member is eligible. |
| `SubscriptionExecutor.Executor.Attempt` | packages/accounts/src/subscription-request-executor.ts:161-331 | The lease is released exactly once before an attempt returns, unless a clean response took it over; an attempt that waits without end keeps it. |
| `SubscriptionExecutor.Executor.Iterate` | packages/accounts/src/subscription-request-executor.ts:128-333 | One turn keeps the books balanced and advances the lexicographic measure, or closes the books; it does not end exactly if its last wait does not. |
| `SubscriptionExecutor.Executor.Execute` | packages/accounts/src/subscription-request-executor.ts:102-336 | The loop ends iff each of its waits for a recovery does; it makes at most 4n + k attempts for n members and k answers that settle nothing; every lease is returned, except for one that a streaming response took over, that a request which does not end holds, or that it died with: refused by a closed activity coordinator, or not counted yet. The claims left open are exactly those of the faults, less those that others took away, and a request that answers has no fault but failed writes after a refresh. |
| `SubscriptionExecutor.BooksAfterAttempt` | packages/accounts/src/subscription-request-executor.ts:161-331 | The accounting behind the bound: two attempts for each member excluded or absorbed, one for each spent answer and for a claim in hand. |
| `RateLimitTracker.RevisionsCount` | packages/accounts/src/rate-limit-tracker.ts:196-255 | Over every run of trackers on one map, a revision is its start plus the number of cooldown changes. |
| `RateLimitTracker.UnchangedCooldown` | packages/accounts/src/rate-limit-tracker.ts:196-255 | A run without changes of a cooldown leaves time and context as they were. |
| `RateLimitTracker.ClearRemovesWhatWasSeen` | packages/accounts/src/rate-limit-tracker.ts:207-255 | A clear that names the revision read earlier takes effect only if nothing has changed the cooldown since: what it removes is what was seen. |
| `RateLimitTracker.RenameForgetsRevisions` | packages/accounts/src/rate-limit-tracker.ts:257-264 | The hypothesis without rename is needed: after a rename a clear removes a cooldown its client never saw. |
| `RateLimitTracker.Tracker.Cool` | packages/accounts/src/rate-limit-tracker.ts:196-205 | The method is the cooling operation, and answers the new revision. |
| `RateLimitTracker.Tracker.ClearCooling` | packages/accounts/src/rate-limit-tracker.ts:207-220 | Clears exactly when the member cools at the expected revision, with a new revision. |
| `RateLimitTracker.Tracker.ReconcileSnapshot` | packages/accounts/src/rate-limit-tracker.ts:222-242 | Merges the limits and clears only a recovered snapshot at the expected revision. |
| `RateLimitTracker.Tracker.ResetAfterRefresh` | packages/accounts/src/rate-limit-tracker.ts:244-255 | Drops the limits and clears at the expected revision, cooling or not. |
| `RateLimitTracker.RecooledCools` | packages/accounts/src/rate-limit-tracker.ts:196-255 | A member that does not cool cools after a run of operations exactly if one of them cools it and none after that clears it. |
| `RateLimitTracker.ClearExpired` | packages/accounts/src/subscription-pool-selection.ts:352-359 | After one turn the cached pair is what the tracker holds if and only if there was nothing to clear, or the clear was persisted and the member was not cooled for good meanwhile. |
| `RateLimitTracker.CooledAgain` | packages/accounts/src/subscription-pool-selection.ts:352-356 | An instance: a member that is cooled once while its clear is persisted counts as not cooling for its client. |
| `RateLimitTracker.ClearExpiredCooldowns` | packages/accounts/src/subscription-pool-selection.ts:348-362 | The whole loop, up to the first write that fails: each expired copy agrees at the end iff its own clear was persisted without the member being cooled for good meanwhile, and no later turn came with a change of its cooldown; all other copies are left alone. |
| `RateLimitTracker.Probe` | packages/accounts/src/account-set.ts:438-461 | A probe with a copy that is not ahead clears only if the copy was up to date and nothing changed during the fetch; its copy agrees afterwards iff the write succeeded, or it agreed before and nothing has changed. |
| `RuntimeState.StepKeepsOrder` | packages/daemon/src/daemon-runtime-state.ts:117-138 | A step keeps the admission order if and only if it does not interrupt an operation that waits for an unfinished one. |
| `RuntimeState.PatientRunsAreSerial` | packages/daemon/src/daemon-runtime-state.ts:117-138 | Over every run without such an interruption operations start in admission order and at most one is at work. |
| `RuntimeState.PrematureOverlaps` | packages/daemon/src/daemon-runtime-state.ts:129-137 | The hypothesis is exact: every such interruption of a running daemon can go on to two operations at work at once. |
| `RuntimeState.AwaitedIsIdle` | packages/daemon/src/daemon-runtime-state.ts:112-115 | Once the tail read by a stopped daemon is settled, nothing is queued or at work, and that lasts until it is resumed. |
| `RuntimeState.RetiredStaysStopped` | packages/daemon/src/daemon-runtime-state.ts:80-110 | No step brings a retiring daemon back. |
| `RuntimeState.RetiredIsIdleForGood` | packages/daemon/src/daemon-runtime-state.ts:80-115 | After beginRetire and a completed wait no mutation ever runs again. |
| `RuntimeState.ShutdownRetires` | packages/daemon/src/daemon-runtime-state.ts:74-78 | beginShutdown stops mutations for good if and only if the daemon is not paused; a paused one can be resumed although it is closed. |
| `RuntimeState.DaemonRuntimeState.BeginRetire` | packages/daemon/src/daemon-runtime-state.ts:80-91 | The step, and whether it was the one that began to retire. |
| `RuntimeState.DaemonRuntimeState.Pause` | packages/daemon/src/daemon-runtime-state.ts:101-106 | Pauses a running daemon and fails for any other. |
| `RuntimeState.DaemonRuntimeState.SerializeEffect` | packages/daemon/src/daemon-runtime-state.ts:117-138 | Admits exactly while running, behind the previous tail, and becomes the tail. |
| `RuntimeState.DaemonRuntimeState.Release` | packages/daemon/src/daemon-runtime-state.ts:134-137 | The finalizer settles the deferred of the operation, started or not. |
| `Idempotency.StartIsOnce` | packages/control/src/index.ts:191-236 | Starting a run when no entry has its key keeps at-most-once: between two runs for one key the entry of the first failed, expired or was evicted. |
| `Idempotency.OneGoes` | packages/control/src/idempotency-store.ts:46-59 | An entry that leaves with a recorded event keeps every run accounted for and completed entries no more than before. |
| `Idempotency.KeyIsInjective` | packages/control/src/index.ts:184-187 | Different method and key pairs have different store keys, as method names have no colon. |
| `Idempotency.IdempotencyStore.Get` | packages/control/src/idempotency-store.ts:29-40 | The live entry; a completed one past its time goes, with a recorded expiry, and nothing else does. |
| `Idempotency.IdempotencyStore.Set` | packages/control/src/idempotency-store.ts:42-44 | A new pending entry at the newest end, recorded as started. |
| `Idempotency.IdempotencyStore.Complete` | packages/control/src/idempotency-store.ts:46-54 | A stale completion changes nothing; otherwise the entry completes and exactly the oldest entries over capacity are evicted, pending ones included; completed entries never exceed the capacity. |
| `Idempotency.IdempotencyStore.Delete` | packages/control/src/idempotency-store.ts:56-59 | Only the own entry of the run is deleted. |
| `Idempotency.ControlHandler.Call` | packages/control/src/index.ts:183-236 | Conflict, joining and running, each exactly under its condition; a call that runs records its start and holds the entry of its key. |
| `Idempotency.ControlHandler.Settle` | packages/control/src/index.ts:237-244 | A settled run never touches a newer entry of its key. |
| `JcsText.StringRoundTrip` | packages/contracts/src/jcs.ts:25-26 | Every text, lone surrogates included, reads back from its quoted form, whatever follows (section 3.2.2.2 of RFC 8785). |
| `JcsText.NumberRoundTrip` | packages/contracts/src/jcs.ts:19-24 | Every finite number reads back from its ECMAScript form, except that zero loses its sign (section 3.2.2.3 of RFC 8785). |
| `Utf16.SortSorts` | packages/contracts/src/jcs.ts:32-34 | Keys are listed in strictly ascending code-unit order, the same keys (section 3.2.3 of RFC 8785). |
| `Utf16.SortedIsUnique` | packages/contracts/src/jcs.ts:32-34 | Only one sorted list has a given set of keys. |
| `Jcs.ValueReads` | packages/contracts/src/jcs.ts:14-50 | The canonical text of a value, with anything delimited behind it, reads back as the meaning of the value and that rest, if and only if no array in the value has a hole. |
| `Jcs.FailsOnUnrepresentable` | packages/contracts/src/jcs.ts:14-50 | Canonicalization fails exactly for values JSON cannot represent. |
| `Jcs.SameMeaningSameText` | packages/contracts/src/jcs.ts:27-39 | Member order, undefined members and the sign of zero do not change the text. |
| `Jcs.Injective` | packages/contracts/src/jcs.ts:14-50 | Two values without holes have the same text exactly when they mean the same JSON value. |
| `Jcs.HolesCollide` | packages/contracts/src/jcs.ts:28-30 | The hypothesis is needed: an array with one hole has the text of the empty array. |
| `ThemeWrap.Drop` | packages/cli-ui/src/theme.ts:94-99 | The removal in place keeps exactly the codes that are not dropped, in order. |
| `ThemeWrap.ApplySgr` | packages/cli-ui/src/theme.ts:92-106 | The open codes after a style sequence. |
| `ThemeWrap.ReopenRestores` | packages/cli-ui/src/theme.ts:127-131 | Reopening the open codes on a reset terminal brings back exactly that list and shows nothing. |
| `ThemeWrap.SplitClean` | packages/cli-ui/src/theme.ts:117-133 | Splitting never cuts a style sequence, and commutes with stripping. |
| `ThemeWrap.Wrapping.AddWord` | packages/cli-ui/src/theme.ts:133-164 | One word advances the visible layout as plain text would, keeps what is shown and the open codes. |
| `ThemeWrap.Wrapping.AddSplit` | packages/cli-ui/src/theme.ts:149-163 | A word too wide for a line fills whole lines, with the codes reopened on each. |
| `ThemeWrap.WrapParagraph` | packages/cli-ui/src/theme.ts:117-168 | The lines show, each from a reset terminal, the ink of the paragraph under the same codes, break where the plain text breaks, and all close their styles iff the paragraph is wrapped or closes its own. |
| `ThemeWrap.WrapIsGreedy` | packages/cli-ui/src/theme.ts:133-147 | Plain wrapping keeps every word that fits unbroken, in order, and no line could have taken the first word of the next. |
| `ThemeWrap.WrappedFits` | packages/cli-ui/src/theme.ts:114-170 | Every line fits the width, shows the paragraph, and is wrapped greedily. |
| `ThemeWrap.WrapAnsi` | packages/cli-ui/src/theme.ts:114-170 | The lines are such blocks, one for each paragraph in order; without a positive width the text is returned as it is. |
| `Reasoning.EffortToken` | packages/contracts/src/reasoning.ts:126-136 | A token exists exactly when the candidate extends the base by a colon and more, and qualifying with it gives the candidate back. |
| `Reasoning.ResolveReasoningEffort` | packages/contracts/src/reasoning.ts:138-148 | The first option with that id or alias. |
| `Reasoning.DescriptorsAre` | packages/contracts/src/reasoning.ts:156-180 | The advertised efforts are the non-empty option ids, each once. |
| `Reasoning.ReasoningEffortDescriptors` | packages/contracts/src/reasoning.ts:156-180 | The loop computes the descriptors, for supported capabilities only. |
| `Reasoning.EnumerateModelEffortVariants` | packages/contracts/src/reasoning.ts:355-375 | The loop computes the base variant and one for each descriptor. |
| `Reasoning.ModelEffortVariantCollisions` | packages/contracts/src/reasoning.ts:382-400 | The sorted answer holds exactly the ids that two variants share with different model or selection. |
| `Reasoning.ResolveModelEffortVariant` | packages/contracts/src/reasoning.ts:409-470 | The loops compute the resolution: exact names first, then the first claim of the stable order by weight. |
| `Reasoning.HeaviestDecides` | packages/contracts/src/reasoning.ts:433-463 | A qualified id is decided by an entry of the greatest weight among those that claim it. |
| `Reasoning.RoundTripsInEveryOrder` | packages/contracts/src/reasoning.ts:355-470 | Every advertised id resolves back to its model and selection in every order of the catalog if and only if each id is settled: a base is named only by entries of its model, and a qualified id is nobody's name and answered alike by all its heaviest claims. |
| `Reasoning.SeparateRoundTrips` | packages/contracts/src/reasoning.ts:355-470 | Distinct names, no base that is or extends another by a colon and no alias before its id are enough. |
| `Reasoning.NoCollisionsIsNotEnough` | packages/contracts/src/reasoning.ts:382-463 | A catalog without collisions whose ids do not all resolve back: entries are ordered by the longer of their two names, not by the base that matches. |
| `Flags.Levenshtein` | packages/cli-core/src/flags.ts:6-22 | The loop over one row computes the recursive edit distance. |
| `Flags.NextRow` | packages/cli-core/src/flags.ts:9-20 | One turn of the outer loop turns a row of the table into the next one, in place. |
| `Flags.ZeroIffEqual` | packages/cli-core/src/flags.ts:6-22 | The distance is zero exactly for equal texts. |
| `Flags.Symmetric` | packages/cli-core/src/flags.ts:6-22 | The distance is symmetric. |
| `Flags.Triangle` | packages/cli-core/src/flags.ts:6-22 | The triangle inequality. |
| `Flags.ShortestScript` | packages/cli-core/src/flags.ts:6-22 | A script of single-letter edits as long as the distance exists. |
| `Flags.ScriptIsLong` | packages/cli-core/src/flags.ts:6-22 | No script of single-letter edits is shorter than the distance. |
| `Flags.Nearest` | packages/cli-core/src/flags.ts:42-46 | The loop finds the first of the nearest known flags. |
| `Flags.FindFlagTypos` | packages/cli-core/src/flags.ts:31-52 | The typos answer, in order, exactly the suspect arguments before a bare "--" that have a nearest flag within the threshold. |
| `Flags.OneAnswerOnly` | packages/cli-core/src/flags.ts:31-52 | Arguments and flags determine that answer. |
| `Flags.NothingNear` | packages/cli-core/src/flags.ts:47-49 | An unknown name is never at distance zero, so that guard never decides. |
| `Jwt.ReadDerLength` | apps/workload-identity/src/jwt.ts:156-169 | Accepts exactly the short form and long forms of one or two octets, and gives their value. |
| `Jwt.ReadDerInteger` | apps/workload-identity/src/jwt.ts:171-181 | Accepts exactly an integer element of at most 256 bits, and gives its unsigned value without leading zeros. |
| `Jwt.DerToJoseEs256` | apps/workload-identity/src/jwt.ts:184-196 | Accepts exactly a sequence of two such integers and nothing more; the result is their unsigned values, 32 octets each (section 3.4 of RFC 7518). |
| `Jwt.OneSignature` | apps/workload-identity/src/jwt.ts:184-196 | An input holds at most one pair of integers. |
| `Jwt.RoundTrip` | apps/workload-identity/src/jwt.ts:184-196 | For all r and s below two to the power 256 the DER encoding (sections 8.1.3 and 8.3 of X.690) is accepted and only converts to r and s. |
| `SubscriptionStream.ConcatSubscriptionBytes` | packages/accounts/src/subscription-stream.ts:41-49 | The buffer is the concatenation of the chunks. |
| `SubscriptionStream.ReadBoundedBody` | packages/accounts/src/subscription-stream.ts:51-79 | The whole body if and only if it arrives and is within the cap; released exactly once in any case. |
| `SubscriptionStream.Relay.FillPrelude` | packages/accounts/src/subscription-stream.ts:202-220 | The bounded loop reads up to the first chunk that brings too many bytes, throws, or shows output or a failure; exactly when it throws, and whether it released. |
| `SubscriptionStream.Relay.ReadPrelude` | packages/accounts/src/subscription-stream.ts:202-233 | The exact outcome: it throws iff reading, the cap, an inspection, a flush, the callback or cancelling does; a failure without output ends with exactly the bytes read so far; otherwise the stream opens with at most 1 MiB buffered. |
| `SubscriptionStream.Relay.Pull` | packages/accounts/src/subscription-stream.ts:235-260 | The next upstream chunk in order, the clean end or an error, each exactly under its condition; an end releases. |
| `SubscriptionStream.Relay.Drain` | packages/accounts/src/subscription-stream.ts:235-276 | The body closes iff the upstream ends well, the last flush does not throw and no remaining chunk errors it, and then the client has all upstream chunks in order; otherwise it has those before the first that errors. The callback has run, once, iff there is one and a failure was found. |
| `Activity.AccountActivityCoordinator.BeginAttempt` | packages/accounts/src/activity.ts:165-179 | One more live attempt, counted on the entry object of the identity alone, which becomes the only latest one when the clock has not gone back. |
| `Activity.AccountActivityCoordinator.Release` | packages/accounts/src/activity.ts:175-178 | The first call lowers the count of the attempt's object by one, others nothing; the clamp never decides. |
| `Activity.OnMore` | packages/accounts/src/activity.ts:165-179 | A new attempt is counted on one object only. |
| `Activity.AccountActivityCoordinator.LatestIdentity` | packages/accounts/src/activity.ts:274-287 | The loop finds an identity that nobody was selected after, if any was selected. |
| `Activity.AccountActivityCoordinator.TakeSnapshot` | packages/accounts/src/activity.ts:181-191 | The count is the number of live attempts on the account. |
| `Activity.AccountActivityCoordinator.Rename` | packages/accounts/src/activity.ts:193-205 | Attempts of the source follow it; those of a stale target stay counted on its object. |
| `Activity.AccountActivityCoordinator.Remove` | packages/accounts/src/activity.ts:207-216 | The account goes; its object keeps counting its attempts. |
| `Activity.AccountActivityCoordinator.Reload` | packages/accounts/src/activity.ts:223-242 | Accounts are those of the file and those with live attempts, which keep their objects; selections come from the file. |
| `CallIndex.CallAttributionStore.Prune` | packages/daemon/src/call-attribution-store.ts:346-351 | Stopping at the first fresh record removes exactly the expired ones. |
| `CallIndex.CallAttributionStore.ConfigureBudget` | packages/daemon/src/call-attribution-store.ts:289-299 | Under the new budget the entries are the newest fresh ones; the flag says whether any was evicted. |
| `CallIndex.CallAttributionStore.OnModelCall` | packages/daemon/src/call-attribution-store.ts:305-318 | The record is the newest, in place of an earlier one of its call. |
| `CallIndex.CutAgain` | packages/daemon/src/call-attribution-store.ts:309-317 | Pruning and evicting can be repeated at later times without changing what is left. |
| `CallIndex.IndexNext` | packages/daemon/src/call-attribution-store.ts:305-318 | Recording on the index of a history is the index of the longer history. |
| `CallIndex.RetainedExactly` | packages/daemon/src/call-attribution-store.ts:289-351 | Over every run with a clock that does not go back and any budget changes: the latest record of a call is held iff at every operation since it was made it was unexpired and fewer newer calls than the limit had been recorded, under the budget then in force; its place is behind exactly those calls. |
| `CallIndex.EntriesWereMade` | packages/daemon/src/call-attribution-store.ts:289-351 | Nothing else is held: every entry is the latest record of its call. |
| `CallIndex.RunIsNewest` | packages/daemon/src/call-attribution-store.ts:289-351 | Over every such run the entries are in order of their latest record, and none is missing between one that is held and the newest. |
| `CallIndex.RunIsIndex` | packages/daemon/src/call-attribution-store.ts:289-351 | Where the budget does not change this is what a list of everything recorded gives: latest record of each call, not expired, newest up to the limit. |

## Left out

- File modes other than those restored, symbolic links, directory creation and backups that are not UTF-8 text.
- `..` segments in the relative paths of a manifest; the removal of the empty transactions root; the id, kind, provider and labels of a manifest.
- The validation of enrollment parameters before the transaction, and the other account mutations of the daemon.
- For cliproxy accounts the auth-state file is not covered by the transaction; it is outside the old-or-new claim (`AccountEnroll.Slack`).
- Reads and writes of the auth, activity and rate-limit state files by the coordinators themselves, and the order in which auth accounts are listed, which is alphabetical by locale.
- `Interfere` and `Environment` in `SubscriptionExecutor` stand for other requests, timers, the provider and the coordinator; the time they take and the strategy of the capacity pool are not modelled, and provider calls, writes and the capacity pool are taken to answer. Waits for recoveries are not: they may go on for ever.
- The renaming of rate-limit windows to canonical keys, and the model-dependent choice of windows in cooldown contexts.
- The Effect runtime: fibers are steps between yields and deferreds are cells; fairness and interruption of running operations beyond their finalizer are not modelled.
- Idempotency.IdempotencyStore.Set: is proved for the turn in which `get` found nothing, which is how the handler uses it.
- Calls without an idempotency key, observers, schema validation and handler results in the control handler; fingerprints are taken as given.
- JcsText.NumberRoundTrip: a double is given as its shortest decimal digits and point; computing those digits from the bits is not modelled.
- Objects with getters or cycles in the canonicalizer: values are plain data.
- ThemeWrap.WrapAnsi: text has escapes only in style sequences and one column for each visible unit; wide and zero-width characters are measured by a library.
- Codecs other than `<base>:<effort>`, budgets and adaptive selections, and the words of error messages in model resolution.
- The collection of known flags from commands and the printing of the warning.
- JSON web tokens apart from the signature conversion.
- The event decoder and JSON parsing of stream events; the responses that are not event streams; headers and status of responses.
- Debounced persistence of activity.
- The decoding of call records into inspections, and the call index reading operations `size`, `truncated` and `clear`.
- The recovery of a credential whose rejection shows only after the response was handed on, which the detached queue of a stream runs, and interruption of a request from outside.
- RateLimitTracker.ClearExpiredCooldowns: what other requests of the same generation do to the cached copies while the loop runs; its operations are those of other generations.
- RateLimitTracker.Probe: usage fetching with its own recovery, reset credits and the decision whether a snapshot has recovered are parameters.
