# Gork: a verified model

Gork is a gateway that leases pooled accounts and proxy clearances to upstream calls. This project models
its stateful core in Dafny and proves what that core promises over every input, every run and every
interleaving of its critical sections.

Code that changes state in the repository is a class or a looping method here; each method is tied to a
function of the old state, and the laws are lemmas about those functions and about runs of them. What a
function of the old state amounts to, amounts and bounds included, is stated once more without it, in the
predicates and lemmas that speak of columns, amounts and times alone.

## The model, part by part

**Account runtime table and directory** (`account_*.dfy`). `AccountModel` is the table as a value: one row
per slot, the operations on it, and what one pool's selection may return. `AccountTable.RuntimeTable` is the
object with its token index, its (pool, mode) index and its tag index; `Valid` says that the mode index holds
exactly the active slots with a positive window, and every method that changes the table keeps it.
`AccountFeedback`, `AccountSync`, `AccountSelector` and `AccountDirectory` are the operations.
`AccountSelection` says exactly, on every table, which picks indexed, windowed, preferring, scoring selection
over several pools can make, and when it fails; that it agrees with one linear scan of the original table
unless the score floor hides a slot; and that the failure reason is the partition of the slots in scope.
`AccountReplica` proves the table a replica of the repository: after any rounds of the change feed, complete
or broken off in the middle, with the repository changing in between, every record at or below the cursor is
reflected, and a drained table equals a fresh load. `AccountRuns` interleaves reservations, releases,
feedback, sync rounds and repository writes: leases are conserved, the replica stays covered, slots keep their
tokens, a tombstoned account is never leased. `AccountCooldown` shows that a rate-limited account is not leased
again before its window may restart, and an unauthorized one not before its record is synced again.

**Dispatch** (`dispatch.dfy`, `dispatch_runs.dfy`). The retry loop around a lease, with its trace of reserves,
runs, releases and feedback; then any number of callers of the loop interleaved over one directory, with the
outstanding leases exactly those in their hands, down to zero counters when all have returned.

**Proxy clearance directory** (`proxy_*.dfy`). `ProxyModel` holds the critical sections as functions,
`ProxyEgress` the choice of an address, `ProxyDirectory` the object, and `ProxyRuns` callers that look up,
wait, refresh, record, drop and close in any order beside reloads, challenges and scheduled refreshes, at a
nondecreasing clock.

**Media cache** (`media_cache.dfy`). Files and index rows of one media type, least-recently-used trimming to
a low watermark, reconciling.

**Console pacer** (`pacer.dfy`). One next-allowed time per model; callers queue, sleep, delay and give up.

**Quota windows and account state machine** (`quota_windows.dfy`, `account_state_machine.dfy`). What happens
to a quota window, and what a list of feedbacks folded over a stored account amounts to.

**Codecs, estimator, stream formatter** (`grpc_frames.dfy`, `proto_fields.dfy`, `token_estimate.dfy`,
`messages_stream.dfy`). gRPC-Web framing (the Length-Prefixed-Message section of gRPC over HTTP/2), base-128
varints and the schema-less field reader (the Protocol Buffers encoding specification), the run-length token
scanner, and the Anthropic event stream without tools. `text.dfy` holds the string operations several of
these share.

## Where a plain statement fails, and the exact condition

- Single flight does not survive a reload that drops a key with a refresh in flight:
  `ProxyRuns.DroppingReloadBreaksSingleFlight` is such a run, and `ProxyRuns.StepSingleFlight` gives the exact
  condition on a reload.
- The quota strategy can refuse an admissible slot whose last use lies far in the future, because its score
  falls below the floor of the best-of loop: `AccountSelection.FloorRefusesFutureSlot`. On every table
  `AccountSelection.NonePickedIff` says when a reservation fails, and when that is the verdict of the linear
  scan; `AccountSelection.FlooredIff` puts the condition on a slot in terms of the clock.
- The Active branch of `ApplyStatusChange` indexes by quota while every other path indexes by window:
  `AccountFeedback.ApplyStatusChange` states when the index stays right, and
  `AccountFeedback.ReactivationMissesSlot` makes it wrong.
- The size field is not always the number of live slots: `AccountSync.SizeKeptIff` says which records keep it
  so, and `AccountSync.ReAddedTokenLosesCount` is the usual one that does not.
- A lease that goes out directly can have a clearance no reload keeps: `ProxyEgress.KeptIff`, with
  `ProxyEgress.ResourceProxyAloneLosesDirect` as the case.
- The event stream is not always well bracketed: `MessagesStream.WellBracketedIff` says exactly when it is
  (thinking that starts after text, or thinking that no text event closes before images or references, breaks
  it); `MessagesStream.MisorderedStreams` has one of each.
- A super or heavy console window is never restored by the periodic reset, because those pools have no console
  default: `QuotaWindows.NeverStuck` is an equivalence with having one, `QuotaWindows.SuperStaysExhausted` a
  window that stays empty.
- A list with a message of 2^32 bytes or more does not read back from its frames, and any other does:
  `GrpcFrames.ReadsBackIff`.
- A joined text can be estimated one token lower than its parts: `TokenEstimate.LosesExactly` says when, and
  `TokenEstimate.SplitWordLosesOne` is the smallest case.

## Model

| member | source | states |
|---|---|---|
| AccountModel.ModeVals.Set | app/dataplane/account/table.go:120-186 | a write through a mode's column is read back for that mode and, for ids outside 0..4, for every other such id; no other mode changes |
| AccountTable.RuntimeTable.constructor | app/dataplane/account/table.go:111-118 | a new table is empty and its indexes agree with it |
| AccountTable.RuntimeTable.AddToIndexes | app/dataplane/account/table.go:188-203 | the slot enters exactly the mode buckets of its pool for which it is active with a positive window; no other membership changes |
| AccountTable.RuntimeTable.RemoveFromIndexes | app/dataplane/account/table.go:205-213 | the slot leaves every mode bucket of its pool; no other membership changes |
| AccountTable.RuntimeTable.RemoveFromTagIdx | app/dataplane/account/table.go:215-221 | the slot leaves exactly the buckets of the given tags |
| AccountTable.RuntimeTable.AddToTagIdx | app/dataplane/account/table.go:223-230 | the slot enters exactly the buckets of the given tags |
| AccountTable.TagsMoved | app/dataplane/account/table.go:215-230 | read back from the buckets, the slot's tags are the old ones less those removed plus those added, and no other slot's tags change |
| AccountTable.RuntimeTable.AppendSlot | app/dataplane/account/table.go:232-272 | the table gains one row at the end with its token and tags, every column the slot determines holding its value or the nearer bound (quota -1..32767, total 0..32767, window from 0, fails 0..65535), without a lease; every earlier slot is kept, and both indexes agree afterwards |
| AccountTable.RuntimeTable.UpdateSlot | app/dataplane/account/table.go:274-308 | every column the slot determines holds its value or the nearer bound; in-flight count, health and cooling are kept, the tags are exchanged, and both indexes agree afterwards |
| AccountModel.WrittenHolds | app/dataplane/account/table.go:232-382 | a new row and a rewritten one hold the slot: values in range as they are, others at the nearer bound; a new one starts with no lease, a rewritten one keeps leases, health and cooling |
| AccountFeedback.ApplySuccessQuota | app/dataplane/account/feedback.go:13-17 | quota of the mode falls by one, not below zero, and health rises, capped at one; nothing else changes and the index stays right |
| AccountFeedback.ApplyRateLimitedQuota | app/dataplane/account/feedback.go:23-28 | quota of a known mode becomes zero and health falls; nothing else changes |
| AccountFeedback.ApplyRateLimitedRandom | app/dataplane/account/feedback.go:30-40 | quota of a known mode becomes zero and its reset time is pushed to now plus cooling, never pulled in |
| AccountFeedback.ApplyStatusChange | app/dataplane/account/feedback.go:54-79 | only the status changes; leaving Active keeps the mode index right, becoming Active keeps it right if and only if each mode has quota exactly when it has a window |
| AccountFeedback.ReactivationMissesSlot | app/dataplane/account/feedback.go:54-79 | a reactivated slot with a window but no quota is left out of the mode index |
| AccountFeedback.ApplyQuotaUpdate | app/dataplane/account/feedback.go:81-94 | stores the clamped reading and its reset time; entering the bucket never makes the index wrong |
| AccountFeedback.IncrementInflight | app/dataplane/account/feedback.go:96-98 | one more lease on the slot, saturating at 65535 |
| AccountFeedback.DecrementInflight | app/dataplane/account/feedback.go:100-102 | one lease fewer, not below zero |
| AccountFeedback.UpdateLastUse | app/dataplane/account/feedback.go:104-106 | only the last use of the slot changes |
| AccountFeedback.UpdateLastFail | app/dataplane/account/feedback.go:108-111 | last failure is stamped and the failure count grows, saturating at 65535 |
| AccountFeedback.ApplyFailure | app/dataplane/account/feedback.go:42-52 | a failure other than a rate limit scales health by its factor and stamps the failure; nothing else changes |
| AccountFeedback.ApplyKind | app/dataplane/account/directory.go:262-286 | the part of feedback that its kind decides, before any upstream reading; no other row changes, and the indexes stay right |
| AccountFeedback.ApplyFeedback | app/dataplane/account/directory.go:262-290 | kind by kind and column by column: only unauthorized feedback changes the status, to Expired; a success under the quota strategy costs one, a rate limit empties a known mode, an upstream reading replaces quota and reset; health moves by its factor within its bounds; failures are stamped and counted; no other row changes, and the indexes stay right |
| AccountModel.FeedbackEffects | app/dataplane/account/directory.go:262-290 | the same effects of the feedback function on any row, whatever its columns hold |
| AccountSync.MarkDeletedAt | app/dataplane/account/sync.go:141-147 | the slot becomes Deleted and leaves the mode index; the size falls by one unless it is zero |
| AccountSync.OldTagsFor | app/dataplane/account/sync.go:149-157 | finds exactly the tags whose buckets hold the slot |
| AccountSync.UpsertSlot | app/dataplane/account/sync.go:71-75 | a known token's slot is rewritten with its old tags replaced, an unknown one is appended |
| AccountSync.ApplyDeletedTokens | app/dataplane/account/sync.go:51-56 | every named token that is known becomes Deleted; reported as a change exactly when one is known |
| AccountSync.ApplyChangedItems | app/dataplane/account/sync.go:57-77 | items are applied in order up to the first whose projection fails; reported as a change exactly when one of them touched a slot |
| AccountSync.ItemsTouchIff | app/dataplane/account/sync.go:57-77 | a change is reported exactly when some item that is reached is live, or the tombstone of a token the table knew from the start |
| AccountSync.GroupRevision | app/dataplane/account/sync.go:78-82 | a completed group moves the cursor to the larger revision, a failed one does not move it |
| AccountSync.ApplyChanges | app/dataplane/account/sync.go:40-86 | applies rounds until the feed has no more, an answer is missing or a record fails, and reports a change exactly when some round touched a slot; terminates when announcing more implies a larger revision |
| AccountSync.Bootstrap | app/dataplane/account/sync.go:14-38 | loads the live records in order, later duplicates rewriting earlier ones, into a new table with agreeing indexes, or fails at a malformed record |
| AccountSync.SizeKeptIff | app/dataplane/account/sync.go:51-77 | one record keeps the size equal to the number of slots not Deleted if and only if it is no repeated tombstone (with others live) and does not write over a tombstone, or its own slot is one too |
| AccountSync.ReAddedTokenLosesCount | app/dataplane/account/sync.go:71-75 | adding a deleted account again leaves the size one short |
| AccountReplica.RecordStep | app/dataplane/account/sync.go:57-77 | after one record its token's slot holds the record's values and tags, or is Deleted for a tombstone, and no other token's slot changes |
| AccountReplica.ElsewhereKept | app/dataplane/account/sync.go:51-77 | a group leaves the slot of a token at another revision untouched |
| AccountReplica.DeletedInGroup | app/dataplane/account/sync.go:51-64 | a token of the group that no item names has been deleted and stays so |
| AccountReplica.GroupCovers | app/dataplane/account/sync.go:40-86 | one round, complete or broken off, leaves every record at or below the cursor reflected and the cursor not ahead of the repository |
| AccountReplica.WriteCovers | app/control/account/repository.go:11-15 | a repository write, which takes a fresh revision, cannot make the table wrong at its cursor |
| AccountReplica.DrainCovers | app/dataplane/account/sync.go:40-86 | a whole ApplyChanges against a repository that changes between scans ends covered by the repository its last scan saw, and caught up with it when it ends without an error |
| AccountReplica.LoadCovers | app/dataplane/account/sync.go:14-38 | a successful snapshot load reflects every record exactly at the snapshot's revision |
| AccountReplica.DrainedIsBootstrap | app/dataplane/account/sync.go:14-86 | on every live token a drained table equals a fresh load: all record columns in sync-only runs, pool, totals, windows and tags whatever else ran, status up to an expiry from feedback; both hold the record's own values |
| AccountSelector.MaybeResetWindows | app/dataplane/account/selector.go:130-161 | of any candidates, for any mode id and in the basic pool only, exactly those with a reset time that has come, a total and a length restart, with quota at the total and the reset time one length ahead; no other mode, column or row changes, and the indexes stay right |
| AccountSelector.ResetBucket | app/dataplane/account/selector.go:130-161 | over the bucket of a known mode that is exactly the active basic slots whose window is due |
| AccountSelector.AmongRestarts | app/dataplane/account/selector.go:130-161 | the same of the restart function on any table and candidates |
| AccountSelector.PreferIfAvailable | app/dataplane/account/selector.go:303-317 | the preferred candidates when there are any, all of them otherwise; never empties a nonempty set |
| AccountSelector.FilterCandidates | app/dataplane/account/selector.go:76-93 | from any candidates and for any mode id, exactly those not excluded, past cooling, under the in-flight limit and with quota left |
| AccountSelector.Best | app/dataplane/account/selector.go:167-193 | a slot of maximal score above the floor, or none when all scores lie at or below it |
| AccountSelector.Select | app/dataplane/account/selector.go:53-99 | for any mode id, after the restarts of its bucket, a slot among the usable and preferred candidates as the strategy demands, or none exactly when there is none to choose; for a known mode these are the admissible slots of the pool |
| AccountSelector.SelectFirst | app/dataplane/account/directory.go:166-177 | for any mode id each earlier pool's selection returned none and the first that returned a slot gives it, or all returned none; only windows change; for a known mode the same in terms of admissible slots |
| AccountSelector.PickedAmongUsable | app/dataplane/account/selector.go:67-99 | whatever the mode id, a picked slot is in its pool's bucket with room and quota when it is picked |
| AccountSelector.CountSelectionCandidates | app/dataplane/account/selection_status.go:40-94 | total, available, disabled and invalid counts are the sizes of the corresponding sets of slots, cooling is the rest, and in-flight is the sum over the slots in scope |
| AccountSelector.ClassifyReserveFailure | app/dataplane/account/selection_status.go:20-38 | the reason is decided by whether the slots in scope are none, all disabled, all expired, or include some merely cooling or busy |
| AccountSelection.ScoreAboveFloor | app/dataplane/account/selector.go:219-235 | with quota left and sane clocks no slot is floored |
| AccountSelection.ScoreTrades | app/dataplane/account/selector.go:219-235 | what each column is worth: health 100 a point, a lease 20, each of the first ten failures 4, a request left 25, recent use a point for every second short of 15 |
| AccountSelection.FlooredIff | app/dataplane/account/selector.go:167-235 | the score of a slot lies at or below the floor of the best-of loop if and only if its last use lies far enough ahead of the clock, or its base score is itself that low |
| AccountSelection.ResetIdempotent | app/dataplane/account/selector.go:130-161 | restarting twice at one time is restarting once |
| AccountSelection.WorkableAfterReset | app/dataplane/account/selector.go:67-99 | after its restart a pool's working set is exactly the slots a linear scan of the table before the restart admits |
| AccountSelection.AfterRows | app/dataplane/account/selector.go:130-161 | restarts over any pools change only quota and reset columns |
| AccountSelection.WorkingAt | app/dataplane/account/directory.go:166-177 | restarts of earlier pools do not change what a later pool admits |
| AccountSelection.RowWhenTried | app/dataplane/account/selector.go:130-161 | when a pool is tried its admissible slots have been restarted exactly once, however often pools repeat |
| AccountSelection.AfterRestarts | app/dataplane/account/selector.go:130-161 | after the restarts of the first k pools an active row of one of them has started over if it was due, at its total and one length ahead, and every other row is as it was |
| AccountSelection.BlockedWhenTimely | app/dataplane/account/selector.go:67-99 | under the random strategy, or with sane clocks, a pool offers nothing if and only if the linear scan admits none of its slots |
| AccountSelection.ChosenNone | app/dataplane/account/selector.go:67-99 | on every table a pool's selection fails if and only if the pool offers nothing: it has no admissible slot or, under the quota strategy, every slot it could choose is floored |
| AccountSelection.PickedIsAdmissible | app/dataplane/account/directory.go:147-191 | on every table slot c of pool k can be picked if and only if every earlier pool offers nothing and pool k offers c: admissible, preferred when any is, not floored and scoring highest |
| AccountSelection.NonePickedIff | app/dataplane/account/directory.go:147-191 | on every table a reservation fails if and only if no requested pool has anything to offer; that is the verdict of the linear scan if and only if the scan admits nothing or some pool does offer, and always under the random strategy or with sane clocks |
| AccountSelection.AdmissibleIsPicked | app/dataplane/account/directory.go:147-191 | a pool with something to offer makes a failure impossible and a pick from it or an earlier one possible; with sane clocks an admissible slot is such an offer |
| AccountSelection.FloorRefusesFutureSlot | app/dataplane/account/selector.go:167-193 | a concrete table on which the quota strategy refuses an admissible slot used far in the future |
| AccountSelection.FailureScan | app/dataplane/account/selection_status.go:40-94 | after all pools were tried the scan finds something available if and only if a slot was admissible before, and sees the same slots in scope with the same statuses |
| AccountSelection.AnyModeIsSomeMode | app/dataplane/account/selection_status.go:96-118 | the any-mode scan sees in scope, and available, what the scans of the six modes see together |
| AccountDirectory.ReserveIff | app/dataplane/account/directory.go:147-191 | on every table a reservation leases if and only if some requested pool has something to offer, with sane clocks if and only if the linear scan admits a slot; from the first such pool, preferring tags, and never an excluded token; with sane clocks a failure's reason is fixed by the slots in scope alone |
| AccountDirectory.AdmissibleMeans | app/dataplane/account/selector.go:76-93 | what the linear scan admits, column by column: active, window above zero, past cooling, under the limit or 8, quota left or a window due, and a token not excluded; and what scope and preferred tags mean |
| AccountDirectory.LeasedIsLeasable | app/dataplane/account/directory.go:147-191 | a lease is of such a slot of a requested pool, with a preferred tag if any such slot of its pool has one; a failure under the random strategy or sane clocks means there is none |
| AccountDirectory.ReserveRestarts | app/dataplane/account/directory.go:166-191 | what a reservation makes of every row: active rows of the pools tried, up to the first occurrence of the one leased from, start over if due; the leased slot counts its lease and its use; nothing else changes |
| AccountDirectory.ScopeReasonMeans | app/dataplane/account/selection_status.go:20-38 | the reason slot by slot: all in scope disabled, all expired, or some neither; otherwise the general one |
| AccountDirectory.AvailableOrDue | app/dataplane/account/selection_status.go:96-118 | a slot the scan calls available can be reserved; the only others that can are those with a window due to restart |
| AccountDirectory.Directory.Bootstrap | app/dataplane/account/directory.go:103-112 | installs the loaded table, or keeps the previous one when the load fails |
| AccountDirectory.Directory.SyncIfChanged | app/dataplane/account/directory.go:114-131 | drains the change feed into the table and reports a change exactly when some round touched a slot; without a table it does nothing |
| AccountDirectory.Directory.ExcludeIdxs | app/dataplane/account/directory.go:361-375 | exactly the slots of the known excluded tokens |
| AccountDirectory.Directory.PreferTagIdxs | app/dataplane/account/directory.go:377-391 | exactly the slots that carry one of the preferred tags |
| AccountDirectory.Directory.ReserveDetailed | app/dataplane/account/directory.go:147-191 | for any mode id leases the slot that the buckets and the strategy give, counts exactly that lease and stamps it under a fresh lease id; for a known mode the slot is the one selection specifies and a failure carries the reason read off the slots before the call |
| AccountDirectory.GrantOutcome | app/dataplane/account/directory.go:182-190 | the pick, the counted lease and the lease record together are a successful outcome |
| AccountDirectory.FailOutcome | app/dataplane/account/directory.go:178-180 | no pick and the scan's reason together are a failed outcome, with nothing counted |
| AccountDirectory.Directory.ExplainFailure | app/dataplane/account/directory.go:178-180 | on every table the reason computed after the failed attempts is the one the table before them calls for |
| AccountDirectory.Directory.Granted | app/dataplane/account/directory.go:182-191 | the slot counts one more lease, its last use is stamped, and the lease names its token, pool and mode |
| AccountDirectory.Directory.AvailablePools | app/dataplane/account/directory.go:216-237 | exactly the pools with an available slot in some mode |
| AccountDirectory.Directory.ReleaseLease | app/dataplane/account/directory.go:239-246 | gives one lease of the slot back, not below zero, and changes nothing else; an index outside the table is ignored |
| AccountDirectory.Directory.GiveFeedback | app/dataplane/account/directory.go:248-291 | the token's slot changes as that kind of feedback calls for, column by column, and no other does; unknown tokens are ignored |
| AccountRuns.PickedUnderLimit | app/dataplane/account/selector.go:67-99 | a picked slot was active, under the in-flight limit, not excluded, and has quota when it is picked |
| AccountRuns.ReserveRows | app/dataplane/account/directory.go:147-191 | a reservation changes only quota, reset, in-flight and last use, and adds at most one lease, to the slot it leases |
| AccountRuns.StepConserves | app/dataplane/account/directory.go:182-246 | every step keeps each slot's in-flight count equal to its outstanding leases and within the limit |
| AccountRuns.QuiescentIsZero | app/dataplane/account/directory.go:239-246 | when all leases are released every count is zero |
| AccountRuns.StepInv | app/dataplane/account/directory.go:114-291 | every step keeps lease conservation and the agreement with the repository together; sync-only steps keep exact agreement |
| AccountRuns.RunInv | app/dataplane/account/directory.go:103-291 | both hold in every state of every run that starts with a load |
| AccountRuns.StepTokens | app/dataplane/account/table.go:232-308 | every step only appends to the token column, so a slot keeps its token and a token its slot |
| AccountRuns.RunTokens | app/dataplane/account/table.go:232-308 | the token column of any earlier state of a run is a prefix of that of any later one |
| AccountRuns.LeaseNamesToken | app/dataplane/account/directory.go:182-246 | a lease's index names its account in every later state, and releasing it by index gives back that account's lease |
| AccountRuns.TombstoneNotLeased | app/dataplane/account/sync.go:51-64 | a token whose tombstone the cursor has passed is never leased, whatever feedback comes late |
| AccountCooldown.RateLimitSpends | app/dataplane/account/feedback.go:30-40 | random-strategy rate-limit feedback leaves the pair without quota and, in the basic pool, without a restart before its timestamp plus cooling |
| AccountCooldown.AfterSpent | app/dataplane/account/selector.go:130-161 | restarts before that time, in any mode, leave the pair spent |
| AccountCooldown.FeedbackRowSpent | app/dataplane/account/feedback.go:13-40 | no feedback but an upstream reading refills a spent mode or brings its reset closer |
| AccountCooldown.NotReissued | app/dataplane/account/selector.go:258-288 | along any run that does not rewrite it a spent pair stays spent and no reservation of the mode leases the token |
| AccountCooldown.RateLimitedNotReissued | app/dataplane/account/feedback.go:30-40 | after rate-limit feedback no reservation of the mode leases the account before timestamp plus cooling, and outside the basic pool none at all until a rewrite |
| AccountCooldown.StepInactive | app/dataplane/account/directory.go:114-291 | no step but a sync round with the token's record makes its slot active again, and none leases it while it is not |
| AccountCooldown.UnauthorizedNotLeased | app/dataplane/account/directory.go:277-279 | after unauthorized feedback no reservation of a run leases the account, under any strategy, mode or pool, until a sync round carries its record |
| Dispatch.RunAttempt | app/products/dispatch.go:58-64 | one attempt runs, releases its lease and then reports, in that order |
| Dispatch.RunAccountDispatch | app/products/dispatch.go:42-74 | the loop produces exactly the trace and outcome that are specified attempt by attempt |
| Dispatch.AttemptDecides | app/products/dispatch.go:42-92 | from any attempt on: no lease ends the dispatch; a lease is taken, used, given back and reported; a result ends it; a failure with attempts left and a listed status, or the caller's own verdict when it has one, continues with the token excluded; any other failure, and that of the last attempt, ends it with its error |
| Dispatch.EveryLeaseReturned | app/products/dispatch.go:42-74 | each successful reserve is followed by exactly one release of the same lease before the next reserve or the return |
| Dispatch.TokensDistinct | app/products/dispatch.go:42-92 | attempts never exceed the maximum, and when none of the answers is an excluded token the tokens tried are pairwise distinct |
| Dispatch.AfterLoopUnreachable | app/products/dispatch.go:73-92 | the statement behind the loop is never reached |
| Dispatch.HowItEnds | app/products/dispatch.go:42-84 | every attempt but the last failed with an error that the loop retries, and the outcome is the last attempt's |
| DispatchRuns.ReturnedCaller | app/products/dispatch.go:42-92 | a caller that has returned did exactly what the loop specifies alone |
| DispatchRuns.WorldStepInv | app/products/dispatch.go:42-74 | among interleaved callers, syncs, feedback and writes, every step keeps the outstanding leases exactly those in some caller's hands between reserve and release, one caller each, and every caller on its loop |
| DispatchRuns.WorldRunInv | app/products/dispatch.go:42-74 | this holds in every state of every such run that starts with a load |
| DispatchRuns.AllReturnedIsZero | app/products/dispatch.go:42-74 | once all dispatches have returned, no lease is outstanding and every in-flight counter is zero |
| DispatchRuns.ReturnedInRun | app/products/dispatch.go:42-92 | a returned caller gave back every lease before taking the next, tried pairwise distinct tokens because the directory itself honours exclusion, and no more than its limit |
| DispatchRuns.HolderCanRelease | app/products/dispatch.go:58-59 | a caller with a lease in hand can always give it back in two steps of its own |
| DispatchRuns.SomeoneHolds | app/products/dispatch.go:42-74 | from a load of one account a caller can begin, take its lease, run and give it back, with the lease in hand in between |
| ProxyModel.ResolveBackoff | app/control/proxy/proxy_backoff.go:23-36 | whatever the configuration, the parameters are sane; each one in range is taken as it is, any other at its bound |
| ProxyModel.CooldownBounds | app/control/proxy/proxy_backoff.go:66-86 | below the failure cap a cooldown lies between base and maximum, at the cap it is the probe time |
| ProxyModel.CooldownMonotone | app/control/proxy/proxy_backoff.go:66-86 | below the cap more failures never mean a shorter cooldown |
| ProxyModel.CooldownGrows | app/control/proxy/proxy_backoff.go:66-76 | below the cap the first cooldown is the base and each next one the multiple of the last, up to the maximum |
| ProxyModel.FailuresArm | app/control/proxy/proxy_backoff.go:66-86 | the waits that successive failures of a key arm, whatever happens between them: base, then multiples up to the maximum, then the probe time, in whole milliseconds from the clock reading |
| ProxyModel.LookupFrame | app/control/proxy/proxy_lifecycle.go:106-131 | a lookup registers an event only when it wins, under a key that had none, and waits only on the registered event |
| ProxyModel.ProvidedFrame | app/control/proxy/proxy_lifecycle.go:133-190 | recording a provider's answer never touches the registered events |
| ProxyModel.WinOnlyWhenQuiet | app/control/proxy/proxy_lifecycle.go:106-131 | a refresh starts only when the key is not cooling down and no refresh of it is registered |
| ProxyModel.LookupBackoff | app/control/proxy/proxy_backoff.go:41-61 | a lookup clears a backoff only once it has run out |
| ProxyModel.LookupServes | app/control/proxy/proxy_lifecycle.go:106-131 | a lookup hands out a valid bundle, or a usable stale one during a cooldown, never an invalid one |
| ProxyModel.LookupDecides | app/control/proxy/proxy_lifecycle.go:106-131 | which answer a lookup gives, case by case, over mode, bundle, cooldown at both clock readings and registered event |
| ProxyModel.RefreshServes | app/control/proxy/proxy_lifecycle.go:133-163 | a winner hands out the valid bundle it built, or after a failure, which is counted, the kept bundle while the key cools down; a provider's error changes nothing; success clears failures and backoff |
| ProxyModel.FailureArms | app/control/proxy/proxy_backoff.go:66-86 | a failure is counted and keeps the key cooling for at least the shorter of base and probe time; other keys are untouched |
| ProxyModel.FailureBundles | app/control/proxy/proxy_backoff.go:41-86 | a failure demotes the key's bundle from invalid to stale exactly when it can be served while the key cools down, and changes no other bundle |
| ProxyModel.SuccessStores | app/control/proxy/proxy_lifecycle.go:149-163 | a success stores the bundle with its time, one refresh more and no error, forgets the key's failures and backoff, and touches no other key |
| ProxyModel.DiagnosticsKept | app/control/proxy/proxy_lifecycle.go:165-190 | a failed scheduled refresh leaves its error on the kept bundle, or its diagnostics under the key's name; served as stale only while the key cools down with cookies and agent |
| ProxyModel.ReloadInvalidates | app/control/proxy/proxy_helpers.go:92-111 | a reload keeps exactly the keys of affinities in use and leaves every kept bundle invalid; an invalidation makes every bundle invalid and changes nothing else |
| ProxyDirectory.Directory.CooldownBundleLocked | app/control/proxy/proxy_backoff.go:41-61 | the fallback of a cooling key, demoted from invalid to stale, and the backoff dropped once it has run out |
| ProxyDirectory.Directory.BundleRefreshState | app/control/proxy/proxy_lifecycle.go:106-131 | decides to serve, give up, wait or win, as the lookup function says |
| ProxyDirectory.Directory.RecordRefreshFailureLocked | app/control/proxy/proxy_backoff.go:66-86 | counts the failure, arms the backoff that the count calls for and returns the fallback |
| ProxyDirectory.Directory.RecordSuccessfulBundleRefresh | app/control/proxy/proxy_lifecycle.go:149-163 | stores the bundle with its refresh count and clears failures and backoff |
| ProxyDirectory.Directory.RecordBundleRefreshFailure | app/control/proxy/proxy_lifecycle.go:165-190 | keeps the diagnostics on the stored bundle, or stores the invalid one, then counts the failure |
| ProxyDirectory.Directory.ForgetEvent | app/control/proxy/proxy_lifecycle.go:216-221 | drops whatever event the key has registered |
| ProxyDirectory.Directory.InvalidateClearance | app/control/proxy/proxy_lifecycle.go:9-17 | every bundle becomes invalid, nothing else changes |
| ProxyDirectory.Directory.Feedback | app/control/proxy/proxy.go:234-248 | a challenge or unauthorized feedback invalidates the bundle of the lease's key only; those, forbidden ones and transport errors of a proxied lease move a pool's cursor on by one |
| ProxyDirectory.Directory.Load | app/control/proxy/proxy.go:146-198 | a changed configuration rebuilds the addresses, restarts the pool, drops every key of a vanished affinity and invalidates the kept bundles; an unchanged one does nothing |
| ProxyDirectory.Directory.PickProxyUrl | app/control/proxy/proxy.go:280-303 | the address the mode, the resource preference and the cursor call for, or none |
| ProxyEgress.PoolGoesRound | app/control/proxy/proxy.go:234-303 | fewer rotations than there are addresses reach each of them, and as many come back to the first |
| ProxyEgress.PickMeans | app/control/proxy/proxy_helpers.go:34-54 | where requests go under a configuration: directly, or to an address of their own kind, resource requests falling back to the base ones |
| ProxyEgress.KeptMeans | app/control/proxy/proxy_helpers.go:79-90 | a reload keeps the affinity of every configured address that is not blank, and without any the direct one |
| ProxyEgress.KeptIff | app/control/proxy/proxy_helpers.go:79-90 | the affinity of a lease survives reloads of its own configuration if and only if its address is not blank, or it has none and no address is named or one is named direct |
| ProxyEgress.ResourceProxyAloneLosesDirect | app/control/proxy/proxy_helpers.go:34-90 | with a resource proxy alone other requests go out directly under an affinity no reload keeps |
| ProxyRuns.StepSound | app/control/proxy/proxy_lifecycle.go:78-221 | every step, reloads included, keeps each event owned by its one winner until that winner closes it, and an event is closed only by its winner and only once |
| ProxyRuns.RunSound | app/control/proxy/proxy_lifecycle.go:78-221 | this holds in every reachable state |
| ProxyRuns.WaiterCanResume | app/control/proxy/proxy_lifecycle.go:78-147 | no waiter is stranded: the winner of its event can close it in at most three steps of its own |
| ProxyRuns.AtMostOneInFlight | app/control/proxy/proxy_lifecycle.go:106-147 | where everyone in flight on a key holds its registered event, at most one caller is in flight |
| ProxyRuns.StepSingleFlight | app/control/proxy/proxy.go:183-198 | every step but a reload keeps a key's single flight; a reload keeps it if and only if it keeps the key or nobody is in flight on it |
| ProxyRuns.RunSingleFlight | app/control/proxy/proxy_lifecycle.go:78-147 | over any run a key keeps its single flight if and only if every reload keeps the key or finds nobody in flight on it; then at most one refresh of it is in flight, and the registered event is that winner's |
| ProxyRuns.DroppingReloadBreaksSingleFlight | app/control/proxy/proxy.go:183-198 | a run of three steps in which a reload lets a second refresh of a key start |
| ProxyRuns.StepArmed | app/control/proxy/proxy_backoff.go:41-92 | every step keeps the breaker armed for each failure that no success or key-dropping reload has cleared |
| ProxyRuns.NoEarlyRefresh | app/control/proxy/proxy_lifecycle.go:106-131 | no caller starts a refresh while the backoff lies in the future, nor within the quiet time after an uncleared failure |
| ProxyRuns.RunArmed | app/control/proxy/proxy_backoff.go:41-92 | the breaker holds at every refresh start of every run |
| MediaCache.SavedNamesAllowed | app/platform/storage/media_cache.go:61-72 | the suffixes images and videos are saved under are allowed for their type |
| MediaCache.AllowedMeans | app/platform/storage/media_cache.go:249-261 | a media name ends in a dot and one of its type's suffixes, in letters of either case |
| MediaCache.TempNotAllowed | app/platform/storage/media_cache_index.go:112-129 | a leftover of an interrupted write is never taken for a media file |
| MediaCache.OlderTotal | app/platform/storage/media_cache_trim.go:65-84 | of two rows exactly one comes first in eviction order |
| MediaCache.OlderTrans | app/platform/storage/media_cache_trim.go:65-84 | eviction order is transitive |
| MediaCache.NameLessMeans | app/platform/storage/media_cache_trim.go:65-84 | names go by their first difference, a prefix first |
| MediaCache.NewestMeans | app/platform/storage/media_cache_index.go:255-265 | the newest row is the one updated last, by name among several |
| MediaCache.TrimmedMeans | app/platform/storage/media_cache_trim.go:13-63 | a trim evicts nothing protected, goes strictly by update time and ends within its target |
| MediaCache.TrimmedKeeps | app/platform/storage/media_cache_trim.go:13-63 | a protected name is not evicted |
| MediaCache.MediaCacheStore.UsageBytes | app/platform/storage/media_cache_index.go:236-243 | the sum of the row sizes |
| MediaCache.MediaCacheStore.TrimCandidates | app/platform/storage/media_cache_trim.go:65-84 | lists every row once, by update time and then name |
| MediaCache.MediaCacheStore.NewestName | app/platform/storage/media_cache_index.go:255-267 | the row that every other row precedes |
| MediaCache.MediaCacheStore.EnforceLimitLocked | app/platform/storage/media_cache_trim.go:13-63 | removes file and row of exactly the shortest oldest-first prefix of unprotected rows that reaches the target, counts the evictions, and keeps index and files in step |
| MediaCache.MediaCacheStore.TrimTo | app/platform/storage/media_cache_trim.go:36-61 | the loop stops at the first prefix that meets the target |
| MediaCache.MediaCacheStore.VisitCandidate | app/platform/storage/media_cache_trim.go:40-60 | the running usage is the true remaining total after every candidate, so clamping it at zero has no effect |
| MediaCache.MediaCacheStore.WriteIfMissing | app/platform/storage/media_cache.go:299-326 | an existing file is never overwritten; a failed write leaves no file |
| MediaCache.MediaCacheStore.UpsertExistingRow | app/platform/storage/media_cache_index.go:157-177 | refreshes size and recency and keeps a recorded creation time |
| MediaCache.MediaCacheStore.UpsertNewRow | app/platform/storage/media_cache_index.go:206-222 | adds the row of a new file with both times now |
| MediaCache.MediaCacheStore.Save | app/platform/storage/media_cache_index.go:62-83 | the file and its row exist afterwards and survive the trim; the row is updated now, and a hit keeps the file's size and the recorded creation time |
| MediaCache.MediaCacheStore.Delete | app/platform/storage/media_cache.go:74-107 | after trimming the name, removes a regular media file and its row, reports whether it existed, and keeps the index in step |
| Text.TrimMeans | app/platform/storage/media_cache.go:235-236 | trimming takes all white space off both ends and nothing else |
| Text.SpaceMeans | app/platform/storage/media_cache.go:235-247 | which characters are white space |
| Text.LowerMeans | app/platform/storage/media_cache.go:249-261 | lower case replaces each upper-case letter by the one of its place in the alphabet |
| MediaCache.MediaCacheStore.Clear | app/platform/storage/media_cache.go:109-138 | removes every media file and every row, counts the files, and leaves folders and other files |
| MediaCache.MediaCacheStore.Reconcile | app/platform/storage/media_cache.go:140-155 | with a limit it establishes agreement from any state: of what is not evicted, folders and media files stay as they are, every media file has a row with its size and its own time, and nothing else stays |
| MediaCache.MediaCacheStore.ReconcileIndexed | app/platform/storage/media_cache_index.go:85-155 | from any files and rows: leftovers and foreign files gone, one row per media file, trimmed to the limit, and a report that counts exactly the files, bytes and rows removed and names at most twenty of them |
| MediaCache.MediaCacheStore.Sweep | app/platform/storage/media_cache_index.go:104-144 | the directory pass removes exactly the files that are no media and rebuilds one row per media file |
| MediaCache.MediaCacheStore.CountOrphanRows | app/platform/storage/media_cache_index.go:145-150 | counts exactly the indexed names without a file |
| Pacer.AdmittedWithinWait | app/products/openai/console_rate_limit.go:45-71 | a caller that must sleep is admitted if and only if its planned grant lies within its maximum wait |
| Pacer.PacerQueue.State | app/products/openai/console_rate_limit.go:93-104 | creates a free state for an unseen model and changes nothing else |
| Pacer.PacerQueue.Wait | app/products/openai/console_rate_limit.go:45-71 | a grant is at or after the next-allowed time and moves it one interval on; a refused or cancelled call leaves it; busy and cancelled each have their exact condition, including a context that ends on the way to the lock |
| Pacer.PacerQueue.Delay | app/products/openai/console_rate_limit.go:73-91 | once it has the lock, pushes the next grant out to the end of the delay, never pulls it in, for this model only; a context that ends first changes no time |
| Pacer.GrantPace | app/products/openai/console_rate_limit.go:45-71 | a grant at or past the next-allowed time keeps every model on pace |
| Pacer.StepInv | app/products/openai/console_rate_limit.go:45-104 | every step of every caller keeps all models on pace and every sleeper in possession of its lock |
| Pacer.RunInv | app/products/openai/console_rate_limit.go:45-104 | this holds in every reachable state |
| Pacer.RateBound | app/products/openai/console_rate_limit.go:45-71 | k grants of one model span at least k - 1 intervals, in every interleaving |
| Pacer.GrantsRespectDelays | app/products/openai/console_rate_limit.go:73-91 | no grant comes before the end of a delay that had completed |
| Pacer.RefusalsChangeNothing | app/products/openai/console_rate_limit.go:45-71 | rejections, timeouts and cancellations of waits and delays leave every next-allowed time as it was |
| QuotaWindows.QuotaSet.Set | app/control/account/models_quota.go:97-112 | a stored window is read back under its mode and no other mode's window changes, ids outside 0..4 storing the console window |
| QuotaWindows.DefaultsAre | app/control/account/quota_defaults.go:10-69 | the modes each pool supports and the window each of them starts with |
| QuotaWindows.NormalizeKeeps | app/control/account/quota_defaults.go:71-79 | a reading is stored as it is, but for the basic fast window: total 30, a day, 0..30 left |
| QuotaWindows.UseSpends | app/control/account/refresh_helpers.go:74-100 | a use costs one request, renews a window that has run out where there is a default, and starts the clock of one without a reset time, the console's only at 12 left |
| QuotaWindows.LimitEmpties | app/control/account/refresh_helpers.go:57-72 | a rate limit empties the window until its reset time, or its own length from now when that is past |
| QuotaWindows.FallbackMeans | app/control/account/refresh_helpers.go:25-55 | with nothing fetched a real reading is spent by one and any other renewed in full once it has run out |
| QuotaWindows.ResetExpiredConsoleWindows | app/control/account/refresh_apply.go:236-275 | one patch for each account whose console window the tick changes, in the order of the accounts, each with its restored window, and their number |
| QuotaWindows.ApplyHealthy | app/control/account/refresh_helpers.go:25-100 | local use, rate limit, fallback, fetch and reset each keep the window's bounds, a reset time on a real reading, and a reset time once it runs low |
| QuotaWindows.RunHealthy | app/control/account/refresh_helpers.go:25-100 | so does every sequence of them |
| QuotaWindows.NeverStuck | app/control/account/refresh_apply.go:236-275 | after any sequence an exhausted console window has a reset time, and a tick at or after it restores the window if and only if the pool has a console default |
| QuotaWindows.SuperStaysExhausted | app/control/account/refresh_apply.go:236-275 | an exhausted super window past its reset time that every tick leaves alone |
| QuotaWindows.DefaultHealthy | app/control/account/quota_defaults.go:10-69 | the default console window starts out healthy |
| QuotaWindows.TickEarlyDoesNothing | app/control/account/refresh_apply.go:236-275 | a tick before the reset time leaves a healthy window alone |
| QuotaWindows.TickRestores | app/control/account/refresh_apply.go:236-275 | a tick restores exactly a window that is not full and whose reset time has come, or that is empty without one, in a pool with a default |
| QuotaWindows.OnePatch | app/control/account/refresh_apply.go:236-275 | an account is patched exactly when the tick changes its console window, under its token and with the new window |
| QuotaWindows.PatchesJoined | app/control/account/refresh_apply.go:236-275 | patches of accounts one after the other are those of the first, then those of the others |
| AccountStateMachine.WindowRoundTrip | app/control/account/models_quota.go:26-67 | a window reads back from its stored form, which is never empty |
| AccountStateMachine.QuotaSetRoundTrip | app/control/account/models_quota.go:114-156 | reading back a stored quota set gives the set that was stored |
| AccountStateMachine.StoredNames | app/control/account/models_quota.go:26-197 | the stored names and source numbers: what a dictionary with them reads as, and that missing windows and fields read as absent or zero |
| AccountStateMachine.FeedbackState.ApplyQuotaInPlace | app/control/account/state_machine_apply.go:41-55 | a supplied window replaces the mode's and counts a sync; else success spends one and a rate limit empties the window with its reset time |
| AccountStateMachine.FeedbackState.DecrementQuota | app/control/account/state_machine_apply.go:104-110 | spends one of an existing window, within its bounds; a missing one is left missing |
| AccountStateMachine.FeedbackState.RateLimitQuota | app/control/account/state_machine_apply.go:112-125 | empties an existing window and resets it after the retry-after time or its own length |
| AccountStateMachine.FeedbackState.ApplyCountersInPlace | app/control/account/state_machine_apply.go:57-68 | counts a use or a failure, with its time and reason |
| AccountStateMachine.FeedbackState.DisableInPlace | app/control/account/state_machine_transitions.go:42-47 | disables with time and reason |
| AccountStateMachine.FeedbackState.ApplyStatusInPlace | app/control/account/state_machine_transitions.go:3-54 | performs the transition the kind calls for and no other |
| AccountStateMachine.ApplyFeedback | app/control/account/state_machine.go:52-62 | one feedback on a stored account, or an error when its quota data is malformed |
| AccountStateMachine.StepWindow | app/control/account/state_machine_apply.go:41-125 | one mode's window after one feedback: defaults, the supplied window, one less, or empty until the retry-after time or for its own length; other modes keep theirs |
| AccountStateMachine.StepStamps | app/control/account/state_machine_apply.go:41-101 | the times and reasons one feedback leaves |
| AccountStateMachine.StepNotes | app/control/account/state_machine_transitions.go:3-54 | what one feedback writes and removes under the stored names beside the account |
| AccountStateMachine.NotesMean | app/control/account/state_machine_transitions.go:14-40 | when a stored cooldown has ended, and how strikes are read |
| AccountStateMachine.StatusNamesFailure | app/control/account/state_machine_apply.go:132-140 | a failure without a reason is named by its status code, if it has one |
| AccountStateMachine.ItoaRoundTrip | app/control/account/state_machine_apply.go:132-140 | the digits of a code denote it, without leading zeros |
| AccountStateMachine.StoredFoldIsTypedFold | app/control/account/state_machine.go:52-62 | folding over stored accounts equals folding over typed ones: storing between feedbacks loses nothing |
| AccountStateMachine.CountersAreCounts | app/control/account/state_machine_apply.go:41-68 | use, fail and sync counters are the initial values plus the exact numbers of matching feedbacks |
| AccountStateMachine.FoldInBounds | app/control/account/state_machine_apply.go:41-125 | every window keeps its bounds as long as supplied windows do |
| AccountStateMachine.RemainingAfter | app/control/account/state_machine_apply.go:41-125 | over any list that neither restores nor supplies the mode's window: nothing left once a rate limit has come, else what there was less the successes, down to zero |
| AccountStateMachine.StepStatus | app/control/account/state_machine_transitions.go:3-54 | the exact effect of one feedback on strikes and status |
| AccountStateMachine.StrikesSinceClear | app/control/account/state_machine_transitions.go:14-54 | the strikes are the forbidden feedbacks since the last restore or recovery |
| AccountStateMachine.DisabledIff | app/control/account/state_machine_transitions.go:3-54 | over every list of feedbacks and every account, it ends up disabled if and only if some feedback is an operator's or a forbidden one that reached the threshold, with no restore and no confirmed expiry after it, or it was disabled to begin with and none of those came |
| AccountStateMachine.WhyDisabled | app/control/account/state_machine_transitions.go:3-54 | finds that feedback |
| AccountStateMachine.StaysDisabled | app/control/account/state_machine_transitions.go:3-54 | after such a feedback the account stays disabled |
| AccountStateMachine.StartsDisabled | app/control/account/state_machine_transitions.go:3-54 | an account disabled to begin with stays so until a restore or a confirmed expiry |
| AccountStateMachine.DisabledIffThreshold | app/control/account/state_machine_transitions.go:14-40 | over ordinary feedback an active account is disabled if and only if it collects the threshold of forbidden ones |
| AccountStateMachine.DerivedIsRecovered | app/control/account/state_machine.go:13-30 | reading a cooled-down account as active agrees with what its next success writes |
| GrpcFrames.LengthRoundTrip | app/platform/net/grpc.go:55-61 | the four length bytes read back if and only if the length is below 2^32, and never read back larger |
| GrpcFrames.EncodePayload | app/platform/net/grpc.go:55-61 | a zero flag byte, the length in four bytes with the most significant first, then the payload |
| GrpcFrames.FramesAreNotText | app/platform/net/grpc.go:103-141 | a binary body that starts with a message frame is never decoded as base64 |
| GrpcFrames.DecodedAs | app/platform/net/grpc.go:103-141 | how a body is read: under a text content type its base64 must decode; under another it is decoded only if its first 2048 bytes could be base64 and all of it is |
| GrpcFrames.CompactMeans | app/platform/net/grpc.go:119-128 | compacting drops spaces, tabs, carriage returns and line feeds and keeps the rest in order |
| GrpcFrames.FlagBits | app/platform/net/grpc.go:82-90 | the high bit of a frame's flag marks a trailer, the low bit compression |
| GrpcFrames.ParseResponse | app/platform/net/grpc.go:63-97 | reports a decoding or compression error, or exactly the messages and trailer fields of the frames of the decoded body, with headers standing in for a missing status or message |
| GrpcFrames.ReadFrames | app/platform/net/grpc.go:69-93 | the loop reads exactly the frames the specification reads |
| GrpcFrames.ParseGrpcTrailers | app/platform/net/grpc.go:143-159 | the fields of the lines with a colon, names lowered and trimmed, values trimmed, the message unescaped, later lines winning |
| GrpcFrames.MergeHeaderTrailers | app/platform/net/grpc.go:161-177 | headers of any case stand in for a missing status or message, never override a trailer, and add nothing else |
| GrpcFrames.StatusAndMessage | app/platform/net/grpc.go:143-177 | only status and message are taken from headers, and only the message is unescaped |
| GrpcFrames.TrailerRoundTrip | app/platform/net/grpc.go:143-159 | encoded trailer fields read back with names in lower case and without outer white space, plain ones as themselves, the last value of a repeated name winning |
| GrpcFrames.FittingIsLongest | app/platform/net/grpc.go:63-97 | the frames that arrived whole are the longest prefix whose encoding fits |
| GrpcFrames.TruncatedRoundTrip | app/platform/net/grpc.go:63-97 | any stream of message, trailer and compressed frames, cut anywhere, parses to exactly what the frames that arrived whole deliver |
| GrpcFrames.RoundTrip | app/platform/net/grpc.go:55-97 | under a binary content type the concatenated frames of a list of messages parse to exactly the list, and any truncation to its fully contained prefix, without an error; the only trailers come from the headers |
| GrpcFrames.ReadsBackIff | app/platform/net/grpc.go:55-97 | under a binary content type a list of messages reads back from its frames if and only if every message is shorter than 2^32 bytes |
| GrpcFrames.ParseLong | app/platform/net/grpc.go:55-97 | a longer message is read back shorter than it was |
| GrpcFrames.MessagesGrow | app/platform/net/grpc.go:63-97 | parsing on never takes back a message already read |
| ProtoFields.ReadVarint | app/products/openai/dynamic_models.go:479-490 | reads at most ten bytes up to the first without a continuation bit; the value is their base-128 number modulo 2^64 |
| ProtoFields.EncodeVarint | app/products/openai/dynamic_models.go:479-490 | the standard encoding: continuation bits on all bytes but the last, and digits that denote the number |
| ProtoFields.VarintRoundTrip | app/products/openai/dynamic_models.go:479-490 | every 64-bit number reads back from its encoding whatever follows; up to 70 bits modulo 2^64; beyond that reading fails |
| ProtoFields.ShortVarints | app/products/openai/dynamic_models.go:479-490 | one and two bytes, the low seven bits first |
| ProtoFields.ParseFields | app/products/openai/dynamic_models.go:424-477 | terminates on every input without leaving its bounds and returns the specified fields |
| ProtoFields.NextField | app/products/openai/dynamic_models.go:430-474 | one field and how far it reaches, or failure, for each wire type |
| ProtoFields.WireTypes | app/products/openai/dynamic_models.go:430-474 | what the first byte of a field says: a varint, eight bytes, a length and that many, or four bytes follow; any other wire type and number zero are refused |
| ProtoFields.ParseSound | app/products/openai/dynamic_models.go:424-477 | every byte string, even one that fails part-way, yields only numbers 1..1000 at every level, at most seven levels, and no more fields and text than it has bytes |
| ProtoFields.TreeRoundTrip | app/products/openai/dynamic_models.go:424-477 | an encoded message whose values are not ambiguous reads back as its tree of numbers and texts, down to the depth limit |
| TokenEstimate.EstimateTokenText | app/platform/tokens.go:105-141 | the one-pass scanner computes the sum over the maximal runs of the text |
| TokenEstimate.OneRun | app/platform/tokens.go:105-141 | a text of one class: ten word runes or two CJK runes, begun or complete, to a token, other visible runes one each, spaces none |
| TokenEstimate.Join | app/platform/tokens.go:105-141 | the estimate of two joined texts, exactly: only a run continuing across the join can save anything |
| TokenEstimate.NearlyAdditive | app/platform/tokens.go:105-141 | joining loses at most one token and never gains one; joined by a space it loses nothing |
| TokenEstimate.LosesExactly | app/platform/tokens.go:105-141 | a token is lost if and only if the join falls inside a word or CJK run whose parts round up separately |
| TokenEstimate.SplitWordLosesOne | app/platform/tokens.go:105-141 | two word runes are a token each apart and one token together |
| MessagesStream.MessagesStreamState.constructor | app/products/anthropic/messages_stream_format.go:36-46 | a stream begins with message start and ping |
| MessagesStream.MessagesStreamState.HandleThinkingEvent | app/products/anthropic/messages_stream_format.go:90-100 | opens the thinking block once and adds a delta, unless thinking is off, closed or empty |
| MessagesStream.MessagesStreamState.HandleTextEvent | app/products/anthropic/messages_stream_format.go:102-114 | closes the thinking block, even for empty text, and adds a text delta |
| MessagesStream.MessagesStreamState.EmitTextDelta | app/products/anthropic/messages_stream_format.go:116-126 | opens the text block once and adds a delta for nonempty text |
| MessagesStream.MessagesStreamState.CloseThinkingBlock | app/products/anthropic/messages_stream_format.go:128-135 | closes an open thinking block once and moves the index on |
| MessagesStream.MessagesStreamState.HandleEvents | app/products/anthropic/messages_stream_format.go:72-88 | handles the events up to the first soft stop and reports it |
| MessagesStream.MessagesStreamState.Consume | app/products/anthropic/messages_stream_format.go:48-70 | handles every batch up to the first soft stop |
| MessagesStream.HeardIsUntilStop | app/products/anthropic/messages_stream_format.go:48-88 | how events are batched does not matter: what counts is what comes before the first soft stop |
| MessagesStream.MessagesStreamState.AppendImagesAndReferences | app/products/anthropic/messages_stream_format.go:190-199 | adds each image that resolves on its line, then the references |
| MessagesStream.TailMeans | app/products/anthropic/messages_stream_format.go:190-199 | the tail in order: each image that resolves with its line end, the first one first, then the references |
| MessagesStream.MessagesStreamState.FinishStream | app/products/anthropic/messages_stream_format.go:169-188 | appends the tail, closes what the flags say is open, and ends the message with the token totals, sources and annotations |
| MessagesStream.HandleInStep | app/products/anthropic/messages_stream_format.go:72-135 | the flags keep telling which block is open; a frame falls out of place only when thinking starts inside a text block |
| MessagesStream.FlagsTell | app/products/anthropic/messages_stream_format.go:90-135 | the three flags say exactly which events have been seen |
| MessagesStream.RunInStep | app/products/anthropic/messages_stream_format.go:72-135 | before the tail a frame is out of place if and only if the first thought came after text |
| MessagesStream.WellBracketedIff | app/products/anthropic/messages_stream_format.go:48-199 | for every stream of events, images and references: the frames are well bracketed if and only if no thought first comes after text and no thinking block is left open before a nonempty tail |
| MessagesStream.MisorderedStreams | app/products/anthropic/messages_stream_format.go:48-199 | two streams that are not well bracketed: thinking after text, and references after thinking alone |
| MessagesStream.TextsShown | app/products/anthropic/messages_stream_format.go:90-199 | well bracketed or not, the text deltas join to the text events, then images, then references, the thinking deltas to the thinking before it was closed, and the final delta counts exactly these two texts and carries every annotation and the sources |
| MessagesStream.MessagesStreamResult | app/products/anthropic/messages_stream_format.go:27-34 | what a client receives has both properties |
| MessagesStream.BracketedIsBlocks | app/products/anthropic/messages_stream_format.go:72-135 | a well-bracketed stream is start, ping, complete blocks numbered from zero in order, and the three closing frames |

## Left out

- AppendSlot: one row stands for the columns of a slot, so columns falling out of step with each other is not captured.
- ApplyChanges: a record's projection to a slot is fixed; its clock read and JSON coercion are not part of this model.
- ReserveDetailed: the any-mode variants, which ignore quota, are not modelled as calls; the scan behind the failure reason does cover the any-mode flag. For mode ids outside 0..5 the buckets themselves follow no rule.
- Score: reals instead of floating point.
- Load: reading the configuration and comparing its signature are parameters.
- Wait: timers, channels and the context are parameters of one call and steps of the interleaved model.
- EnforceLimitLocked: the watermark fraction is any target from 0 up to the limit; database errors, file-removal errors and the cross-process file lock are not modelled, nor are statistics other than the eviction count.
- Lower: letters outside ASCII keep their case, where the original lowers a few that fold into ASCII.
- FromDict: numeric strings and floating-point numbers in stored quota data count as malformed here.
- ParseResponse: the base64 decoder, the decoding of bytes to text and percent escapes are parameters.
- ParseFields: deciding whether bytes are text (UTF-8 and printable share) is a parameter.
- EstimateTokenText: Unicode tables are a classification parameter, and a text is its runes.
- MessagesStreamResult: tool calls and the tool sieve, line classification, the stream adapter and its errors, and resolving images are outside; events arrive in batches, an image is resolved or not, and the token estimate, the input total and the search sources are parameters.
- DispatchRuns: a caller's answers and results are those its environment holds; a reservation may make failed attempts at other pools or modes before the one that answers.
- Every method of a locked object runs as one atomic critical section; the locks themselves are not modelled.
- HTTP routes, configuration loading, database and Redis drivers, provider calls, logging, metrics and schedulers.
