# Verified model of the trading bot's control plane and reporting core

This project models, in Dafny, the stateful protocols, codecs and arithmetic that surround the trading engine, and proves what they are there for:

- **Limiters** (`SlidingWindow`, `HaltRateLimiter`, `LoginRateLimiter`, `LoginHydration`, `AlertRateLimiter`): three sliding-window limiters as classes whose bounded, pruned and garbage-collected memory is proved to give, on every call of every run with a nondecreasing clock, the verdict of a specification that keeps the whole log forever; and exactly when a restart of the login limiter can be told from none.
- **The halt protocol** (`HaltProtocol`, `HaltServices`): operator, programmatic and rate-limit halts as single writes over an append-only audit log, day-keyed `risk_state` rows and a volatile flag. Any interleaving is a run, and a restart may fall between any two writes. The service classes are proved to be runs of those steps.
- **Cursors and paging** (`Bytes`, `Json`, `CursorCodec`, `ListPositions`): UTF-8, base64url (section 5 of RFC 4648), a JSON printer and parser (RFC 8259), the opaque cursor built from them, and keyset paging that follows the cursor texts.
- **Tokens** (`AuthToken`): issuing, and the engine's and the MCP's independent verifiers.
- **Text and trees** (`EgressWalker`, `AlertRedactor`, `RationaleFence`): the walker that decides what may leave for the model, the redactor of outbound alerts, and the fence that holds the model's own text, read back by the rules of CommonMark 0.31.2 (sections 2.1 and 4.5).
- **Statistics** (`Moments`, `DailyPnl`, `RetryAttribution`, `EdgeReport`): one-pass against two-pass variance, drawdown, the matched control and the regime split, over exact reals.
- **Budget and formatting** (`AiGateway`, `MoneyFormat`): the spend of the model client over every run and overlap of calls, and the dashboard's decimal strings.

`Wrappers` and `Decimals` hold shared datatypes and digit strings. Time is in milliseconds (microseconds for a row's `opened_at`); clocks, random ids, hashes, signatures and database outcomes are parameters.

## What the proofs found

The model follows the code. Where the code and its documentation part ways, the exact condition is proved.

1. *An operator halt is not safe from the rate limiter across a restart.* An engage during an operator halt appends its own HALTED row; a restart then restores the halt under the rate limiter's name and its auto-clear lifts it. `HaltProtocol.RateLimitRowThenRestart` gives the exact condition; without such a row a completed halt survives (`HaltProtocol.OperatorHaltSurvivesRestarts`). An operator halt begun over the rate limiter's own is lifted with it (`HaltProtocol.HaltThenAutoClear`), and when the auto-clear falls between its audit row and its flip, the halt reports success with the flag down (`HaltProtocol.HaltLostToAutoClear`).
2. *Every audit row counts as a halt-state row at boot.* `findLatest` has an empty `where`. A login recorded between a halt's audit row and its flag flip hides the halt from the next restart (`HaltProtocol.LoginInsideHaltMasksIt`); a login inside a resume makes the next restart come up HALTED (`HaltProtocol.LoginInsideResumeMasksIt`); and the TESTNET key-permission row halts the boot that wrote it (`HaltProtocol.KeyPermissionRowHaltsTheBoot`).
3. *The risk gate's automatic resume lifts an operator's halt* exactly when the day's risk row carries an eligible stress leg (`HaltProtocol.StressPathExact`, a reachable case in `HaltProtocol.StressLiftsOperatorHalt`): the gate clears its own row, and the flag it then resumes may be another's.
4. *A resume that dies early* keeps a programmatic halt only for restarts on that halt's UTC day (`HaltProtocol.ResumeThatDies`). A resume that completes survives restarts as RUNNING only through steps that write no HALTED row (`HaltProtocol.CompletedResumeSurvives`; for any run whatever, `HaltProtocol.ResumeRestartsExactly`).
5. *Two halts on record can be restored as neither.* With a halted audit row older than today and today's risk row halted, the restored flag carries the programmatic source and the old row's reason (`HaltProtocol.MixedRestore`); every other case of the restored text is in `HaltProtocol.RestoredText`.
6. *Auto-clear with a failed audit write.* The comment in `RateLimitHaltAdapter.ts:34-37` says the flag stays halted; the code lifts the flag first (`HaltServices.RateLimitHaltAdapter.AutoClear`).
7. *Login hydration keeps the oldest 40 timestamps of a row.* `LoginHydration.HydrationExact` says for exactly which rows, at which boot times, some later verdict or reported wait then differs from that of a limiter that never restarted.
8. *`Retry-After` of the login limiter is only a lower bound:* throttled attempts count, so waiting exactly that long can be throttled again (`LoginRateLimiter.ObeyingRetryAfter` has the exact condition, `LoginRateLimiter.ObeyingRetryAfterIsThrottledAgain` a caller it happens to). For the halt limiter it is exact (`HaltRateLimiter.RetryAfterIsExact`).
9. *Alerts.* An alert dropped at the ceiling still opens its coalescing window and silences its key (`AlertRateLimiter.DroppedAlertSilencesItsKey`): alerts are then coalesced into one that nobody received (`AlertRateLimiter.CoalescedRepeatsASend`, `AlertRateLimiter.FirstAlertOfKeyIsLost`). The "coalesced N" suffix appears on CRITICAL alerts only (`AlertRateLimiter.AlertRateLimiter.Admit`).
10. *Paging can skip rows that share a millisecond,* because the cursor carries milliseconds and the column microseconds. `ListPositions.PaginationIsExact` gives the condition under which every row comes exactly once.
11. *The egress walker never looks at strings held by arrays* (`EgressWalker.ArrayStringsAreUnchecked`).
12. *A UUID is redacted.* The comment in `AlertRedactor.ts:17-19` says the dashes break the run; the expression's class contains the dash (`AlertRedactor.UuidIsDropped`). A token that is a part of the word "REDACTED" is put back by its own replacement, and no other bracket-free token is (`AlertRedactor.TokenIsRemovedExactly`).
13. *A rationale that ends in a carriage return* loses its last, empty line in the report; every other rationale is recovered line by line (`RationaleFence.RationaleIsRecoveredExactly`).
14. *Overlapping calls of one budgeted client do not see each other.* `k` of them can spend `k` caps, and no more (`AiGateway.OverlappingCallsShareNothing`, `AiGateway.SpendIsBounded`); the agent's loop makes its calls one at a time, where the cap holds.
15. *The variance floor at zero is idle in exact arithmetic* (`Moments.OnePassVariance`).

## Model

| member | source | states |
|---|---|---|
| SlidingWindow.RetryAfterExpiresOldest | apps/engine/src/control/HaltRateLimiter.ts:55-58 | the reported wait is the least positive number of whole seconds by which the oldest entry has left its window |
| SlidingWindow.PruneTwice | apps/engine/src/auth/LoginRateLimiter.ts:261-263 | pruning early is unobservable to any later, larger threshold |
| HaltRateLimiter.AtMostFivePerWindow | apps/engine/src/control/HaltRateLimiter.ts:44-72 | over every run, each sixty-second window holds at most five admitted toggles of a subject |
| HaltRateLimiter.RetryAfterIsExact | apps/engine/src/control/HaltRateLimiter.ts:44-72 | a throttled subject that stays quiet is admitted after `n` seconds exactly when `n` is at least the reported `retryAfterSec` |
| HaltRateLimiter.VerdictInNumbers | apps/engine/src/control/HaltRateLimiter.ts:44-72 | a subject is admitted exactly while fewer than five of its admitted toggles lie less than a minute back, counted from the log |
| HaltRateLimiter.HaltRateLimiter.Enforce | apps/engine/src/control/HaltRateLimiter.ts:44-72 | each verdict is that of the full log of admitted toggles, so pruning and collection are unobservable; the attempt log grows by this attempt |
| HaltRateLimiter.HaltRateLimiter.MaybeGc | apps/engine/src/control/HaltRateLimiter.ts:87-105 | collects exactly when the interval has passed, leaving no expired entry behind, and otherwise leaves everything alone; no later verdict can see the difference |
| HaltRateLimiter.CollectAll | apps/engine/src/control/HaltRateLimiter.ts:94-104 | the loop over the map keeps agreement with the full log and leaves only live, non-empty windows |
| LoginRateLimiter.LoginRateLimiter.Enforce | apps/engine/src/auth/LoginRateLimiter.ts:129-176 | records the attempt, throttled or not, and answers what the whole history dictates for burst, sustained and global windows in that order; alerts on the global ceiling at most once per coalescing interval; keeps the durable rows in agreement |
| LoginRateLimiter.VerdictExact | apps/engine/src/auth/LoginRateLimiter.ts:159-176 | admitted when no scope is exceeded; otherwise throttled on the first that is, with the least positive number of whole seconds after which that scope's oldest live attempt is out of its window |
| LoginRateLimiter.FullLogInNumbers | apps/engine/src/auth/LoginRateLimiter.ts:129-176 | admitted exactly with at most five attempts of the address in ten seconds, twenty in ten minutes, and two hundred of anyone's in a minute, counted from the log |
| LoginRateLimiter.WaitInNumbers | apps/engine/src/auth/LoginRateLimiter.ts:217-231 | the reported wait, from the log: by it the first attempt that still counts leaves the window of the exceeded scope, and not a second earlier |
| LoginRateLimiter.LoginRateLimiter.Record | apps/engine/src/auth/LoginRateLimiter.ts:134-157 | the stored lists are the live attempts of each scope, in memory and in the three durable rows |
| LoginRateLimiter.LoginRateLimiter.MaybeGc | apps/engine/src/auth/LoginRateLimiter.ts:233-258 | exactly when the interval has passed, every expired entry and every empty address is dropped; memory stays in agreement with the history |
| LoginRateLimiter.CollectAll | apps/engine/src/auth/LoginRateLimiter.ts:242-252 | the loop over the addresses leaves only live timestamps and non-empty addresses, and keeps agreement with the history |
| LoginRateLimiter.LoginRateLimiter.Boot | apps/engine/src/auth/LoginRateLimiter.ts:75-112 | memory after boot is the clamped fresh rows, whatever they hold; where they agree with a history and none exceeds the clamp, the limiter goes on with that whole history |
| LoginRateLimiter.Hydrate | apps/engine/src/auth/LoginRateLimiter.ts:79-81 | the loop over the loaded rows, in any order, leaves each row's clamped list in its place and nothing else |
| LoginRateLimiter.HydrationKeepsHistory | apps/engine/src/auth/LoginRateLimiter.ts:75-112 | with no loaded row above the clamp, memory after a restart agrees with the whole history |
| LoginRateLimiter.FirstBoot | apps/engine/src/auth/LoginRateLimiter.ts:75-87 | with no rows a boot starts the full log, and the rows agree with it |
| LoginHydration.ClampExact | apps/engine/src/auth/LoginRateLimiter.ts:89-99 | for a boot at any time, the clamp changes no count's verdict exactly when it drops nothing, the whole row has expired, or the newest entry is no newer than the max-th newest one kept |
| LoginHydration.HydrationExact | apps/engine/src/auth/LoginRateLimiter.ts:75-176 | every verdict after a restart, its wait included, is that of a limiter that kept the full log, exactly when every loaded row is safe: by that condition, or, for a sustained row in its last ten seconds, because the burst check comes first |
| LoginRateLimiter.RowsAgreeAfterRecord | apps/engine/src/auth/LoginRateLimiter.ts:155-157 | the three write-through upserts of an attempt keep the durable rows in agreement with the history, in order, and no newer than their last write |
| LoginRateLimiter.RetryAfterIsALowerBound | apps/engine/src/auth/LoginRateLimiter.ts:164-176 | until the reported oldest attempt leaves its window every attempt of that caller is throttled, whatever happens in between |
| LoginRateLimiter.ObeyingRetryAfter | apps/engine/src/auth/LoginRateLimiter.ts:164-231 | a throttled caller that waits as told, with no attempt in between, is admitted exactly when each scope's max-th newest live attempt has expired by then; at every earlier whole second it is throttled |
| LoginRateLimiter.ObeyingRetryAfterIsThrottledAgain | apps/engine/src/auth/LoginRateLimiter.ts:217-231 | six attempts a second apart draw a wait of five seconds, and the attempt made five seconds later is throttled |
| AlertRateLimiter.AlertRateLimiter.Admit | apps/engine/src/alert/AlertRateLimiter.ts:45-93 | sent, coalesced or dropped as the full event log dictates, with the suffix of the log; a CRITICAL alert is sent, and any other goes out untouched if at all |
| AlertRateLimiter.AlertRateLimiter.TryCoalesce | apps/engine/src/alert/AlertRateLimiter.ts:105-124 | suppresses exactly inside the key's open window; otherwise opens a new one; other keys untouched |
| AlertRateLimiter.AlertRateLimiter.EvictExpiredGlobal | apps/engine/src/alert/AlertRateLimiter.ts:126-137 | after the loop the array is the last thirty of the messages sent in the window ending now |
| AlertRateLimiter.AlertRateLimiter.ConsumeSuppressedCount | apps/engine/src/alert/AlertRateLimiter.ts:99-103 | hands out and zeroes the counter; counter plus all handed-out counts is the number of ceiling drops |
| AlertRateLimiter.LastOfPruned | apps/engine/src/alert/AlertRateLimiter.ts:61-77 | keeping the last thirty commutes with expiry, critical evictions included |
| AlertRateLimiter.BucketDecides | apps/engine/src/alert/AlertRateLimiter.ts:50-89 | the tests on bounded memory give the same answers as the whole log |
| AlertRateLimiter.OutcomeExact | apps/engine/src/alert/AlertRateLimiter.ts:45-93 | every outcome, counted from the log: CRITICAL is sent; any other is coalesced exactly when an event of its key that was not lies less than ten seconds back, and otherwise dropped exactly with thirty sends in the last minute |
| AlertRateLimiter.SuffixInNumbers | apps/engine/src/alert/AlertRateLimiter.ts:83-88 | the suffix counts the alerts of the key coalesced since the last that was not |
| AlertRateLimiter.SuffixedPayload | apps/engine/src/alert/AlertRateLimiter.ts:165-178 | the suffix goes on the body and changes nothing else; none for a count of zero |
| AlertRateLimiter.KeysExact | apps/engine/src/alert/AlertRateLimiter.ts:139-163 | which alerts share a coalescing window |
| AlertRateLimiter.NonCriticalSendsAreSpaced | apps/engine/src/alert/AlertRateLimiter.ts:53-59 | a non-critical send of a coalescing alert comes at least ten seconds after every earlier send of its key |
| AlertRateLimiter.AtMostThirtyNonCritical | apps/engine/src/alert/AlertRateLimiter.ts:61-77 | in any sixty-second window at most thirty non-critical messages go out, whatever the critical ones do |
| AlertRateLimiter.DroppedAlertSilencesItsKey | apps/engine/src/alert/AlertRateLimiter.ts:53-66 | after an alert dropped at the ceiling, for ten seconds every non-critical alert of its key is coalesced: none is sent, none counts as suppressed |
| AlertRateLimiter.CoalescedRepeatsASend | apps/engine/src/alert/AlertRateLimiter.ts:53-66 | a coalesced alert has a send of its key in the last ten seconds exactly when the event that opened its window was sent |
| AlertRateLimiter.FirstAlertOfKeyIsLost | apps/engine/src/alert/AlertRateLimiter.ts:45-93 | a log the limiter reaches in which an alert is coalesced and nothing of its key was ever sent |
| HaltProtocol.BuildFlagReasonRoundTrip | apps/engine/src/bootstrap/HaltStateRestoreService.ts:193-247 | the restored reason parses back to the source it was built from, and building it again changes nothing |
| HaltProtocol.RestoreExact | apps/engine/src/bootstrap/HaltStateRestoreService.ts:81-186 | after a restore the flag is HALTED exactly when the newest audit row, or today's risk row, says so |
| HaltProtocol.RestoredReason | apps/engine/src/bootstrap/HaltStateRestoreService.ts:156-202 | a flag restored into a fresh process carries the resolution's source as its prefix |
| HaltProtocol.RestoredOwnership | apps/engine/src/bootstrap/HaltStateRestoreService.ts:95-154 | which restored halts the auto-clear may lift: exactly those resolved to the rate limiter |
| HaltProtocol.RestoredText | apps/engine/src/bootstrap/HaltStateRestoreService.ts:95-202 | the whole text of a restored flag: the risk row's reason under the source it names, or the newest audit row's under its actor's, and each case of a missing reason and of two halts on record |
| HaltProtocol.MixedRestore | apps/engine/src/bootstrap/HaltStateRestoreService.ts:144-165 | a halted audit row older than today's halted risk row: the flag names the one halt's source and the other's reason |
| HaltProtocol.RestoredOverFlag | apps/engine/src/bootstrap/HaltStateRestoreService.ts:156-186 | a flag that is up keeps its reason where a halt is on record and is lifted where none is |
| HaltProtocol.RestoredSource | apps/engine/src/bootstrap/HaltStateRestoreService.ts:95-154 | the source a restore reports, case by case |
| HaltProtocol.SourceOfReason | apps/engine/src/bootstrap/HaltStateRestoreService.ts:233-247 | a risk row's reason names a source exactly when it is the source's name, alone or before a colon |
| HaltProtocol.SourceOfActor | apps/engine/src/bootstrap/HaltStateRestoreService.ts:215-228 | an actor names a source exactly when it is SYSTEM: and the name, or for operators any text without that prefix |
| HaltProtocol.SourceNames | packages/shared/src/enum/HaltSourceEnum.ts:1-12 | the names of the sources, and which tokens name none |
| HaltProtocol.ProgrammaticReasonSurvives | apps/engine/src/bootstrap/HaltStateRestoreService.ts:119-165 | a programmatic halt comes back from a restart of its day word for word |
| HaltProtocol.OperatorReasonSurvives | apps/engine/src/bootstrap/HaltStateRestoreService.ts:132-142 | an operator halt comes back under its reason as the audit row keeps it, cut to 256 characters |
| HaltProtocol.RateLimitReasonSurvives | apps/engine/src/control/RateLimitHaltAdapter.ts:48-79 | a rate-limit halt comes back under its own source with its row's reason |
| HaltProtocol.ReasonIsNeverOverwritten | apps/engine/src/control/HaltService.ts:117-124 | a halt in force keeps its reason until an operator's pending flip takes it over, or a completing resume or the rate limiter's own auto-clear lifts it |
| HaltProtocol.FlagIsRaisedBy | apps/engine/src/control/RateLimitHaltAdapter.ts:52-58 | the three steps that raise the flag, and the reason each gives it |
| HaltProtocol.RiskRowStep | apps/engine/src/risk/repository/RiskStateRepository.ts:35-43 | a day's risk row is halted by its first programmatic halt, keeps that reason, and is lifted by a clear of that day only |
| HaltProtocol.OperatorHeldStep | apps/engine/src/control/RateLimitHaltAdapter.ts:48-123 | within a process, a halt that is not the rate limiter's stays so through a step exactly when the step begins no resume, an operator's or the risk gate's |
| HaltProtocol.OperatorHaltIsHeld | apps/engine/src/control/RateLimitHaltAdapter.ts:48-123 | it outlives every interleaving of engages, auto-clears, programmatic halts, logins and half-finished halts |
| HaltProtocol.OperatorHaltEngaged | apps/engine/src/control/HaltService.ts:106-124 | an operator halt begun while RUNNING, whatever but a resume or a restart falls between its row and its flip, is in force from the flip on and held in that sense |
| HaltProtocol.HaltThenAutoClear | apps/engine/src/control/RateLimitHaltAdapter.ts:81-109 | after the flip of an operator halt, at whatever point it comes, and an auto-clear, the flag is down exactly when the halt was begun over one that the rate limiter holds, or that is gone by then |
| HaltProtocol.HaltLostToAutoClear | apps/engine/src/control/HaltService.ts:107-124 | with an auto-clear between a halt's row and its flip, the completed halt leaves the flag down exactly when the rate limiter held it; a restart after the auto-clear's row is RUNNING too |
| HaltProtocol.StressPathExact | apps/engine/src/risk/service/RiskGateService.ts:604-744 | the gate's automatic resume run to its end lifts any halt exactly when the day's row carries an eligible stress leg, and otherwise does nothing; a halt on record is back after a restart |
| HaltProtocol.EligibleReasons | apps/engine/src/risk/service/RiskGateService.ts:675-691 | a day may resume by itself exactly when its reason is a breadth or same-bar leg of market stress, with or without more behind a colon |
| HaltProtocol.StressLiftsOperatorHalt | apps/engine/src/alert/listeners/RiskListeners.ts:97-122 | an operator halt, then a breadth halt persisted the same day: when breadth recovers the flag is down |
| HaltProtocol.OperatorHaltSurvivesRestarts | apps/engine/src/bootstrap/HaltStateRestoreService.ts:81-186 | a completed operator halt begun over no rate-limit halt, interleaved with steps that begin no resume, write no rate-limit row and record no login that reads RUNNING, is in force after every further run of such steps, any number of restarts included, and never the rate limiter's to clear |
| HaltProtocol.RateLimitRowThenRestart | apps/engine/src/control/RateLimitHaltAdapter.ts:66-75 | the exact condition under which an engage row, a restart and an auto-clear together lift an operator halt |
| HaltProtocol.LoginInsideHaltMasksIt | apps/engine/src/control/repository/ControlAuditRepository.ts:219-230 | a completed halt is restored by a restart exactly when no login was recorded between its row and its flag flip |
| HaltProtocol.KeyPermissionRowHaltsTheBoot | apps/engine/src/bootstrap/KeyPermissionAssertionService.ts:133-146 | the key-permission row halts the boot that wrote it, under a source the rate limiter does not own |
| HaltProtocol.ResumeThatDies | apps/engine/src/control/HaltService.ts:166-190 | a resume that dies after its audit row leaves the halt in force exactly while the restart day's risk row is halted |
| HaltProtocol.ProgrammaticHaltSurvives | apps/engine/src/bootstrap/HaltStateRestoreService.ts:119-130 | a programmatic halt is in force after every restart of its day, through any run that did not clear its row |
| HaltProtocol.ResumeRestartsExactly | apps/engine/src/control/HaltService.ts:166-210 | after a resume's audit row and any run at all, a restart is RUNNING exactly when the newest of that row and the rows written since says so and the day's risk row is not halted |
| HaltProtocol.LoginInsideResumeMasksIt | apps/engine/src/control/HaltService.ts:170-196 | a completed resume restarts RUNNING exactly when no login was recorded between its row and its flip, or one has been recorded since; whatever else was under way |
| HaltProtocol.CompletedResumeSurvives | apps/engine/src/control/HaltService.ts:166-210 | a completed resume, interleaved with steps that engage no halt and logins that read RUNNING, is RUNNING in memory and on disk through every further run of such steps, restarts included |
| HaltServices.HaltService.EngageHalt | apps/engine/src/control/HaltService.ts:106-164 | a rejected or failed audit write changes nothing; otherwise the result is the protocol's two steps, and only the first transition flattens |
| HaltServices.HaltService.Resume | apps/engine/src/control/HaltService.ts:166-210 | audit row, then risk row, then flag; a failed clear leaves the flag as it was with the RESUME row on record |
| HaltServices.HaltService.RestoreFromAuditRow | apps/engine/src/control/HaltService.ts:292-303 | re-engages the flag from a HALTED row, never lifts it |
| HaltServices.RateLimitHaltAdapter.Engage | apps/engine/src/control/RateLimitHaltAdapter.ts:48-79 | flips the flag only when RUNNING, then appends; a failed append is not reported and leaves the halt in force |
| HaltServices.RateLimitHaltAdapter.AutoClear | apps/engine/src/control/RateLimitHaltAdapter.ts:81-123 | lifts the halt only under its own reason, before and whatever becomes of the audit write |
| HaltServices.HaltStateRestoreService.Restore | apps/engine/src/bootstrap/HaltStateRestoreService.ts:81-93 | once per process the flag becomes the restored flag of the two durable sources, whose text, source and ownership the protocol's laws fix |
| HaltServices.LegExact | apps/engine/src/common/service/HaltFlagService.ts:53-63 | a flag reason gives a leg exactly when it is the market-stress source, a colon, and that non-empty text |
| Utf8.RoundTrip | packages/analysis/src/util/CursorCodec.ts:42-55 | every text survives the trip through its UTF-8 bytes |
| Base64Url.RoundTrip | packages/analysis/src/util/CursorCodec.ts:121-130 | every byte string survives; the text is URL-safe, unpadded and of the stated length |
| Json.ValueRoundTrip | packages/analysis/src/util/CursorCodec.ts:42-55 | reading back what was written gives the value and leaves the text after it |
| Json.ParsePrint | packages/analysis/src/util/CursorCodec.ts:42-55 | parsing a printed value gives that value |
| Json.TrailingText | packages/analysis/src/util/CursorCodec.ts:57-80 | after a whole value only whitespace is let through |
| CursorCodec.RecordRoundTrip | packages/analysis/src/util/CursorCodec.ts:42-118 | the record written for a payload reads back as that payload exactly when it is well formed |
| CursorCodec.CursorRoundTrip | packages/analysis/src/util/CursorCodec.ts:42-118 | decoding an encoded cursor gives it back exactly when it is well formed and within the length cap, and otherwise nothing |
| CursorCodec.DecodedIsWellFormed | packages/analysis/src/util/CursorCodec.ts:57-118 | nothing malformed is decoded from any input |
| CursorCodec.DecodedInNumbers | packages/analysis/src/util/CursorCodec.ts:57-118 | a decoded id is a natural number or one to 64 digits, a fingerprint one to 64 units, and the text at most 256 |
| CursorCodec.EncodingFits | packages/analysis/src/util/CursorCodec.ts:25-55 | a digit id and plain hash of up to 64 characters with a safe-integer time always fit the cap |
| ListPositions.RestIsSuffix | packages/analysis/src/query/listPositions.ts:100-112 | the rows after an anchor are a suffix of the listing |
| ListPositions.FollowExact | packages/analysis/src/query/listPositions.ts:100-171 | paging by anchors returns every row exactly once at every limit exactly when no millisecond hides a row |
| ListPositions.WholeMillisecondsAreSafe | packages/analysis/src/query/listPositions.ts:159-164 | whole-millisecond times meet that condition |
| ListPositions.SubMillisecondRowIsSkipped | packages/analysis/src/query/listPositions.ts:159-164 | two concrete rows of one millisecond of which paging returns one |
| ListPositions.PageOfAnchor | packages/analysis/src/query/listPositions.ts:64-171 | one call with a handed-out cursor answers the next page of its anchor and hands out the cursor of the page's last row |
| ListPositions.PaginationIsExact | packages/analysis/src/query/listPositions.ts:59-171 | following the cursor texts from the first page ends and returns every matching row exactly once and in order, for every limit, exactly under that condition |
| ListPositions.MatchingExact | packages/analysis/src/query/listPositions.ts:79-98 | the rows pages are cut from: each wanted row of the table at its place, in order, and no other |
| ListPositions.RefusalsExact | packages/analysis/src/query/listPositions.ts:60-77 | which calls are refused and why, and how many rows an answer holds at most, fifty by default |
| ListPositions.OtherFiltersAreRefused | packages/analysis/src/query/listPositions.ts:75-77 | a cursor handed out under other filters is refused exactly when their fingerprint differs |
| ListPositions.UnreadableCursorStartsOver | packages/analysis/src/query/listPositions.ts:65-65 | a cursor that does not decode asks for the first page |
| AuthToken.IssuedOpens | apps/engine/src/auth/AuthModule.ts:153-173 | an issued token has three segments and opens to the payload it was issued with |
| AuthToken.EngineVerifiesIssued | apps/engine/src/auth/AuthModule.ts:153-229 | the engine returns the issued subject, id, scopes and times at every instant before expiry, EXPIRED from then on |
| AuthToken.McpVerifiesIssued | apps/mcp/src/transport/bearerVerifier.ts:94-149 | the MCP's verdict on an issued token: expired, wrong audience, revoked, or its claims |
| AuthToken.VerifiersAgreeOnIssued | apps/mcp/src/transport/bearerVerifier.ts:94-149 | on issued tokens the MCP accepts exactly what the engine accepts for audience "mcp" and an unrevoked id |
| AuthToken.VerifiersOnAnyToken | apps/mcp/src/transport/bearerVerifier.ts:73-149 | on arbitrary tokens what the one accepts the other accepts exactly with its own payload properties; what acceptance and refusal mean is stated by the rows below |
| AuthToken.AcceptedIsSigned | apps/engine/src/auth/AuthModule.ts:178-201 | whatever either verifier accepts is the fixed header, one segment, and the signature of the two |
| AuthToken.ForgedSignatureIsRefused | apps/mcp/src/transport/bearerVerifier.ts:94-118 | a token of the right shape with any other signature is answered BAD_SIGNATURE by both verifiers, whatever its payload and the time |
| AuthToken.TamperedIssueIsRefused | apps/engine/src/auth/AuthModule.ts:191-201 | an issued token with another third segment is answered BAD_SIGNATURE |
| AuthToken.OtherShapesAreMalformed | apps/engine/src/auth/AuthModule.ts:179-189 | a token of any other shape is malformed, an empty one missing for the MCP |
| AuthToken.SignedPayloadVerdicts | apps/mcp/src/transport/bearerVerifier.ts:73-149 | what each verifier makes of a well-signed payload of any content, property by property |
| AuthToken.IssuedTerms | apps/engine/src/auth/AuthModule.ts:153-165 | expiry and audience of an issued token, fifteen minutes and the engine by default |
| EgressWalker.RedactForLlm | apps/agent/src/llm/redactForLlm.ts:237-251 | the input is passed on unchanged exactly when every place in it is permitted, and otherwise the report is the error |
| EgressWalker.Walk | apps/agent/src/llm/redactForLlm.ts:253-278 | appends to the shared list exactly the reports of the value, in walk order |
| EgressWalker.WalkArray | apps/agent/src/llm/redactForLlm.ts:280-284 | the same for the items of an array |
| EgressWalker.WalkObject | apps/agent/src/llm/redactForLlm.ts:286-316 | the same for the fields of an object |
| EgressWalker.WalkReportsExactly | apps/agent/src/llm/redactForLlm.ts:237-393 | a path is reported exactly when it offends: too deep a value, or a forbidden key or leaf reached through allowed ones |
| EgressWalker.ReportIsOrdered | apps/agent/src/llm/redactForLlm.ts:253-316 | paths come in traversal order, each once |
| EgressWalker.AcceptedContainersAreWalked | apps/agent/src/llm/redactForLlm.ts:253-316 | in an accepted tree every container has been walked and none lies deeper than the limit |
| EgressWalker.AcceptedFieldsAreAllowed | apps/agent/src/llm/redactForLlm.ts:286-393 | in an accepted tree every key is permitted, and so is every leaf held by a field under its key |
| EgressWalker.AcceptanceExact | apps/agent/src/llm/redactForLlm.ts:237-393 | a tree goes out exactly when every key in it is permitted, every leaf of a field is permitted under its key, and no container or array element is deeper than eight |
| EgressWalker.KeyExact | apps/agent/src/llm/redactForLlm.ts:286-355 | a key is permitted exactly when it is not on the block list, its small-letter form holds no blocked text, and it has no blocked whole word unless it is allowed by name |
| EgressWalker.WordsExact | apps/agent/src/llm/redactForLlm.ts:357-365 | the words of a key are its stretches between separators, case changes and ends, in small letters |
| EgressWalker.LeafExact | apps/agent/src/llm/redactForLlm.ts:367-393 | a leaf is permitted exactly when its key is allowed by name or it is a number, a boolean, or a text of at most 64 characters that is a sign, digits, a fraction and an exponent |
| EgressWalker.DecimalCharacters | apps/agent/src/llm/redactForLlm.ts:385-393 | such a text holds digits, '.', '-', '+', 'e' and 'E' only, and at least one digit |
| EgressWalker.ArrayStringsAreUnchecked | apps/agent/src/llm/redactForLlm.ts:253-284 | an array of any strings is accepted |
| AlertRedactor.ReplaceAllLiteral | apps/engine/src/alert/AlertRedactor.ts:95-115 | the cursor loop is leftmost non-overlapping replacement |
| AlertRedactor.IndexOf | apps/engine/src/alert/AlertRedactor.ts:103-109 | the first occurrence at or after the cursor, or none |
| AlertRedactor.LiteralPassRemovesToken | apps/engine/src/alert/AlertRedactor.ts:78-82 | after the literal pass no occurrence of such a token is left |
| AlertRedactor.LiteralPassExact | apps/engine/src/alert/AlertRedactor.ts:95-115 | the text is cut at the token, first occurrence first, and joined again by the replacement |
| AlertRedactor.PassesKeepTokenOut | apps/engine/src/alert/AlertRedactor.ts:84-87 | no later pass brings the token back, whatever spans it replaces |
| AlertRedactor.OpaquePassExact | apps/engine/src/alert/AlertRedactor.ts:31-35 | the last pass leaves no run of 32 opaque characters, and changes exactly the texts that have one |
| AlertRedactor.OpaqueScriptExact | apps/engine/src/alert/AlertRedactor.ts:31-35 | exactly the maximal runs of at least 32 opaque characters are dropped, and everything else is copied |
| AlertRedactor.OpaqueCharacters | apps/engine/src/alert/AlertRedactor.ts:31-35 | which characters are opaque |
| AlertRedactor.RedactedIsClean | apps/engine/src/alert/AlertRedactor.ts:71-90 | the output holds no long opaque run and no occurrence of a bracket-free token outside "REDACTED" |
| AlertRedactor.MiddlePassesCount | apps/engine/src/alert/AlertRedactor.ts:84-87 | what any of the environment, bot-token and JWT passes removes is not in the output |
| AlertRedactor.HarmlessIsKept | apps/engine/src/alert/AlertRedactor.ts:53-90 | a text no pass has anything to say about comes out as it went in, in every field of a payload |
| AlertRedactor.TrimExact | apps/engine/src/alert/AlertRedactor.ts:54-54 | the configured token loses the white space at its ends and nothing else |
| AlertRedactor.TokenIsRemovedExactly | apps/engine/src/alert/AlertRedactor.ts:71-90 | for a bracket-free token that holds on every input exactly when the token is no part of "REDACTED" |
| AlertRedactor.RedactedPayloadIsClean | apps/engine/src/alert/AlertRedactor.ts:53-68 | title, body and every data value of an outbound payload are clean; type, severity, time and the data keys pass unredacted |
| AlertRedactor.UuidIsDropped | apps/engine/src/alert/AlertRedactor.ts:17-35 | a concrete UUID is replaced as a whole |
| RationaleFence.PickFence | apps/agent/src/loop/buildReport.ts:154-170 | the fence is at least three backticks, occurs nowhere in the rationale, and is no longer than that needs |
| RationaleFence.FenceIsUnique | apps/agent/src/loop/buildReport.ts:154-170 | these properties determine the fence |
| RationaleFence.RenderRationaleSection | apps/agent/src/loop/buildReport.ts:273-283 | the literal text of the section around such a fence |
| RationaleFence.SectionReadsBack | apps/agent/src/loop/buildReport.ts:273-283 | read by CommonMark, the block closes at the appended fence, holds the rationale's lines, and leaves whatever follows as it was written |
| RationaleFence.RationaleIsRecoveredExactly | apps/agent/src/loop/buildReport.ts:273-283 | the block's lines are the rationale's exactly when it does not end in a carriage return |
| Moments.OnePassVariance | packages/analysis/src/query/getRetryAttribution.ts:296-302 | the one-pass variance is the mean squared deviation and never negative |
| Moments.SampleAgainstPopulation | packages/analysis/src/query/getIdiosyncraticEdgeReport.ts:205-222 | (n - 1) times the sample variance is n times the population variance |
| Moments.MomentsOfPermuted | packages/analysis/src/query/getRetryAttribution.ts:296-302 | mean and variance do not depend on the order of the sample |
| DailyPnl.SummariseDay | apps/engine/src/alert/DailyPnlSummaryScheduler.ts:103-143 | sum, counts, and the one-pass drawdown as the largest fall of the running total over all pairs of instants |
| DailyPnl.WinsAndLosses | apps/engine/src/alert/DailyPnlSummaryScheduler.ts:119-123 | wins are the closes above zero and losses those below |
| DailyPnl.MaxDrawdownIsUnique | apps/engine/src/alert/DailyPnlSummaryScheduler.ts:107-133 | that definition determines the drawdown |
| DailyPnl.DrawdownCoversLoss | apps/engine/src/alert/DailyPnlSummaryScheduler.ts:107-133 | the drawdown is never negative, at least the day's net loss, and zero exactly on a day without a losing close |
| DailyPnl.StretchFallsLess | apps/engine/src/alert/DailyPnlSummaryScheduler.ts:114-134 | it is at least the drawdown of any stretch of the day |
| RetryAttribution.ResolveBucketIndex | packages/analysis/src/query/getRetryAttribution.ts:434-442 | the loop finds the half-open band of the value |
| RetryAttribution.BandsPartition | packages/analysis/src/query/getRetryAttribution.ts:432-442 | every value from the first edge on lies in exactly one band |
| RetryAttribution.ComputeDriftDistribution | packages/analysis/src/query/getRetryAttribution.ts:407-430 | each count is the number of measured, non-negative drifts in its band |
| RetryAttribution.DriftsInNumbers | packages/analysis/src/query/getRetryAttribution.ts:407-442 | band i counts the finite drifts from a quarter of i up to the next quarter, the last all from two on |
| RetryAttribution.CellKeyIsInjective | packages/analysis/src/query/getRetryAttribution.ts:374-378 | distinct tier and band pairs never share a key, whatever the tier is called |
| RetryAttribution.ReturnExact | packages/analysis/src/query/getRetryAttribution.ts:331-349 | a row's return is what, times its notional, makes its profit; none where a number is missing or the notional is zero |
| RetryAttribution.BandExact | packages/analysis/src/query/getRetryAttribution.ts:381-404 | a row's tier and band, by its ATR against one, two and four hundredths of its price |
| RetryAttribution.Accumulate | packages/analysis/src/query/getRetryAttribution.ts:304-327 | adding a row moves its own cell's arm and nothing else |
| RetryAttribution.PopulationStats | packages/analysis/src/query/getRetryAttribution.ts:296-302 | from the sums alone: the sample's mean and its mean squared deviation |
| RetryAttribution.ComputeMatchedControl | packages/analysis/src/query/getRetryAttribution.ts:254-291 | emits, sorted by key and each once, a cell exactly for each key both arms populate, with the two-pass means, variances, difference and squared standard error of its arms |
| RetryAttribution.CellInNumbers | packages/analysis/src/query/getRetryAttribution.ts:267-288 | an emitted cell counts the rows that fall into it; its difference leads from the first attempts' mean to the retries', and its squared error adds up the arms' own |
| RetryAttribution.OneMatchPerCell | packages/analysis/src/query/getRetryAttribution.ts:265-290 | emitted cells are the same exactly when their keys are |
| RetryAttribution.OrderDoesNotMatter | packages/analysis/src/query/getRetryAttribution.ts:254-291 | the emitted cells do not depend on the order of either row list |
| RetryAttribution.OneSortedList | packages/analysis/src/query/getRetryAttribution.ts:290-290 | nor does the emitted list, where the locale tells the emitted keys apart |
| EdgeReport.AggregateEdgeReport | packages/analysis/src/query/getIdiosyncraticEdgeReport.ts:145-180 | the report's counts, mean, squared standard error, buckets, robustness and gate are those of the eligible rows |
| EdgeReport.ReportInNumbers | packages/analysis/src/query/getIdiosyncraticEdgeReport.ts:145-180 | the counts of a report, counted from its rows |
| EdgeReport.VerdictsInNumbers | packages/analysis/src/query/getIdiosyncraticEdgeReport.ts:156-178 | the gate opens with twenty trades on three days; the split fails on a bucket of eight or more with a mean on another side of zero |
| EdgeReport.StandardErrorExact | packages/analysis/src/query/getIdiosyncraticEdgeReport.ts:205-222 | from two trades on, the squared standard error times the trades is the sample variance |
| EdgeReport.EligibleTrades | packages/analysis/src/query/getIdiosyncraticEdgeReport.ts:146-147 | the trades are the rows with an R-multiple, as they stand |
| EdgeReport.ClassesInNumbers | packages/analysis/src/query/getIdiosyncraticEdgeReport.ts:272-299 | up from one and a half percent on, down from its negative on, flat otherwise and without a move |
| EdgeReport.ComputeSquaredStandardError | packages/analysis/src/query/getIdiosyncraticEdgeReport.ts:205-222 | the two-pass squared standard error is the population variance over n - 1 |
| EdgeReport.BuildRegimeBucket | packages/analysis/src/query/getIdiosyncraticEdgeReport.ts:252-267 | size and mean of the trades of one kind |
| EdgeReport.ComputeRegimeRobustness | packages/analysis/src/query/getIdiosyncraticEdgeReport.ts:304-322 | true exactly when there is a mean and every bucket of at least the minimum size has its sign |
| EdgeReport.BucketsRecombine | packages/analysis/src/query/getIdiosyncraticEdgeReport.ts:159-161 | bucket sizes add up to n and weighted means recombine to the aggregate mean |
| EdgeReport.SharedSignIsRobust | packages/analysis/src/query/getIdiosyncraticEdgeReport.ts:163-163 | non-empty buckets of one sign give it to the aggregate, and the report passes |
| EdgeReport.FailureHasAWitness | packages/analysis/src/query/getIdiosyncraticEdgeReport.ts:304-322 | a failing report has two buckets of different sign, one of at least the minimum size |
| EdgeReport.ClampedFractionIsAShare | packages/analysis/src/query/getIdiosyncraticEdgeReport.ts:242-248 | the clamped share shown has two digits, is at most one, and is within half a hundredth of the true share |
| AiGateway.AiGatewayClient.GenerateStructured | apps/agent/src/llm/aiGateway.ts:144-149 | the check before the first generation: sent within the budget or refused with the figures, as the protocol's step |
| AiGateway.AiGatewayClient.OnServed | apps/agent/src/llm/aiGateway.ts:162-172 | the actual cost, or the estimate without one, is recorded; over the cap the value is withheld |
| AiGateway.AiGatewayClient.OnRejected | apps/agent/src/llm/aiGateway.ts:150-156 | one fallback on the other model after a retryable failure, behind a second check |
| AiGateway.SpendIsSumOfCosts | apps/agent/src/llm/aiGateway.ts:168-196 | over every run the total is the sum of the recorded costs |
| AiGateway.SentExactly | apps/agent/src/llm/aiGateway.ts:144-189 | exactly when a generation is sent, and on which model: the spend plus the estimate, and plus one and a fifth of the last cost, fit the cap; a rejected one is retried once, for the named reasons |
| AiGateway.ServedExactly | apps/agent/src/llm/aiGateway.ts:159-196 | what a generation that returns adds to the spend, and when its value is withheld |
| AiGateway.NothingSentAfterOvershoot | apps/agent/src/llm/aiGateway.ts:174-196 | once over the cap nothing is sent again in any continuation |
| AiGateway.RetryAloneIsSent | apps/agent/src/llm/aiGateway.ts:150-156 | with nothing else pending the check before the fallback never refuses, and a second failure ends the request at no cost |
| AiGateway.SpendIsBounded | apps/agent/src/llm/aiGateway.ts:125-197 | costs within projection and at most k calls pending keep the total within k caps; one at a time, within the cap |
| AiGateway.OverlappingCallsShareNothing | apps/agent/src/llm/aiGateway.ts:144-179 | that bound is reached for every k |
| MoneyFormat.ParseText | apps/dashboard/src/lib/utils.ts:32-45 | a decimal written out reads back as itself |
| MoneyFormat.ParseExact | apps/dashboard/src/lib/utils.ts:32-41 | a text is formatted exactly when it is a decimal written out |
| MoneyFormat.GroupingIsExact | apps/dashboard/src/lib/utils.ts:46-46 | without its commas the text is the digits; each comma has a positive multiple of three digits after it, and none is missing |
| MoneyFormat.FormattedPieces | apps/dashboard/src/lib/utils.ts:34-84 | both texts piece by piece: the sign, the integer part in groups of three, the fraction; a dash for nothing, and any other text as it is |
| MoneyFormat.MoneyTruncates | apps/dashboard/src/lib/utils.ts:34-51 | sign and integer digits kept, the fraction cut toward zero by less than one unit of the last place, and exactly when is nothing lost |
| MoneyFormat.PricePreservesValue | apps/dashboard/src/lib/utils.ts:63-84 | the value is preserved exactly when all digits past the eighteenth are zeros; no trailing zero beyond two places |
| MoneyFormat.FormattingTwice | apps/dashboard/src/lib/utils.ts:34-84 | formatting a formatted text changes nothing, for every input |

## Left out

- Numbers: money, statistics and budgets are exact reals and integers; decimal.js rounding to 20 digits, IEEE floats and the text of a formatted result (`toFixed`) are not modelled. Square roots are left out: variances and squared standard errors are stated.
- Text: strings are sequences of Unicode scalar values; a lone surrogate cannot be written, and one escaped in JSON reads as U+FFFD. Cursor number ids are integers.
- Input and output: databases, HTTP, sockets, Telegram and the event bus. Hashes, signatures and ids are parameters; signatures are compared for equality.
- Limiters: every run has a nondecreasing clock. The login rows written without waiting are assumed to land; a failed load at boot starts with empty windows, which is the boot with no rows. Rows of the global scope have their one fixed key.
- Halt protocol: equal-time audit rows are ordered by insertion; the `updated_at` guard on `risk_state`, alerts, the `halt.changed` event, `getState` and the paper-mode halts' own detail are not part of this model. When the risk gate finds a day calm for long enough, with automatic resumes enabled and the day's cap not reached, is an input. A login row and its reading of the flag are one step. A missed conditional risk-row write is the absence of the step.
- `listPositions`: the SQL text is a predicate on rows; row mappers, symbol and version-id validation are left out, and the table does not change while it is paged. The statement builder's growing lists are not modelled.
- CursorCodec: the engine's own MAC-bound cursor codec is not part of this model.
- EgressWalker: the key lists are parameters and lower-casing is ASCII; values other than JSON (dates, class instances, cycles) are not modelled.
- AlertRedactor: the environment-dump, bot-token and JWT passes are arbitrary passes that replace spans.
- RationaleFence: the reader covers fenced code blocks; the sections before the rationale are not read. `renderPerRegime`'s merge and the other sections are left out.
- RetryAttribution: `localeCompare` is a parameter, any total preorder of keys. Survival and counterfactual counts are left out as easy.
- EdgeReport: the clamped share is rounded from the exact quotient, half upward; the SQL reconstruction of risk and R-multiple is left out.
- AiGateway: what a failed generation may have cost is not recorded by the client and not modelled; configuration and model ids are left out.
- MoneyFormat: `addMoneyStrings` and the duration formatters are left out.
- DailyPnl: the scheduler's day arithmetic and once-per-day guard are left out.
