# Verified core of the API gateway

Dafny 4.11 model and proofs of the parts of the gateway's back end that carry real state, concurrency or
arithmetic. `dafny verify dfyconfig.toml` checks the whole project.

| files | what they model |
|---|---|
| `RateLimitSpec`, `RateLimitRuns`, `RateLimitReference`, `RateLimitWindow`, `RequestQueue`, `RateLimiter`, `RateLimitReplay` | the sliding-window limiter: the linked request queue, the key map, the LRU list with early-stopping eviction, the reservation counters; the operations as functions on a value, whole runs of them, the limiter that keeps everything, when the two agree, the classes, and runs of the object |
| `WorkerPool`, `WorkerPoolCancel` | the bounded worker pool for channel tests as a step relation over producer, workers, closer and reducing caller, with cancellation at any moment |
| `MultiKey`, `MultiKeyStatus`, `MultiKeyChannel` | the multi-key channel: key list, three index-keyed maps and channel status, as a state machine and as a record updated in place |
| `Upstream`, `UpstreamChecks`, `UpstreamOps`, `BatchScan` | upstream model reconciliation: ordered lists of names, detection, selective application, auto-sync, and the keyset-cursor scan |
| `Quota` | saturating, rounding and strict quota conversions, and the staged rounding of the test quota, under any float rounding |
| `BodyStream`, `BodyStreamLaws`, `BodyStorage`, `UsageCounters` | the replayable request body in memory and on disk, the readers it hands out, and the usage counters under interleaved atomic steps |
| `OggScanner` | the Ogg page scan that finds an Opus duration |
| `PageSize` | the page-size list: validating parser and canonical printer |
| `Text`, `OrderedSets`, `ByteTypes` | Go string functions, `lo` list functions and bytes that the above share |

Main results, each for all inputs or all runs:

- **Rate limiter.** With evictions and both kinds of use interleaved, the limiter records, hands out and answers exactly
  like one that keeps every request and reservation and only counts (`LimiterIsReference`, `VerdictCounts`), so accepted request i+M comes at least D seconds after request i
  (`AcceptedSpacing`). A key used through `Reserve`/`Complete` never has more than M successes in the window plus
  outstanding reservations (`ReservationBound`), and its counter is exact (`CounterIsOutstanding`). The early-stopping
  sweep evicts exactly the idle keys (`SweepExact`). These bounds hold in every run exactly if the expiration covers
  the window or eviction is off (`AnswersExact`, `SpacingExact`, `BoundExact`). The limiter object itself, with linked
  queues that share no node (`QueuesApart`), goes through the states of every run with the same verdicts (`Replay`).
- **Worker pool.** Conservation and at-most-once execution in every reachable state (`RunInv`), no deadlock and no
  goroutine left behind (`NoDeadlock`), a bound on the length of every run (`RunsAreBounded`), the full summary
  without cancellation (`CompleteWithoutCancel`), a full account with it (`AccountedOnCancel`), and no test started
  after it (`NothingStartsAfterCancel`, `ReceivedIsDropped`).
- **Multi-key channel.** Every run of management actions keeps the channel well formed (`RunWellFormed`) and leaves it
  enabled exactly while it has an enabled key (`RunStatus`); one purge is a sequence of single deletions exactly when a
  key survives (`PurgeIsDeletes`).
- **Reconciliation.** Detect, apply everything, detect again: nothing is pending exactly under a condition that can be
  read off before applying (`ApplyAllConverges`); what is pending otherwise is characterised name by name
  (`RedetectAfterApplyAll`), and so is the outcome of every selective application (`AdditionOutcome`,
  `RemovalOutcome`) and of auto-sync (`AutoSyncConverges`).
- **Body storage.** Whatever was called before, `Bytes`, a rewind and a new reader give the stored body again
  (`BytesIsData`, `RewindReplays`, `NewReaderReplays`). Memory and disk storage answer alike on exactly the call
  sequences described by `StoragesAgree`, and under every interleaving of their atomic counter updates the counters stay balanced (`RunBalanced`).

## Where the code misses a promised property

- A key evicted before its window has passed takes requests with it that still count, so with a positive expiration
  shorter than the window the limiter admits too much (`ForgottenRequest`, `ForgottenSuccess`); `AnswersExact`,
  `SpacingExact` and `BoundExact` give the exact condition. common/constants.go:331-332 asks for it, but the limiter
  shared by the middleware is set up for 20 minutes (common/constants.go:362, middleware/rate-limit.go:155), the later
  set-up with the window of the model request limit (middleware/model-rate-limit.go:138) then does nothing, and that
  window is configured freely.
- Convergence of reconciliation fails for an upstream name with a comma, because models are stored as
  comma-separated text (`CommaExample`), and for an upstream name that is itself an ignore pattern in use, because
  adding it drops the pattern (`PatternExample`). `ApplyAllConverges` gives the exact condition. For the same reason a
  selected addition becomes a local model exactly when no selected name has a comma (`AdditionsExact`), and auto-sync
  leaves nothing to add exactly when no adopted name has one (`AutoSyncConverges`).
- `CreateBodyStorageFromReader` computes `maxBytes + 1` in 64 bits. For the largest `maxBytes`, 2^63 - 1, this wraps to
  a negative limit and an empty body is stored whatever was sent (`CreateFromReader`). The one caller,
  common/gin.go:72, passes a multiple of 2^20, so only other uses of the function's signature can reach this input.
- The memory and disk storages answer differently on exactly these calls (`StoragesAgree`, `DifferingExamples`): a read
  into an empty buffer at the end of the content; a read of more than 2^30 bytes when more are there, because a file
  delivers at most 2^30 at once; a read whose position and length pass the last 64-bit position, which Linux refuses;
  a read or a second close of a reader the caller has closed, because closing a memory reader does nothing; and a seek
  inside the content with whence 3 or 4, which a file passes on to Linux as a search for data or a hole while the
  memory storage refuses it.
- `delete_disabled_keys` may delete every key, `delete_key` never the last one (`PurgeIsDeletes`,
  `LastKeyExample`).

## Modelling decisions

- The clock is a parameter. Runs of the limiter assume that it never runs backwards and that an eviction tick is not
  from the future; instants are nanoseconds, windows whole seconds.
- Each method under a mutex is one atomic step; a send on an unbuffered channel is one joint step of both sides. The
  usage counters have no mutex: `UsageCounters` takes each atomic add, store and compare-and-swap as a step of its own.
- Files are written in one piece without holes, on a Linux file system that accepts seeks to every 64-bit position and
  reads up to the end without faults; Go cuts a file read to 2^30 bytes.
- A nil Go map reads like an empty one; the handlers create maps before writing, so a map field models both.
- Channel keys are a sequence. The regular expression engine and `run` are arbitrary functions.
- Decimals are exact reals. Float arithmetic rounds by any monotone function that is exact on whole numbers up to 2^53
  in magnitude, finite at least up to 2^63 and never NaN; so does the conversion of a whole decimal, which may be
  infinite beyond 2^53.
- Database tables do not change during a scan and have positive ids.
- Strings are sequences of Unicode characters; text that is not valid UTF-8 is not represented.

## Model

| member | source | states |
|---|---|---|
| RequestQueues.RequestQueue.Append | common/rate-limit.go:23-33 | the linked chain stays well linked and its timestamps gain the new one at the end |
| RequestQueues.RequestQueue.RemoveExpired | common/rate-limit.go:36-53 | the chain stays well linked and holds what the three-way removal leaves of the timestamps, tail shortcut included |
| RequestQueues.RequestQueue.Clear | common/rate-limit.go:56-60 | the chain is empty and well linked |
| RateLimitSpec.RemoveExpiredIsLive | common/rate-limit.go:35-53 | on a time-ordered queue the removal, shortcut included, is exactly the filter for unexpired requests |
| RateLimitSpec.LiveIsSuffix | common/rate-limit.go:41-52 | what leaves a time-ordered queue is a prefix, and precisely the expired requests |
| RateLimitSpec.UnixFloor | common/rate-limit.go:156-158 | timestamps are whole seconds, rounded down |
| RateLimiter.InMemoryRateLimiter.Init | common/rate-limit.go:81-98 | the first call sets up an empty limiter with this expiration; repeated calls change nothing |
| RateLimiter.InMemoryRateLimiter.TouchEntry | common/rate-limit.go:135-149 | map and list stay in bijection; the key's bucket exists, is at the front of the list and was active now; all other buckets are untouched |
| RateLimiter.InMemoryRateLimiter.ElementPointsBack | common/rate-limit.go:62-68 | every list element holds a stored entry, under its own key, that points back to that element |
| RateLimiter.InMemoryRateLimiter.QueuesApart | common/rate-limit.go:62-68 | in every valid limiter no two buckets share a queue or a node |
| RateLimiter.InMemoryRateLimiter.Request | common/rate-limit.go:152-166 | verdict and new state of a request: prune, compare with the limit, record if allowed |
| RateLimiter.InMemoryRateLimiter.Reserve | common/rate-limit.go:178-190 | a reservation is handed out exactly when unexpired requests plus reservations are below the limit, and is counted |
| RateLimiter.InMemoryRateLimiter.Release | common/rate-limit.go:198-210 | the counter drops by one and disappears at zero; a success is recorded, re-creating an evicted bucket |
| RateLimiter.Complete | common/rate-limit.go:194-211 | only the first completion of a reservation has an effect; a nil reservation has none |
| RateLimiter.InMemoryRateLimiter.DeleteExpiredEntries | common/rate-limit.go:107-131 | the sweep leaves what walking from the back of the list to the first active key leaves, with the queues of evicted buckets cleared |
| RateLimitSpec.TouchOrdered | common/rate-limit.go:133-149 | touching a key keeps the list sorted by last activity |
| RateLimitSpec.EvictWalkKeeps | common/rate-limit.go:115-130 | the walk keeps the bijection, leaves a front part of the list and untouched buckets, removes only idle keys, and keeps reservations |
| RateLimitSpec.EvictExact | common/rate-limit.go:106-131 | on a sorted list the early-stopping walk removes exactly the idle keys |
| RateLimitRuns.RunOrdered | common/rate-limit.go:107-149 | in every reachable state map and list hold the same keys once each, sorted by last activity |
| RateLimitRuns.SweepExact | common/rate-limit.go:106-131 | a sweep of any reachable state evicts exactly the keys idle for the expiration time and no reservation |
| RateLimitRuns.RunRemembers | common/rate-limit.go:107-166 | over every run with one window per key, a bucket holds a suffix of the key's full history and everything else has expired for good, if the expiration covers the window or eviction is off (exactly then: `MemoryExact`) |
| RateLimitRuns.HistoryIsSimple | common/rate-limit.go:151-166 | over every run the recorded requests are those a limiter with unbounded memory would record, if the expiration covers the window or eviction is off (exactly then: `HistoryExact`) |
| RateLimitRuns.RequestMatchesSimple | common/rate-limit.go:151-166 | each verdict on a key equals that of the limiter that keeps its whole history, evictions or not, if the expiration covers the window or eviction is off (exactly then: `AnswersExact`) |
| RateLimitRuns.AcceptedSpacing | common/rate-limit.go:151-166 | accepted request i+M comes at least the window after request i, if the expiration covers the window or eviction is off (exactly then: `SpacingExact`) |
| RateLimitRuns.CounterIsOutstanding | common/rate-limit.go:168-211 | in every run a key's counter is the number of its uncompleted reservations, and absent at zero |
| RateLimitRuns.CompleteOnce | common/rate-limit.go:192-211 | completing again, with either outcome, changes nothing |
| RateLimitRuns.ReservationBound | common/rate-limit.go:176-211 | in every run, successes in the window plus outstanding reservations never exceed the limit, if the expiration covers the window or eviction is off (exactly then: `BoundExact`) |
| RateLimitReference.VerdictCounts | common/rate-limit.go:152-190 | after any run, mixed uses included, a request is allowed just if fewer than the limit are in the window of the full history, a reservation handed out just if those and the outstanding reservations are below it |
| RateLimitReference.ReservationExact | common/rate-limit.go:176-190 | a reservation is handed out exactly when successes in the window plus outstanding reservations are below the limit |
| RateLimitReference.LimiterIsReference | common/rate-limit.go:107-211 | in every run with one covered window per key the limiter records, hands out and answers exactly like the one that keeps everything |
| RateLimitReference.ActivityExact | common/rate-limit.go:133-149 | in every run a stored key was last active when it was last checked, granted or not, or completed with success |
| RateLimitReference.SweepByUse | common/rate-limit.go:106-131 | a sweep keeps exactly the stored keys used less than the expiration before its tick |
| RateLimitWindow.AnswersExact | common/rate-limit.go:107-166 | every run is answered as by full history exactly if the expiration covers the window or eviction is off |
| RateLimitWindow.HistoryExact | common/rate-limit.go:107-166 | the recorded requests of every run are those of full history exactly under that condition |
| RateLimitWindow.MemoryExact | common/rate-limit.go:107-166 | no bucket of any run forgets a request that still counts exactly under that condition |
| RateLimitWindow.SpacingExact | common/rate-limit.go:107-166 | in every run accepted request i+M comes at least the window after request i exactly under that condition |
| RateLimitWindow.BoundExact | common/rate-limit.go:107-211 | in every run successes in the window plus reservations stay within the limit exactly under that condition |
| RateLimitWindow.CountsExact | common/rate-limit.go:107-190 | every check of every run is answered by the count over full history exactly under that condition |
| RateLimitWindow.ForgottenRequest | common/rate-limit.go:107-166 | for every shorter expiration a run of two requests and a sweep in which the second is wrongly allowed |
| RateLimitWindow.ForgottenSuccess | common/rate-limit.go:107-211 | for every shorter expiration a run in which one success and one reservation stand under limit 1 |
| RateLimitReplay.Perform | common/rate-limit.go:107-211 | one event on the limiter object and its reservations is one step of a run, with its verdict |
| RateLimitReplay.Replay | common/rate-limit.go:82-211 | any sequence of events performed on a new limiter ends in the state of the run and gives its verdicts |
| WorkerPool.StepPlaced | controller/channel-test.go:997-1062 | every step keeps each channel in exactly one place: unsent, held by one worker or by the reducing caller, dropped, or reduced |
| WorkerPool.StepRanOnce | controller/channel-test.go:1006-1019 | every step keeps: run exactly if eligible and offered or reduced, never twice |
| WorkerPool.StepTallied | controller/channel-test.go:1049-1061 | every step keeps: summary and processed describe exactly the reduced channels, reports count up by one |
| WorkerPool.StepLifecycle | controller/channel-test.go:997-1047 | every step keeps: results closes only after all workers left, workers leave only on cancellation or closed jobs, each drops at most one job |
| WorkerPool.RunInv | controller/channel-test.go:975-1063 | all of these in every reachable state |
| WorkerPool.NoSendOnClosed | controller/channel-test.go:1019-1047 | once results is closed every worker has exited, so no send meets a closed channel |
| WorkerPool.NoDeadlock | controller/channel-test.go:997-1062 | a reachable state has no goroutine that can step exactly when caller, closer, producer and workers are all finished |
| WorkerPool.StepDecreases | controller/channel-test.go:997-1062 | every step, cancellation included, lowers the measure |
| WorkerPool.RunsAreBounded | controller/channel-test.go:997-1062 | every run has at most 7 steps per channel, one per worker and 4 more |
| WorkerPool.CompleteWithoutCancel | controller/channel-test.go:993-1062 | uncancelled, the pool ends with every channel processed and reported, each eligible one run once, and the sum of their results |
| WorkerPool.SummaryCounts | controller/channel-test.go:1049-1056 | each count of the summary is the sum of that count over the eligible channels |
| WorkerPool.AccountedOnCancel | controller/channel-test.go:997-1062 | at the end processed plus dropped are the channels handed out, at most one dropped per worker, and the summary is that of the reduced ones |
| WorkerPoolCancel.NothingStartsAfterCancel | controller/channel-test.go:1001-1060 | a channel run by the end had been run or was being run at the cancellation, no later one is; no progress is reported after it |
| WorkerPoolCancel.ReceivedIsDropped | controller/channel-test.go:1006-1012 | a channel received but not yet checked at the cancellation is never run or counted and ends dropped |
| WorkerPoolCancel.ConcurrencyBound | controller/channel-test.go:993-998 | there are never more workers than the concurrency or the channels |
| WorkerPoolCancel.ConcurrencyReached | controller/channel-test.go:993-1035 | and some run has that many busy at once |
| WorkerPoolCancel.PauseBetween | controller/channel-test.go:1021-1027 | with a request interval each delivered result is followed by a pause before the worker takes another channel; without one there is none |
| WorkerPool.HealthCheck | controller/channel-test.go:921-970 | the counts of one check: tested unless cancelled, success or failure, disabled or enabled under exactly the code's conditions |
| WorkerPool.CycleBalanced | controller/channel-test.go:911-970 | in every reachable state tested is succeeded plus failed, and status changes are at most tested |
| MultiKeyChannel.Record.HasEnabledMultiKey | controller/channel.go:90-107 | true exactly when some key is enabled by default or by its entry |
| MultiKeyChannel.Record.DisableIfUnavailable | controller/channel.go:109-122 | an enabled channel without enabled keys becomes manually disabled with the all-keys reason; reports whether keys are lacking |
| MultiKeyChannel.Record.RestoreIfAvailable | controller/channel.go:124-136 | only a channel disabled for that reason, with an enabled key, becomes enabled |
| MultiKeyChannel.Record.DisableKey | controller/channel.go:1802-1837 | new state and reply of disable_key, index errors included |
| MultiKeyChannel.Record.EnableKey | controller/channel.go:1839-1871 | new state and reply of enable_key, index errors included |
| MultiKeyChannel.Record.EnableAllKeys | controller/channel.go:1873-1893 | new state and count of enable_all_keys |
| MultiKeyChannel.Record.DisableAllKeys | controller/channel.go:1895-1937 | the loop disables exactly the enabled keys and counts them; nothing to disable is an error |
| MultiKeyChannel.Record.Without | controller/channel.go:1951-1983 | the rebuilding loop selects all keys but one and re-indexes the three maps |
| MultiKeyChannel.Record.DeleteKey | controller/channel.go:1939-2008 | new state and reply of delete_key; the last key is refused |
| MultiKeyChannel.Record.WithoutAutoDisabled | controller/channel.go:2011-2048 | the rebuilding loop selects the keys that are not auto-disabled, re-indexes the maps and counts the rest |
| MultiKeyChannel.Record.DeleteDisabledKeys | controller/channel.go:2010-2073 | new state and reply of delete_disabled_keys |
| MultiKeyChannel.Record.Manage | controller/channel.go:1802-2078 | every request changes the record and replies as the state machine says |
| MultiKey.StatusEffect | controller/channel.go:1802-1937 | each non-deleting action changes the status of just the keys it names, and which time and reason entries survive |
| MultiKey.DeleteEffect | controller/channel.go:1957-1995 | deleting a key closes the gap: the others keep order, status, time and reason |
| MultiKey.DeletionTidies | controller/channel.go:1957-1983 | after a deletion the status list holds exactly the keys that are not enabled |
| MultiKey.PurgeTidies | controller/channel.go:2010-2048 | so it does after a purge, and enabled keys then have neither time nor reason |
| MultiKey.KeptMeaning | controller/channel.go:1957-1995 | re-indexing keeps each survivor's key, effective status, time and reason |
| MultiKey.ActWellFormed | controller/channel.go:1802-2073 | every action keeps: indices in range, an enabled channel has an enabled key, one disabled for want of keys has none |
| MultiKey.RunWellFormed | controller/channel.go:1690-2079 | the same over every run of actions |
| MultiKeyStatus.ActStatus | controller/channel.go:90-136 | every action on a well-formed channel: an enabled one stays as it is while a key is enabled and is else disabled for want of keys now; one so disabled is enabled exactly by an enabling action that leaves an enabled key; no other status changes |
| MultiKeyStatus.RunStatus | controller/channel.go:1802-2073 | after every run a channel that started enabled or disabled for want of keys is enabled exactly when it has an enabled key |
| MultiKeyStatus.RunKeepsDisabled | controller/channel.go:124-136 | a channel disabled for another reason keeps status, reason and time through every run |
| MultiKeyStatus.ReplyLaw | controller/channel.go:1802-2078 | every reply: counts of keys before the action, each refusal with its reason; a refused request changes nothing |
| MultiKey.DisableAllEnableAll | controller/channel.go:1873-1937 | disable_all then enable_all returns an enabled channel to enabled and leaves one disabled for another reason as it was |
| MultiKey.PurgeIsDeletes | controller/channel.go:1939-2073 | delete_disabled_keys gives the keys, statuses and channel status of delete_key on each auto-disabled index from the highest down, exactly when a key survives or none is auto-disabled |
| MultiKey.LastKeyExample | controller/channel.go:1985-2062 | a concrete channel whose only key is purged but cannot be deleted singly |
| MultiKey.PurgedGone | controller/channel.go:2010-2062 | a purge of a channel whose keys are all auto-disabled leaves no key |
| Upstream.NormalizeSpec | controller/channel_upstream_update.go:102-107 | a duplicate-free list of exactly the non-blank texts that some name is with white space around |
| Upstream.NormalizeOrder | controller/channel_upstream_update.go:102-107 | names come in the order of their first mention |
| Text.TrimExact | controller/channel_upstream_update.go:102-107 | trimming yields the one text without white space at its ends that the input is with white space around |
| Text.AsciiSpace | controller/channel_upstream_update.go:102-107 | the white space of ASCII is blank, tab, line feed, vertical tab, form feed and carriage return |
| Text.JoinSplit | controller/channel_upstream_update.go:1001 | joining what was split gives the text back |
| Upstream.NormalizeFixed | controller/channel_upstream_update.go:102-107 | normalising is idempotent |
| Upstream.MergeSpec | controller/channel_upstream_update.go:109-123 | the base list first, then the new names in their order; the union, without duplicates |
| Upstream.SubtractSpec | controller/channel_upstream_update.go:125-134 | the difference, in the order of the base list |
| Upstream.IntersectSpec | controller/channel_upstream_update.go:136-145 | the intersection, in the order of the base list |
| Upstream.ApplySelectedSpec | controller/channel_upstream_update.go:147-152 | added names are in, removed ones out, add wins, order kept |
| UpstreamOps.MergeModelNames | controller/channel_upstream_update.go:109-123 | the seen-set loop computes the merge |
| UpstreamOps.SubtractModelNames | controller/channel_upstream_update.go:125-134 | filtering by a lookup set computes the difference |
| UpstreamOps.IntersectModelNames | controller/channel_upstream_update.go:136-145 | filtering by a lookup set computes the intersection |
| UpstreamOps.CollectPending | controller/channel_upstream_update.go:181-240 | the lookup sets compute the pending additions and removals |
| Upstream.PendingAddSpec | controller/channel_upstream_update.go:215-229 | pending additions are exactly the upstream names neither local, nor a redirect target, nor hidden by a rule, in upstream order |
| Upstream.HiddenExactly | controller/channel_upstream_update.go:219-227 | a name is hidden exactly by a rule that is that name and no pattern, or by a pattern, white space around it allowed, that matches |
| Upstream.PendingRemoveSpec | controller/channel_upstream_update.go:230-239 | pending removals are exactly the local names that are no redirect source and not upstream |
| UpstreamOps.Record.ApplyUpdates | controller/channel_upstream_update.go:976-1024 | new channel and results of a selective application |
| Upstream.ReadBack | controller/channel_upstream_update.go:996-1001 | names stored as comma-separated text are read back as their trimmed, non-blank pieces, whatever commas they hold |
| Upstream.LocalExactly | controller/channel_upstream_update.go:996 | the local models are the comma-separated parts of the stored text, without white space around them and blank ones |
| Upstream.LocalOfJoin | controller/channel_upstream_update.go:1001 | comma-free names stored as text are read back unchanged |
| Upstream.SelectionSpec | controller/channel_upstream_update.go:989-1009 | membership, order and freedom from duplicates of every list an application computes |
| Upstream.AdditionOutcome | controller/channel_upstream_update.go:989-1011 | for every selection: a fresh addition becomes local exactly if it is a piece of a selected name (without commas: itself), remains exactly if unselected, and is ignored otherwise; add beats ignore |
| Upstream.StoredExactly | controller/channel_upstream_update.go:996-1001 | the models read back are the computed list, in its order, exactly when no added name has a comma |
| Upstream.AdditionsExact | controller/channel_upstream_update.go:989-1001 | each fresh addition becomes local just if selected, exactly when no selected name has a comma |
| Upstream.RemovalOutcome | controller/channel_upstream_update.go:989-1011 | for every selection: a fresh removal goes exactly if selected and not a piece of an added name, and else stays local, pending if unselected; redirect aliases are never removed |
| Upstream.RedetectAfterApplyAll | controller/channel_upstream_update.go:181-240 | what detecting again finds to add and to remove after everything was applied, name by name, for every upstream list |
| Upstream.ApplyAllConverges | controller/channel_upstream_update.go:976-1024 | after applying everything nothing is pending, exactly when no detected name has a comma and no needed ignore rule is a detected name |
| Upstream.PlainNamesConverge | controller/channel_upstream_update.go:976-1024 | names without comma and pattern prefix always converge |
| Upstream.CommaExample | controller/channel_upstream_update.go:1001 | a concrete upstream name with a comma that stays pending |
| Upstream.PatternExample | controller/channel_upstream_update.go:1004-1007 | a concrete upstream name equal to an ignore pattern whose addition uncovers what the pattern hid |
| UpstreamOps.Record.CheckAndPersist | controller/channel_upstream_update.go:514-561 | outcome and new channel of one check: skipped, failed fetch, recorded, or adopted |
| UpstreamChecks.ChecksSpaced | controller/channel_upstream_update.go:520-533 | unforced checks that are made are at least the minimum interval apart in every sequence of calls |
| UpstreamChecks.SkippedExactly | controller/channel_upstream_update.go:520-527 | a check is skipped exactly when it is unforced and within the interval after the latest one |
| UpstreamChecks.ReportExact | controller/channel_upstream_update.go:539-570 | a change is reported exactly when names are adopted, and their number is the growth of the local list, if none has a comma |
| Upstream.AutoSyncConverges | controller/channel_upstream_update.go:539-551 | after auto-sync nothing is left to add exactly when no adopted name has a comma; local names stay; detecting again finds the recorded removals and pieces that upstream does not offer |
| BatchScan.PageIsNext | controller/channel_upstream_update.go:1030-1041 | a page fetched at the cursor is the next stretch of enabled channels |
| BatchScan.Scan | controller/channel_upstream_update.go:729-817 | the batch loop ends and visits what a plain loop over the sorted table visits, up to the cancellation or the first failing query |
| BatchScan.ScanOrder | controller/channel_upstream_update.go:1050-1105 | that is every enabled channel exactly once, in increasing id order |
| Quota.SaturateSpec | common/quota_math.go:86-100 | results are in range and a clamp is reported exactly for NaN and out-of-range input |
| Quota.SaturateExactly | common/quota_math.go:86-100 | overflow is reported exactly above the range, underflow exactly below, NaN for NaN; in range the value is truncated toward zero |
| Quota.SaturateMonotone | common/quota_math.go:86-100 | saturation is monotone |
| Quota.StrictSpec | common/quota_math.go:102-148 | the strict forms reject exactly when a clamp is reported, and else return the truncated or rounded value |
| Quota.RoundSpec | common/quota_math.go:129-142 | rounding is to the nearest integer, ties away from zero, and odd |
| Quota.DecimalExact | common/quota_math.go:157-168 | the int32 conversion of a decimal is its rounding, clamped; a clamp is reported exactly when out of range |
| Quota.WalletExact | common/quota_math.go:170-175 | the wallet conversion succeeds exactly when the rounding is within 2^53 - 1, and returns it |
| Quota.TestQuotaMonotone | controller/channel-test.go:549-558 | however float products round, the staged test quota is monotone in both token counts and lies in 0..2^31-1 |
| Quota.MinimumCharge | controller/channel-test.go:549-557 | a zero ratio costs nothing, any other at least 1, and from 1 on exactly the staged quota |
| Quota.StagedError | controller/channel-test.go:549-558 | absent clamping it is within (ratio + 1) / 2 of the exact product, plus the float error of the second product and the ratio times that of the first |
| Quota.StagedErrorExact | controller/channel-test.go:549-558 | in exact arithmetic the bound is (ratio + 1) / 2 |
| BodyStorage.MemoryStorage.constructor | common/body_storage.go:52-60 | a new memory storage is at the start of the data and is counted |
| BodyStorage.MemoryStorage.Read | common/body_storage.go:62-69 | reads as the memory stream does |
| BodyStorage.MemoryStorage.Seek | common/body_storage.go:71-78 | seeks as the stream does, errors included |
| BodyStorage.MemoryStorage.Close | common/body_storage.go:80-87 | only the first close counts the storage out |
| BodyStorage.MemoryStorage.Bytes | common/body_storage.go:89-96 | the whole content, cursor untouched |
| BodyStorage.MemoryStorage.NewReader | common/body_storage.go:98-108 | as the stream does: a fresh reader of its own at the start, or none after close |
| BodyStorage.MemoryStorage.ReadFrom | common/body_storage.go:98-108 | a read from a reader it handed out moves that reader only, also after the reader or the storage was closed |
| BodyStorage.MemoryStorage.CloseReader | common/body_storage.go:104-107 | closing a reader disturbs neither the storage nor other readers, and can be repeated |
| BodyStorage.DiskStorage.constructor | common/body_storage.go:127-157 | a new disk storage is at the start of the data, owns its path, its file is linked, and it is counted |
| BodyStorage.DiskStorage.Read | common/body_storage.go:196-203 | reads as the disk stream does |
| BodyStorage.DiskStorage.Seek | common/body_storage.go:205-212 | seeks as the stream does, errors included |
| BodyStorage.DiskStorage.Close | common/body_storage.go:214-223 | only the first close unlinks the file and counts it out |
| BodyStorage.DiskStorage.Bytes | common/body_storage.go:225-257 | the whole content, with the file position restored |
| BodyStorage.DiskStorage.NewReader | common/body_storage.go:259-275 | as the stream does: a fresh descriptor of its own at the start, or none after close |
| BodyStorage.DiskStorage.ReadFrom | common/body_storage.go:259-275 | a read from a reader it handed out moves that reader only, also after the storage was closed and its file unlinked; it fails once the reader is closed |
| BodyStorage.DiskStorage.CloseReader | common/body_storage.go:264-268 | closing a reader disturbs neither the storage nor other readers, and fails the second time |
| BodyStream.StoragesAgree | common/body_storage.go:62-116 | for every sequence of calls memory and disk answer alike exactly when no call is a differing read (empty at the end, more than 2^30 bytes that are there, beyond the last position), on a closed reader, or a seek for data or a hole inside the content |
| BodyStream.DifferingExamples | common/body_storage.go:62-116 | concrete storages and calls that are answered differently |
| BodyStream.ReadersIndependent | common/body_storage.go:23-29 | no call on the storage or on other readers, closing included, moves a reader or changes the content |
| BodyStream.CollectedIsContent | common/body_storage.go:196-203 | however a body is read in pieces, the pieces are the content from the cursor on, and as much of it as the reads ask for (a file read at most 2^30 bytes) unless a read passes the last position |
| BodyStreamLaws.BytesIsData | common/body_storage.go:89-96 | after any calls without a close `Bytes` returns the stored body and moves nothing; after a close everything but closing fails |
| BodyStreamLaws.RewindReplays | common/body_storage.go:205-212 | after any calls a rewound body reads from its first byte again |
| BodyStreamLaws.NewReaderReplays | common/body_storage.go:259-275 | a new reader delivers the body from its first byte, whatever is called before and between, closing the storage included |
| BodyStreamLaws.ReadToEndIsRest | common/body_storage.go:62-69 | reading until the end of the file returns the rest of the content, which is also exactly when the end is reported |
| BodyStreamLaws.SeekThenRead | common/body_storage.go:71-78 | a seek from start, cursor or end leads to that point plus the offset and the next read starts there; otherwise it fails and moves nothing |
| BodyStorage.CreateBodyStorage | common/body_storage.go:286-304 | the body is stored whole; on disk exactly when large enough, enabled, within the budget and without a fault; counted accordingly |
| BodyStorage.AvailableExactly | common/disk_cache_config.go:169-177 | the cache is available exactly when it is on and the new total is within the budget, or wraps around 64 bits |
| BodyStorage.CreateFromReader | common/body_storage.go:307-348 | a body is stored whole exactly when at most maxBytes long (and maxBytes + 1 does not wrap), too large otherwise; for the largest maxBytes an empty body is stored; which storage is chosen, which hit counter grows, and which fault is reported; failures leave the counters alone |
| BodyStorage.UsageStats.DecrementDiskFiles | common/disk_cache_config.go:115-122 | both disk counters drop, clamped at zero |
| BodyStorage.UsageStats.IncrementDiskFiles | common/disk_cache_config.go:109-112 | both disk counters grow |
| BodyStorage.UsageStats.IncrementMemoryBuffers | common/disk_cache_config.go:125-128 | both memory counters grow |
| BodyStorage.UsageStats.DecrementMemoryBuffers | common/disk_cache_config.go:131-134 | both memory counters drop |
| UsageCounters.RunBalanced | common/disk_cache_config.go:108-134 | in every interleaving of the atomic steps of creations, failures and repeated closes each counter is what was added and not yet taken off, and no clamp is ever due |
| UsageCounters.CountersExact | common/disk_cache_config.go:108-134 | whenever no creation or close is under way the counters are the number and summed size of the open storages of each kind |
| UsageCounters.CreateUninterrupted | common/disk_cache_config.go:109-128 | the atomic steps of a creation, uninterrupted, are one increment |
| UsageCounters.CloseUninterrupted | common/disk_cache_config.go:115-134 | the atomic steps of a close, uninterrupted, are one clamped decrement |
| OggScanner.LargestGranule | common/audio.go:209-251 | the loop with its backward seek ends on every input and computes the scan, up to the first header read that comes back short; it fails exactly when a read that it makes fails |
| OggScanner.ShortReads | common/audio.go:212-219 | a short read can only lose positions; a reader that delivers what is there loses none |
| OggScanner.ReadsSuffice | common/audio.go:212-219 | answering every header read the scan makes loses nothing; there is at most one per byte and one more |
| OggScanner.OpusDuration | common/audio.go:198-256 | the duration is the largest granule position over 48000, as float arithmetic rounds it, or the read error |
| OggScanner.ScanPage | common/audio.go:230-250 | at a page the scan takes its signed granule position and jumps to its end, whatever the body holds |
| OggScanner.ScanCutPage | common/audio.go:236-250 | a page cut short after its header still counts |
| OggScanner.ScanJunk | common/audio.go:221-228 | bytes without a capture pattern are stepped over |
| OggScanner.ScanStream | common/audio.go:198-256 | on every stream of well-formed pages, with noise between and after them, the scan finds the maximum of 0 and the granule positions |
| PageSize.NormalizePageSizeOptions | common/constants.go:40-61 | accepted exactly when the text lists distinct page sizes, signs, leading zeros and white space around the parts allowed; then their canonical text |
| PageSize.AtoiItoa | common/constants.go:50-58 | printing and parsing are inverse on every 64-bit int |
| PageSize.AtoiExact | common/constants.go:50 | parsing accepts exactly an optional sign and digits within 64 bits, with their value |
| PageSize.LeadingZero | common/constants.go:50 | leading zeros do not count |
| PageSize.AcceptedExactly | common/constants.go:40-77 | acceptance, canonical text and runtime list in terms of what the comma-separated parts stand for |
| PageSize.SpacedExample | common/constants.go:49 | a concrete list with a space and a leading zero |
| PageSize.NormalizeIdempotent | common/constants.go:38-61 | normalising a normalised text changes nothing |
| PageSize.CanonicalRoundTrip | common/constants.go:38-77 | every list of distinct page sizes is the meaning of its own canonical text |
| PageSize.ParsePageSizeOptions | common/constants.go:65-77 | the configured numbers in order, or the defaults; always distinct and in 1..100 |

## Left out

- WorkerPool.HealthCheck: the channel test itself, status changes in the database and notifications are verdicts passed in as parameters.
- MultiKeyChannel.Record.Manage: the read-only key status page, authorisation, persistence and closing of connections are not modelled; key text is taken as a list, so blank lines in it are not.
- The key-append branch of channel updates, which only removes duplicates.
- BatchScan.Scan: what is done for each visited channel, and the counters it adds up, are not part of the scan.
- UpstreamOps.Record.ApplyUpdates: persistence, the abilities table and fetching upstream lists are not modelled; the redirect map arrives normalised.
- BodyStorage.MemoryStorage.Bytes: that the returned slice shares memory with the storage is not modelled.
- UsageCounters.CountersExact: old-file cleanup, reset and resync adjust the counters on their own and are not part of these runs.
- Quota.TestQuotaMonotone: the tiered-billing branch and the fixed-price branch are not modelled.
- HTTP handlers, option storage, logging, and all audio formats but Ogg/Opus.
