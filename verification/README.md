# Verified cores of the gateway

This project models the stateful cores of the API gateway and proves what they promise over every
run. `dafny verify dfyconfig.toml` checks all of it.

Code that changes fields in place is a class whose methods are proved to perform a step function on
values; the long-run theorems are proved about those steps. Code that only computes is functions.

| files | core |
|---|---|
| RateLimitSpec, RateLimitQueue, RateLimiter, RateLimitTheorems, RateLimitWindows | sliding-window rate limiter: linked queues, recency list, in-flight reservations, eviction |
| Text, OrderedSets, ModelNames, UpstreamUpdate, UpstreamTheorems, UpstreamChannel | reconciling a channel's models with its upstream |
| MultiKey, MultiKeyChannel | key management of multi-key channels |
| WorkerPool | the bounded pool that tests channels |
| StreamJob | line-by-line stream reader and generation job |
| AdmissionLimiter | four-dimension admission with rollback |
| BodyStorage, BodyStores | request bodies in memory and on disk, with accounting |
| Basics | bytes, optional values and counter maps shared by the others |
| QuotaMath, OggOpus, GroupRename, Verification | quota conversion, Opus duration, simultaneous rename, verification codes |

## What was found

- Rate limiter: pruning and idle-key eviction are invisible exactly when the expiration is not positive or
  at least every key's window (`InvisibleIffCovered`). A shorter expiration admits a request too many: with
  a positive limit, no window of as many whole seconds as a key's duration holds more accepted requests than
  the limit exactly when that key outlives its window (`NoWindowExceedsIff`). In clock time less is promised,
  because only whole seconds are recorded: for a positive duration the protected windows are those of at most
  (duration - 1) seconds and one nanosecond, or of the expiration if that is shorter, and no wider one is
  (`WidthProtectedIff`). With limit 1 and duration 1, requests at 999,999,999 and 1,000,000,000 nanoseconds
  are both accepted (`OneNanosecondApart`). Queue plus in-flight requests stay within the limit for every
  expiration (`QueueWithinLimit`). A key used with both Request and Reserve stays within twice the limit, and
  can reach it (`QueueReachesBound`).
- Upstream models: detect, apply everything, detect again finds nothing new, unless a model's name is
  itself an ignore rule (`regex:...`) that shields other names. `Converges` gives the exact condition and
  `RuleNamedModelDiverges` an example. As many rounds as there are upstream names always suffice
  (`RoundsConverge`). Stored lists survive exactly when no name has a comma (`StoredIffCommaFree`).
- Multi-key channels: the recorded reason "All keys are disabled" of a channel without enabled keys stays
  true over every run exactly when the channel was disabled manually or has no keys
  (`LabelStaysTrueIff`). An auto-disabled one is not restored when its keys are enabled, one or all.
  Deleting disabled keys in one batch equals deleting them one by one unless every key is auto-disabled
  (`BatchDeleteIsOneByOne`, `BatchEmptiesAllAuto`).
- Body storage: a stream that is longer than it declares can push disk use over the configured limit, and
  nothing else can, one creation at a time (`DiskWithinLimitIff`). Over every run of calls, memory and disk
  give the same answers exactly when no call is an empty read at the end of an open body or a seek with a
  whence of the system's own (`AnswersAgreeIff`). At the largest 64-bit size limit, limit + 1 wraps and a
  non-empty body is stored empty (`FaithfulIff`). The clamp on the disk counters never fires, in any
  interleaving of the atomic operations (`UsageIsExact`).
- Verification codes: storing a code under purpose + key is faithful exactly when no purpose begins with
  another, or when the validity is not positive (`InvisibleIffPrefixFree`); the two built-in purposes are
  fine.
- Group rename: when two old names meet on one free new name with different values, two visiting orders of
  the renames give different tables, and only then (`OrderInvisibleIff`). The tables some order gives are
  exactly the simultaneous renames (`AlongIsRename`, `EveryRenameIsReached`).

## Assumptions

- Rate limiter: one clock, read under the mutex, never goes back; a cleanup tick may be delivered late but
  is not stamped in the future. A key is used with one window length. `container/list` is a sequence.
- Upstream models: regular-expression matching is any predicate. The fetch is a parameter that may fail.
- Multi-key: `GetKeys` is a sequence whose length is `MultiKeySize`.
- Worker pool: a send on an unbuffered channel is one step of both sides; the reducer's look at the
  cancellation and its report are one step. Every single channel test returns, and so does every pause:
  that a running worker can finish is what `NeverStuck` and `AlwaysReturns` rest on.
- Body storage: what the operating system does with a whence other than 0, 1 and 2 is any function.
- Stream job: whitespace trimming and event parsing are any functions; running times are a parameter.
- Quota: floats are reals plus NaN and the infinities; rounding to floats is any monotone function, exact
  on whole numbers up to 2^53 or within a given distance where that is stated.
- Verification: whole seconds of a duration are computed without float error.
- Every method body guarded by a mutex is one atomic step; an operation of `sync/atomic` is one too.

## Model

| member | source | states |
|---|---|---|
| RateLimitQueue.Queue.Append | common/rate-limit.go:23-33 | keeps an acyclic chain with exact head, tail and length; the times grow by one at the end |
| RateLimitQueue.Queue.RemoveExpired | common/rate-limit.go:36-53 | never follows a nil link; leaves what the two-ended test of the queue leaves |
| RateLimitQueue.Queue.Clear | common/rate-limit.go:56-60 | empty chain |
| RateLimitTheorems.PruneDropsExactlyExpired | common/rate-limit.go:36-53 | on a time-sorted queue that is exactly the unexpired entries |
| RateLimiter.InMemoryRateLimiter.TouchEntry | common/rate-limit.go:135-149 | the key's entry exists, is active now and in front of the recency list; nothing else changes |
| RateLimiter.InMemoryRateLimiter.Request | common/rate-limit.go:152-166 | performs the request step on buckets, recency list and counters, across the heap |
| RateLimiter.InMemoryRateLimiter.Reserve | common/rate-limit.go:178-190 | performs the reserve step; null exactly on refusal |
| RateLimiter.Reservation.Complete | common/rate-limit.go:194-211 | only the first call acts; null is ignored |
| RateLimiter.InMemoryRateLimiter.DeleteExpiredEntries | common/rate-limit.go:107-131 | performs the early-stop eviction and releases the chains |
| RateLimitTheorems.EvictsExactlyIdle | common/rate-limit.go:107-131 | stopping at the first active key deletes exactly the keys idle for the expiration |
| RateLimitTheorems.TickDeletesIdle | common/rate-limit.go:107-131 | a tick deletes exactly the keys idle at its stamp and changes no other bucket, counter or ticket |
| RateLimitTheorems.SweepExact | common/rate-limit.go:107-131 | the same in every reachable state |
| RateLimitTheorems.CallLeaves | common/rate-limit.go:135-190 | allowed or not, a call marks its key active now, leaves exactly the unexpired requests, with the new one if recorded, and no other key changes |
| RateLimitTheorems.DecisionExact | common/rate-limit.go:152-190 | for every expiration: allowed if and only if the unexpired recorded requests, plus the unfinished tickets for a reservation, are below the limit |
| RateLimitTheorems.CompletionLeaves | common/rate-limit.go:194-211 | only the first completion of a ticket acts; a success is recorded under the ticket's key |
| RateLimitTheorems.StoredWhileActive | common/rate-limit.go:107-211 | after every run a key is stored exactly when no tick has found it idle since its last call, with the time of that call |
| RateLimitTheorems.StepKeepsShape | common/rate-limit.go:107-211 | every step keeps store and recency list in bijection, newest first, queues sorted |
| RateLimitTheorems.StepCounts | common/rate-limit.go:178-211 | every step keeps the reservation counters equal to the unfinished tickets, without zero entries |
| RateLimitTheorems.ReachableShape | common/rate-limit.go:107-211 | both hold in every reachable state at the instant of the last event, whatever the configuration |
| RateLimitTheorems.StepSimulates | common/rate-limit.go:107-211 | each decision equals that of a limiter that never forgets, and the simulation is kept |
| RateLimitTheorems.RunSimulates | common/rate-limit.go:107-211 | the same over every run |
| RateLimitTheorems.InvisibleIffCovered | common/constants.go:210-211 | all runs agree with the simple limiter if and only if idle keys outlive their window |
| RateLimitTheorems.EarlyEvictionShows | common/rate-limit.go:107-131 | a concrete run that differs for every shorter expiration |
| RateLimitWindows.QueueWithinLimit | common/rate-limit.go:152-211 | queue plus in-flight never exceeds the limit on any run, for every expiration; twice the limit for a key used in both ways |
| RateLimitWindows.QueueReachesBound | common/rate-limit.go:152-211 | runs that reach those bounds |
| RateLimitWindows.NoWindowExceedsIff | common/rate-limit.go:107-211 | no window of duration whole seconds holds more accepted requests than the bound, on all runs, if and only if the limit is not positive or the key outlives its window |
| RateLimitWindows.WidthProtectedIff | common/rate-limit.go:107-211 | the exact widths in nanoseconds for which the same holds on all runs, for every duration and expiration |
| RateLimitWindows.OneNanosecondApart | common/rate-limit.go:36-53 | with limit 1 and duration 1, two requests one nanosecond apart are both accepted |
| RateLimitWindows.OverrunShows | common/rate-limit.go:107-211 | the run behind both: fill the bound, let it be forgotten, accept once more |
| RateLimitWindows.AcceptedIsLog | common/rate-limit.go:152-211 | when all keys outlive their windows the seconds of the accepted requests are the log of the simple limiter |
| Text.TrimParts | controller/channel_upstream_update.go:101-106 | trimming takes away characters of the cut set at both ends, all of them, and nothing else |
| ModelNames.NormalizeProps | controller/channel_upstream_update.go:101-106 | distinct, trimmed, non-empty names; a normal list is a fixed point |
| ModelNames.NormalizeElements | controller/channel_upstream_update.go:101-106 | exactly the trimmed non-empty names |
| ModelNames.NormalizeInOrder | controller/channel_upstream_update.go:101-106 | in the order in which the names first appear |
| ModelNames.MergeModelNames | controller/channel_upstream_update.go:108-122 | the loop appends exactly the new names in order |
| ModelNames.MergeProps | controller/channel_upstream_update.go:108-122 | a normal list holding the union: the base, then the new names in their order |
| ModelNames.SubtractProps | controller/channel_upstream_update.go:124-133 | a normal list holding the difference, in the order of the base |
| ModelNames.IntersectProps | controller/channel_upstream_update.go:135-144 | a normal list holding the intersection, in the order of the base |
| ModelNames.ApplySelectedShape | controller/channel_upstream_update.go:146-151 | kept origin names in order, then new names in selection order; add beats remove |
| UpstreamUpdate.PendingProps | controller/channel_upstream_update.go:194-253 | which names are proposed for adding and removing, both directions, in upstream and local order |
| UpstreamUpdate.IgnoredIff | controller/channel_upstream_update.go:232-238 | a name is ignored if and only if it is listed itself or the rule after some listed prefix matches it |
| UpstreamUpdate.PendingDisjoint | controller/channel_upstream_update.go:194-253 | never both; redirect sources are never removed |
| UpstreamUpdate.StoredIffCommaFree | controller/channel_upstream_update.go:555 | a stored list is read back unchanged if and only if no name has a comma |
| UpstreamChannel.Channel.CheckAndPersist | controller/channel_upstream_update.go:527-574 | performs the check step with throttle, failed fetch and auto-sync; an error exactly for a failed fetch that was not throttled |
| UpstreamChannel.Channel.Apply | controller/channel_upstream_update.go:972-1020 | performs the apply step and returns what was added, removed and remains |
| UpstreamChannel.Channel.Edit | controller/channel_upstream_update.go:153-165 | performs the manual edit step |
| UpstreamTheorems.AutoSyncAdoptsAll | controller/channel_upstream_update.go:551-562 | auto-sync appends every pending name and leaves none pending |
| UpstreamTheorems.CheckExact | controller/channel_upstream_update.go:527-574 | forced or scheduled: nothing within the interval; else the time is noted and exactly the names to remove and add are recorded, or the latter adopted |
| UpstreamTheorems.ChecksAreSpaced | controller/channel_upstream_update.go:533-537 | over every sequence of scheduled checks, upstream is asked at least the interval apart |
| UpstreamTheorems.ApplyProps | controller/channel_upstream_update.go:985-1007 | the four lists and the time a selection leaves behind |
| UpstreamTheorems.EditExact | controller/channel_upstream_update.go:153-165 | an edit stores the models, ignores exactly what was ignored or local and is not named now, and keeps pending the rest |
| UpstreamTheorems.RemovedStaysAway | controller/channel_upstream_update.go:153-1020 | a model an edit takes out is neither local nor pending after any run, until an edit names it or replaces the ignore list |
| UpstreamTheorems.EditGivesInv | controller/channel.go:1286-1294 | an edit makes local, ignored and pending names disjoint whatever settings came with it |
| UpstreamTheorems.RunKeepsInv | controller/channel_upstream_update.go:527-1020 | every run of checks, selections and edits keeps the three sets pairwise disjoint |
| UpstreamTheorems.RunFromNew | controller/channel_upstream_update.go:527-1020 | in particular every run from a new channel |
| UpstreamTheorems.ApplyConserves | controller/channel_upstream_update.go:985-1007 | pending adds split into added, ignored and remaining; add beats ignore and remove |
| UpstreamTheorems.Converges | controller/channel_upstream_update.go:194-253 | detect, apply all, detect again: nothing to remove, and nothing to add if and only if every ignored uncovered name is blocked by an entry that is not itself about to be added |
| UpstreamTheorems.RoundsConverge | controller/channel_upstream_update.go:194-253 | for every state and rule, as many rounds of detect and apply as there are upstream names, and at least one, leave nothing to add or remove |
| UpstreamTheorems.PlainNamesConverge | controller/channel_upstream_update.go:194-253 | both lists are empty after one round when no upstream name looks like a rule |
| UpstreamTheorems.RuleNamedModelDiverges | controller/channel_upstream_update.go:1000-1003 | an example that does not converge |
| MultiKeyChannel.Channel.HasEnabledMultiKey | controller/channel.go:91-108 | true exactly when some key is enabled |
| MultiKeyChannel.Channel.DisableUnavailable | controller/channel.go:110-123 | disables an enabled channel without keys; reports whether no key is left |
| MultiKeyChannel.Channel.RestoreAvailable | controller/channel.go:125-137 | re-enables only a manually disabled channel with the all-keys reason and a key |
| MultiKeyChannel.Channel.DisableKey | controller/channel.go:1882-1926 | index checks, step on the channel |
| MultiKeyChannel.Channel.EnableKey | controller/channel.go:1928-1969 | index checks, step on the channel |
| MultiKeyChannel.Channel.EnableAllKeys | controller/channel.go:1971-1994 | clears all records, counts them |
| MultiKeyChannel.Channel.DisableAllKeys | controller/channel.go:1996-2044 | the loop disables exactly the enabled keys and counts them |
| MultiKeyChannel.Channel.DeleteKey | controller/channel.go:2046-2127 | the loop renumbers the three maps around the deleted index; refuses the last key |
| MultiKeyChannel.Channel.DeleteDisabledKeys | controller/channel.go:2129-2199 | the loop renumbers the maps of the survivors; counts the deleted |
| MultiKey.RenumberView | controller/channel.go:2079-2095 | renumbering changes nothing visible about a surviving key |
| MultiKey.DeleteKeyView | controller/channel.go:2064-2111 | one key gone, all others in order with the same visible record |
| MultiKey.DeleteDisabledView | controller/channel.go:2130-2182 | exactly the keys that are not auto-disabled, in order, as shown before |
| MultiKey.DeleteKeyRecords | controller/channel.go:2064-2111 | every record moves along with its key |
| MultiKey.DeleteDisabledRecords | controller/channel.go:2130-2182 | exactly the records of the keys that stay and are not enabled |
| MultiKey.SwitchView | controller/channel.go:1910-1955 | what enabling or disabling one key shows |
| MultiKey.SwitchAllView | controller/channel.go:1971-2020 | what the batch forms show, with the time and reason on record |
| MultiKey.SwitchRecords | controller/channel.go:1910-1994 | enabling forgets the records of a key, or of all; disabling writes only the status |
| MultiKey.DisableAllRecords | controller/channel.go:1996-2020 | a status is written for exactly the enabled keys |
| MultiKey.NothingToDo | controller/channel.go:1882-2199 | what is refused or has nothing to do changes nothing |
| MultiKey.BatchDeleteIsOneByOne | controller/channel.go:2064-2182 | batch deletion equals delete_key from the highest auto-disabled index down: keys, view and channel status |
| MultiKey.BatchEmptiesAllAuto | controller/channel.go:2098-2182 | with every key auto-disabled the two differ |
| MultiKey.RunTruthful | controller/channel.go:91-137 | over any run: enabled means a key is enabled, disabled for want of keys means none is |
| MultiKey.StepConsistent | controller/channel.go:91-137 | the channel's status changes exactly when the first key becomes usable or the last one stops being so, with the new reason and time |
| MultiKey.RunConsistent | controller/channel.go:91-137 | over any run from a consistent channel, it is enabled if and only if some key is |
| MultiKey.RunLeavesOtherReasons | controller/channel.go:110-137 | over any run: another reason is never overwritten and the channel not re-enabled |
| MultiKey.LabelStaysTrueIff | controller/channel.go:125-137 | over every run the all-keys label of a channel without enabled keys stays true if and only if the channel is manually disabled or has no keys |
| MultiKey.EnablingStalesLabel | controller/channel.go:125-137 | otherwise enabling one key, or all, leaves the label behind |
| WorkerPool.StepInv | controller/channel-test.go:1004-1092 | every step keeps workers and jobs matched, starts unique, sums exact, reports gapless |
| WorkerPool.RunsAtMostOnce | controller/channel-test.go:1026-1071 | in every interleaving each channel begins at most once |
| WorkerPool.CancelStops | controller/channel-test.go:1026-1091 | once cancelled, no channel begins and nothing is reported, on every run |
| WorkerPool.CancelReturnsPromptly | controller/channel-test.go:1026-1091 | from every cancelled state the pool can end without waiting for a pause or for the queue to close |
| WorkerPool.PauseIsKept | controller/channel-test.go:1050-1056 | with an interval set, a worker takes no channel before its pause is over |
| WorkerPool.AllWorkersCanRun | controller/channel-test.go:1022-1071 | some interleaving has every worker running a channel of its own at once |
| WorkerPool.SummaryIsComplete | controller/channel-test.go:1078-1091 | on return the summary is the sum of the results of every test the run finished, which is the sum over exactly the runnable channels that began, cancelled or not |
| WorkerPool.AllProcessed | controller/channel-test.go:1062-1091 | without cancellation every channel is processed and progress goes 0 to total |
| WorkerPool.StepDecreases | controller/channel-test.go:1004-1092 | a measure decreases on every step |
| WorkerPool.NeverStuck | controller/channel-test.go:1004-1092 | until everything is over some step is enabled |
| WorkerPool.AlwaysReturns | controller/channel-test.go:1004-1092 | from every reachable state the pool runs to its end without outside help |
| WorkerPool.RunsAreShort | controller/channel-test.go:1004-1092 | no run is longer than the measure it uses up |
| WorkerPool.WorkerCount | controller/channel-test.go:1022 | the configured number, at least one, at most one per channel and 32 in all |
| StreamJob.StreamWriter.Write | controller/quality_test_job.go:405-419 | the buffer loop delivers the events of every complete line and keeps the rest |
| StreamJob.FeedIsSplit | controller/quality_test_job.go:405-419 | that is: split at newlines, all pieces but the last, the last pending |
| StreamJob.ChunkingIsInvisible | controller/quality_test_job.go:405-419 | any cutting into writes gives the events, job and rest of one write |
| StreamJob.FirstLineEvents | controller/quality_test_job.go:411-416 | which events each line of a stream gives |
| StreamJob.AbsorbErrFree | controller/quality_test_job.go:429-459 | no error is recorded if and only if no event has one and the whole text fits; then the output is all of it |
| StreamJob.AbsorbBounds | controller/quality_test_job.go:432-437 | the output never exceeds 1 MiB and a recorded error is never cleared |
| StreamJob.AbsorbOutput | controller/quality_test_job.go:431-437 | the output is the text of the events that fit, others dropped whole |
| StreamJob.AbsorbFields | controller/quality_test_job.go:442-453 | model and usage are the last sent by an event that was taken in |
| StreamJob.LastNoteWins | controller/quality_test_job.go:432-456 | the recorded error is the last overflow or error message in event order |
| StreamJob.CancelledIffDropped | controller/quality_test_job.go:432-435 | the run is cancelled if and only if some event overflowed |
| StreamJob.FirstTextTimed | controller/quality_test_job.go:438-440 | the first-content time is that of the first event whose text was taken in |
| StreamJob.JobOutcome | controller/quality_test_job.go:514-528 | the final status from the stream: deadline, then stop, then the last message, then a local error, else completed with the text of every terminated data line |
| AdmissionLimiter.Limiter.Acquire | controller/plugin_protocol_limiter.go:65-157 | counts all four dimensions or leaves everything unchanged and names the first problem |
| AdmissionLimiter.Ticket.Release | controller/plugin_protocol_limiter.go:133-156 | gives back once |
| AdmissionLimiter.DecUndoesInc | controller/plugin_protocol_limiter.go:100-123 | taking back an increment restores the map |
| AdmissionLimiter.StepInv | controller/plugin_protocol_limiter.go:65-157 | each counter equals its outstanding tickets, within limits, no zero entries, equal totals |
| AdmissionLimiter.CountersAreOutstanding | controller/plugin_protocol_limiter.go:65-157 | the same after every sequence of acquires and repeated releases |
| AdmissionLimiter.AdmittedIff | controller/plugin_protocol_limiter.go:65-131 | after every sequence: admitted if and only if the identity is complete and the outstanding tickets leave room in all four dimensions; a refusal names the first that fails |
| AdmissionLimiter.AcquireLeaves | controller/plugin_protocol_limiter.go:65-131 | one more outstanding ticket, or no trace |
| AdmissionLimiter.ReleaseLeaves | controller/plugin_protocol_limiter.go:133-156 | the first release frees the place, others do nothing |
| BodyStorage.ReadsAgreeIff | common/body_storage.go:62-69 | when memory and disk answer a read alike |
| BodyStorage.ReadOutcome | common/body_storage.go:62-203 | when a read fails, reports the end, and how much it delivers otherwise |
| BodyStorage.SeekLaws | common/body_storage.go:71-212 | seeking from the cursor or the end is seeking from the start; bad seeks change nothing |
| BodyStorage.DiskSeekLaws | common/body_storage.go:205-212 | on disk the same, except where the system accepts a whence of its own |
| BodyStorage.CloseCloses | common/body_storage.go:80-223 | Close leaves data and cursor and closes |
| BodyStorage.ClosedForGood | common/body_storage.go:62-275 | after Close every run of calls is refused and changes nothing |
| BodyStorage.BytesIsDrain | common/body_storage.go:89-275 | Bytes and a new reader give what reading from the start gives, from any cursor |
| BodyStorage.AnswersAgreeIff | common/body_storage.go:62-275 | over every run of reads, seeks, Bytes, NewReader and Close: all answers agree, and then the bodies, if and only if every call is ordinary |
| BodyStorage.SameBodyInTheEnd | common/body_storage.go:62-275 | with the known ways to seek both end with the same data, cursor and closed flag on every run |
| BodyStorage.DrainIsSlice | common/body_storage.go:62-203 | from memory or disk, reads deliver the body in order without loss or repetition, as far as their sizes add up |
| BodyStorage.UsageIsExact | common/disk_cache_config.go:108-134 | in every interleaving of the single atomic operations of creations and repeated closes: never negative, never clamped, and exact whenever no call is in progress |
| BodyStorage.CallsUninterrupted | common/disk_cache_config.go:108-134 | undisturbed, these operations make up the counter updates of the storages |
| BodyStorage.CallsRunThrough | common/disk_cache_config.go:108-134 | creations run to open storages and closes to gone ones |
| BodyStorage.FaithfulIff | common/body_storage.go:307-348 | too large exactly when longer than the limit, else stored exactly, if and only if the limit does not wrap |
| BodyStorage.StoredOnDiskIff | common/body_storage.go:286-304 | when a body at hand goes to disk |
| BodyStorage.StreamedOnDiskIff | common/body_storage.go:307-348 | when a stream goes to disk, by declared or own length, and which failures it can meet |
| BodyStorage.DiskWithinLimitIff | common/disk_cache_config.go:169-177 | disk use stays within the limit on every creation, except exactly for a stream longer than it declared that no longer fits |
| BodyStorage.ShortDeclarationExceeds | common/body_storage.go:307-348 | an example of that exception |
| BodyStores.MemoryStorage.Read | common/body_storage.go:62-69 | read on the abstract body |
| BodyStores.MemoryStorage.Seek | common/body_storage.go:71-78 | seek on the abstract body |
| BodyStores.MemoryStorage.Bytes | common/body_storage.go:89-96 | all bytes, cursor untouched, fails after Close |
| BodyStores.MemoryStorage.NewReader | common/body_storage.go:98-108 | a fresh cursor at the start, fails after Close |
| BodyStores.MemoryStorage.Close | common/body_storage.go:80-87 | closes and accounts once |
| BodyStores.DiskStorage.Read | common/body_storage.go:196-203 | read on the abstract body |
| BodyStores.DiskStorage.Seek | common/body_storage.go:205-212 | seek on the abstract body, a foreign whence as the system decides |
| BodyStores.DiskStorage.Bytes | common/body_storage.go:225-257 | all bytes, position restored, fails after Close |
| BodyStores.DiskStorage.NewReader | common/body_storage.go:259-275 | a fresh cursor at the start, fails after Close |
| BodyStores.DiskStorage.Close | common/body_storage.go:214-223 | closes and accounts once |
| BodyStores.CreateBodyStorage | common/body_storage.go:286-304 | picks disk by threshold and room, falls back to memory, accounts for it |
| BodyStores.CreateBodyStorageFromReader | common/body_storage.go:307-348 | consumes the reader up to the limit and creates, or fails without accounting |
| QuotaMath.RoundAwayIsNearest | common/quota_math.go:129-142 | the nearest whole number, ties away from zero, and the only such |
| QuotaMath.TruncateTowardZero | common/quota_math.go:109-127 | the fraction is dropped |
| QuotaMath.SaturateBounds | common/quota_math.go:86-100 | within bounds; a clamp is reported exactly when out of range or NaN |
| QuotaMath.ConversionsMonotoneBounded | common/quota_math.go:109-142 | float conversions are monotone and 32-bit bounded |
| QuotaMath.DecimalConversion | common/quota_math.go:150-168 | decimal conversions are monotone and equal the rounded value clamped to 32 bits; the strict form fails exactly out of range, with the right kind |
| QuotaMath.WalletStrictExact | common/quota_math.go:170-175 | succeeds if and only if the rounded value is a safe integer, and is then exact |
| QuotaMath.SettleTestQuotaMonotone | controller/channel-test.go:581-593 | monotone in tokens for every non-negative ratio, infinite or NaN included; between 1 and the maximum for a nonzero model ratio |
| QuotaMath.SettleByPrice | controller/channel-test.go:592 | by price: the exact charge, whatever the tokens |
| QuotaMath.InfiniteRatio | controller/channel-test.go:581-593 | what infinite ratios make of a token count |
| QuotaMath.SettleNearIdeal | controller/channel-test.go:581-593 | in range, with products rounded within delta: within (0.5 + delta) * (1 + model ratio) of the ideal price |
| QuotaMath.SettleNeverOvercharges | controller/channel-test.go:581-593 | in or out of range, never more than that above the ideal price, except for the minimum of 1 |
| OggOpus.GetOpusDuration | common/audio.go:198-256 | terminates on all bytes; the largest granule over the headers met, divided by 48000 |
| OggOpus.JunkIsSkipped | common/audio.go:221-228 | bytes at which no header starts are passed over, however many |
| OggOpus.CutTableEnds | common/audio.go:236-242 | a header with a cut-off segment table ends the walk and still counts |
| OggOpus.VisitsExactlyPages | common/audio.go:209-251 | on well-formed pages the headers met are exactly the page starts |
| OggOpus.WellFormedFile | common/audio.go:206-255 | and the result is the largest granule position, or 0 when none is positive |
| OggOpus.GranuleRoundTrip | common/audio.go:230-234 | little-endian signed 64-bit reading |
| GroupRename.RatioTable.Remap | common/topup-ratio.go:33-51 | the table the two loops give along the order in which the renames are visited |
| GroupRename.AlongIsRename | common/topup-ratio.go:33-51 | for every order: one simultaneous rename, unrenamed keys win |
| GroupRename.EveryRenameIsReached | common/topup-ratio.go:33-51 | every such table is the result of some order |
| GroupRename.OrderInvisibleIff | common/topup-ratio.go:37-50 | all visiting orders give the same table if and only if no two entries conflict |
| GroupRename.DistinctTargets | common/topup-ratio.go:37-50 | distinct targets never conflict |
| GroupRename.InverseUndoes | common/topup-ratio.go:33-51 | a rename to names nobody keeps is undone by its inverse |
| Verification.VerificationCodes.Register | common/verification.go:35-45 | stores and sweeps when grown |
| Verification.VerificationCodes.Verify | common/verification.go:47-56 | the stored code, unexpired |
| Verification.VerificationCodes.DeleteKey | common/verification.go:58-62 | forgets the key |
| Verification.VerificationCodes.RemoveExpiredPairs | common/verification.go:65-72 | drops exactly the expired, in any order |
| Verification.RunTracks | common/verification.go:35-72 | every answer equals that of the full history: latest registration, undeleted, young enough |
| Verification.AcceptedByAge | common/verification.go:47-56 | in nanoseconds: accepted exactly when latest, undeleted, equal and younger than the validity |
| Verification.RegisterExact | common/verification.go:35-72 | stores the code and, only when the map has outgrown its limit, drops exactly the expired ones |
| Verification.BuiltInPurposes | common/verification.go:16-19 | the two purposes in use are told apart |
| Verification.NeverAccepts | common/verification.go:47-56 | with a validity that is not positive no code is ever accepted, by the map or by the history |
| Verification.InvisibleIffPrefixFree | common/verification.go:16-19 | every answer equals that of the history if and only if no purpose begins with another or the validity is not positive |

## Left out

- HTTP handlers, JSON binding, audit logging, notifications, permissions and i18n: plumbing.
- Rate limiter: repeated `Init` calls; a window length that changes for a key in use; the `element` back
  pointer of an entry.
- Upstream models: fetching, the notification text, batching over channels, parsing the model mapping, and
  settings saved without a models edit.
- Multi-key: the paged status listing, and status changes made by the relay itself (model/channel.go), which
  are not key-management actions.
- Worker pool: what a single channel test does.
- Stream job: the JSON of an event, the once-a-second progress saver, and the texts of its messages.
- Body storage: hit counters, cleanup of files still in use with the counter resets it does, and races on
  the disk capacity check.
- QuotaMath.SettleTestQuotaMonotone: covers the ratio branch; tiered billing is not part of this model.
- QuotaMath.SettleNearIdeal: the lower half speaks of charges in range only, because out of range the charge
  saturates below the price.
- RateLimitWindows.NoWindowExceedsIff: a key is used with one limit; with changing limits there is no single
  bound to keep.
- Other audio formats, cryptography, Redis, SMTP and URL handling: library calls.
