# S3 Pulse, modelled and verified

S3 Pulse polls S3 prefixes, keeps a bounded history per feed, judges each
feed's health and serves it over JSON-RPC to an editor extension. This project
models its five stateful cores in Dafny and proves what they guarantee over
every input, every run and every interleaving.

- **Bounded history** (`NewestN`, `Store`, `History`, `HistoryLaws`, `Watcher`,
  `Client`, `Mirror`, `Evictions`, `Reversals`, `Pipeline`, `TemplatedWatch`).
  Every stage keeps only the newest n objects: the paged listing, the
  concatenation of several prefixes, the history, and the client's copy, which is
  rebuilt from deltas in batches of 250. `NewestN` holds the one algebraic fact
  all of it rests on: truncating before merging is harmless when no key's
  timestamp moves back. `HistoryLaws.TruncationAgreesGivenKept` says from the
  kept entries alone exactly when it is harmless for arbitrary timestamps, and
  `MovingBackLosesAnEntry` shows an input for which it is not. `Pipeline`
  composes everything from the bucket to the client's list, and `TemplatedWatch`
  does so for prefixes that follow the local time.
  The client is never told of evictions. `Mirror.MirroredExactly` says for which
  objects its list stays the server's over every run in which no key moves back,
  and `Reversals.AlwaysMirroredExactly` over every run without that proviso;
  `Evictions` says poll by poll when the published delta is enough.
- **Date templates** (`Template`, `Calendar`, `Matching`, `ReadBack`, `Resolve`).
  Parsing and printing undo each other and refusals are exact; rendered text reads
  back as the numbers it stands for; the backtracking matcher accepts exactly the
  keys that split; resolving covers exactly the requested periods.
- **JSON-RPC** (`Framing`, `LineDecoder`, `Dispatcher`, `DispatcherLaws`,
  `DispatcherServes`, `RpcClient`, `RpcClientLaws`, `EndToEnd`, `Registry`,
  `RegistryLaws`, `RegistryProgress`). Both line readers depend on the bytes alone, the client's when no push exceeds its
  limit. The dispatcher, the client's pending table and the watcher registry are
  state machines whose steps are the code between two suspension points; the
  laws hold for every schedule of such steps, and calls, starts and stops come to
  their end from every reachable state. `EndToEnd` joins client and dispatcher: a request is settled with the reply of its own handler.
- **Health and alerts** (`Ranks`, `Statistics`, `StatisticsLaws`, `SizeVerdict`,
  `SizeLaws`, `Alerts`, `AlertLaws`). Arrival statistics and size verdicts against
  order statistics defined by counting, lateness, and the exact conditions under
  which the alert engine raises a problem or a recovery.
- **Downloads** (`Download`, `DownloadLaws`, `DownloadRuns`). What the destination
  can hold when a download is cancelled anywhere, other programs write to the same
  place, and abandoned file operations take effect late; and that an undisturbed
  download installs exactly the body.

Code that updates fields or loops in place is a class or a method proved
against a specification function; pure code is functions and lemmas.
Concurrent code is a state machine over its steps.

## Where the code and its comments differ

The model follows the code.

- An overwriting download whose rename is refused removes the existing file and
  renames again (crates/s3pulse-core/src/store.rs:447-455). When that second
  rename fails, or is abandoned without effect, the existing file is lost for good;
  the download reports an error: `DownloadLaws.FailedReplacementLosesFile`.
  `AbsentExactlyWhenLost` gives the exact condition, and `NoRefusalNoLoss` shows
  that nothing is lost as long as no rename is refused.
- A download's guard is described as removing the temporary file when the
  handler is dropped (crates/s3pulse-core/src/store.rs:321-322). An abandoned
  open can still create the file after that removal:
  `DownloadLaws.CancelledOpenLeavesTemporary`. `TemporaryIsRemoved` proves that
  this is the only case.
- One outage is meant to alert once (extension/src/health.ts:59), but a size
  episode is identified by the current gap too (extension/src/health.ts:88). A
  size anomaly that goes on while the gap grows is never alerted on with two or
  more confirmations and at every observation outside the cooldown with one:
  `AlertLaws.DriftingSizeAlerts`, and `OneAnomalyAlertsTwice` for an input.
- The client's decoder reports that a line exceeded the limit
  (extension/src/rpcProtocol.ts:41), but the limit is on what one push leaves
  buffered before lines are taken off: `LineDecoder.LimitDependsOnChunking`.
  `DecodedIsWholeText` gives the exact condition.
- A rendering with a year outside 0 to 9999 need not be recognised by its own
  template (crates/s3pulse-core/src/template.rs:223-225). Where only
  padded fields come before the first `{yyyy}` and text that starts with no digit
  follows it, it never is: `Matching.YearRangeDecides`. After an unpadded field it
  may be, with the digits split differently: `Matching.UnpaddedFieldHidesLongYear`.
  Exactly the templates without `{yyyy}` recognise all their renderings:
  `Matching.RecognisesAllYearsExactly`.
- Client and server can rank objects of the same millisecond differently, and two
  polls then leave them with different lists: `Mirror.SameMillisecondDiverges`.
  `Mirror.MirroredExactly` gives the exact condition for runs in which no key
  moves back.
- The client is sent the changed objects that stayed, never the evicted ones
  (crates/s3pulse-cli/src/rpc/runtime.rs:568-584). When a key comes back with an
  older timestamp, as after its newest version was deleted, and is evicted for it,
  the client goes on ranking it where it was and can lose another object instead:
  `Reversals.MovingBackDiverges`, with all milliseconds distinct and under every
  collation. `Reversals.AlwaysMirroredExactly` gives the exact condition on the
  objects, `Evictions.DeltaSufficesExactly` the one on a poll.
- A change is published with what was there before
  (crates/s3pulse-core/src/history.rs:116-120), but a key that is changed and
  evicted by the same listing is reported in its new state only:
  `HistoryLaws.MovedBackIsNotUndone`. `UndoneExactly` proves that an update can be
  taken back if and only if there is no such key.

## Model

| member | source | states |
|---|---|---|
| Objects.OrdersAreOpposite | crates/s3pulse-core/src/history.rs:192-204 | newest first and oldest first differ in the timestamps only; ties are ranked by ascending key in both |
| Objects.KeysByFirstDifference | crates/s3pulse-core/src/history.rs:192-204 | keys are ranked by their first different character, a key before its extensions |
| NewestN.NewestOverride | crates/s3pulse-core/src/history.rs:126-144 | newest-n of (newest-n of A overridden by B) is newest-n of (A overridden by B) when no shared key moves back in time |
| NewestN.NewestIncoming | crates/s3pulse-core/src/store.rs:365-370 | truncating the incoming listing first is harmless under the same condition |
| NewestN.NewestSize | crates/s3pulse-core/src/history.rs:128-132 | the newest n are exactly min(n, size) entries, and all of them when they fit |
| NewestN.TakeIsNewest | crates/s3pulse-core/src/history.rs:126-132 | sorting newest first and taking n lists exactly the entries with fewer than n newer ones |
| Store.NewestBuffer.Retain | crates/s3pulse-core/src/store.rs:365-370 | inserting and evicting one keeps the table equal to the newest n of everything inserted |
| Store.NewestBuffer.Finish | crates/s3pulse-core/src/store.rs:372-381 | the result is the table's objects, each once, timestamp descending and key ascending |
| Store.ListObjects | crates/s3pulse-core/src/store.rs:199-294 | the listing fails exactly when a page does, with the first error; otherwise it returns the newest n of all pages in order, and of every bucket whose objects the pages show field by field; whether it fails or not, the requests counted run exactly to the first answer that ends the listing |
| Store.AcceptsWhatIsShown | crates/s3pulse-core/src/store.rs:226-278 | an element is accepted exactly as the object that carries its key, timestamp, size (0 when absent), etag and storage class, and is refused exactly when it shows none, retryably when the key or timestamp is missing and for good when the timestamp or size is out of range |
| Store.EndsExactly | crates/s3pulse-core/src/store.rs:212-293 | all that is asked of the service is that some answer is a last one |
| Store.ListingExactly | crates/s3pulse-core/src/store.rs:212-293 | a listing succeeds if and only if page follows page until one is not truncated and every element is readable, and then yields the objects shown in order |
| Store.ListingFailsExactly | crates/s3pulse-core/src/store.rs:220-293 | it fails with an error if and only if that is the error of the first answer that does not go on: the request's own, the first unreadable element's, or a missing continuation token's |
| Store.ListingVisits | crates/s3pulse-core/src/store.rs:226-278 | a listing of pages that show a bucket field by field visits exactly the bucket's objects |
| Store.ListingOfBucket | crates/s3pulse-core/src/store.rs:212-293 | page order, page boundaries and repeats do not show: the list is the bucket's newest n |
| History.RollingHistory.Objects | crates/s3pulse-core/src/history.rs:86-90 | the retained objects, each once, newest first with key-ascending ties |
| History.RollingHistory.UpsertMany | crates/s3pulse-core/src/history.rs:98-151 | the new map is the newest `capacity` of old overridden by the final observation per key, and the reported changes and evictions are exactly the retained differences and the lost keys, in order |
| HistoryLaws.DeltaIsExact | crates/s3pulse-core/src/history.rs:108-150 | applying the changes and removing the evicted keys gives the new map; sizes satisfy new = old + added - evicted; changes and evictions are disjoint |
| HistoryLaws.RepeatReportsNothing | crates/s3pulse-core/src/history.rs:98-151 | applying the same listing again changes nothing and reports nothing |
| HistoryLaws.UndoneExactly | crates/s3pulse-core/src/history.rs:108-150 | undoing the changes with what they say was there before and restoring the evicted entries gives back the old map if and only if no key that left was changed by the same listing |
| HistoryLaws.MovedBackIsNotUndone | crates/s3pulse-core/src/history.rs:134-143 | an input on which a changed and evicted key cannot be restored |
| HistoryLaws.RunIsNewestOfAll | crates/s3pulse-core/src/history.rs:98-151 | over any run in which no key moves back, the bounded map is the newest n of the last observation of every key ever seen |
| HistoryLaws.Replay | crates/s3pulse-core/src/history.rs:98-151 | driving the history through a run of listings reaches that map |
| HistoryLaws.TruncationAgreesGivenKept | crates/s3pulse-core/src/history.rs:126-144 | for arbitrary timestamps, merging into the kept entries gives the true newest n, whatever was dropped before, if and only if fewer than n are kept or n merged entries outrank the highest object that may have been dropped |
| HistoryLaws.MovingBackLosesAnEntry | crates/s3pulse-core/src/history.rs:126-144 | an input on which a key moving back makes the two differ |
| Watcher.PollingWatcher.PollOnce | crates/s3pulse-core/src/watcher.rs:87-109 | the first failing target's error is returned and the history kept; otherwise one upsert of all targets' lists, reported exactly, which equals merging the complete unbounded listings when no key moves back |
| Watcher.PollIsLossless | crates/s3pulse-core/src/watcher.rs:87-109 | when no key moves back, the per-prefix truncated lists give the same history as the complete snapshots |
| Watcher.OneSnapshotPoll | crates/s3pulse-core/src/watcher.rs:87-109 | for one bucket snapshot in which no key moves back, overlapping prefixes and limits leave no trace |
| Watcher.NeverBackKept | crates/s3pulse-core/src/watcher.rs:87-109 | what never goes back on everything seen never goes back on the truncated history either, so every poll of a run is lossless |
| Watcher.PollRunIsNewestOfAll | crates/s3pulse-core/src/watcher.rs:87-109 | over any run in which no key moves back and each poll applies the truncated lists of its snapshots, the history is the newest n of every key ever listed |
| Watcher.RunPolls | crates/s3pulse-core/src/watcher.rs:87-109 | driving polls over a run, some of which fail, leaves the newest n of everything the successful ones saw, when no key moves back |
| Client.MergeObjects | extension/src/adapters.ts:223-235 | the merged list is the newest max(1, limit) of both lists by last observation, in order, when both sides rank the objects alike |
| Client.DistinctMillisAgree | extension/src/adapters.ts:232-233 | distinct milliseconds make both sides rank the objects of a list alike, whatever the collation |
| Client.ChunksPartition | crates/s3pulse-cli/src/rpc/runtime.rs:568-572 | the batches are the changes in order, none lost or repeated, all of 250 but possibly the last |
| Client.FoldIsNewest | extension/src/adapters.ts:223-235 | when no key moves back and both sides rank alike, merging a delta batch by batch, truncating each time, is merging it whole and truncating once |
| Client.DeltaSuffices | crates/s3pulse-core/src/history.rs:126-147 | when no key moves back, the published delta alone rebuilds the new truncated history from the old one |
| Client.ClientMirrorsPoll | crates/s3pulse-cli/src/rpc/runtime.rs:568-584 | after the batches of a poll in which no key moves back and both sides rank alike, the client's list is the server's, in order |
| Client.ClientMirrorsServer | crates/s3pulse-cli/src/rpc/runtime.rs:568-584 | the same after every poll of any such run that starts empty |
| Mirror.MirroredExactly | extension/src/adapters.ts:223-235 | for any limit, collation and universe of objects, every run over the universe in which no key moves back leaves the client with the server's list if and only if both sides rank every two of its objects of different keys alike |
| Mirror.TwoObjectsMirroredExactly | extension/src/adapters.ts:232-233 | the same for the runs over two objects in which neither moves back, and the agreement of their list |
| Mirror.TwoPollsDiverge | extension/src/adapters.ts:232-234 | when the client does not rank the higher object first, by another order or by a tie, two polls leave it with another list |
| Mirror.DistinctMillisMirror | extension/src/adapters.ts:232-233 | pairwise distinct milliseconds keep client and server together over every run in which no key moves back |
| Mirror.SameMillisecondDiverges | extension/src/adapters.ts:232-234 | a run of two polls in the same millisecond under a caseless collation after which the server holds one object and the client another |
| Evictions.DeltaSufficesExactly | crates/s3pulse-core/src/history.rs:126-147 | for arbitrary timestamps, the published delta alone rebuilds the new truncated history from the old one if and only if every entry that left ranks, as last published, below everything that stayed |
| Evictions.NotBackOutranks | crates/s3pulse-core/src/history.rs:126-147 | a poll in which no key moves back meets that condition |
| Evictions.ClientMirrorsOutranked | crates/s3pulse-cli/src/rpc/runtime.rs:568-584 | under that condition on one poll, and with both sides ranking alike, the client's list after its batches, however many, is the server's |
| Evictions.ClientMirrorsPollExactly | crates/s3pulse-cli/src/rpc/runtime.rs:568-584 | for a delta of one batch the client's list is the server's if and only if that condition holds |
| Evictions.RunMirroredExactly | crates/s3pulse-cli/src/rpc/runtime.rs:568-584 | over any run in which both sides rank alike, timestamps moving either way, the client mirrors the server after every poll if the condition holds at every poll and, when each delta fits one batch, only then |
| Reversals.AlwaysMirroredExactly | crates/s3pulse-cli/src/rpc/runtime.rs:568-584 | for any limit n, collation and universe of objects, every run over the universe, timestamps moving either way, leaves the client with the server's list if and only if both sides rank every two of its objects of different keys alike and no two observations of one key straddle the last of n objects under other keys |
| Reversals.ReversalDiverges | extension/src/adapters.ts:223-235 | whenever two observations of one key straddle the last of n objects under other keys, two polls leave client and server with different lists |
| Reversals.MovingBackDiverges | extension/src/adapters.ts:223-235 | for every collation, a run of two polls over three objects of distinct milliseconds after which the server holds one object and the client another |
| Pipeline.HandedOnNeverBack | crates/s3pulse-core/src/watcher.rs:87-109 | when the snapshots never go back, neither do the truncated lists the polls hand on |
| Pipeline.PipelineIsNewestOfAll | crates/s3pulse-cli/src/rpc/runtime.rs:545-584 | after any run of polls in which no key moves back, and with both sides ranking the objects alike, the client's list is the newest n of everything ever listed, in order, and the history holds the same |
| Pipeline.BucketsAreSeen | crates/s3pulse-core/src/watcher.rs:87-109 | polling buckets in which no key moves back under overlapping prefixes sees exactly what is under any of them |
| Pipeline.ClientShowsNewestOfBuckets | crates/s3pulse-cli/src/rpc/runtime.rs:545-584 | bucket to screen, under the same conditions: the client's list and the history are the newest n of everything that was ever under the polled prefixes |
| TemplatedWatch.PrefixesCoverWindow | crates/s3pulse-core/src/template.rs:202-213 | listing under the resolved prefixes sees exactly the bucket's keys that begin with the rendering of a local time in the current or the lookback earlier periods |
| TemplatedWatch.TemplatedPoll | crates/s3pulse-core/src/watcher.rs:87-109 | one poll of a templated watcher in which no key moves back leaves the newest n of the history and those keys |
| TemplatedWatch.ClientShowsNewestOfWindows | crates/s3pulse-cli/src/rpc/runtime.rs:545-584 | bucket to screen for a templated watcher, under the conditions of the pipeline: the history and the client's list are the newest n of the keys that were, at some poll, in the window of that poll's moment |
| Template.Parse | crates/s3pulse-core/src/template.rs:126-189 | the loop parses as the recursive grammar does; an accepted template prints back to the text and records its finest unit |
| Template.ScanIsPrintable | crates/s3pulse-core/src/template.rs:132-180 | whatever parses prints back to the same text, in canonical form |
| Template.PrintThenParse | crates/s3pulse-core/src/template.rs:126-189 | canonical segments survive printing and parsing unchanged with the finest field's granularity |
| Template.AcceptsExactlyThePrinted | crates/s3pulse-core/src/template.rs:126-189 | a text is accepted if and only if it is the print of canonical segments |
| Template.PrintIsInjective | crates/s3pulse-core/src/template.rs:126-189 | two canonical segment lists never print alike |
| Template.RefusesExactlyBadStarts | crates/s3pulse-core/src/template.rs:126-189 | a prefix is refused with an error if and only if it is some printed segments followed by an unmatched closing brace, an unclosed placeholder, or an unknown name, of which `mm` and `m` are told apart as minutes |
| Calendar.YearLength | crates/s3pulse-core/src/template.rs:305-313 | the month lengths add up to a Gregorian year, leap or not |
| Calendar.DayNumberInjective | crates/s3pulse-core/src/template.rs:305-313 | valid dates with the same day number are the same date |
| Calendar.StepBackPeriod | crates/s3pulse-core/src/template.rs:241-264 | stepping back always lands on a valid date exactly that many periods earlier, clamping included |
| Calendar.PeriodDecides | crates/s3pulse-core/src/template.rs:241-264 | times of one period agree on every unit down to the granularity |
| Calendar.DayNumberIsCivil | crates/s3pulse-core/src/template.rs:305-313 | day numbers agree with the closed formula over years that begin in March |
| Calendar.StepBackKeepsRest | crates/s3pulse-core/src/template.rs:241-264 | a step keeps the time of day down to its own unit and clamps the day to the month reached |
| Matching.PaddedInjective | crates/s3pulse-core/src/template.rs:86-97 | zero-padded numbers of a fixed width are told apart |
| Matching.MatchesExactly | crates/s3pulse-core/src/template.rs:267-284 | the backtracking matcher accepts a key if and only if it splits into exact literals and digit runs of allowed widths, followed by anything |
| Matching.RenderingMatches | crates/s3pulse-core/src/template.rs:223-236 | every rendering for a year of 0 to 9999, with any suffix, is matched |
| Matching.YearRangeDecides | crates/s3pulse-core/src/template.rs:78-97 | with only padded fields before the first `{yyyy}` and text starting with no digit after it, and anything else around, a template matches its own rendering if and only if the year is 0 to 9999 |
| Matching.RecognisesAllYearsExactly | crates/s3pulse-core/src/template.rs:223-236 | a template matches its rendering of every local time, with any suffix, if and only if it shows no `{yyyy}` |
| Matching.NegativeYearUnmatched | crates/s3pulse-core/src/template.rs:267-284 | whatever surrounds the first `{yyyy}`, a rendering of a negative year with one-digit month, day and hour is never matched |
| Matching.UnpaddedFieldHidesLongYear | crates/s3pulse-core/src/template.rs:267-284 | without that condition it fails: `{M}{yyyy}/` recognises its rendering of January 12024 |
| ReadBack.FieldReadsBack | crates/s3pulse-core/src/template.rs:86-97 | read by place value from the character codes, each placeholder's text is the number its letter stands for: year, year modulo 100, month, day or hour, in exactly as many figures as the name has letters when it has more than one and the year is 0 to 9999, without a zero in front when it has one |
| ReadBack.RenderingReadsBack | crates/s3pulse-core/src/template.rs:227-236 | a rendering is, segment by segment, the plain text and the placeholders' numbers, for any year |
| ReadBack.WidthsAreRendered | crates/s3pulse-core/src/template.rs:78-84 | the matcher tries exactly the widths that renderings with a year of 0 to 9999 have |
| ReadBack.DigitsAreFigures | crates/s3pulse-core/src/template.rs:275-283 | the digits the matcher accepts are the characters 48 to 57 |
| Resolve.ResolvePrefixes | crates/s3pulse-core/src/template.rs:202-213 | the loop yields the resolved prefixes, without repeats, the current period's first |
| Resolve.FinestBounds | crates/s3pulse-core/src/template.rs:168-171 | the recorded granularity is that of some field and no field is finer |
| Resolve.RenderFollowsPeriod | crates/s3pulse-core/src/template.rs:227-236 | a rendering depends on the period only |
| Resolve.ResolvesExactly | crates/s3pulse-core/src/template.rs:202-213 | the prefixes are exactly the renderings of local times within the lookback periods |
| Resolve.RenderDecidesPeriod | crates/s3pulse-core/src/template.rs:227-236 | for years 0 to 9999, padded templates naming every unit render different periods differently |
| Resolve.OnePrefixPerPeriod | crates/s3pulse-core/src/template.rs:202-213 | while the years stay within 0 to 9999, such templates resolve to exactly lookback + 1 prefixes in strictly descending period order |
| Resolve.ListedKeysAreWithinTarget | crates/s3pulse-cli/src/rpc/runtime.rs:644-649 | no key a poll lists is refused for download, now or later, when the template shows no `{yyyy}` or the years it resolves to are 0 to 9999 |
| Resolve.PlainTargetIsPrefix | crates/s3pulse-cli/src/rpc/runtime.rs:644-649 | without a template a key is within the target exactly when it begins with the prefix |
| Framing.ReadProtocolLine | crates/s3pulse-cli/src/rpc/transport.rs:30-68 | each call consumes exactly through the next newline or the end, returns that line, reports too large if and only if it exceeds the limit, and never holds more than the limit |
| Framing.ReadAll | crates/s3pulse-cli/src/rpc/transport.rs:199-212 | the frames of an input are a function of its bytes |
| Framing.ChunkingIsInvisible | crates/s3pulse-cli/src/rpc/transport.rs:30-68 | two chunkings of the same bytes give the same frames |
| Framing.FramesOfLines | crates/s3pulse-cli/src/rpc/transport.rs:27-29 | an oversized line is one frame and the next line starts clean |
| LineDecoder.TrimIsExact | extension/src/rpcProtocol.ts:64-66 | trimming removes only white space, all of it at both ends, and leaves nothing exactly for blank lines |
| LineDecoder.SpacesOneByOne | extension/src/rpcProtocol.ts:64-66 | what counts as white space, code unit by code unit |
| LineDecoder.JsonLineDecoder.Push | extension/src/rpcProtocol.ts:37-44 | over the limit the buffer is dropped and the push fails; otherwise the complete lines are evaluated and the rest stays buffered |
| LineDecoder.JsonLineDecoder.Finish | extension/src/rpcProtocol.ts:46-55 | the buffered lines and the final partial line are evaluated and the buffer emptied |
| LineDecoder.LinesResume | extension/src/rpcProtocol.ts:57-71 | only the partial line before a chunk matters to what follows |
| LineDecoder.DecodeAll | extension/src/rpcProtocol.ts:37-71 | pushing every chunk and finishing, up to the first exception |
| LineDecoder.DecodedIsWholeText | extension/src/rpcProtocol.ts:37-71 | a stream decodes if and only if no push exceeds the limit and every non-blank line parses, and then to the values of the whole text in order |
| LineDecoder.ChunkingIsInvisible | extension/src/rpcProtocol.ts:37-71 | when no push exceeds the limit the chunking does not show |
| LineDecoder.LimitDependsOnChunking | extension/src/rpcProtocol.ts:39-42 | the same short lines pass in two pushes and fail in one |
| DispatcherLaws.Reachable | crates/s3pulse-cli/src/rpc/transport.rs:199-342 | every schedule keeps the permit count, the one-to-one in-flight table and the answer account |
| DispatcherLaws.OneAnswerEach | crates/s3pulse-cli/src/rpc/transport.rs:199-342 | every line is answered at most once, and on return exactly once if it is a non-cancel request with an id or an unusable line, and not at all otherwise |
| DispatcherLaws.AnswersMatchRequests | crates/s3pulse-cli/src/rpc/transport.rs:200-245 | responses carry the id their line asks for, null and a fixed error for unusable lines |
| DispatcherLaws.RepliesAreTheHandlers | crates/s3pulse-cli/src/rpc/transport.rs:293-323 | a call is answered only with what its own handler produced, with the cancellation error in place of an error or of no result once its cancellation was noticed, or with a refusal, as invalid only when an earlier call has its id |
| DispatcherLaws.CancellationReplacesErrors | crates/s3pulse-cli/src/rpc/transport.rs:297-310 | once the cancellation of a call was noticed, it is answered with a success or the cancellation error and never with another error |
| DispatcherLaws.HandlersAreBounded | crates/s3pulse-cli/src/rpc/transport.rs:256-287 | at most max(1, configured limit) handlers run; in-flight ids belong to distinct live tasks |
| DispatcherLaws.BusyExactlyWhenFull | crates/s3pulse-cli/src/rpc/transport.rs:256-272 | a call is refused as busy exactly when the limit of handlers is running |
| DispatcherLaws.DuplicateExactlyWhenLive | crates/s3pulse-cli/src/rpc/transport.rs:274-287 | an admitted call is refused exactly when a live task owns its id |
| DispatcherLaws.CancelledOnlyByName | crates/s3pulse-cli/src/rpc/transport.rs:247-255 | before shutdown a token is cancelled only by a later line naming that request's id |
| DispatcherLaws.CancelReachesItsTask | crates/s3pulse-cli/src/rpc/transport.rs:344-355 | a cancellation cancels exactly the live task that owns the id |
| DispatcherLaws.ReturnsAfterAllTasks | crates/s3pulse-cli/src/rpc/transport.rs:328-342 | on return no task, in-flight id or taken permit is left and all input was read |
| DispatcherLaws.SchedulesAreBounded | crates/s3pulse-cli/src/rpc/transport.rs:199-342 | no schedule is longer than six steps per line and three to shut down |
| DispatcherLaws.AlwaysCanReturn | crates/s3pulse-cli/src/rpc/transport.rs:328-342 | from every reachable state the server can return without any handler completing by itself |
| DispatcherServes.LinesAreOfThreeSorts | crates/s3pulse-cli/src/rpc/transport.rs:200-255 | by version, method and shape every line is exactly one of: refused, a cancellation, a call |
| DispatcherServes.UnusableLinesAreRefused | crates/s3pulse-cli/src/rpc/transport.rs:200-245 | by the time the server returns every oversized, malformed, misshapen or wrongly versioned line is answered with its own code, under its id where one was read |
| DispatcherServes.AnsweredExactlyCallsWithId | crates/s3pulse-cli/src/rpc/transport.rs:237-255 | cancellations and calls without an id are never answered, calls with an id exactly once by the time the server returns |
| DispatcherServes.CallIsServed | crates/s3pulse-cli/src/rpc/transport.rs:256-323 | from every reachable state a call read while a permit is free and its id is not in flight can be served, with exactly its handler's result and nothing else changed |
| DispatcherServes.CompletionIsAnswered | crates/s3pulse-cli/src/rpc/transport.rs:293-323 | a running handler may complete at any time; its result is written under its id, an error as the cancellation error once its cancellation was noticed, and its id and permit are free again |
| DispatcherServes.ReadsNotification | crates/s3pulse-cli/src/rpc/transport.rs:256-287 | a call without an id is dropped when no permit is free and runs otherwise |
| DispatcherServes.NotificationIsServed | crates/s3pulse-cli/src/rpc/transport.rs:289-326 | its handler may complete at any time, answers nothing and leaves nothing behind |
| DispatcherServes.CancellationIsNoticed | crates/s3pulse-cli/src/rpc/transport.rs:247-255 | a cancellation that names a running call reaches its handler |
| DispatcherServes.ExpiryIsAnswered | crates/s3pulse-cli/src/rpc/transport.rs:297-310 | a told handler that does not end within the grace is answered for with the cancellation error |
| RpcClient.SomeIdIsFree | extension/src/rpcClient.ts:217-225 | with fewer requests pending than there are ids, a free id exists |
| RpcClient.NextFreeIsUnique | extension/src/rpcClient.ts:217-225 | the allocated id is determined by the counter and the pending ids |
| RpcClient.Client.AllocateId | extension/src/rpcClient.ts:217-225 | the loop ends with the first id, cyclically, that is not pending |
| RpcClient.Client.Request | extension/src/rpcClient.ts:82-133 | refused as not running when closed or unwritable and as cancelled when already cancelled, and then neither registered nor sent; otherwise registered under a fresh id and sent |
| RpcClient.Client.AcceptMessage | extension/src/rpcClient.ts:191-215 | a response settles the request waiting under its id; every other message changes nothing |
| RpcClient.Client.RejectRequest | extension/src/rpcClient.ts:95-104 | a timeout, cancellation or write error settles its request once and tells the server when asked to |
| RpcClient.Client.CloseAll | extension/src/rpcClient.ts:239-251 | closing settles every pending request once and empties the table, whatever the order |
| RpcClientLaws.SettledAtMostOnce | extension/src/rpcClient.ts:77-133 | over any run no request is settled twice, and the unsettled ones are exactly the pending ones |
| RpcClientLaws.ClosedSettlesAll | extension/src/rpcClient.ts:239-251 | in any run that contains a close, whatever follows it, every request ever made has been settled exactly once and none is pending |
| RpcClientLaws.SettlementIsFinal | extension/src/rpcClient.ts:227-237 | no later event alters a settlement |
| RpcClientLaws.OutcomesAreEarned | extension/src/rpcClient.ts:95-131 | a request is settled only after it was issued, while it waits under its id, by a response with that id, its own callback, or the close |
| RpcClientLaws.IdsCountUp | extension/src/rpcClient.ts:217-225 | until the range is exhausted ids are handed out consecutively from 1 |
| RpcClientLaws.IdsAreNotReused | extension/src/rpcClient.ts:217-225 | so no two requests of a run share an id and a late response cannot answer another request |
| RpcClientLaws.CancelledAtMostOnce | extension/src/rpcClient.ts:95-104 | an id is cancelled on the wire no more often than it was requested, a pending request not counting |
| RpcClientLaws.CancellationsSettle | extension/src/rpcClient.ts:95-104 | every cancellation on the wire belongs to a timeout or cancellation whose own outcome settled that waiting request for good |
| RpcClientLaws.OneCancellationPerRequest | extension/src/rpcClient.ts:95-104 | no request is cancelled on the wire twice |
| RpcClientLaws.RejectionIsSent | extension/src/rpcClient.ts:95-104 | a timeout or cancellation of a waiting request settles it with its own error and writes one cancellation exactly when asked to and the stream is writable; of one no longer waiting it does nothing |
| RpcClientLaws.ResponseSettlesItsRequest | extension/src/rpcClient.ts:191-215 | a response settles the request waiting under its id with its own outcome and changes no other |
| EndToEnd.NeverRefusedAsDuplicate | crates/s3pulse-cli/src/rpc/transport.rs:256-323 | the server never takes a request of this client for a duplicate: every response it writes carries the id of the request line it answers and is what that call's handler produced, or busy |
| EndToEnd.SettledByOwnHandler | extension/src/rpcClient.ts:191-215 | a result or remote error that settles a request is the server's response to the very line that request wrote, produced by that call's handler, or busy |
| EndToEnd.EverythingIsSettled | extension/src/rpcClient.ts:77-133 | when the server has read everything and returned and the client has accepted every response, every request ever made has been settled exactly once |
| RegistryLaws.Reachable | crates/s3pulse-cli/src/rpc/runtime.rs:129-294 | every interleaving keeps the registry invariants |
| RegistryLaws.RegistryIsBounded | crates/s3pulse-cli/src/rpc/runtime.rs:214-229 | never more than 32 entries, each keyed by its own session's id |
| RegistryLaws.NoLoopIsLost | crates/s3pulse-cli/src/rpc/runtime.rs:231-249 | a poll loop that is not registered has a cancelled token and can end |
| RegistryLaws.RunningWatchersAreBounded | crates/s3pulse-cli/src/rpc/runtime.rs:214-249 | at most 32 sessions are uncancelled, registered or not |
| RegistryLaws.RemovalIsOwn | crates/s3pulse-cli/src/rpc/runtime.rs:241-247 | an entry is removed only by a call working on that very session, already cancelled |
| RegistryLaws.RetiredForGood | crates/s3pulse-cli/src/rpc/runtime.rs:283-289 | a session that left the registry never comes back |
| RegistryLaws.StopIsEffective | crates/s3pulse-cli/src/rpc/runtime.rs:263-294 | when a stop returns, its session is cancelled and unregistered, and its loop has ended if the stop took the handle |
| RegistryLaws.FailedStartLeavesNothing | crates/s3pulse-cli/src/rpc/runtime.rs:236-249 | a failed start leaves no session, or one that is cancelled and unregistered |
| RegistryLaws.StartedIsRegistered | crates/s3pulse-cli/src/rpc/runtime.rs:228-260 | a successful start's session is registered unless it was cancelled since |
| RegistryProgress.StopFindsExactly | crates/s3pulse-cli/src/rpc/runtime.rs:263-265 | from every reachable state a stop answers not found if and only if its id is not registered; otherwise it cancels the registered session at once, works on that very session and changes nothing else |
| RegistryProgress.StopStopsItsWatcher | crates/s3pulse-cli/src/rpc/runtime.rs:263-294 | such a stop can always be brought to its end: its session is cancelled and gone, the id is free, and every other session and entry is as before |
| RegistryProgress.StopCompletes | crates/s3pulse-cli/src/rpc/runtime.rs:266-294 | the same from every later suspension of a stop, by its own steps and the end of the loop it waits for |
| RegistryProgress.StartRefusedExactly | crates/s3pulse-cli/src/rpc/runtime.rs:140-229 | a start is refused at either check if and only if its id is registered, 32 watchers are, or, at the first, what it was given is unusable; the second check otherwise registers a fresh session of its own and changes nothing else |
| RegistryProgress.StartComesToItsEnd | crates/s3pulse-cli/src/rpc/runtime.rs:129-261 | a start with a free id below the limit can always be brought to its end: registered, polling and uncancelled, or, cancelled while publishing, failed with its session cancelled, ended and gone; nothing else changes |
| RegistryProgress.AnythingMayHappen | crates/s3pulse-cli/src/rpc/runtime.rs:129-294 | calls may begin at any time, be dropped wherever they are suspended, and cancelled loops may end |
| Statistics.StatisticsFor | crates/s3pulse-core/src/history.rs:233-320 | the statistics are those of the retained objects listed oldest first |
| StatisticsLaws.IntervalsAreSummarised | crates/s3pulse-core/src/history.rs:233-257 | the mean times the count is the sum of the intervals; the median is the middle interval or halfway between the two middle ones, the 95th percentile the k-th smallest for the least k that makes up 95 of 100, the largest the last, by counting |
| StatisticsLaws.GapsJoinNeighbours | crates/s3pulse-core/src/history.rs:239-242 | each interval is the whole milliseconds between neighbouring arrivals |
| StatisticsLaws.RatesMeasureSpan | crates/s3pulse-core/src/history.rs:253-260 | the hourly rate times the span in hours is the number of intervals, a day is 24 such hours, and there is a rate exactly when the span is a millisecond or more |
| StatisticsLaws.LatenessIsJudged | crates/s3pulse-core/src/history.rs:262-292 | the expected interval is the configured one when positive, else the positive median of two or more; late is a gap of more than one and a half of it; unknown is exactly no expectation or no arrival |
| Statistics.ChronologicalIsUnique | crates/s3pulse-core/src/history.rs:206-214 | that listing does not depend on the map's iteration order |
| Statistics.NearestRankIsExact | crates/s3pulse-core/src/history.rs:334-340 | the rank is the smallest number of values that makes up the share, so it is always in range |
| Statistics.StatisticsAreOrdered | crates/s3pulse-core/src/history.rs:241-251 | smallest <= median <= p95 <= largest, and the mean lies between smallest and largest |
| Statistics.TruncationShortfall | crates/s3pulse-core/src/history.rs:241-257 | the n truncated intervals sum to the truncated span less 0 to n - 1 milliseconds |
| Statistics.LateExactlyAfter | crates/s3pulse-core/src/history.rs:274-288 | late from exactly one millisecond after `late_since`, with a positive overdue |
| Statistics.LatePersists | crates/s3pulse-core/src/history.rs:262-288 | for a fixed history, late stays late with the same `late_since`, and overdue grows by the elapsed time to within the truncated millisecond |
| SizeVerdict.NewestIsLast | crates/s3pulse-core/src/history.rs:350-356 | the object judged is the last one listed |
| SizeVerdict.JudgeMeans | crates/s3pulse-core/src/history.rs:398-414 | small and large are exactly the two thresholds of 3.5 scales around the median |
| SizeVerdict.ScaleIsPositive | crates/s3pulse-core/src/history.rs:394-406 | the zero-scale branch is unreachable |
| SizeVerdict.OutliersAreFarOff | crates/s3pulse-core/src/history.rs:374-414 | a size strictly within 35% of the median is never an outlier |
| SizeVerdict.OutlierCannotMaskItself | crates/s3pulse-core/src/history.rs:342-348 | once the newest is the largest and judged large, any larger one is judged large |
| SizeVerdict.SortOfPermutation | crates/s3pulse-core/src/history.rs:358-359 | the verdict does not depend on the order of the sizes |
| SizeVerdict.VerdictIgnoresUnits | crates/s3pulse-core/src/history.rs:378-414 | scaling every size by one positive factor keeps the verdict |
| SizeLaws.EmptyExactlyWhenUnusual | crates/s3pulse-core/src/history.rs:365-373 | the newest object is judged empty if and only if it is and no more than half of the objects are |
| SizeLaws.UnknownExactlyWithoutEvidence | crates/s3pulse-core/src/history.rs:374-376 | no verdict exactly for a newest object that is not empty among fewer than eight objects or more than half empty ones |
| SizeLaws.VerdictIsByScales | crates/s3pulse-core/src/history.rs:378-414 | otherwise small or large is exactly three and a half scales from the median, each side's scale being 1.4826 times the median deviation there, by counting, and at least a tenth of the median |
| Alerts.AlertEngine.Observe | extension/src/health.ts:187-239 | the imperative update equals the step function and touches its own feed's memory only |
| Alerts.AlertEngine.Forget | extension/src/health.ts:161-163 | forgetting a feed makes it as if never seen and keeps the others |
| Alerts.KindMatchesEpisode | extension/src/health.ts:76-105 | an observation has a kind exactly when it has an episode, of the same sort |
| AlertLaws.AlertsExactlyWhenWarranted | extension/src/health.ts:209-238 | a problem alert is raised if and only if the problem is enabled, confirmed, outside the cooldown and not already alerted on in the same uninterrupted episode |
| AlertLaws.CooldownHolds | extension/src/health.ts:220-229 | problem alerts are at least the cooldown apart |
| AlertLaws.OneAlertPerEpisode | extension/src/health.ts:218-228 | two alerts for one episode have a quiet observation or another episode's alert between them |
| AlertLaws.AlertsAreConfirmed | extension/src/health.ts:214-219 | every problem alert ends a streak of at least max(1, confirmObservations) observations of its episode, disabled kinds skipped |
| AlertLaws.SizeAlertNeedsRepeatedGap | extension/src/health.ts:87-89 | with two confirmations a size alert needs an earlier observation with the same gap |
| AlertLaws.DriftingSizeAlerts | extension/src/health.ts:87-89 | a size anomaly whose gap differs at every observation is never alerted on with two or more confirmations, and with one or fewer at exactly the observations outside the cooldown |
| AlertLaws.OneAnomalyAlertsTwice | extension/src/health.ts:214-229 | a run in which one unchanged anomaly is alerted on twice |
| AlertLaws.RecoveriesAlternate | extension/src/health.ts:196-207 | two recovery alerts have a problem alert between them |
| AlertLaws.RecoversExactlyWhenOpen | extension/src/health.ts:196-207 | a recovery alert is raised if and only if the policy asks for it, no problem is seen, and a problem was alerted on before with none absent in between; it carries the feed's id |
| AlertLaws.AlertsSayWhatIsSeen | extension/src/health.ts:76-105 | every alert names its own feed, is of a kind the policy asks for and the observation shows, and carries the severity observed |
| AlertLaws.ProblemsAreShown | extension/src/health.ts:76-105 | an error comes first, then lateness, then size; the episode is identified by the error text, the late-since time, or the size status and the gap |
| AlertLaws.SeverityIsLatest | extension/src/health.ts:192-194 | the severity remembered of a feed is that of its latest observation |
| AlertLaws.AtMostOneLateAlert | extension/src/health.ts:68-91 | from any state, a feed that falls silent raises at most one late alert from then on |
| AlertLaws.ObserveAll | extension/src/health.ts:187-239 | feeding a run of observations of many feeds to the engine leaves the table of their step functions, and every alert it returns is the one its own feed's run alone raises at that place |
| AlertLaws.FeedsAreIndependent | extension/src/health.ts:187-239 | under any interleaving each feed's memory is what its own observations alone leave |
| DownloadLaws.Reachable | crates/s3pulse-core/src/store.rs:296-349 | every schedule of steps, cancellations, foreign writes and late effects keeps the download invariants |
| DownloadLaws.DestinationIsNeverPartial | crates/s3pulse-core/src/store.rs:296-349 | the destination always holds what others left, the whole object of the declared length, or nothing after a removal of the rename fallback that has not been made good |
| DownloadLaws.AbsentExactlyWhenLost | crates/s3pulse-core/src/store.rs:439-457 | the destination is absent although others left something there if and only if a removal took effect with no later second rename or foreign write |
| DownloadLaws.NoRefusalNoLoss | crates/s3pulse-core/src/store.rs:439-446 | without overwrite, or while no rename is refused, the destination is always what others left or the whole object |
| DownloadLaws.FailedReplacementLosesFile | crates/s3pulse-core/src/store.rs:447-455 | a schedule that ends with the existing file gone and an error reported |
| DownloadLaws.RemovalOnlyInFallback | crates/s3pulse-core/src/store.rs:439-457 | of the download's own steps only the removal before the second rename, awaited or late, makes the destination absent, and only with overwrite |
| DownloadLaws.NeverClobbers | crates/s3pulse-core/src/store.rs:427-437 | without overwrite no step, awaited or late, alters an existing destination |
| DownloadLaws.WholeIsTheBody | crates/s3pulse-core/src/store.rs:145-193 | what may be published is everything the body delivered, of the declared length |
| DownloadRuns.SettleDecides | crates/s3pulse-core/src/store.rs:178-193 | after the last flush the download goes on to install if and only if no length was declared or exactly that many bytes were delivered; otherwise it fails |
| DownloadRuns.DownloadInstalls | crates/s3pulse-core/src/store.rs:296-349 | for every body and both modes, the download in which every operation succeeds and nobody else writes ends installed with the destination holding exactly the body and no temporary file |
| DownloadRuns.WrongLengthFails | crates/s3pulse-core/src/store.rs:184-190 | with another declared length it fails and the destination is as it was |
| DownloadRuns.RefusedRenameInstalls | crates/s3pulse-core/src/store.rs:439-457 | a refused rename is made good by removing what is in the way and renaming again |
| DownloadRuns.RefusedRenameFails | crates/s3pulse-core/src/store.rs:439-457 | refused with nothing in the way it fails |
| DownloadRuns.ExistingDestinationRefuses | crates/s3pulse-core/src/store.rs:310-319 | without overwrite an existing destination ends the download as already existing, untouched |
| DownloadRuns.AlwaysCanEnd | crates/s3pulse-core/src/store.rs:296-349 | from every reachable state the download can be brought to its end in two steps |
| DownloadRuns.FailureEnds | crates/s3pulse-core/src/store.rs:109-193 | whatever fails or is abandoned ends the download as such and leaves the destination as it is at that moment |
| DownloadRuns.AnythingMayHappen | crates/s3pulse-core/src/store.rs:296-349 | other programs may write the destination, operations fail or be abandoned, and abandoned ones take effect, at any time |
| DownloadLaws.SuccessInstalls | crates/s3pulse-core/src/store.rs:332-348 | a reported success put exactly the delivered bytes in place at some moment, and they are still there unless another program changed the destination since that moment |
| DownloadLaws.TemporaryIsRemoved | crates/s3pulse-core/src/store.rs:413-425 | after a successful clean-up a temporary file exists if and only if some event was an abandoned open taking effect after it |
| DownloadLaws.CancelledOpenLeavesTemporary | crates/s3pulse-core/src/store.rs:135-141 | a schedule on which that happens |

## Left out

- AWS calls, credentials, region and error-text classification: a listing is any sequence of answers that ends, a download body any sequence of chunks.
- Floating point: statistics and size scales are exact reals, times are integer nanoseconds or milliseconds.
- The time-zone database and chrono's date range: resolving starts from a naive local time, lateness from an unbounded one; the narrowing of very large lookbacks to 32 bits is not modelled.
- JSON and UTF-8: parsing a line is an arbitrary partial function; the split of multi-byte characters by the decoder's string decoder is not part of this model.
- Store.ListObjects: assumes the service stops handing out continuation tokens at some point.
- Client.ClientMirrorsServer: the notifications of a run reach the client in order, the client uses the server's limit, and a normalized record replaces the earlier one of its key, because it carries every property.
- EndToEnd.NeverRefusedAsDuplicate: the client's lines fit the server's limit and name a method that is neither empty nor the cancellation; up to 2^53 - 1 requests.
- EndToEnd.SettledByOwnHandler: a result's payload is not carried from the server's reply to the client's outcome, only that it is a result or which error code it is.
- Evictions.ClientMirrorsPollExactly: the condition is exact for a delta of one batch; for more batches it is sufficient.
- Mirror.MirroredExactly: for collations that never rank two keys before each other, as a comparison function must not.
- RpcClient.Client.AllocateId: requires fewer than 2^53 - 1 pending requests, without which the loop would not end.
- Reversals.AlwaysMirroredExactly: for the same collations.
- RpcClientLaws.IdsAreNotReused: up to 2^53 - 1 requests, after which the counter starts over and ids come back.
- DispatcherLaws.OneAnswerEach: writes succeed and handlers do not panic; a failing write ends the reader or drops the response.
- Framing.ReadProtocolLine: reads succeed; an input error ends the server.
- RegistryLaws.NoLoopIsLost: poll loops end only by cancellation; a panic in a loop is not modelled.
- RegistryLaws.StopIsEffective: says nothing about the loop when another call holds the join handle or it was not stored yet.
- AlertLaws.AlertsExactlyWhenWarranted: one policy for the whole run of a feed, which is not forgotten during it.
- AlertLaws.CooldownHolds: for a cooldown that is not negative.
- DownloadLaws.DestinationIsNeverPartial: other programs write the destination at will but not the randomly named temporary file; a crash of the machine is not modelled.
- DownloadLaws.SuccessInstalls: starts after the check that the request names an object; progress samples are not modelled.
- Status and progress notifications and their order, watcher status texts and severities.
- `PollingWatcher::run`, which the server does not use; `run_watcher` is covered by its polls and batches.
- The interval records handed to the client; only their lengths are used here.
- Editor views, tree, wizard, status bar, command line, cost and duration formatting, target parsing and the tolerant normalizers: user interface or single-branch code.
