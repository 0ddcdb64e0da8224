# Verified models of the repository's stateful tooling

This project models, in Dafny, the scripts of the `phase` repository whose promises range over
whole runs: the pull-request discovery cache, the append-only review log and what is derived
from it, the changelog packer, the bug-report publisher and its fetch window, the call-graph
census, a baseline ratchet, and two reference detectors over target filters. Each script's
logic is a set of functions, methods and classes; what the script is for is proved about them
as lemmas. `dafny verify dfyconfig.toml` checks everything.

| module | script part |
|---|---|
| `Shared` | small definitions used by several modules |
| `IssueDelta` | the REST "updated since" reader while rows appear and vanish |
| `GithubPaging` | cursor walk and batched detail reads under gateway timeouts |
| `Discovery` | one bootstrap or incremental sweep, the checkpoint it writes, comment merging |
| `DiscoveryRuns` | runs of sweeps against a remote that changes at any moment |
| `DeltaReads` | what that reader gives a sweep: the run theorems' view of the delta, derived |
| `EventLog` | concurrent appends to the review log |
| `Corrections` | recording and reading of review corrections |
| `Contributors` | contributor score and windowed recurrence |
| `Expiry` | the requested-changes clock: block, warn, close |
| `ChangelogPacking` | packing a post into messages |
| `BugReportPublish` | issue first, Discord second, repair on retry |
| `FetchWindow` | the rolling fetch watermark and its delta |
| `CallGraph` | name-collapsed call graph and its reachable closure |
| `BaselineRatchet` | baseline text, its reader, and the grow/shrink gate |
| `AmassDetectors` | the old and the new amassed-army detector |

## How the outside world enters

- GitHub, Discord and the file system are inputs: replies, fates of requests, weather of a
  visit, ticks of a world. Failures are values of those inputs.
- Times are integers. Payload hashes are injective, so a fingerprint is the row itself. Logins
  are case-folded. Locks and the writing of one line or one state file are single steps.
- In `DiscoveryRuns` the remote is assumed to keep pull requests once they exist, to give an
  edited node a row that never reads like an older one of different content, and to stamp that
  row at most sixty seconds before the change is visible. Everything else may move between any
  two reads of a sweep, pull request by pull request. Each read is assumed to show a pull
  request as it is at some tick of its own: for the issue delta `DeltaReads` derives this
  wherever the reader hides no standing row, for the census, the detail reads and a bootstrap
  it is assumed, and `GithubPaging` proves them complete against a remote that stands still.
- In `BugReportPublish` creating an issue and saving its record are one step. The save behind a
  tracking reply may fail.

## Model

| member | source | states |
|---|---|---|
| IssueDelta.FetchIssueDelta | scripts/pr_review.py:4251-4283 | the request loop gives exactly the outcome and request count of `ReadDelta`, and its dictionary holds the row read last under each id |
| IssueDelta.DeltaIsASnapshot | scripts/pr_review.py:4253-4254 | if rows only disappear while it reads, a returned membership equals what the remote held at one single request, and contains every row still present at the last one; every row was served; at most 20 requests |
| IssueDelta.StaticDelta | scripts/pr_review.py:4259-4283 | on a remote that does not move it returns the whole listing when it has at most 999 rows and raises otherwise, after exactly one pass of one page or two passes |
| IssueDelta.StopsWithinBudget | scripts/pr_review.py:4260-4263 | from every state it stops within the budget, and raises only on a failed request or an exhausted budget |
| IssueDelta.PrefixSurvives | scripts/pr_review.py:4253-4254 | if nothing of a prefix vanished it is still the prefix, so a skipped row implies a lost one |
| IssueDelta.SnapshotAtReturn | scripts/pr_review.py:4277-4279 | two passes that agree pin the membership to the end of the first of them |
| IssueDelta.NoSlipNoMiss | scripts/pr_review.py:4259-4283 | however other rows come and go, a row that stays and never moves towards the front of the listing is in every returned result |
| IssueDelta.GrowingDelta | scripts/pr_review.py:4259-4283 | if rows only appear while it reads, wherever in the listing, the result lies between what the remote held at the first request and at the last |
| IssueDelta.StandingRowCanHide | scripts/pr_review.py:4277-4279 | with rows both appearing and vanishing, two agreeing passes can both miss a row that stands throughout: a run of at most 101 rows that does |
| IssueDelta.HidesNothingExactly | scripts/pr_review.py:4275-4283 | whatever rows appear and vanish, every row present at all requests made is returned, on all remotes of at most n rows, if and only if n is at most one page |
| IssueDelta.SmallHidesNothing | scripts/pr_review.py:4275-4283 | on a listing that never exceeds one page no standing row is hidden |
| GithubPaging.FetchPrNodes | scripts/pr_review.py:3657-3701 | for every server the requests, page sizes and the one reason for ending are those of the cursor walk, and it ends; against a fixed remote it returns exactly what one large query would, in order, or raises for a stated cause; the page shrinks at most four times; a request failure is raised only where asking for a single row fails too, so never when only the size of a request hurts |
| GithubPaging.CompleteOpenNodes | scripts/pr_review.py:4322-4327 | what it returns is the whole remote; a remote above the limit always raises; when only the size of requests hurts it returns the remote exactly up to the limit |
| GithubPaging.DetailChunkIsOneQuery | scripts/pr_review.py:4297-4319 | recursive halving under any timeouts returns the details of one query over the batch, in order, within 2n-1 requests, or raises only for a bad detail in the batch or a request that fails at every size |
| GithubPaging.FetchDetails | scripts/pr_review.py:4286-4294 | the batches together give the details of all numbers in order, or an error with its cause; with good details and only size hurting they never raise |
| GithubPaging.HalvingIsCheap | scripts/pr_review.py:4297-4319 | a batch is asked for whole first; where batches of up to c numbers are answered, halving costs at most two requests for every half of c numbers |
| Discovery.IndexComments | scripts/pr_review.py:4330-4334 | live comments by id, the last of an id winning, and exactly those without id kept apart |
| Discovery.MergeChangedComments | scripts/pr_review.py:4330-4351 | the loop puts the edits over the live comments, in any order, and raises exactly on an edit without id |
| Discovery.MergedShowsNewest | scripts/pr_review.py:4339-4343 | an id is shown exactly when it is live or edited; what is shown is one of the two, no older than either, and an edit replaces a live comment only when strictly newer |
| Discovery.RefreshEntry | scripts/pr_review.py:4404-4420 | an open detail read gives the entry with its retained and new edits and the merged comments, or raises exactly when an edit has no id |
| Discovery.EditsStayUntilDeleted | scripts/pr_review.py:4406-4420 | a retained edit stays until a complete live history proves its comment deleted or a newly read row replaces it; every new row is retained, and nothing else is |
| Discovery.DiscoverIncremental | scripts/pr_review.py:4381-4431 | raises exactly when a changed number has no matching detail or an open one has an unnamed edit; otherwise gives, number by number, the nodes with their edits and shown comments, watches and terminal rows of `IsSweep` |
| Discovery.ReadChanged | scripts/pr_review.py:4400-4424 | the loop over detail reads produces the sweep, merged comments included, for any set of numbers to read again, in any order |
| Discovery.ChangedCoversCensus | scripts/pr_review.py:4383-4386 | whatever is not read again is open in the cache exactly when the census shows it, under the same watch |
| Discovery.ChangedExactly | scripts/pr_review.py:4376-4399 | a pull request is read again exactly when a row of it is new, the census shows it new or under another watch, it is gone from the census, or a comment row of a tracked or listed one is new |
| Discovery.FreshCommentIsApplied | scripts/pr_review.py:4391-4420 | every comment row not equal to the cached row of its id reaches its pull request, if the sweep leaves that open: an edit under its comment id is retained from a fresh row, and nothing older is shown |
| Discovery.SameRowsReadNothing | scripts/pr_review.py:4371-4399 | exactly the rows read are fingerprinted, so reading the same rows and watches again reads no pull request anew |
| Discovery.CheckpointIsLatest | scripts/pr_review.py:4485-4567 | the archive shows each pull request as it was last read, and the candidates are judged on the nodes stored |
| Discovery.BootstrapIsLatest | scripts/pr_review.py:4357-4366 | a bootstrap stores what it read, a terminal row in place of an archived one, and records no fingerprint |
| Discovery.IncrementalKeepsValid | scripts/pr_review.py:4493-4567 | whatever opened or closed between census and details, the new cache passes its reader's checks, shows for every open pull request its live comments with the edits put over them, and tracks the old and the changed pull requests, each in exactly one of open nodes and archive |
| Discovery.CheckpointIsValid | scripts/pr_review.py:4215-4248 | nodes, watches and candidates written together have identical keys and the archive holds none of them |
| Discovery.BootstrapIsValid | scripts/pr_review.py:4357-4366 | a bootstrap's cache is valid and tracks exactly the archived, open and terminal pull requests it had |
| DeltaReads.ReaderServesSweep | scripts/pr_review.py:4367-4374 | where the delta reader hides no standing row, what it returns while the remote moves shows each pull request as its window was at some tick of the read, as the run theorems ask of a sweep |
| DeltaReads.ReadShowsEach | scripts/pr_review.py:4259-4283 | the same for one pull request, read or not |
| DiscoveryRuns.SweepKeepsFresh | scripts/pr_review.py:4367-4431 | with the remote moving during the sweep, every cached node is current outside its watch or is due: its row is in the next window and not skipped by fingerprint |
| DiscoveryRuns.BootstrapIsFresh | scripts/pr_review.py:4357-4366 | a bootstrap, reading each node at its own moment, establishes that invariant |
| DiscoveryRuns.QuietSweepIsBootstrap | scripts/pr_review.py:4354-4431 | a sweep over a remote that stands still yields the open set, watches and nodes of a bootstrap of that remote, and its comments with retained edits put over them, from any fresh cache |
| DiscoveryRuns.RunCatchesUp | scripts/pr_review.py:4480-4567 | over any run of completed, failed and rebuilding sweeps in a moving world, the first sweep that meets a still remote leaves a bootstrap's view |
| DiscoveryRuns.EverySweepIsCurrent | scripts/pr_review.py:4354-4431 | over any run in a world that never stops moving, after every completed sweep whether each pull request is open, its watch and all the rest of it are what the remote showed at some moment of that sweep |
| DiscoveryRuns.SweepIsCurrent | scripts/pr_review.py:4371-4431 | the same of one sweep from any fresh cache, rows skipped by fingerprint included |
| DiscoveryRuns.RebuildIsFresh | scripts/pr_review.py:4483-4486 | a bootstrap in the middle of a run, reading each pull request at a tick of its own, leaves a fresh cache |
| DiscoveryRuns.RunShowsNewest | scripts/pr_review.py:4330-4351 | over any run, each open pull request shows the newest of its live comments and its retained edits |
| DiscoveryRuns.FingerprintedWasApplied | scripts/pr_review.py:4371-4420 | over any run, no comment row is fingerprinted before a sweep that read it as new applied it to its pull request, if that was open after the sweep |
| DiscoveryRuns.RunKeepsTracking | scripts/pr_review.py:4493-4498 | over any run, bootstraps included and whatever it reads, the cache stays valid, and a tracked pull request is dropped only by a bootstrap that neither read it nor found it archived |
| DiscoveryRuns.NoUpdateIsLost | scripts/pr_review.py:4559-4567 | over any run in a moving world, a change stamped at most sixty seconds before it is visible is in the delta read by the first completed sweep that can see it, however many sweeps failed |
| DiscoveryRuns.CheckpointIsLastCompleted | scripts/pr_review.py:4485-4486 | after any run the cache is the one the last completed sweep wrote and its window starts from that sweep; failed ones never move it |
| DiscoveryRuns.OnlyPullRequestsAreRead | scripts/pr_review.py:4387-4399 | every number that reaches the detail read is a pull request, whatever issues were commented on |
| DiscoveryRuns.WorldsMayMove | scripts/pr_review.py:4371-4374 | the assumptions on the remote admit a world in which a body is edited |
| EventLog.LogFile.AppendEvent | scripts/pr_review.py:608-629 | appends the event and answers true exactly when no line has its id; otherwise changes nothing |
| EventLog.AppendsAreAtomic | scripts/pr_review.py:612-629 | in every interleaving, processes dying included: the log grows by suffix, no id occurs twice, every new line has a writer, a call that returned true has its own event among the new lines, writers have distinct ids, a completed call's id is in the log |
| EventLog.OneCallReturnsTrue | scripts/pr_review.py:612-629 | once all calls completed, each new line is owed to exactly one call that returned true |
| EventLog.WriteKeeps | scripts/pr_review.py:618-627 | the write step keeps the invariant: the lock and the scan rule the id out |
| Corrections.EffectiveSignalsByEvent | scripts/pr_review.py:653-691 | for exactly the ids in the log, gives the event's tokens minus what corrections of it retract; strays survive |
| Corrections.CollectRetractions | scripts/pr_review.py:660-680 | per target, the union of its corrections' canonical signals within its own; none for a missing or correction target |
| Corrections.OrderDoesNotMatter | scripts/pr_review.py:653-691 | two logs with the same events in any order give the same effective signals |
| Corrections.RecordKeepsOrderly | scripts/pr_review.py:4669-4725 | one validated record keeps: unique ids, every correction non-empty, inside its target's signals and of its target's pull request, head and author, no two corrections of a target overlapping |
| Corrections.RunStaysOrderly | scripts/pr_review.py:4729-4752 | the same over any serial run of records, and the log only grows |
| Corrections.SignalsAreConserved | scripts/pr_review.py:683-691 | a target's canonical signals are split without overlap among what survives and what each correction took |
| Corrections.CorrectionIsAcceptedExactly | scripts/pr_review.py:4669-4725 | a correction under a new id is accepted if and only if it takes, once each, signals its target still effectively has, and agrees with it on pull request, head and author |
| Corrections.CompatibleAreAccepted | scripts/pr_review.py:4669-4752 | proper corrections that do not overlap are all accepted, and each target loses exactly the union of their signals |
| Corrections.EventIsAcceptedExactly | scripts/pr_review.py:4669-4725 | any other event under a new id is accepted if and only if its type, outcome and signals are in the vocabulary and it names a pull request where one is needed |
| Corrections.RefusalIsTrue | scripts/pr_review.py:4669-4725 | each refusal names something that is wrong with the event |
| Corrections.SurvivingExactly | scripts/pr_review.py:683-691 | a reader sees every token as often as it was logged, strays too, unless its signal was taken back |
| Contributors.ScoreIsMonotone | scripts/pr_review.py:1071-1118 | fewer defects and no less praise never score lower, bonus and clamping included |
| Contributors.PraiseIsCapped | scripts/pr_review.py:1091-1110 | praise changes the clamped score by between 0 and 15 |
| Contributors.BetterHistoryScoresNoLower | scripts/pr_review.py:1071-1118 | not fewer successes, not more blocks and not more heads never score lower, rounding and bonus included; the score is within 0 and 100 |
| Contributors.OneMoreDefectCosts | scripts/pr_review.py:1083-1110 | inside the clamp one more defect takes its weight off the score, and a first one the clean bonus too |
| Contributors.OneMorePraiseEarns | scripts/pr_review.py:1091-1110 | inside the clamp and below the cap one more praise adds its weight |
| Contributors.HistoryIsNear | scripts/pr_review.py:1078-1080 | history earns 65, 30 times the success rate less 15, minus 30 times the block rate, minus 6 for every head above the median, each rounded to the nearest |
| Contributors.EmptyHistoryScores | scripts/pr_review.py:1078-1110 | without history or signals the score is 65 |
| Contributors.NewEventCounts | scripts/pr_review.py:1254-1320 | a new event adds its own signals to the counts of its contributor, and to nobody else's |
| Contributors.CorrectionNeverLowersScore | scripts/pr_review.py:1254-1320 | appending a correction of defects never lowers anyone's score, for any statistics of the other events |
| Contributors.CountsAfterCorrection | scripts/pr_review.py:1284-1310 | a correction lowers only counts of its own signals and raises none |
| Contributors.WindowedRecurrence | scripts/pr_review.py:1415-1433 | per signal, exactly the distinct pull requests with a readable timestamp inside the 60-day window, and as last-seen value the greatest of their timestamps as text |
| Contributors.OccurrencesExactly | scripts/pr_review.py:1380-1412 | the occurrences are the defects that a contributor's attributed events still carry on pull requests, and nothing else |
| Contributors.LastSeenIsLatest | scripts/pr_review.py:1425 | where timestamps sort as text the way they sort as times, the last-seen value is that of the latest entry in the window |
| Contributors.CorrectionNeverRaisesRecurrence | scripts/pr_review.py:1380-1433 | with time fixed, no correction raises any signal's distinct-pull-request count |
| Expiry.FirstBlockEvents | scripts/pr_review.py:771-788 | per pull request and head, a blocking row that no blocking row precedes; present exactly when one exists |
| Expiry.AnchorNeverPostponed | scripts/pr_review.py:776-780 | rows added to the log never move the anchor later, and later rows leave it unchanged |
| Expiry.HeadSeesFirstBlock | scripts/pr_review.py:771-788 | the anchor that the clock of one head goes by is the first block that the index over the whole log holds for it |
| Expiry.CloseIsNeverEarly | scripts/pr_review.py:2687-2747 | on every run of one head with warnings posted only when due, the warning that makes a close due was posted warn-days after a blocker on record and close-days ago, with no author activity since |
| Expiry.CloseDueExactly | scripts/pr_review.py:2687-2736 | over every run, a close is due if and only if the head is blocked, a warning is seen whose latest is at least close-days ago, and the author has been silent since it and since the last disposition, all read off the steps |
| Expiry.WarningDueExactly | scripts/pr_review.py:2687-2728 | over every run, a warning is due if and only if the head is blocked, no warning is seen, and warn-days have passed since the latest formal review in force or else the earliest block |
| Expiry.WarningIsSeenExactly | scripts/pr_review.py:2651-2684 | over every run, a warning is seen if and only if some warning left a marker comment, or is in the log with no disposition read after it, in the order of stamps and then event ids |
| Expiry.WarnedTwice | scripts/pr_review.py:2651-2728 | a run in which a logged warning stops being seen and a second one falls due |
| Expiry.CommentedOnceOnly | scripts/pr_review.py:2665-2728 | if every warning leaves its marker comment, a head is warned at most once |
| Expiry.StepStaysHonest | scripts/pr_review.py:2651-2747 | every warning on record was posted warn-days after a blocker that is still on record |
| Expiry.RecordingNeverPostpones | scripts/pr_review.py:2712-2728 | however many rows are recorded, the warning falls due no later than warn-days after the blocker, and exactly then when no row is from the future |
| ChangelogPacking.Chunk | scripts/post-changelog.ts:81-111 | the packing loop computes `Messages` for every text and limit |
| ChangelogPacking.LinePack | scripts/post-changelog.ts:86-95 | the inner loop packs the lines of a section from the message being filled |
| ChangelogPacking.MessagesFit | scripts/post-changelog.ts:74-80 | every message is non-empty and within the limit, or is one single line |
| ChangelogPacking.WithinLimitExactly | scripts/post-changelog.ts:74-111 | every message is within the limit if and only if every line of the post is |
| ChangelogPacking.OverLongMessagesAreLines | scripts/post-changelog.ts:86-95 | the messages over the limit are exactly the lines of the post that are over it |
| ChangelogPacking.OverLongLineIsSent | scripts/post-changelog.ts:86-95 | a single line over the limit is sent as one message over the limit |
| ChangelogPacking.NothingIsLost | scripts/post-changelog.ts:81-111 | the messages hold the post's non-empty lines in order, each exactly once |
| ChangelogPacking.SectionsStayWhole | scripts/post-changelog.ts:75-78 | every non-empty section within the limit stands whole in one message, between blank lines or its ends |
| ChangelogPacking.FewestMessages | scripts/post-changelog.ts:97-110 | no in-order cut of the sections into messages within the limit has fewer messages |
| ChangelogPacking.MessagesAreACut | scripts/post-changelog.ts:97-110 | with sections non-empty and within the limit, the messages are themselves such a cut, so the bound is attained |
| ChangelogPacking.FewestLineMessages | scripts/post-changelog.ts:86-95 | no in-order cut of a section's lines into newline-joined messages within the limit has fewer messages than line packing |
| ChangelogPacking.OverLimitSectionIsItsLines | scripts/post-changelog.ts:97-108 | in every post a section over the limit is sent as the messages of its lines, the last one perhaps continued |
| ChangelogPacking.ClosedOnlyWhenFull | scripts/post-changelog.ts:81-111 | in every post a message is closed only where the section or line that begins the next one does not fit behind it, or a section over the limit begins |
| ChangelogPacking.JoinOfSections | scripts/post-changelog.ts:97 | joining the split sections gives the text back |
| BugReportPublish.Publisher.Publish | scripts/sync-bug-reports.ts:1046-1204 | refuses without a change, or ends in the state of visiting each distinct target in order |
| BugReportPublish.Publisher.VisitThread | scripts/sync-bug-reports.ts:1094-1203 | one target: handled check, repair, skip, issue first and saved, then the tracking reply |
| BugReportPublish.Publisher.WriteDiscordTracking | scripts/sync-bug-reports.ts:816-830 | posts nothing in a dry run, changes nothing on failure, and otherwise records the reply, on disk only when the save behind it succeeds |
| BugReportPublish.RunsNeverDuplicate | scripts/sync-bug-reports.ts:1094-1204 | over any sequence of runs, targets and failures, each thread has at most one issue; its replies are exactly the recorded one and those whose record a run lost, so at most one without a lost record; no saved record disappears or changes its issue |
| BugReportPublish.NeverLosesExactly | scripts/sync-bug-reports.ts:1181-1203 | no run loses the record of a reply, for all stores and targets, if and only if every save behind a posted reply succeeds |
| BugReportPublish.LostReplyIsRepeated | scripts/sync-bug-reports.ts:1125-1148 | a reply whose record is lost is posted again by the next run that reaches the thread |
| BugReportPublish.VisitKeepsLedger | scripts/sync-bug-reports.ts:1166-1203 | one visit keeps the records in memory and the outside world in exact agreement, and neither memory nor disk loses a record |
| BugReportPublish.GoodWeatherCompletes | scripts/sync-bug-reports.ts:1125-1203 | a thread that is new, or whose reply failed before, is completed by the next run that reaches it without a failure: one reply more, under its old issue or one new one |
| BugReportPublish.CompletedInTheEnd | scripts/sync-bug-reports.ts:1094-1203 | whatever failed before, a new thread never found tagged handled is complete with exactly one issue after any run that reaches it in good weather |
| BugReportPublish.TaggedIsLeftAlone | scripts/sync-bug-reports.ts:1104-1123 | a new thread that a run finds tagged handled is recorded so, and no later run files an issue for it |
| BugReportPublish.VerdictTells | scripts/sync-bug-reports.ts:1094-1203 | each verdict of a visit says which issue, reply and record it added, and what a failure left undone |
| BugReportPublish.FailureExactly | scripts/sync-bug-reports.ts:1094-1203 | a visit fails exactly when a step it needs fails: the handled check, the issue, the reply or the save behind it |
| BugReportPublish.TargetsExactly | scripts/sync-bug-reports.ts:1056-1061 | each non-empty id named is visited once, in the order of first mention |
| BugReportPublish.DryRunChangesNothing | scripts/sync-bug-reports.ts:1052 | a dry run changes neither the store nor the world |
| FetchWindow.FetchState.Fetch | scripts/sync-bug-reports.ts:412-453 | import, append and watermark roll in this order, the state saved last or not at all |
| FetchWindow.FetchStores | scripts/sync-bug-reports.ts:412-453 | every new id is stored last, in order and under one stamp, behind what the file held or the export that a first import put in its place; a saved fetch rolls the watermark |
| FetchWindow.DeltaExactly | scripts/sync-bug-reports.ts:359-376 | the delta is what is stamped after the watermark; without one, what bears the newest stamp |
| FetchWindow.DeltaIsTheBatch | scripts/sync-bug-reports.ts:359-376 | from the second saved fetch on, the delta is that fetch's batch plus what dying fetches left since the last saved one |
| FetchWindow.DeltaIsExactlyTheBatch | scripts/sync-bug-reports.ts:350-358 | with no dead fetch in between, the delta is exactly the batch stored |
| FetchWindow.DeltasPartitionStored | scripts/sync-bug-reports.ts:448-453 | over any run, the successive deltas and what is pending are exactly the messages stored, in order, none repeated or skipped, if and only if no legacy import comes behind a fetch that stored rows and died with no state saved since |
| FetchWindow.ImportCanOverwrite | scripts/sync-bug-reports.ts:427-434 | a run in which an import overwrites a stored row before any delta showed it |
| FetchWindow.OverwrittenExactly | scripts/sync-bug-reports.ts:427-434 | an import overwrites unseen rows exactly when it comes behind such a fetch |
| FetchWindow.DeltasConserveStored | scripts/sync-bug-reports.ts:427-453 | over any run, imports and dying fetches included, what the deltas showed, what is pending and what an import overwrote unseen are together the messages stored |
| FetchWindow.WithoutImport | scripts/sync-bug-reports.ts:428-434 | once the legacy export is imported, or while it is absent, the message file only grows and nothing is overwritten |
| FetchWindow.FirstDelta | scripts/sync-bug-reports.ts:369-375 | the first fetch's delta is its new messages if it stored any, otherwise the imported ones |
| CallGraph.IndexFunctions | scripts/cr733_mutation_census.py:337-355 | exactly the declared names |
| CallGraph.ExtractCallEdges | scripts/cr733_mutation_census.py:358-393 | exactly the edges of the line's calls to declared names; every call is an edge or counted unresolved |
| CallGraph.BuildGraph | scripts/cr733_mutation_census.py:702-712 | an edge exactly where some line of the caller calls the declared callee |
| CallGraph.BfsReachable | scripts/cr733_mutation_census.py:396-406 | terminates with exactly the names paths from the roots reach, the least closed set holding the roots |
| CallGraph.ReachableNames | scripts/cr733_mutation_census.py:692-716 | for every call graph over (file, function) declarations that the sources spell out, every function on a trace from a root has its name in the result |
| BaselineRatchet.LoadBaseline | scripts/post_replacement_continuation_census.py:167-177 | reads the map of the text's rows, counts as Python's `int` reads them, or raises exactly on a malformed line; without a file the baseline is empty |
| BaselineRatchet.RoundTripExactly | scripts/post_replacement_continuation_census.py:161-177 | reading back a written baseline gives the same counts if and only if every key is clean |
| BaselineRatchet.ReadKeysAreClean | scripts/post_replacement_continuation_census.py:171-176 | whatever text is read, only clean keys come out |
| BaselineRatchet.ReadExactly | scripts/post_replacement_continuation_census.py:167-177 | reading raises exactly when some line is neither empty nor three texts and a number parted by tabs; otherwise a key is read exactly when a line says it, with the count of the last such line |
| BaselineRatchet.SignedNumeral | scripts/post_replacement_continuation_census.py:176 | a count may stand behind spaces and one sign |
| BaselineRatchet.UnderscoreIsIgnored | scripts/post_replacement_continuation_census.py:176 | an underscore between the digits of a count changes nothing |
| BaselineRatchet.NumeralExactly | scripts/post_replacement_continuation_census.py:176 | digits are read exactly when they are decimal digits with single underscores between them |
| BaselineRatchet.PassesExactly | scripts/post_replacement_continuation_census.py:209-242 | the gate passes exactly when every count is in the baseline and what only the baseline lists is not positive, which against a positive baseline is equality; it reports growth exactly when a row is new or larger |
| BaselineRatchet.WriteThenCheck | scripts/post_replacement_continuation_census.py:204-242 | writing a baseline and checking at once passes |
| AmassDetectors.OldImpliesNew | scripts/prior_target_binding_census.py:619-702 | where no measured property stands under AnyOf or Not, whatever the old detector accepts the new one accepts |
| AmassDetectors.OldImpliesNewExactly | scripts/prior_target_binding_census.py:619-702 | over all filters of one shape this implication holds if and only if the shape nests no measured property on the old walker's ways |
| AmassDetectors.NewRejectsFilled | scripts/prior_target_binding_census.py:248-287 | the new detector never sees a measured property below AnyOf or Not |
| AmassDetectors.OldAcceptsFilled | scripts/prior_target_binding_census.py:630-688 | the old detector accepts every shape that nests one, suitably filled |
| AmassDetectors.MoreKindsContainMore | scripts/prior_target_binding_census.py:208-234 | a quantity that refers to a scope under some reference kinds does so under more kinds |
| AmassDetectors.ContainsScopeExactly | scripts/prior_target_binding_census.py:208-234 | a quantity refers to a scope exactly when a reference to it stands anywhere in it |
| AmassDetectors.NewContainsExactly | scripts/prior_target_binding_census.py:248-287 | the new detector accepts exactly the filters in which some way leads to a measured property, standing directly in a filter, that refers to the army |
| AmassDetectors.OldContainsExactly | scripts/prior_target_binding_census.py:619-688 | the old detector accepts exactly the filters in which some way, past no chosen damage source and no distinction, leads to a measured property that refers to the army in the old kinds |

## Findings

- The unrestricted claim that the new amassed-army detector accepts all the old one accepts is
  false: the new walker has no case for a measured property below `AnyOf` or `Not`.
  `OldImpliesNewExactly` gives the exact condition.
- A baseline key with a leading space, a tab, a `#`, a line break or an empty path does not
  survive writing and reading. `RoundTripExactly` gives the exact condition.
- A warning that is only in the log is no longer seen once a disposition that is read after it
  is recorded on the same head, so a second warning can fall due. `WarnedTwice` gives the run,
  `WarningIsSeenExactly` the exact condition, and `CloseIsNeverEarly` holds nevertheless.
- The packer's comment promises that an over-limit section "always fits"; a single line longer
  than the limit is sent as it is. `OverLongLineIsSent` gives the input and
  `WithinLimitExactly` the exact condition.
- The delta reader's two agreeing passes do not prove that nothing was skipped when a row both
  appears and vanishes while it reads. `StandingRowCanHide` gives the smallest such run and
  `HidesNothingExactly` the exact condition on the size of the listing; `DeltaIsASnapshot`,
  `GrowingDelta` and `NoSlipNoMiss` say when nothing is missed on larger ones.
- A legacy import after a fetch that died overwrites the rows that fetch had stored before any
  delta showed them. `ImportCanOverwrite` gives the run and `DeltasPartitionStored` the exact
  condition.
- A save that fails behind a posted tracking reply, with no later save in the same run, leaves
  the reply without a record, and the next run posts another. `LostReplyIsRepeated` gives the
  runs, `NeverLosesExactly` the exact condition, and `RunsNeverDuplicate` the exact count.

## Left out

- The recommendation ladder, packets, dashboards in HTML, policy files and admission gates: each is settled by one branch and would add only easy members.
- Discord thread listing and message paging, issue titles and bodies, legacy triage and rendering commands.
- RunsNeverDuplicate: a crash between creating an issue and saving its record is left out, as are `mark-handled` beside `publish`, and `record --force`: the scripts promise nothing there.
- Completeness of one Discord fetch across failing threads: the activity filter is not meant to give it.
- Warnings carried over to a new head: the marker comment is not tied to a head, so the clock is followed on one head.
- Sorting of rows, candidates and archive: results are stated for every order.
- ISO timestamps, JSON, SHA-256, login folding, regular expressions of the source scanners, and text encodings.
- RunCatchesUp: comment edits retained from earlier sweeps lie over the bootstrap's comments, as `SameView` says; `EditsStayUntilDeleted` covers how long they are kept.
- ContributorScore: the rates and head counts enter as any function of the events that are not corrections.
- LoadBaseline: decimal digits are those of Unicode 14; the limit of Python's `int` on their number is not modelled.
- BuildGraph: the line scanner that finds the enclosing function is not part of this model; its results are inputs.
- Publish: the counters printed at the end of a run are not modelled.
