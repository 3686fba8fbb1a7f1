# HydraBrain and gbrain: schedulers, recovery protocols and transformations

A Dafny model of the parts of the repository that decide something over many steps: the test
sharder and the miner that feeds it, the autopilot dispatcher and its daily drain cap, the
migration ledger and runner, back-link repair, the crash-resumable benchmark run and its sampler,
the chunker and rank fusion of the baseline retriever, incremental sync, the end-to-end test
selector with its glob compiler, and the LLM provider fall-through.

`dafny verify dfyconfig.toml` checks the whole project.

## How it is built

Each imperative routine of the source is a Dafny method with the source's own loops, early exits
and state; objects and files it updates in place are fields of a class. The method is proved equal
to a specification function, and what the program promises is proved about that function as lemmas
over every input, every run or every history. The modules named `...Laws` pin down the results in
terms of what a caller sees: files and their weights, keys, links, ledger entries, amounts, places.

| file | models |
|---|---|
| `Common.dfy`, `Text.dfy` | options and results, sequences, orders and the stable library sort, JavaScript's `Map`, text search and trimming |
| `Lpt.dfy`, `Sharding.dfy`, `PartitionLaws.dfy` | greedy bin packing and its 4/3 bound; `scripts/sharding.ts` |
| `ShardWeights.dfy` | `computeWeights` of `scripts/mine-shard-weights.ts` |
| `Fanout.dfy` | `src/commands/autopilot-fanout.ts`, single ticks and runs of ticks |
| `Migrations.dfy`, `MigrationLaws.dfy`, `MigrationHistory.dfy` | `src/commands/apply-migrations.ts`; histories of invocations |
| `Backlinks.dfy`, `BacklinkLaws.dfy`, `BacklinkRepair.dfy` | `src/commands/backlinks.ts`; repeated find-then-fix |
| `LongMemEval.dfy`, `RunLaws.dfy`, `CrashResume.dfy`, `Fingerprint.dfy` | the run of `bench/longmemeval.py`; crashes and restarts; what its fingerprint tells apart |
| `Chunker.dfy`, `ChunkLaws.dfy`, `RankFusion.dfy`, `RankLaws.dfy` | `chunk_text`, `search` and the reranker clean-up of `bench/gbrain_stack.py` |
| `Sync.dfy`, `SyncLaws.dfy` | `hydrabrain/sync.py` |
| `Glob.dfy`, `GlobLaws.dfy`, `SelectE2E.dfy`, `SelectLaws.dfy` | `matchGlob`, `classify` and `selectTests` of `scripts/select-e2e.ts` |
| `Sampler.dfy` | `balanced_sample` of `bench/lme_scale.py` (the same loop is in `bench/longmemeval.py`) |
| `DrainCap.dfy`, `DrainLaws.dfy` | the auto-drain block of `src/commands/autopilot.ts` |
| `Llm.dfy` | retries and provider fall-through of `hydrabrain/llm.py` |

### How the longer arguments go

* **4/3 bound.** Induction on the jobs, heaviest first. If the job being placed weighs at most a
  third of the rival's makespan, averaging over the shards gives the bound. Otherwise every job so
  far does; give two credits to a job that cannot share a shard and one to any other. A rival shard
  then has at most two credits, and a greedy shard without room for one more job at least two.
* **Bounded waiting.** The stale sources due before a waiting source can only lose members, and
  each dispatching tick removes at least as many as the cap exceeds those among them that never
  complete. A full cap of such sources ahead blocks for good, so the condition is exact.
* **Migrations.** Each version has a balance of attempts: a run spends one, a completion all of
  them, a retry marker restores three. Balances add up over any history.
* **Back-links.** An inserted entry never splits a page's file name, so the set of ordered pairs of
  pages without a link shrinks in every round that still finds a gap.
* **Crash-resume.** Checkpoints stay honest: every row below a header was scored under that
  header's configuration. A scoring is either kept or paid for by the crash that lost it.
* **Globs.** The emitted text is parsed back by the grammar of sections 22.2.1 and B.1.2 of
  ECMA-262 and matched as section 22.2.2 describes, then compared with the glob's language.

### Assumptions

* Weights, scores, delays and amounts of money are reals. A caller's fallback weight is finite.
* `localeCompare` is a total order on source ids; ids and registry versions are distinct.
* `compareVersions` is any function; the ledger holds the three statuses only, and appends succeed.
* A healthy source completes a cycle it was given before the next dispatching tick; stamps change
  only by a cycle completing.
* `queue.add` inserts a row unless its idempotency key is there already; a call that throws inserts
  nothing. Drain jobs are created by the autopilot alone, and no earlier than the day its tick read.
* The reference extractor and the title heuristic are arbitrary functions. File names hold no line
  break followed by a section heading, nor do titles where a written line is to stay whole. Convergence further needs the slug of every person's and
  company's page to lead back to it, and `ConvergeIffSlugsLeadBack` shows that nothing less will do.
* A benchmark question scores the same whenever it is scored under the same settings; lines
  are appended whole, and so is the checkpoint header; `HeaderMakesSafe` says what that buys.
* The content hash is injective; a sync reaches its manifest write; adding a memory and reading the
  file's metadata are one step. `LostWritesHarmIff` says exactly what fails without the second. Each
  store has a manifest of its own; `SharedManifestIff` says exactly which stores do not.
* Each retriever arm ranks every document once; the reranker's reply is any list of integers or
  none. `k` is not negative.
* A provider's answers are any sequence of texts, missing SDKs, transient and other errors. The
  base delay is not negative, so that sleeping does not fail.

### Where the code differs from its own words

The model follows the code in each case.

* `scripts/sharding.ts:185` promises infinity when any shard is empty; the code returns 1 when every
  shard weighs nothing (`ImbalanceMeaning`, `EmptyShardRatio`).
* `src/commands/apply-migrations.ts:426` says orchestrators run in registry order; partial versions
  run before pending ones (`RegistryOrderIff`, `OutOfOrderRun`). Line 413 reports a
  wedged version as not registered (`FilterRefusal`, `WedgedCalledUnregistered`).
* `scripts/select-e2e.ts:9-10` says an unmapped source change emits every test; it does so only while
  no other changed file adds one (`UnmappedFileIgnored`,
  `UnmappedBesideMapped`).
* `scripts/select-e2e.ts:94` lets `**` stand for anything; the emitted dot stops at line ends
  (`StarStarStopsAtLineEnd`, `DocumentedIff`).
* `src/commands/autopilot.ts:738` counts a failed count query as zero and trusts the cap to bound the
  tick; the day's total can then pass the cap (`FailedCountOvershoots`, and exactly when in
  `TickKeepsCapIff`).
* `hydrabrain/llm.py:81` calls its last line unreachable; with a retry budget of zero or less it is
  reached and has no exception to raise (`NothingToRaiseIff`).
* `bench/longmemeval.py:250-254` has the fingerprint stop a resume under a different data file; it
  holds the file's name only, and no wait timeout (`SameFileNameMixes`, and exactly when that matters
  in `RunConfigEnoughIff`).

## Model

| member | source | states |
|---|---|---|
| Lpt.GreedyCovers | scripts/sharding.ts:118-119 | every job is on exactly one shard |
| Lpt.CreditsTrackLoad | scripts/sharding.ts:9-11 | the credits of jobs heavier than a third of a capacity determine whether their shard is empty, has room for a second job, or is full |
| Lpt.LargeJobFits | scripts/sharding.ts:9-11 | when every job weighs more than a third of a rival's makespan, the least loaded greedy shard still has room for the last job under that makespan |
| Lpt.GreedyWithinFourThirds | scripts/sharding.ts:9-11 | heaviest first, no greedy shard exceeds (4/3 - 1/(3n)) times the heaviest shard of any rival assignment |
| Lpt.WithinFourThirdsProduct | scripts/sharding.ts:9-11 | the bound used throughout is 3n times the load against (4n - 1) times the rival's makespan |
| Lpt.SpreadWithinLastJob | scripts/sharding.ts:170-179 | at every point of a run a shard exceeds any other by at most the job it received last |
| Lpt.EqualWeightsRoundRobin | scripts/sharding.ts:149-157 | jobs of one positive weight are dealt out in turn |
| Lpt.StrideSize | scripts/sharding.ts:149-157 | sizes of shards dealt in turn differ by at most one, and which are larger |
| Lpt.ZeroWeightsCollapse | scripts/sharding.ts:149-151 | weightless jobs all land on the first shard |
| Sharding.MinIndex | scripts/sharding.ts:173-176 | the scan finds the first least total |
| Sharding.PlaceAll | scripts/sharding.ts:170-180 | the loop's totals are the weights of its shards throughout, and its shards are the greedy ones |
| Sharding.Partition | scripts/sharding.ts:124-181 | the result for every file list, weight map, shard count and override, negative weights and both range errors included |
| Sharding.MedianIsCentral | scripts/sharding.ts:90-97 | at least half of the values are on either side of the median |
| Orders.StringLeIff | scripts/sharding.ts:167 | paths are compared in dictionary order: a prefix first, otherwise the first difference decides |
| Sharding.PartitionCovers | scripts/sharding.ts:118-120 | n shards which together hold every input file as often as the input does |
| Sharding.PartitionWithinFourThirds | scripts/sharding.ts:9-11 | against every other assignment of the same files to n shards, 3n times the heaviest shard is at most (4n - 1) times the rival's heaviest |
| Sharding.PartitionIgnoresOrder | scripts/sharding.ts:115-116 | reordering the input list changes nothing |
| Sharding.PartitionSpread | scripts/sharding.ts:170-179 | a shard outweighs any other by at most the effective weight of its last file |
| Sharding.ColdStartRoundRobin | scripts/sharding.ts:149-157 | without mined weights and without an explicit zero fallback the i-th file by path lands on shard i mod n, and sizes differ by at most one |
| Sharding.ColdStartIff | scripts/sharding.ts:149-157 | on two or more shards every file list is dealt out that way iff the fallback is not an explicit zero |
| Sharding.ZeroOverrideCollapses | scripts/sharding.ts:149-157 | an explicit zero fallback escapes the cold-start guard and piles every file on the first shard |
| Sharding.ImbalanceMeaning | scripts/sharding.ts:184-199 | the ratio is 1 iff all shards weigh the same, infinite iff one weighs nothing and another something, and never below 1 |
| Sharding.EmptyShardRatio | scripts/sharding.ts:184-199 | two empty shards have ratio 1, an empty one beside one that weighs something infinity |
| Sharding.RatioOfExtremes | scripts/sharding.ts:184-199 | the ratio is infinite or the largest total over the smallest, both totals of shards |
| PartitionLaws.MedianIsMiddle | scripts/sharding.ts:90-97 | the median is the mean of the two middle values in ascending order and nothing else |
| PartitionLaws.FallbackIsDocumented | scripts/sharding.ts:136-157 | an unlisted file weighs the override, else the median of the mined weights, else 1 where that is zero or there are none |
| PartitionLaws.WeighsIffLooksUp | scripts/sharding.ts:161-164 | a listed file weighs what the map says and no other function of the files agrees with that |
| PartitionLaws.WithinFourThirdsByWeight | scripts/sharding.ts:9-11 | the four-thirds bound with every file weighing what the map or the documented fallback says |
| PartitionLaws.SpreadByWeight | scripts/sharding.ts:170-179 | so too the spread: a shard outweighs any other by at most the weight of its last file |
| PartitionLaws.HeaviestFirst | scripts/sharding.ts:165-168 | each shard lists its files heaviest first, and those of one weight by path |
| PartitionLaws.RefusedIff | scripts/sharding.ts:130-144 | which calls are refused and with which error; no files give empty shards |
| ShardWeights.ComputeWeights | scripts/mine-shard-weights.ts:158-186 | grouping by job and then taking maxima over gaps gives the specified map |
| ShardWeights.WeightsAreLongestRuntimes | scripts/mine-shard-weights.ts:145-155 | the map holds exactly the files some job shows finishing, each with the longest runtime any job shows |
| ShardWeights.InterleavingIrrelevant | scripts/mine-shard-weights.ts:145-155 | logs with the same per-job event sequences give the same weights |
| ShardWeights.GroupingKeepsEvents | scripts/mine-shard-weights.ts:159-168 | grouping by job loses and repeats no event |
| ShardWeights.WeightsConserveTime | scripts/mine-shard-weights.ts:171-184 | with ordered timestamps and each file seen once, the weights add up to the time between first and last start over all jobs |
| Fanout.ResolveFanoutMax | src/commands/autopilot-fanout.ts:66-84 | a positive override wins, any other leaves 1 on PGLite and 4 elsewhere, so the cap is never below one |
| Fanout.SelectSourcesForDispatch | src/commands/autopilot-fanout.ts:124-145 | the three lists for every set of sources, cap, time and floor |
| Fanout.Dispatcher.DispatchPerSource | src/commands/autopilot-fanout.ts:156-270 | which jobs the queue holds afterwards and what is reported, when any submission may throw, and the legacy job when there is no source |
| Fanout.Dispatcher.SubmitAll | src/commands/autopilot-fanout.ts:201-254 | the submit loop's queue and list of dispatched sources, a throwing submission skipping only its own source |
| Fanout.SelectionPartitions | src/commands/autopilot-fanout.ts:124-145 | every source is in exactly one list: dispatched or over the cap iff stale, skipped as fresh iff not |
| Fanout.SelectionTakesOldest | src/commands/autopilot-fanout.ts:118-123 | the cap is honoured and used up before anything is put off, and nothing put off was due before something dispatched |
| Fanout.OldestFirst | src/commands/autopilot-fanout.ts:124-141 | sources that never completed come first, then the older stamps, ties in id order |
| Fanout.DueAfterAnHour | src/commands/autopilot-fanout.ts:98-112 | a source is due iff it never completed or an hour has passed since |
| Fanout.DispatchedIffRank | src/commands/autopilot-fanout.ts:124-145 | a source is dispatched iff it is stale and fewer stale sources than the cap are due before it |
| Fanout.PlaceIsRank | src/commands/autopilot-fanout.ts:135-141 | a stale source's place in the queue is the number of stale sources due before it |
| Fanout.JobKeyInjective | src/commands/autopilot-fanout.ts:214-216 | different sources never collide on a key |
| Fanout.SubmitAddsExactly | src/commands/autopilot-fanout.ts:201-254 | after a tick the slot holds a job for exactly the sources that had one or were submitted, nobody else's job appeared, and no earlier job changed |
| Fanout.JobNamesItsSource | src/commands/autopilot-fanout.ts:201-216 | the job a source newly gets under its key and slot names that source, and pulls iff it has a remote |
| Fanout.ReportsSubmitted | src/commands/autopilot-fanout.ts:224-254 | reported as dispatched are exactly the chosen sources whose submission went through, each once and in due order |
| Fanout.SameSlotCoalesces | src/commands/autopilot-fanout.ts:214-216 | a second tick in the slot adds nothing |
| Fanout.AheadNeverGrows | src/commands/autopilot-fanout.ts:135-141 | whoever is ahead of a waiting source was ahead a tick earlier and is not a healthy source served by it |
| Fanout.LineShortens | src/commands/autopilot-fanout.ts:118-145 | a tick that passes a stale source over adds nobody to the line ahead of it and shortens it by the cap less the never-completing sources in that line |
| Fanout.WaitingLine | src/commands/autopilot-fanout.ts:118-145 | over k such ticks the line has lost k times that many |
| Fanout.BoundedWaiting | src/commands/autopilot-fanout.ts:118-145 | no starvation: with g more slots than never-completing sources ahead of it, a stale source is dispatched once the dispatching ticks times g exceed the line ahead of it |
| Fanout.WaitingBoundedBySources | src/commands/autopilot-fanout.ts:118-145 | with n sources and g more slots than never-completing ones that is within n / g ticks, rounded up |
| Fanout.ServedIff | src/commands/autopilot-fanout.ts:118-145 | given more ticks than sources ahead of it, a stale source is dispatched iff fewer of those than the cap never complete |
| Migrations.IndexCompleted | src/commands/apply-migrations.ts:120-130 | the index maps each version to its own subsequence of the ledger and nothing else |
| Migrations.StatusForVersion | src/commands/apply-migrations.ts:145-166 | the backward count over the index gives the plain status of the version's history, and the final fallback is never taken |
| Migrations.BuildPlan | src/commands/apply-migrations.ts:189-204 | the five lists are the registry's versions by bucket, each in registry order |
| Migrations.Runner.AppendCompletedMigration | src/commands/apply-migrations.ts:460-462 | one entry more, or none when the version's last entry and the new one are both complete |
| Migrations.Runner.ResetAllWedged | src/commands/apply-migrations.ts:306-327 | a retry marker for exactly the versions wedged at the start |
| Migrations.Runner.RunOrchestrators | src/commands/apply-migrations.ts:426-497 | ledger, attempts and exit code for any outcomes: failures and throws are recorded as partial and stop the chain |
| Migrations.Runner.Execute | src/commands/apply-migrations.ts:292-497 | the effect of each kind of invocation on ledger, attempts and exit code |
| MigrationLaws.WhatRuns | src/commands/apply-migrations.ts:189-204 | a run takes up exactly the registered versions not newer than the installed one, within the filter, that never completed and do not end in three partial entries |
| MigrationLaws.RunRecords | src/commands/apply-migrations.ts:426-497 | a run leaves one entry for each attempt, complete iff the orchestrator finished; an attempt that failed or threw is the last, and the exit code is 1 iff there is one |
| MigrationLaws.LooksChangeNothing | src/commands/apply-migrations.ts:412-418 | listing and dry runs attempt nothing and leave the ledger as it is |
| MigrationLaws.ForceRetryLaw | src/commands/apply-migrations.ts:295-304 | the retry command adds one marker that makes a version pending unless it once completed, and refuses an unregistered one |
| MigrationLaws.ForceOrchestratorLaw | src/commands/apply-migrations.ts:306-327 | the other one makes every wedged registered version pending and touches no other |
| MigrationLaws.CompleteOnce | src/commands/apply-migrations.ts:460-462 | a second complete entry in a row is dropped, any other entry is added |
| MigrationLaws.CompletedIffFinished | src/commands/apply-migrations.ts:426-497 | over any history a version comes to be complete iff some attempt at it finished |
| MigrationHistory.RunsBounded | src/commands/apply-migrations.ts:154-163 | over any history of invocations a version's orchestrator runs at most three times, plus three for each retry marker written for it |
| MigrationHistory.NeverAfterComplete | src/commands/apply-migrations.ts:135-143 | no orchestrator ever runs for a version with a complete entry, nor for a wedged one |
| MigrationHistory.LedgerGrows | src/commands/apply-migrations.ts:430-433 | every history only appends to the ledger |
| MigrationHistory.WorkBounded | src/commands/apply-migrations.ts:395-497 | without retry markers at most three invocations per eligible version have work to run, whatever the filters and outcomes |
| MigrationHistory.IdleMeansQuiescent | src/commands/apply-migrations.ts:420-424 | a full run has nothing to do iff every eligible version is complete or wedged |
| MigrationHistory.RunnerQuiesces | src/commands/apply-migrations.ts:154-163 | after three full runs per eligible version, with any failures, every such version is complete or wedged |
| MigrationHistory.NobodyBlocked | src/commands/apply-migrations.ts:426-428 | by then every version that had attempts left has been run, so a failing early migration blocks nobody for good |
| MigrationHistory.FilterRefusal | src/commands/apply-migrations.ts:412-415 | `--migration v` ends with code 2 iff v is not registered, or is eligible and wedged |
| MigrationHistory.WedgedCalledUnregistered | src/commands/apply-migrations.ts:412-415 | three failing runs of the one registered version lead there: `--migration` then ends with code 2 |
| MigrationHistory.PlanOrderIff | src/commands/apply-migrations.ts:420 | the list of what is to run is in registry order iff no pending version is registered before a partial one |
| MigrationHistory.RegistryOrderIff | src/commands/apply-migrations.ts:420-428 | the orchestrators attempted follow registry order whatever they answer, iff no pending version is registered before a partial one |
| MigrationHistory.OutOfOrderRun | src/commands/apply-migrations.ts:420-428 | after `--migration b` got half way a full run takes b before the earlier registered a |
| Backlinks.Brain.FindBacklinkGaps | src/commands/backlinks.ts:71-133 | the gaps for every page set and every order of the directory walk |
| Backlinks.Brain.FixBacklinkGaps | src/commands/backlinks.ts:136-188 | the pages after a fix, all other pages untouched, nothing written by a dry run, and the number of entries reported |
| Backlinks.Brain.FixTarget | src/commands/backlinks.ts:148-185 | one target is rewritten with all its entries, or skipped when it is no page |
| BacklinkLaws.EntryIsBacklink | src/commands/backlinks.ts:155-162 | the entry of a gap carries the date, the title, and a link that leads from the target page to the source page |
| BacklinkLaws.FixWritesLinks | src/commands/backlinks.ts:135-188 | after a fix the page of every listed gap holds that line, with the link resolving to the source |
| BacklinkLaws.NewTimeline | src/commands/backlinks.ts:175-178 | a page without a timeline gets one at its end |
| BacklinkLaws.BeforeNextSection | src/commands/backlinks.ts:165-171 | with a section after the timeline and before another timeline heading the line goes right before it |
| BacklinkLaws.AtTheEnd | src/commands/backlinks.ts:172-174 | without one it goes to the end of the page |
| BacklinkLaws.ReportedIff | src/commands/backlinks.ts:40-130 | a pair is reported iff a reference the extractor finds in the source stands for the target, a person's or company's page that does not hold the source's file name |
| BacklinkLaws.GapFields | src/commands/backlinks.ts:122-127 | a gap carries the title of its source and the name by which that mentions the target |
| BacklinkLaws.SlugDropsFirst | src/commands/backlinks.ts:94-97 | a slug is the path without the first .md in it |
| BacklinkLaws.CountsListed | src/commands/backlinks.ts:148-187 | the reported number counts listed gaps whose target is a page, and |
| BacklinkLaws.CountsAdd | src/commands/backlinks.ts:148-187 | the counts of two lists add up |
| BacklinkRepair.InsertShape | src/commands/backlinks.ts:164-178 | an entry either follows the text trimmed at its end or goes right before a section heading |
| BacklinkRepair.InsertKeepsName | src/commands/backlinks.ts:164-178 | no insertion or trim reopens a closed pair |
| BacklinkRepair.FixClosesListed | src/commands/backlinks.ts:135-188 | a fix closes every listed gap whose target exists |
| BacklinkRepair.FixReopensNothing | src/commands/backlinks.ts:135-188 | a fix of any list of gaps reopens nothing |
| BacklinkRepair.FixKeepsText | src/commands/backlinks.ts:164-184 | up to white space at the end every page's earlier text survives in order |
| BacklinkRepair.FindExact | src/commands/backlinks.ts:99-130 | a pair is reported iff the source mentions the target, the target is a page, and it does not name the source's file |
| BacklinkRepair.FindOncePerPair | src/commands/backlinks.ts:103-116 | however often a page mentions an entity the pair is reported once |
| BacklinkRepair.RoundCloses | src/commands/backlinks.ts:71-188 | a round that finds gaps strictly shrinks the set of unlinked pairs |
| BacklinkRepair.SettledIffNoGaps | src/commands/backlinks.ts:71-133 | nothing is missing iff the finder reports nothing, in whatever order it walks |
| BacklinkRepair.RepairConverges | src/commands/backlinks.ts:71-188 | with N pages, N * N rounds leave no gap, for any extractor, any walk orders and whatever references the written entries create |
| BacklinkRepair.MisnamedTargetsStay | src/commands/backlinks.ts:92-150 | a blank page mentioning itself under a slug that leads elsewhere is still reported after any number of rounds |
| BacklinkRepair.ConvergeIffSlugsLeadBack | src/commands/backlinks.ts:71-188 | for a set of page names every extractor converges, from any contents and over any walks, iff the slug of every person's and company's page leads back to it |
| LongMemEval.Bench.LoadDone | bench/longmemeval.py:274-276 | rows by question, a later line winning |
| LongMemEval.Bench.ScoreSample | bench/longmemeval.py:283-321 | checkpoint, rows and scorings of the resume loop cut off at any effect |
| LongMemEval.Bench.Execute | bench/longmemeval.py:250-365 | disk, scorings and status of a run cut off at any effect, with a refused, fresh, empty or resumed checkpoint |
| RunLaws.LaterLineWins | bench/longmemeval.py:274-276 | of several rows for one question the last is held |
| RunLaws.OnlyScoredAreHeld | bench/longmemeval.py:274-276 | a question is held iff some line scores it |
| RunLaws.RefusedIff | bench/longmemeval.py:259-273 | a run is refused iff it does not start over and the checkpoint is headed by another configuration, and then it changes nothing |
| RunLaws.FinishedScoredMissing | bench/longmemeval.py:283-321 | a finished run scored exactly the places of its sample it held no row for; all of them with --fresh |
| RunLaws.FreshStartsOver | bench/longmemeval.py:259-281 | with --fresh a run is never refused, and the checkpoint it leaves is none or starts with its own header and holds only rows it scored itself, unless it died before its first effect |
| RunLaws.EmptySampleWritesNothing | bench/longmemeval.py:323-359 | an empty sample never finishes and leaves the results alone |
| CrashResume.RunHonest | bench/longmemeval.py:250-281 | from a checkpoint with right rows a run keeps them right, keeps it honest if it was, and if it finishes reports its sample scored once in order |
| CrashResume.FinishedRowsAreFresh | bench/longmemeval.py:250-257 | when scores depend on the fingerprint alone, then whatever configurations, samples, crashes and restarts came before, a finished run reports its own sample scored under its own configuration |
| Fingerprint.FreshIffPrintsTell | bench/longmemeval.py:250-273 | for any settings and any print of them, every finished run of every history from no checkpoint reports its own sample under its own settings iff settings with equal prints score every question alike |
| Fingerprint.RunConfigEnoughIff | bench/longmemeval.py:255-257 | the program's own print is enough in that sense iff scores depend neither on the directory of the data file nor on the wait timeout |
| Fingerprint.SharedPrintMixes | bench/longmemeval.py:264-276 | two runs whose settings have one print and score a question differently get mixed: the first dies with a row banked, the second finishes with that row |
| Fingerprint.SameFileNameMixes | bench/longmemeval.py:255-257 | so a run resumes across two data files of one name, or two timeouts, and reports a row of the other |
| CrashResume.RowsMatchHeader | bench/longmemeval.py:252-257 | after any history every checkpoint row was scored under the header's configuration |
| CrashResume.SafeIffSound | bench/longmemeval.py:250-281 | every finished run of every history from a checkpoint reports its own sample iff the checkpoint has a header and the rows the loader keeps are right under it |
| CrashResume.HeaderMakesSafe | bench/longmemeval.py:264-281 | a checkpoint without rows is safe in that sense iff it is not empty |
| CrashResume.TornHeaderMixesConfigs | bench/longmemeval.py:264-281 | with an empty checkpoint left behind, a row scored under one configuration is reported under another |
| CrashResume.RemovedIffBanked | bench/longmemeval.py:360-365 | a resumed run removes the checkpoint iff it finishes and every question held is in the sample; otherwise no line is dropped |
| CrashResume.RetryCost | bench/longmemeval.py:250-252 | scorings so far plus places of the sample still without a row never exceed the sample plus the crashes, repeated questions included |
| CrashResume.CrashResumeEquivalence | bench/longmemeval.py:250-252 | restarting after every crash ends with the sample scored once in order, at a cost of at most the sample's length plus the crashes |
| CrashResume.LongEnoughRunFinishes | bench/longmemeval.py:283-365 | a run that survives two effects per question and four more finishes |
| Chunker.ChunkText | bench/gbrain_stack.py:56-75 | the two loops produce the capped pieces of the word windows, in order |
| Chunker.CapPieces | bench/gbrain_stack.py:68-72 | the cap loop terminates with the pieces of the window |
| ChunkLaws.WindowsExact | bench/gbrain_stack.py:64-74 | window i is 300 words from word 250 i on, and the last one is the first to reach the end |
| ChunkLaws.PiecesExact | bench/gbrain_stack.py:68-72 | piece k is 6000 characters from character 5800 k on, and the last one is the first to reach the end |
| ChunkLaws.ChunksExact | bench/gbrain_stack.py:61-75 | the chunks are exactly the pieces of the windows, window after window |
| Chunker.PiecesStitch | bench/gbrain_stack.py:68-72 | dropping the 200-character overlaps gives the window's text back |
| Chunker.WindowsStitch | bench/gbrain_stack.py:64-74 | dropping the 50-word overlaps gives the words back |
| Chunker.SplitJoin | bench/gbrain_stack.py:61-67 | a window's text splits back into its words |
| Chunker.ChunksRebuildText | bench/gbrain_stack.py:56-75 | given which chunks belong to which window, dropping the overlaps rebuilds the exact word list |
| Chunker.OneChunkPerWindowIff | bench/gbrain_stack.py:68-72 | the returned list has one chunk per window, and so carries the grouping, iff no window runs into the character cap |
| Chunker.FlatChunksRebuildText | bench/gbrain_stack.py:56-75 | while no window runs into the character cap the returned list alone rebuilds the exact word list |
| Chunker.UncappedChunksTellApart | bench/gbrain_stack.py:56-75 | so two texts without capped windows never share their chunks |
| Chunker.TextsShareChunks | bench/gbrain_stack.py:68-72 | where the cap cuts a window two different texts can share them |
| Chunker.ChunksBounded | bench/gbrain_stack.py:56-60 | every chunk has 1 to 6000 characters |
| Chunker.WindowsAddText | bench/gbrain_stack.py:64-74 | every window after the first holds more words than it shares with its predecessor |
| RankFusion.CleanReply | bench/gbrain_stack.py:147-153 | the clean order is the valid positions by first mention, then the dropped ones |
| RankFusion.CleanIsRanking | bench/gbrain_stack.py:147-153 | whatever the reply, every candidate is ranked exactly once |
| RankFusion.Fuse | bench/gbrain_stack.py:198-201 | every document's sum of reciprocal ranks, in dense order |
| RankFusion.RerankCandidates | bench/gbrain_stack.py:143-156 | the reranked candidates, or the given order for an unreadable reply |
| RankFusion.Search | bench/gbrain_stack.py:195-210 | the documents returned with and without rerank |
| RankFusion.SortByScore | bench/gbrain_stack.py:204 | sorting the accumulated scores gives the fused order, ties in dense order |
| RankFusion.SearchReturnsDistinct | bench/gbrain_stack.py:195-210 | for every reply, min(k, number of documents) distinct documents |
| RankFusion.AheadInBothArms | bench/gbrain_stack.py:198-204 | without rerank a document ahead of another in both arms is ahead in the fused order |
| RankFusion.UnanimousWinner | bench/gbrain_stack.py:198-209 | a document first in both arms comes out first |
| RankLaws.SortStable | bench/gbrain_stack.py:204 | of two elements in order the sort leaves the earlier one ahead |
| RankLaws.FusedOrderIff | bench/gbrain_stack.py:198-204 | a document is ahead in the fused order iff the sum of its reciprocal ranks in both arms is larger, or equal with the better dense rank |
| RankLaws.CleanOrderIff | bench/gbrain_stack.py:147-153 | a position precedes another iff the reply mentions it first, or mentions neither and it is smaller |
| RankLaws.RerankFollowsReply | bench/gbrain_stack.py:147-154 | if the candidate the reply puts second is returned, so is the other, ahead of it |
| RankLaws.SearchFollowsReply | bench/gbrain_stack.py:205-210 | a reranked search chooses among the first max(k, pool) fused documents and lists them as the reply does |
| RankLaws.SearchUnranked | bench/gbrain_stack.py:205-210 | without a reranker or with an unreadable reply it is the first k fused documents |
| Sync.Syncer.Sync | hydrabrain/sync.py:99-156 | manifest, store and report for every file list, content, failure and flag |
| Sync.Syncer.SyncFile | hydrabrain/sync.py:114-144 | which of the five actions one file meets, and that only ingestion touches store and manifest |
| SyncLaws.StoresExactly | hydrabrain/sync.py:111-141 | a run stores exactly the listed, readable, non-blank texts that are new or forced and not rejected, each once; a dry run none |
| SyncLaws.RecordsExactly | hydrabrain/sync.py:99-154 | the manifest then has the new hash of each such file and, unless forced, the old hash of any other |
| SyncLaws.CountsExactly | hydrabrain/sync.py:111-148 | failed, ingested and skipped are the numbers of files unreadable or rejected, taken in, and blank or unchanged |
| SyncLaws.DetailsExactly | hydrabrain/sync.py:142-148 | the details list a failed file twice, one taken in once with its action, and nothing else |
| SyncLaws.ManifestNames | hydrabrain/sync.py:28-32 | how the manifest is named with and without a tenant and a source |
| Sync.LatestAfter | hydrabrain/sync.py:111-141 | a run changes a file's latest stored text iff it ingests the file, and then to its content |
| Sync.SyncKeepsConsistent | hydrabrain/sync.py:119-141 | no run, whatever fails, leaves a manifest hash that is not that of the latest stored text |
| Sync.HistoryConsistent | hydrabrain/sync.py:99-154 | nor does any history of edits and runs |
| Sync.IncrementalRefinesFull | hydrabrain/sync.py:92-97 | after any history an incremental run leaves the same latest text for every file as a full re-ingest |
| Sync.StoreFollowsFiles | hydrabrain/sync.py:92-97 | after any history every listed, non-blank file that was not rejected is stored as it is |
| Sync.CountsAddUp | hydrabrain/sync.py:111-148 | ingested, skipped and failed add up to the number of files |
| Sync.SecondRunIdle | hydrabrain/sync.py:119-124 | after a run without failures a second one ingests nothing and changes nothing |
| Sync.DryRunPredicts | hydrabrain/sync.py:95-97 | a dry run writes nothing and names exactly the files the real run would ingest |
| Sync.LostWritesHarmIff | hydrabrain/sync.py:119-154 | after any number of runs whose manifest write was lost the next run leaves a listed, non-blank, accepted file stored as it is, iff it is not an unforced run on a file back at its recorded text with another text stored in between |
| Sync.LostManifestWrite | hydrabrain/sync.py:152-154 | that harm occurs: a file that reverts is taken for unchanged while the store keeps the text in between |
| Sync.SharedManifestIff | hydrabrain/sync.py:28-32 | two stores have one manifest iff they are the same or the longer tenant goes on with a hyphen and the beginning of the other's source |
| Sync.HyphensCollide | hydrabrain/sync.py:28-32 | tenant a with source b-c and tenant a-b with source c have one manifest |
| Sync.SharedManifestSkips | hydrabrain/sync.py:121-124 | then a file the one store took in is skipped for the other, which never gets it |
| Glob.CompileGlob | scripts/select-e2e.ts:102-120 | the loop's text for every glob, character by character |
| Glob.MatchGlob | scripts/select-e2e.ts:94-122 | an error iff the glob has `?`, `[` or `{`; otherwise whether the glob's language holds the path |
| Glob.CompiledTextParses | scripts/select-e2e.ts:102-121 | the emitted text is a pattern and reads back as the intended terms |
| Glob.TermsMeanGlob | scripts/select-e2e.ts:102-121 | matching those terms is membership in the glob's language |
| Glob.CompileCorrect | scripts/select-e2e.ts:96-122 | compilation preserves meaning for every supported glob and every path, `**` not running over a line end |
| Glob.DocumentedMeaning | scripts/select-e2e.ts:94-95 | on paths without line ends that is the documented meaning |
| Glob.StarStarStopsAtLineEnd | scripts/select-e2e.ts:102-108 | alone, `**` accepts exactly the paths without a line end |
| Glob.DocumentedIff | scripts/select-e2e.ts:94-95 | every supported glob keeps its documented meaning on a path iff the path has no line end |
| GlobLaws.GlobsFollow | scripts/select-e2e.ts:102-120 | two globs written one after the other, no stars running together, accept a path of the first followed by one of the second |
| GlobLaws.LiteralGlob | scripts/select-e2e.ts:113-118 | text without stars stands for itself, dots and brackets included |
| GlobLaws.OneStar | scripts/select-e2e.ts:110-112 | one star stands for any text without a slash |
| GlobLaws.TwoStars | scripts/select-e2e.ts:107-109 | two stars stand for any text within one line |
| SelectE2E.Classify | scripts/select-e2e.ts:143-149 | the class of every list of changed files |
| SelectE2E.AddMapped | scripts/select-e2e.ts:174-178 | a file adds exactly the tests of the entries whose glob holds it; an unsupported glob in the map is an error |
| SelectE2E.SelectTests | scripts/select-e2e.ts:151-187 | the sorted, duplicate-free tests for every change and map |
| SelectE2E.DecisionExact | scripts/select-e2e.ts:8-24 | exactly when nothing runs, and exactly when everything runs |
| SelectE2E.SelectionExact | scripts/select-e2e.ts:165-186 | otherwise a non-empty set of exactly the tests some changed file adds |
| SelectE2E.UnmappedFileIgnored | scripts/select-e2e.ts:165-183 | an unmapped file calls for every test iff an escape hatch changed or no other file adds a test; it never changes a selection |
| SelectE2E.UnmappedBesideMapped | scripts/select-e2e.ts:165-183 | an unmapped file that alone runs everything adds nothing beside a mapped one |
| SelectE2E.DecisionIgnoresOrder | scripts/select-e2e.ts:151-187 | only which files changed matters |
| SelectE2E.ListingUnique | scripts/select-e2e.ts:185-186 | the emitted list is determined by the set of tests |
| SelectLaws.NothingRunsIff | scripts/select-e2e.ts:39-59 | no test runs iff something changed and only files under docs/, root Markdown, LICENSE or VERSION |
| SelectLaws.CentralRunsAll | scripts/select-e2e.ts:61-92 | a change of any escape-hatch file runs every test, whatever else changed and whatever the map |
| SelectLaws.RunsCalledFor | scripts/select-e2e.ts:165-186 | otherwise exactly the changed tests and the tests of map entries holding a changed file that is no document; every test when that is none |
| Sampler.RoundRobin | bench/lme_scale.py:190-197 | the loop terminates with all questions, each type in its own order, the types taking turns |
| Sampler.BalancedSample | bench/lme_scale.py:188-198 | the sample is the limit's cut of the one balanced order, negative limits included |
| Sampler.OrderPermutes | bench/lme_scale.py:188-198 | the untruncated order is a permutation |
| Sampler.PrefixBalanced | bench/lme_scale.py:188-189 | in every prefix any two types' counts differ by at most one unless the smaller type is exhausted |
| Sampler.SmallSampleCoversKinds | bench/longmemeval.py:228-238 | a prefix at least as long as there are types holds a question of every type |
| Sampler.OrderUnique | bench/lme_scale.py:188-198 | only one order takes turns and keeps each type's own order |
| Sampler.TurnsIff | bench/lme_scale.py:192-197 | of two questions the one with fewer of its own type before it comes first, and of two with equally many the one whose type name is smaller |
| DrainCap.Autopilot.DrainTick | src/commands/autopilot.ts:728-795 | the jobs after one pass for any answers of the count query, backlog, duplicate check and queue |
| DrainCap.Autopilot.DrainSource | src/commands/autopilot.ts:748-793 | the queue and counter after one source, and whether its backlog query ends the pass |
| DrainLaws.CapIsLargest | src/commands/autopilot.ts:726-728 | the cap is the largest number of drains the configured amount pays for |
| DrainLaws.QueuesOnlyWanted | src/commands/autopilot.ts:742-782 | a tick appends only rows for registered sources whose backlog exceeds the threshold, under keys not there before that name source and day, to drain that source; switched off none |
| DrainLaws.WantedIsQueued | src/commands/autopilot.ts:742-783 | such a source the tick gets to has its row afterwards, unless the amount pays for no further drain |
| DrainLaws.EarlierFirst | src/commands/autopilot.ts:746-783 | no source is given a slot before one seen earlier that also wants it |
| DrainLaws.CountsRows | src/commands/autopilot.ts:731-737 | the counts of a day are numbers of rows |
| DrainCap.TickGrowth | src/commands/autopilot.ts:728-747 | a tick that could count leaves each day's jobs unchanged or within the cap; one that could not adds at most a cap's worth |
| DrainCap.DailyCap | src/commands/autopilot.ts:726-747 | over any run the jobs of one day stay within the cap, plus one cap for each tick whose count failed |
| DrainCap.PlannedSpendCapped | src/commands/autopilot.ts:724-728 | while counts succeed the day's jobs stay within the cap and their planned cost within the configured amount |
| DrainCap.SubmitsExactly | src/commands/autopilot.ts:742-782 | a tick submits as many drains as its sources call for before the first backlog error, up to the slots it believes to be free |
| DrainCap.TickKeepsCapIff | src/commands/autopilot.ts:731-747 | starting within the cap a tick ends within it iff its count answered, or the day had no drain yet, or there is room for every drain the sources call for |
| DrainCap.FailedCountOvershoots | src/commands/autopilot.ts:731-740 | with room for one drain and one there, a failed count lets a second through |
| DrainCap.KeyInjective | src/commands/autopilot.ts:751-754 | a key names one source and one day |
| DrainCap.OneDrainPerSourceAndDay | src/commands/autopilot.ts:751-770 | over any run, failed counts included, no source has two jobs keyed to one day |
| DrainCap.TickServesDueSources | src/commands/autopilot.ts:742-783 | when every service answers, each source due has a job for the day after the tick, unless the cap is used up |
| Llm.Client.CallWithRetries | hydrabrain/llm.py:63-81 | the calls, pauses and ending of the retry loop for any answers and any budget |
| Llm.Client.Generate | hydrabrain/llm.py:187-226 | the trace and result of the provider loop for any providers |
| Llm.CallsMeaning | hydrabrain/llm.py:66-81 | the loop stops at the first answer that is not transient, and makes no more calls than allowed |
| Llm.HandsOverIff | hydrabrain/llm.py:188-216 | the next provider is tried iff the SDK is missing or every allowed attempt was transient |
| Llm.BackoffTotal | hydrabrain/llm.py:75-80 | n calls of a provider sleep base * (2^(n-1) - 1) in all, and none for another provider |
| Llm.AttemptsAlternate | hydrabrain/llm.py:66-80 | calls and pauses of a provider alternate, the k-th pause being base * 2^k |
| Llm.RunIsPaced | hydrabrain/llm.py:187-216 | in the whole run providers follow their order, every pause is followed by a call of the same provider, and no two calls of one provider stand side by side |
| Llm.ProviderDiscipline | hydrabrain/llm.py:188-216 | a provider is called iff it is configured and every configured one before it handed over, at most R times, and sleeps base * (2^(R-1) - 1) when exhausted |
| Llm.FirstDeciderWins | hydrabrain/llm.py:190-216 | the first provider that does not hand over decides the result at once; with no attempts allowed it is the failure to raise anything |
| Llm.NothingToRaiseIff | hydrabrain/llm.py:65-81 | the retry loop falls off its end with nothing to raise iff no attempt is allowed and some provider is configured |
| Llm.AllHandOver | hydrabrain/llm.py:217-226 | when all hand over the error lists every configured provider; with none configured it asks for a key |

## Left out

- FlatChunksRebuildText: one direction; a list with a window cut at the cap may still happen to read back.
- LongEnoughRunFinishes: sufficient, not necessary; a run with rows already banked needs fewer effects.
- HTTP clients, subprocesses, the web server, the MCP server and CLI dispatch.
- The admin UI, demo recorders, report renderers, metrics and documentation generators.
- LLM answers, embeddings, cosine and BM25 scores: the arms' rankings and the replies are inputs.
- Fields of queued jobs that are the same for all: queue, attempts, timeout, repository of a cycle.
- The Minions queue beyond insert-if-key-absent, `maxWaiting`, self-upgrade, engine and schema migrations, `--force-schema`.
- A failing ledger append or checkpoint write, and a checkpoint line cut in half.
- JSON, log parsing, the file system and git: models start from parsed rows and path-to-content maps.
- `loadWeights`: its guarantee, non-negative weights, is the models' assumption on the map.
- Parsing of configuration numbers and flags; a fan-out cap that is not a natural number.
- Drain jobs queued by hand, and two autopilots at once.
- Floating-point rounding of weights, scores, amounts and delays.
- Hash collisions, byte counts, titles and timestamps in the sync manifest, and malformed manifest entries.
- Unicode: strings are sequences of code units, and the encoding of text is not modelled.
- Pattern syntax the glob compiler cannot emit: groups, lazy and counted quantifiers, lookaround, flags.
- Reading source-tier boosts and chunk texts in a search result: results are document numbers.
