# Decision engines of the review and merge pipeline

This project models the parts of the pipeline that decide something: what a workflow
change may cost, whether generated files are what their sources say, what an API
publication sends, which account a reviewer leases, who is alive in a process group,
whether a merge path is armed, which review counts, and how much evidence fits into a
snapshot. Each component is one module. Loops and objects of the programs are Dafny
methods and classes, proved against a specification function or an outright property;
the lemmas then say what that specification is worth, for all inputs and all runs.

| Modules | Program part |
|---|---|
| `CronSchedule`, `MatrixExpansion`, `Workflows`, `CostAnalysis`, `CostComparison`, `CostAuthorization`, `CostEvaluation` | the CI cost guard |
| `CronMeaning`, `MatrixMeaning`, `WorkflowMeaning`, `CostMeaning` | what the definitions of the cost guard mean, in the words of its inputs |
| `SilentGrowth`, `RunnerGuard`, `SilentGrowthWitness`, `CostReporting`, `SilentCost` | what its verdict is worth |
| `BatchFraming`, `GeneratedVerifier` | the generated-file verifier |
| `TreePublication` | publication of a local commit through the API |
| `LeaseSelection`, `LeaseTransport` | the reviewer transport to the lease broker |
| `ProcessCensus` | the kernel census of a process group |
| `MergeGate` | the arm/disarm gate |
| `ReviewSelection`, `CommitTrailers` | review authority and commit trailers |
| `EvidencePacking` | the byte budgets of the context snapshot |
| `GithubRetry` | the bounded retry loop around a GitHub read |
| `Common`, `Sums`, `PythonText`, `JsText` | values, sums and text operations they share |

## Main results

- **An empty list of reasons bounds the cost** (`RunnerGuard.GuardedJobsDoNotGrow`,
  `CostEvaluation.CleanVerdictBoundsCost`), provided every retained job keeps its runner
  and has distinct rows, or ran all its rows at one weight before. Without such a
  condition it does not: `SilentGrowthWitness.GrowthWithoutReason` is a change with no
  reason and 45 more weighted minutes per push.
- **How much can go unreported** (`SilentCost.SilentGrowthBound`, `LargestSilentGrowth`,
  `SilentCostExactly`): the peak of a workflow runs all rows of each nonempty job at the
  weight of its heaviest row. A version without a reason adds at most the peak minus the
  minutes, for every push that starts the workflow and every firing of its schedule, and
  one version adds exactly that. So nothing can be added without a reason exactly when
  the workflow does not run or its peak is no more than its minutes; without empty jobs
  the latter means that each job runs all its rows at one weight.
- **The list of reasons is empty exactly when** everything guarded is kept
  (`CostReporting.SilentExactly`): triggers, filters, schedule, concurrency, matrix rows,
  runners, timeouts, reusable workflows and long commands. An unchanged workflow is free
  of reasons unless it has an empty job or a timeout that is not a number.
- **Counting by sets equals counting every minute** for cron entries, whose written fields
  read as what they mean, each in its place (`CronMeaning.EntryReads`, `FiringsAreMinutes`).
- **The rows of a matrix are the choices that no exclude drops**, each in its place with its
  axis values and the last agreeing include, then the loose includes verbatim
  (`MatrixMeaning.RowsExactly`). The law needs no assumption about null axis values.
- **A reason is reported exactly when what it says is so**, the reported cost is exactly the
  stated one, and the comparison raises exactly for the stated inputs
  (`CostMeaning.ReasonsSayWhatIsSo`, `ReportedExactly`, `ResolvesExactly`).
- **The batch reader accepts exactly the streams that start with frames** of the listed
  objects; the verifier accepts an honest request exactly when nothing that matters moved, **for every generator**.
- **Applying the change list gives the local tree exactly when** every changed path is
  absent from it or a regular file in it.
- **After any run of transport calls** each active lease has an explanation among the
  calls, and recovery answers exactly with the orphan of a request.
- **A census is a list exactly when** the first call that is no truncation is a sound
  snapshot; every other case raises.

Where the programs depart from what one may expect, the model follows the programs:
a cron field `*/n` counts as restricted, the packed primary change may take 2001 bytes
because a comma is not counted (exactly when it has two or more files and all of them serialized take 2001 bytes), a
verified output may have become a link but nothing else, the batch reader takes headers
that git never prints, and the monthly estimate may fall with an added finding when the
configured number of pushes is negative.

## Model

| member | source | states |
|---|---|---|
| `CronSchedule.Values` | scripts/ci-cost-guard.py:166-182 | the set of a field holds exactly the numbers that one of its terms covers, and a field is rejected exactly when one of its terms is |
| `CronSchedule.Range` | scripts/ci-cost-guard.py:181 | the loop over a range collects exactly the numbers from the first to the last a stride apart |
| `CronMeaning.TermReads` | scripts/ci-cost-guard.py:168-181 | a star, a number or a range, with or without a stride, reads as what is meant, a number with a stride as itself only, and is rejected exactly for a zero stride or numbers out of order or range |
| `PythonText.ToIntSigned` | scripts/ci-cost-guard.py:170-178 | a signed number in a field reads as that number |
| `PythonText.OnlyDigitsAreNumbers` | scripts/ci-cost-guard.py:170-178 | text with any other character than digits and underscores is no number |
| `CronMeaning.FieldReads` | scripts/ci-cost-guard.py:166-182 | a written field reads as its terms in order, and is rejected exactly when one of them is |
| `CronMeaning.EntryReads` | scripts/ci-cost-guard.py:187-189 | the five fields of an entry are read in their places and ranges, minute first; a day field is unrestricted exactly when it is a bare star; an entry is rejected exactly when a field is |
| `CronMeaning.OtherLengthsAreRejected` | scripts/ci-cost-guard.py:187 | an entry of another number of fields is no cron expression |
| `CronMeaning.SixHourly` | scripts/ci-cost-guard.py:187-188 | `0 */6 * * *` has minute 0 and every sixth hour |
| `CronMeaning.CoversExactly` | scripts/ci-cost-guard.py:181 | a number is covered exactly when it is some number of strides above the start of a term and not above its end |
| `CronMeaning.FiresExactly` | scripts/ci-cost-guard.py:190-200 | an expression fires exactly when minute, hour and month are covered and the day fields match, by OR when neither is a bare star, Sunday counting as 0 and 7 |
| `CronMeaning.FiringsAreMinutes` | scripts/ci-cost-guard.py:184-201 | the counted triples are the minutes of the window at which the expression fires in this sense |
| `CronMeaning.FiringsAddUp` | scripts/ci-cost-guard.py:184-201 | the count of a schedule is the sum over its entries, and there is none when an entry is no cron expression |
| `CronSchedule.ParsePrintedField` | scripts/ci-cost-guard.py:168-181 | a list of `low-high/step` terms in range reads back as these terms, with their bounds and strides |
| `CronSchedule.EntryRuns` | scripts/ci-cost-guard.py:187-200 | one entry counts exactly the (date, hour, minute) triples of the window that satisfy the cron predicate |
| `CronSchedule.DatesRun` | scripts/ci-cost-guard.py:190-200 | the loop over dates adds up to the number of firing triples: OR of two restricted day fields, AND otherwise, Sunday as 0 or 7 |
| `CronSchedule.DateStep` | scripts/ci-cost-guard.py:188-200 | one more date adds the product of covered minutes and hours when it matches, and nothing otherwise |
| `CronSchedule.ScheduleRuns` | scripts/ci-cost-guard.py:184-201 | the total is the sum of the per-entry triple counts, and there is none when some entry is no cron expression |
| `CronSchedule.OverlapCountsOnce` | scripts/ci-cost-guard.py:167-182 | a minute term that covers nothing new leaves the firing triples as they are |
| `CronSchedule.StarStepIsRestricted` | scripts/ci-cost-guard.py:195-198 | a day of month written `*/n` beside a weekday matches a date exactly when the stride or the weekday does |
| `CronSchedule.OddDatesOrMondays` | scripts/ci-cost-guard.py:195-198 | `* * */2 * 1` fires on every odd date and on every Monday |
| `MatrixExpansion.MergeInclude` | scripts/ci-cost-guard.py:98-102 | one matching include updates exactly the rows that agree on all axes with a product row it matches |
| `MatrixExpansion.UpdatedStep` | scripts/ci-cost-guard.py:99-102 | a row that agrees with several matched product rows is updated as if once |
| `MatrixExpansion.MergeIncludes` | scripts/ci-cost-guard.py:92-104 | after all includes the list is the kept rows, each overlaid in order by exactly its matching includes, then the unmatched includes |
| `MatrixExpansion.ExpandMatrix` | scripts/ci-cost-guard.py:74-105 | the rows of a matrix, or an error for a matrix or axis that is not resolved and for more than 4096 combinations |
| `MatrixMeaning.AllChoicesExactly` | scripts/ci-cost-guard.py:84 | the counted choices are exactly those of one value for each axis |
| `MatrixMeaning.ExcludedExactly` | scripts/ci-cost-guard.py:85-91 | the row of a choice is dropped exactly when some exclude has all its entries in it: the chosen values on axes, null for other keys |
| `MatrixMeaning.MatchesExactly` | scripts/ci-cost-guard.py:93-97 | an include matches the row of a choice exactly when it has no other value on an axis |
| `MatrixMeaning.LooseExactly` | scripts/ci-cost-guard.py:93-104 | an include is appended exactly when it agrees with no choice |
| `MatrixMeaning.RowsExactly` | scripts/ci-cost-guard.py:84-105 | as many rows as surviving choices and loose includes; each survivor behind the survivors before it, with its axis values and every other entry from the last agreeing include; each loose include verbatim behind all of them in order |
| `MatrixMeaning.UnresolvedExactly` | scripts/ci-cost-guard.py:76-83 | a matrix does not resolve exactly when it is no mapping, has an axis that is no list, or more than 4096 choices |
| `MatrixMeaning.NoAxesExactly` | scripts/ci-cost-guard.py:75-105 | no or an empty matrix has one empty row; without axes the rows are the includes |
| `MatrixMeaning.VariantsAreMerged` | scripts/ci-cost-guard.py:74-105 | a resolved matrix with axes has exactly these rows, its excludes and includes defaulting to none |
| `MatrixExpansion.OverlayKeepsAxes` | scripts/ci-cost-guard.py:96-102 | no include changes an axis value of a product row |
| `MatrixExpansion.OverlayEntry` | scripts/ci-cost-guard.py:99-102 | an entry of a final row comes from the last matching include that has it, else from the product row |
| `MatrixExpansion.StandaloneIsApart` | scripts/ci-cost-guard.py:93-104 | an appended include never agrees with a product row on the axes, null values included, so it is never modified later |
| `MatrixExpansion.ExpansionLaw` | scripts/ci-cost-guard.py:84-105 | surviving combinations with their own axis values, then unmatched includes verbatim; their number is the sum of the two counts |
| `MatrixExpansion.ProductSize` | scripts/ci-cost-guard.py:81-84 | the product has as many rows as the size that is compared with the limit |
| `MatrixExpansion.ProductHasAxes` | scripts/ci-cost-guard.py:84 | every product row has exactly the axes as keys |
| `MatrixExpansion.ProductAt` | scripts/ci-cost-guard.py:84 | for every choice of one value per axis, the row at its rank has the chosen values |
| `MatrixExpansion.RankOrder` | scripts/ci-cost-guard.py:84 | ranks follow dictionary order, the first axis varying slowest |
| `Workflows.RateOf` | scripts/ci-cost-guard.py:117-131 | a runner is costly exactly when it weighs more than one, and none weighs less |
| `Workflows.OnlyPlainLinuxIsFree` | scripts/ci-cost-guard.py:117-131 | a label weighs one exactly when it names Linux and neither macOS, Windows nor a larger runner; ten exactly for macOS; no other weights than one, two, four and ten |
| `Workflows.LongMinutesCount` | scripts/ci-cost-guard.py:149-153 | the long minutes are 3.5 for each position of a long command |
| `WorkflowMeaning.TruthyExactly` | scripts/ci-cost-guard.py:234-235 | a value is false exactly when it is null, false, zero or empty |
| `WorkflowMeaning.ContainsExactly` | scripts/ci-cost-guard.py:117-126 | a label contains a word exactly when the word occurs in it at some position |
| `WorkflowMeaning.LowerAt` | scripts/ci-cost-guard.py:117 | lower-casing moves exactly the capital letters |
| `WorkflowMeaning.TriggersExactly` | scripts/ci-cost-guard.py:50-58 | the events of a workflow are those its `on` clause names, with their configurations |
| `WorkflowMeaning.FanoutCounts` | scripts/ci-cost-guard.py:61-71 | the fan-out is the number of its triggers among the three pull-request events and a push whose branches are not exactly `main` |
| `WorkflowMeaning.ReadableExactly` | scripts/ci-cost-guard.py:68-69 | a push must be a mapping and a schedule a list of entries, absent or empty |
| `WorkflowMeaning.JobMinutesExactly` | scripts/ci-cost-guard.py:149-153 | five minutes, or 3.5 for each long step when there are two or more |
| `WorkflowMeaning.MinutesAddUp` | scripts/ci-cost-guard.py:156-160 | a workflow costs the sum over its jobs of minutes times the weights of all rows |
| `WorkflowMeaning.JobResolvesExactly` | scripts/ci-cost-guard.py:108-116 | a job resolves exactly when its matrix does and no rendered runner has an open expression |
| `Workflows.UnmatchedIsDifference` | scripts/ci-cost-guard.py:282-289 | taking commands out one by one leaves the exact multiset difference |
| `Workflows.AddedCommandCount` | scripts/ci-cost-guard.py:282-289 | each command is left over max(0, count after minus count before) times |
| `Workflows.NoLongCommandAdded` | scripts/ci-cost-guard.py:149-153 | when no long command is left over, the long minutes did not rise |
| `CostComparison.MatchCommands` | scripts/ci-cost-guard.py:282-289 | the loop that removes from a list leaves what the multiset matching leaves |
| `CostComparison.RunnerLoop` | scripts/ci-cost-guard.py:258-262 | the reported runners are the costly labels of the new rows that no old row had |
| `CostComparison.StepLoop` | scripts/ci-cost-guard.py:267-281 | the reported step timeouts are those above the threshold and raised, or not numeric, by step position |
| `CostComparison.CommandLoop` | scripts/ci-cost-guard.py:282-289 | exactly the long left-over commands are reported, and their minutes weighted by the new rows are added |
| `CostComparison.CompareJob` | scripts/ci-cost-guard.py:250-289 | the reasons and added minutes of one job against its old version |
| `CostComparison.TriggerLoop` | scripts/ci-cost-guard.py:216-222 | the guarded events that are new, a push restricted to main excepted |
| `CostComparison.FilterLoop` | scripts/ci-cost-guard.py:230-238 | the filters of common events that were set and were changed or dropped |
| `CostComparison.EventLoop` | scripts/ci-cost-guard.py:216-246 | all reasons that come from triggers, filters and the schedule |
| `CostComparison.JobLoop` | scripts/ci-cost-guard.py:247-289 | the reasons and added minutes of all jobs of the new version |
| `CostComparison.CountRuns` | scripts/ci-cost-guard.py:184-201 | the firings of the schedule of a workflow, none when it cannot be iterated |
| `CostComparison.Analyze` | scripts/ci-cost-guard.py:204-306 | the analysis exists exactly when neither version raises a handled error, and has exactly the specified reasons and costs |
| `SilentGrowth.SilentEvents` | scripts/ci-cost-guard.py:215-246 | without trigger reasons a push starts the workflow no more often and the schedule is unchanged or gone |
| `SilentGrowth.SilentRows` | scripts/ci-cost-guard.py:251-257 | without row reasons the new rows are no more than the old ones and all among them |
| `SilentGrowth.SilentCommands` | scripts/ci-cost-guard.py:282-289 | without command reasons the minutes of a job did not rise and none are reported as added |
| `SilentGrowth.SilentJob` | scripts/ci-cost-guard.py:250-289 | a job without reasons and with rows no heavier costs no more; a new one costs nothing |
| `SilentGrowth.SameRunnerIsNotHeavier` | scripts/ci-cost-guard.py:251-262 | a reason-free job that keeps `runs-on` and has pairwise distinct rows got no heavier |
| `SilentGrowth.SumMatched` | scripts/ci-cost-guard.py:156-160 | uniquely named jobs that each cost no more than an old job of their name cost no more in all |
| `SilentGrowth.SilentTotals` | scripts/ci-cost-guard.py:156-160 | without job reasons, and with no retained job heavier, the weighted minutes of the workflow do not grow |
| `SilentGrowth.SilentSchedule` | scripts/ci-cost-guard.py:297-301 | an unchanged or dropped schedule fires no more often |
| `SilentGrowth.NoSilentGrowth` | scripts/ci-cost-guard.py:204-306 | no reasons and no retained job heavier: fan-out, weighted minutes and firings do not grow and both reported additions are zero |
| `SilentGrowth.SilentEditExactly` | scripts/ci-cost-guard.py:247-301 | a reason-free edit of the rows or runner of one job adds nothing per push exactly when no push starts the workflow or the rows weigh no more, and nothing to the schedule exactly when it never fires or the rows weigh no more |
| `RunnerGuard.SilentRunners` | scripts/ci-cost-guard.py:258-262 | without a runner reason a new row runs at weight one or on a label of the old job |
| `RunnerGuard.UniformIsNotHeavier` | scripts/ci-cost-guard.py:251-262 | a reason-free version of a job whose old rows share one weight is not heavier, whatever its runners |
| `RunnerGuard.KnownRunnersAreNoReason` | scripts/ci-cost-guard.py:250-289 | moving rows among labels that the old job already used gives no reason |
| `RunnerGuard.MixedCanGetHeavier` | scripts/ci-cost-guard.py:258-289 | any job with rows of different weights has a heavier version that the comparison accepts without a reason |
| `RunnerGuard.RunnerGuardExactly` | scripts/ci-cost-guard.py:250-289 | no version of a job that compares without a reason is heavier, exactly when the old rows all share one weight |
| `RunnerGuard.GuardedJobsDoNotGrow` | scripts/ci-cost-guard.py:204-306 | no reasons and every retained job guarded: fan-out and weighted minutes do not grow and both reported additions are zero |
| `SilentGrowthWitness.GrowthWithoutReason` | scripts/ci-cost-guard.py:258-262 | a job that moves its Ubuntu row to macOS beside a macOS row: no reason and 45 added minutes |
| `CostReporting.EventReasonsExactly` | scripts/ci-cost-guard.py:215-246 | no trigger reason exactly when no guarded event is new (a main-only push excepted), main-only pushes and set filters stay, and a kept schedule is the same |
| `CostReporting.JobReasonsExactly` | scripts/ci-cost-guard.py:250-289 | a job gives no reason exactly when its rows are among the old ones and no more, every row runs at weight one or on an old label, and reusable workflow, concurrency, timeouts and long commands are kept |
| `CostReporting.SilentExactly` | scripts/ci-cost-guard.py:204-289 | the list of reasons is empty exactly when the file is not new and its triggers, concurrency and every job are kept in this sense |
| `CostReporting.SameJobExactly` | scripts/ci-cost-guard.py:250-289 | a job keeps itself exactly when it is no empty mapping and has numeric timeouts only |
| `CostReporting.UnchangedExactly` | scripts/ci-cost-guard.py:204-306 | an unchanged workflow is free of reasons exactly when it has no empty job and only numeric timeouts |
| `CostMeaning.JobReasonsSay` | scripts/ci-cost-guard.py:250-289 | a reason about a job is reported exactly when what it says holds of the job and its old version |
| `CostMeaning.ReasonsSayWhatIsSo` | scripts/ci-cost-guard.py:212-289 | every reason is reported exactly when what it says of the two versions is so |
| `CostMeaning.DeletionIsFree` | scripts/ci-cost-guard.py:205-210 | a deleted workflow compares with anything, without reasons and cost |
| `CostMeaning.AddedMinutesExactly` | scripts/ci-cost-guard.py:282-289 | a job adds 3.5 minutes for each left-over long command, for all its rows at their weights |
| `CostMeaning.AddedMinutesAddUp` | scripts/ci-cost-guard.py:248-289 | the added minutes of a workflow are the sum over its jobs, each against the old job of its name |
| `CostMeaning.ReportedExactly` | scripts/ci-cost-guard.py:290-301 | the exact cost per push and by schedule, with the tenth and the 0.1 of a flagged workflow that adds nothing else, counted by the triggers of a push |
| `CostMeaning.ResolvesExactly` | scripts/ci-cost-guard.py:204-301 | the comparison completes exactly when shapes, events, pushes and schedules are readable, all runners and matrices resolve, and no timeout above ten is compared with something that is not a number |
| `CostReporting.NeverUnderReports` | scripts/ci-cost-guard.py:290-301 | the reported cost is at least the growth per push, the added long commands and the growth of the schedule, counted by the triggers of a push, and positive for a flagged workflow with any such trigger |
| `CostReporting.EmptyJobIsFlagged` | scripts/ci-cost-guard.py:250-255 | a workflow whose one job is an empty mapping compares with itself and is flagged |
| `SilentCost.SilentJobPeak` | scripts/ci-cost-guard.py:250-289 | a job without reasons costs at most its old minutes with every old row at the heaviest old weight, and nothing when the old job is empty |
| `SilentCost.SilentTotal` | scripts/ci-cost-guard.py:156-160 | the weighted minutes of a version without job reasons are at most the peak of the old workflow |
| `SilentCost.SilentGrowthBound` | scripts/ci-cost-guard.py:204-306 | a version without a reason adds at most peak minus minutes per start by a push, and the same per firing of the schedule |
| `SilentCost.LargestSilentGrowth` | scripts/ci-cost-guard.py:204-306 | one version without a reason adds exactly that much, per push and by schedule |
| `SilentCost.SilentCostExactly` | scripts/ci-cost-guard.py:204-306 | no reason-free version ever adds to the reported cost per push exactly when no push starts the workflow or its peak is no more than its minutes; the same for the fixed cost and the schedule |
| `SilentCost.NotRunning` | scripts/ci-cost-guard.py:290-301 | a reason-free change of a workflow that no push starts adds nothing per push, and of one that never fires nothing by schedule |
| `SilentCost.PeakIsUniform` | scripts/ci-cost-guard.py:156-160 | without empty jobs the peak is no more than the minutes exactly when every job has uniform row weights |
| `SilentCost.UniformCostExactly` | scripts/ci-cost-guard.py:204-306 | without empty jobs, no reason-free version ever adds per push exactly when no push starts the workflow or every job has uniform row weights; the same for the schedule |
| `SilentCost.MixedWorkflowCanAdd` | scripts/ci-cost-guard.py:204-306 | without empty jobs, a workflow with a job of mixed row weights has a reason-free version that costs more wherever the workflow runs |
| `CostAuthorization.Approved` | scripts/ci-cost-guard.py:31-47 | approved exactly when the label is present and its last labeled or unlabeled event is a labeling by a configured human |
| `CostAuthorization.AuthorizedExactly` | scripts/ci-cost-guard.py:31-47 | the label `ci-cost-approved` is present and of its labeled and unlabeled events the last is a labeling by a user who is a configured operator in any case and no `[bot]` |
| `CostAuthorization.UnrelatedEventsDoNotMatter` | scripts/ci-cost-guard.py:36-41 | an event of another kind or label, anywhere in the timeline, never changes the answer |
| `CostEvaluation.Evaluate` | scripts/ci-cost-guard.py:309-335 | ok exactly when nothing was found or an operator authorized; the totals are those of the findings |
| `CostEvaluation.UnresolvedIsFound` | scripts/ci-cost-guard.py:312-321 | a change whose analysis raises is always among the findings, at 50 minutes per push |
| `CostEvaluation.ReasonIsFound` | scripts/ci-cost-guard.py:310-321 | a change with reasons is always among the findings, with its reasons and costs |
| `CostEvaluation.NoFindingExactly` | scripts/ci-cost-guard.py:310-321 | there is no finding exactly when every change was analyzed and gave no reason |
| `CostEvaluation.CleanVerdictBoundsCost` | scripts/ci-cost-guard.py:309-335 | a verdict without findings bounds fan-out and minutes of every change whose retained jobs are guarded |
| `CostEvaluation.AddingAChangeIsMonotone` | scripts/ci-cost-guard.py:309-335 | one more change, anywhere, lowers no total per push or of the schedule and makes no verdict clean |
| `CostEvaluation.MonthlyMonotoneExactly` | scripts/ci-cost-guard.py:331-333 | the monthly total never falls with an added change exactly when the configured pushes are not negative |
| `BatchFraming.PrintedFrameIsFrame` | bin/verify-rebase-generated.py:69-84 | what `git cat-file --batch` prints for a blob is a frame |
| `BatchFraming.FrameIsRead` | bin/verify-rebase-generated.py:78-84 | a frame is read to its content, leaving exactly what follows it |
| `BatchFraming.ReadIsFrame` | bin/verify-rebase-generated.py:78-84 | a successful read consumed exactly a frame of the expected object |
| `BatchFraming.ReaderExactly` | bin/verify-rebase-generated.py:76-84 | the reader gives some contents exactly when the stream starts with frames of the listed objects holding them in order |
| `BatchFraming.FramingRoundTrip` | bin/verify-rebase-generated.py:69-84 | any blobs, also with newlines or header-like text, are read back from the printed frames in order |
| `BatchFraming.LooseHeaderIsRead` | bin/verify-rebase-generated.py:79-84 | a header that git does not print is accepted too |
| `BatchFraming.ConstantsSpell` | bin/verify-rebase-generated.py:58-80 | the byte constants spell the words of the two formats |
| `BatchFraming.ByteStream.ReadLine` | bin/verify-rebase-generated.py:79 | a line up to and with its newline, and the stream behind it |
| `BatchFraming.ByteStream.Read` | bin/verify-rebase-generated.py:82-83 | as many bytes as asked for and available, all of them for a negative size |
| `GeneratedVerifier.ListingRoundTrip` | bin/verify-rebase-generated.py:57-66 | a printed listing reads back as its regular files in order without the gitlinks, and fails exactly when another entry is not regular |
| `GeneratedVerifier.EntryExactly` | bin/verify-rebase-generated.py:59-66 | an entry is refused without a tab, without three words before it or with a mode that is no regular file's; a commit is skipped whatever its mode |
| `GeneratedVerifier.RefusedEntryRefusesAll` | bin/verify-rebase-generated.py:59-66 | one refused entry anywhere refuses the listing |
| `GeneratedVerifier.NextContent` | bin/verify-rebase-generated.py:79-84 | one pass of the reader succeeds exactly when a frame is read, and leaves the stream behind that frame |
| `GeneratedVerifier.WriteSources` | bin/verify-rebase-generated.py:76-92 | succeeds exactly when all frames are read and all paths are safe; the tree then holds the contents and the digests cover exactly the files that are no outputs |
| `GeneratedVerifier.Expect` | bin/verify-rebase-generated.py:93-98 | the committed content of each requested output, all of which must be regular files |
| `GeneratedVerifier.Workspace.Regenerate` | bin/verify-rebase-generated.py:101-103 | the tree becomes whatever the generator leaves, and only a registered run goes on |
| `GeneratedVerifier.Compare` | bin/verify-rebase-generated.py:104-114 | the loops agree exactly when every digest is that of a regular file and every output reads as expected |
| `GeneratedVerifier.ComparedIsKept` | bin/verify-rebase-generated.py:91-114 | what the loops compare is exactly that no source and no output moved |
| `GeneratedVerifier.Verify` | bin/verify-rebase-generated.py:54-115 | verified exactly when the request is well formed, the sources were written out, the generator finished and nothing that matters moved |
| `GeneratedVerifier.SourcesAreListed` | bin/verify-rebase-generated.py:58-66 | every source is a listed regular file and never a gitlink |
| `GeneratedVerifier.PreparedHolds` | bin/verify-rebase-generated.py:57-92 | on an honest request the tree given to the generator holds exactly the blobs, and exists exactly when all paths are safe |
| `GeneratedVerifier.OutputIsListed` | bin/verify-rebase-generated.py:62-66 | a verified output is a regular file of the commit and no gitlink |
| `GeneratedVerifier.OnlyRegisteredIsAccepted` | bin/verify-rebase-generated.py:54-56 | a verified request names at least one output and only registered ones |
| `GeneratedVerifier.VerifiedExactly` | bin/verify-rebase-generated.py:54-115 | an honest request is verified exactly when it names outputs, all of them registered, all paths are safe, every output is a file of the commit, and the generator finished, registered, left each output as its blob or a link to it, and every other file regular with the digest of its blob |
| `GeneratedVerifier.VerifiedIsSound` | bin/verify-rebase-generated.py:54-115 | for every generator: each output still reads as its blob and every other file is regular with the digest of its blob |
| `GeneratedVerifier.VerifiedTreeReadsTheSame` | bin/verify-rebase-generated.py:104-114 | under a digest that tells the contents at hand apart, every file of a verified tree reads as before |
| `GeneratedVerifier.AcceptedOutputs` | bin/verify-rebase-generated.py:112-114 | in a verified run every output is a regular file with its blob or a link that reads as it, never absent and never a directory |
| `GeneratedVerifier.OutputNodeExactly` | bin/verify-rebase-generated.py:112-114 | a node put in the place of an output is verified exactly when it is a regular file with the blob or a link to it |
| `GeneratedVerifier.OutputMayBecomeALink` | bin/verify-rebase-generated.py:112-114 | an output replaced by a link to the same bytes is still verified |
| `TreePublication.EntriesInvertPrinting` | bin/hammer-api-publish.mjs:33-38 | reading a printed listing gives its paths, modes and object ids back, also when paths hold tabs |
| `TreePublication.EntryWithoutTab` | bin/hammer-api-publish.mjs:34-36 | an entry without a tab is its own path |
| `TreePublication.ChangesAreTheDifference` | bin/hammer-api-publish.mjs:40-42 | each path at most once, exactly the paths whose entries differ, each with both modes |
| `TreePublication.ChangesSay` | bin/hammer-api-publish.mjs:40-42 | a path is listed exactly when its presence, mode or object id differs, with both modes and the contents of a regular file |
| `TreePublication.SplitChanges` | src/ama/hammer-api-publish.mjs:19-26 | succeeds exactly when all modes are absent or 100644, and then splits into additions and deletions in order |
| `TreePublication.CommittedAt` | src/ama/hammer-api-publish.mjs:24-31 | at each path the commit agrees with the local tree exactly when the path is unchanged, gone, or now a regular file |
| `TreePublication.CommitGivesLocalTree` | bin/hammer-api-publish.mjs:40-42 | committing the changes on the remote tree gives the local tree exactly when every changed path is absent from it or regular in it |
| `TreePublication.SupportedChangesGiveLocalTree` | src/ama/hammer-api-publish.mjs:21-31 | when the mode check passes, the commit is the local tree |
| `TreePublication.Publish` | bin/hammer-api-publish.mjs:12-58 | at most one mutation, against the live head, and only for a readable pull request, a clean tree on top of it, and no or a single commit with one parent; each other state goes to re-review and sends nothing; published exactly when remote and fetched trees are the local tree and the reset works; otherwise the fallback names the new commit, and the publication once the remote tree was checked |
| `TreePublication.SendsExactly` | bin/hammer-api-publish.mjs:12-42 | a mutation is sent exactly under these conditions for one or more changes of regular files only |
| `TreePublication.FaithfulRemotePassesTheTreeCheck` | src/ama/hammer-api-publish.mjs:35-37 | a remote that commits what it is sent passes the tree check |
| `LeaseSelection.RefuseReserves` | src/adapters/reviewer-runtime/token-pool-owner.py:58-77 | exactly the unpaused reserves of the pool's Claude Code accounts are refused, under the primary gate only |
| `LeaseSelection.MarkExhausted` | src/adapters/reviewer-runtime/token-pool-owner.py:88-101 | exactly the listed accounts lose their quota, as unknown when listed so and as exhausted otherwise |
| `LeaseSelection.FinalSelection` | src/adapters/reviewer-runtime/token-pool-owner.py:58-112 | the selection is made on the rewritten evidence exactly when some evidence calls for it; otherwise the proposal stands |
| `LeaseSelection.StandingProposalSawTheSameEvidence` | src/adapters/reviewer-runtime/token-pool-owner.py:78-82 | a proposal that stands was made on evidence that rewriting would not change |
| `LeaseSelection.RewritingIsStable` | src/adapters/reviewer-runtime/token-pool-owner.py:67-101 | rewriting twice is rewriting once, keeps paused reserves, and leaves unlisted accounts alone |
| `LeaseSelection.RewritingExactly` | src/adapters/reviewer-runtime/token-pool-owner.py:58-101 | exactly which reserve becomes refused and which quota unknown or exhausted; nothing else changes |
| `LeaseSelection.ReselectsExactly` | src/adapters/reviewer-runtime/token-pool-owner.py:58-82 | the selection is made again exactly when an account is listed or a reserve of the pool is refused |
| `LeaseTransport.Broker.AcquireLease` | src/adapters/reviewer-runtime/token-pool-owner.py:114-124 | a grant adds one numbered lease for the asked identity and account, also when its reply is lost |
| `LeaseTransport.Broker.Drop` | src/adapters/reviewer-runtime/token-pool-owner.py:147 | a release drops the leases of its number or none, and answers as the broker does |
| `LeaseTransport.Broker.Select` | src/adapters/reviewer-runtime/token-pool-owner.py:112-151 | what an acquire does to the broker and returns, with the release attempt after a response that cannot be printed |
| `LeaseTransport.Broker.RecoverLease` | src/adapters/reviewer-runtime/token-pool-owner.py:30-40 | recovery changes nothing and answers with the one lease of the request, with none, or by raising, as it does when the broker cannot list its leases |
| `LeaseTransport.Broker.Serve` | src/adapters/reviewer-runtime/token-pool-owner.py:13-165 | one call moves the broker and answers exactly as specified; exceptions hold an admission or fail an operation |
| `LeaseTransport.AcquireTells` | src/adapters/reviewer-runtime/token-pool-owner.py:112-165 | for every outcome of an acquire, which lease the broker holds afterwards and what the caller is told |
| `LeaseTransport.OthersTell` | src/adapters/reviewer-runtime/token-pool-owner.py:19-40 | a proposal and a renewal change nothing, a release drops one lease, a recovery only reads; each is told as it ended |
| `LeaseTransport.RunAccounted` | src/adapters/reviewer-runtime/token-pool-owner.py:113-151 | after any run every active lease was delivered, released in vain or lost, and lease numbers are unique |
| `LeaseTransport.EveryLeaseIsExplained` | src/adapters/reviewer-runtime/token-pool-owner.py:113-165 | after any run every active lease comes from an acquire of the run whose reply or response was lost, whose release was in vain, or whose caller was told the lease |
| `LeaseTransport.EveryLeaseWasGranted` | src/adapters/reviewer-runtime/token-pool-owner.py:114-119 | no active lease has a request, identity or account that no acquire of the run selected |
| `LeaseTransport.FreshRunKeepsOne` | src/adapters/reviewer-runtime/token-pool-owner.py:114-119 | with unique request ids each request has at most one active lease after any run |
| `LeaseTransport.RecoverExactly` | src/adapters/reviewer-runtime/token-pool-owner.py:30-40 | after any run with unique request ids recovery gives exactly the request's active lease, none when there is none, and an error for another identity |
| `LeaseTransport.RecoverRefusesAmbiguity` | src/adapters/reviewer-runtime/token-pool-owner.py:36-39 | recovery raises exactly when several leases of the request are active or one has another identity |
| `LeaseTransport.RecoverThenRelease` | src/adapters/reviewer-runtime/token-pool-owner.py:19-40 | recovering an orphan and releasing it, whatever the release does: no lease of the request is left, or recovery still returns the same one |
| `ProcessCensus.CollectMembers` | src/controller_process_census.py:53-66 | the non-zombie records in order, or an error when some record is inconsistent |
| `ProcessCensus.TakeSnapshot` | src/controller_process_census.py:51-66 | misaligned or oversized answers raise, others give the census of their records |
| `ProcessCensus.GroupSnapshot` | src/controller_process_census.py:33-66 | the census of the first answer that is no truncation, after at most four kernel calls |
| `ProcessCensus.CensusExactly` | src/controller_process_census.py:33-66 | a list is returned exactly when the first call that is no truncation is aligned, in bounds and consistent, and it is then the living records of that one snapshot |
| `ProcessCensus.FailuresExactly` | src/controller_process_census.py:40-61 | four truncations overflow; a first other failure raises its own number, or an input/output error for none; an unsound snapshot raises an input/output error |
| `ProcessCensus.AnswersExactly` | src/controller_process_census.py:85-113 | unreadable requests, process ids up to one and unknown verbs are invalid without a kernel call; the others answer with the group or the census |
| `ProcessCensus.LivingExactly` | src/controller_process_census.py:62-65 | the members are exactly the records that are no zombies; an empty list means that all are |
| `ProcessCensus.AnswerOne` | src/controller_process_census.py:85-93 | the answer to one request and the number of kernel calls it takes |
| `ProcessCensus.Serve` | src/controller_process_census.py:96-115 | one answer per request, the k-th from the kernel calls that start where those of the earlier requests ended |
| `ProcessCensus.CensusReadsItsOwnCalls` | src/controller_process_census.py:40-50 | a census depends on no kernel answer but those of its own calls |
| `ProcessCensus.AnswerReadsItsOwnCalls` | src/controller_process_census.py:96-109 | an answer never uses the kernel calls of another request |
| `MergeGate.ReadGate` | frontend/gate/arf_gate.py:175-223 | under every pattern of short reads the text is that of the reported size, and an I/O error can only make it unreadable |
| `MergeGate.AllowedExactly` | frontend/gate/arf_gate.py:265-350 | a path is allowed exactly when it is a merge path and the one text read is a version-1 document with master and path both boolean true |
| `MergeGate.TextExactly` | frontend/gate/arf_gate.py:183-223 | which code a missing, unreadable, oversize or undecodable document gives, and which bytes are the text |
| `MergeGate.CodeExactly` | frontend/gate/arf_gate.py:265-350 | the code of every decision from the document: malformed, another version, unknown path, master off, no switch, armed or disarmed |
| `MergeGate.ExitExactly` | frontend/gate/arf_gate.py:165-169 | exit code 0 for armed, 3 for disarmed, 4 for every refusal |
| `MergeGate.MasterOverrides` | frontend/gate/arf_gate.py:316-328 | with the master off every merge path is disarmed, whatever the entries are |
| `MergeGate.DecideAll` | frontend/gate/arf_gate.py:383-397 | exactly the merge paths are decided, all from one loaded document, and each as `decide` decides it alone on the same read |
| `MergeGate.AggregateExit` | frontend/gate/arf_gate.py:429-443 | zero exactly when every path is allowed, the refusal code exactly when some path is refused |
| `MergeGate.ZeroMeansAllArmed` | frontend/gate/arf_gate.py:383-443 | all paths are allowed exactly when the one text arms all of them |
| `ReviewSelection.SortedSorts` | bin/ama-check.mjs:311 | the sorted list has the same reviews, newest first |
| `ReviewSelection.NewestIsSelected` | bin/ama-check.mjs:304-313 | the deciding review is exactly the newest authoritative one, the first of equally new ones, and there is none exactly when no review is authoritative |
| `ReviewSelection.AuthoritativeExactly` | bin/ama-check.mjs:87-98 | a review counts exactly when submitted, on the reviewed head, in one of four states in any case, and from a listed login |
| `ReviewSelection.LowerAt` | bin/ama-check.mjs:67-91 | lower- and upper-casing move exactly the letters of the other case |
| `ReviewSelection.OnlyTheReviewedHeadDecides` | bin/ama-check.mjs:304-313 | the deciding review is one of the list, submitted, on the reviewed head and from a listed login |
| `ReviewSelection.BotSuffixDoesNotMatter` | bin/ama-check.mjs:67-69 | a login counts as the same with and without the bot suffix |
| `ReviewSelection.KnownVerdictDecides` | bin/ama-check.mjs:314-337 | a known verdict of the newest authoritative review is the verdict, with the findings read off its body |
| `ReviewSelection.OlderReviewsNeverDecide` | bin/ama-check.mjs:300-337 | whatever any other review says, verdict and findings are those of the newest authoritative one |
| `ReviewSelection.UnknownVerdictFailsClosed` | bin/ama-check.mjs:314-337 | no verdict with unknown findings exactly when the newest authoritative verdict is empty or unknown |
| `ReviewSelection.OthersAreIgnored` | bin/ama-check.mjs:87-98 | a review that is not authoritative changes nothing, wherever it stands |
| `ReviewSelection.OrderDoesNotMatter` | bin/ama-check.mjs:304-313 | with distinct submission times any permutation selects the same review |
| `CommitTrailers.ParseCommitTrailers` | bin/ama-check.mjs:421-434 | the backward loop computes the trailers of the trimmed, normalized lines |
| `CommitTrailers.SuffixIsMaximal` | bin/ama-check.mjs:424-430 | the lines that are read are the maximal suffix of blank or trailer lines |
| `CommitTrailers.TrailersExactly` | bin/ama-check.mjs:421-434 | exactly the keys of that suffix, each with the value of its earliest trailer |
| `CommitTrailers.LineEndingsDoNotMatter` | bin/ama-check.mjs:422-425 | a message with CRLF line endings has the trailers of the same message with LF |
| `CommitTrailers.ParsePrinted` | bin/ama-check.mjs:429-431 | a printed trailer parses to its key and value |
| `CommitTrailers.TrailerLineReads` | bin/ama-check.mjs:429-431 | a line of a key, a colon, blanks and a rest of one line reads as the key and the trimmed rest |
| `CommitTrailers.OnlyTrailerLinesRead` | bin/ama-check.mjs:429-431 | only lines of that form read as trailers |
| `JsText.SpacesExactly` | bin/ama-check.mjs:425 | the characters that trimming removes |
| `JsText.TrimExactly` | bin/ama-check.mjs:425 | trimming removes exactly the blanks around a text |
| `CommitTrailers.PrintThenParse` | bin/ama-check.mjs:421-434 | trailers printed after a body whose last line is no trailer parse back to their map, with either line ending |
| `EvidencePacking.Compact` | bin/hammer-context.mjs:30-39 | the longest prefix of whole code points within the byte budget |
| `EvidencePacking.PointBytesExactly` | bin/hammer-context.mjs:34 | a code point takes one to four bytes, changing at exactly three places |
| `EvidencePacking.FlagsAreExact` | bin/hammer-context.mjs:123 | a truncation flag holds exactly when something was dropped, which is exactly when the value exceeds the budget |
| `EvidencePacking.Pack` | bin/hammer-context.mjs:107-116 | the packed files are the longest prefix that passes the test, truncated exactly when proper; at most the larger of the initial size and 2001 bytes, and more than the larger of the initial size and the budget exactly when two or more files serialized whole take 2001 bytes |
| `EvidencePacking.BudgetExceededExactly` | bin/hammer-context.mjs:112 | a packing is over the budget and over its initial size exactly when there are two or more files and all of them serialized take one byte more than the budget |
| `EvidencePacking.BudgetExceededByTheComma` | bin/hammer-context.mjs:103-116 | a concrete change of eight binary files is packed whole and takes 2001 bytes |
| `GithubRetry.RunGh` | src/adapters/health/github-read.py:56-98 | at most three attempts, all but the last transient; the sleeps are a prefix of the delays and the time is at most three timeouts plus 0.35 s |
| `GithubRetry.TransientExactly` | src/adapters/health/github-read.py:71-95 | exactly which outcomes are accepted and which are transient, an expired attempt among them |
| `GithubRetry.ResultExactly` | src/adapters/health/github-read.py:61-98 | at most three attempts with the delays 0.1 and 0.25; expired attempts are retried until the third; what the last attempt returns or raises |
| `GithubRetry.AttemptsAreDetermined` | src/adapters/health/github-read.py:61-98 | the number of attempts is determined by the outcomes |
| `GithubRetry.DeadlineEndsTheLoop` | src/adapters/health/github-read.py:73-74 | an outer deadline ends the loop at once, at whatever attempt |

## Left out

Cost guard:

- Values compare structurally; that Python takes `True`, `1` and `1.0` for equal is not modelled.
- The numbers before the final rounding are modelled, as reals; floating point and `round` are not.
- Messages of errors are not modelled: an analysis that raises a handled error has no result, and the reason texts are constructors without the numbers they print. Positions of a workflow with a shape that the code cannot read are one case, `Malformed`.
- The regular expressions and the rendering of `runs-on` are abstract functions; lower-casing covers ASCII letters, and `int` takes ASCII digits.
- The window of 30 dates from today is a parameter: any sequence of dates. The calendar itself is not modelled.
- RunnerGuardExactly: assumes, like the exact results of `SilentCost`, that a label without expressions renders as itself, which holds for the labels a workflow can write out.
- Cron entries are compared as split fields. The program compares whole schedule mappings, so that there a change of blanks or of another key of an entry is a reason as well.
- A timeline event whose actor is not a mapping, and reading local history for the number of pushes.

Generated-file verifier:

- The discovery of the trusted installation and its registry; the registry is a set of paths.
- Decoding paths as UTF-8, path normalization and file modes; `safe` stands for the check that a path stays inside the tree. Files that the generator adds are not restricted by the program and not by the model.

Publication:

- The network, the texts of reasons, the message filter, and the branch name in the result. A listing entry without an object id reads as an empty id instead of `undefined`.

Lease transport:

- Reading declarations and quota files; `propose` and `select_account` are given results. Time stamps and generations of evidence other than the one written. A renewal changes nothing at the broker.
- Concurrent transports: each call is one step of the run.

Process census:

- `os.getpgid` is an oracle; the text form of an answer, other platforms than Darwin, and process ids beyond 32 bits.

Gate, reviews, snapshot and retry:

- The audit fields `setBy`, `setAt`, `setReason` and the summary texts of decisions; parsing JSON and UTF-8 are given functions.
- `localeCompare` is an integer rank of submission times. The label timeline, branch protection and closure eligibility beside the review selection.
- Lone surrogates in `compact`, JSON string escaping of items (their serialized texts are inputs), and the collection of the snapshot around the packing loop.
- Running, metering and killing the child process; an attempt is its outcome and its duration. OS error numbers are those of Linux; `EOVERFLOW` is that of Darwin.

Elsewhere in the repository: the daemon, the ledger and lifecycle kernels, closure
eligibility, merge leases, the dashboards and the command-line wrappers.
