/** The comparison of two versions of a workflow (`analyze`): when it completes, the
    reasons it has to report and the cost it has to add. */
module CostAnalysis {
  import opened Common
  import opened MatrixExpansion
  import opened Workflows
  import CronSchedule

  datatype Owner = WholeWorkflow | OfJob(job: string) | OfStep(job: string, index: nat)

  datatype Reason =
    | NewWorkflowFile
    | AddedTrigger(event: string)
    | PushUnrestricted
    | FilterChanged(event: string, key: string)
    | ConcurrencyRemoved(owner: Owner)
    | ScheduleChanged
    | CountGrows(job: string)
    | AddsEntries(job: string)
    | AddsRunner(job: string, runner: string)
    | ReusableChanged(job: string)
    | DynamicTimeout(owner: Owner)
    | TimeoutRaised(owner: Owner)
    | LongCommandAdded(job: string, command: string)

  /** The result before the final rounding. */
  datatype Analysis = Analysis(reasons: set<Reason>, perPush: real, fixed: real)

  const TIMEOUT_THRESHOLD := 10.0

  const GUARDED_EVENTS := ["push", "schedule", "pull_request_target", "merge_group", "pull_request"]
  const FILTER_KEYS := ["paths", "paths-ignore", "branches", "branches-ignore"]

  /* ---- reasons: what the comparison has to report ---- */

  predicate TriggerAdded(prior: Events, next: Events, event: string) {
    event in next && event !in prior && (event != "push" || !MainOnly(next[event]))
  }

  predicate PushOpened(prior: Events, next: Events) {
    "push" in prior && "push" in next && MainOnly(prior["push"]) && !MainOnly(next["push"])
  }

  predicate FilterLost(prior: Events, next: Events, event: string, key: string) {
    && event in prior && event in next && prior[event].Settings? && next[event].Settings?
    && var a, b := Get(prior[event].fields, key), Get(next[event].fields, key);
       Truthy(a) && (!Truthy(b) || a != b)
  }

  predicate ScheduleDiffers(prior: Events, next: Events) {
    "schedule" in prior && "schedule" in next && prior["schedule"] != next["schedule"]
  }

  predicate CancelsInProgress(v: Value) {
    v.Obj? && Truthy(Get(v.fields, "cancel-in-progress"))
  }

  /** `concurrency_removed`. */
  predicate ConcurrencyLost(before: Value, after: Value) {
    Truthy(before) && (!Truthy(after) || (CancelsInProgress(before) && !CancelsInProgress(after)))
  }

  function TriggerReasons(prior: Events, next: Events): set<Reason> {
    set event | event in GUARDED_EVENTS && TriggerAdded(prior, next, event) :: AddedTrigger(event)
  }

  function FilterReasons(prior: Events, next: Events): set<Reason> {
    set event, key | event in prior.Keys * next.Keys && key in FILTER_KEYS && FilterLost(prior, next, event, key) ::
      FilterChanged(event, key)
  }

  function EventReasons(prior: Events, next: Events): set<Reason> {
    TriggerReasons(prior, next)
    + (if PushOpened(prior, next) then {PushUnrestricted} else {})
    + FilterReasons(prior, next)
    + (if ScheduleDiffers(prior, next) then {ScheduleChanged} else {})
  }

  function ConcurrencyReasons(owner: Owner, before: Value, after: Value): set<Reason> {
    if ConcurrencyLost(before, after) then {ConcurrencyRemoved(owner)} else {}
  }

  function TimeoutReasons(owner: Owner, newer: Timeout, older: Timeout): set<Reason> {
    if newer.NotANumber? then {DynamicTimeout(owner)}
    else if newer.minutes > TIMEOUT_THRESHOLD && older.Minutes? && newer.minutes > older.minutes
    then {TimeoutRaised(owner)}
    else {}
  }

  /** Comparing a number above the threshold with a value that is not one raises TypeError. */
  predicate TimeoutsCompare(newer: Timeout, older: Timeout) {
    newer.Minutes? && newer.minutes > TIMEOUT_THRESHOLD ==> older.Minutes?
  }

  function OldStep(prior: Job, i: nat): Step {
    if i < |prior.steps| then prior.steps[i] else NO_STEP
  }

  function StepReasons(name: string, job: Job, prior: Job): set<Reason> {
    set i, reason | 0 <= i < |job.steps| &&
      reason in TimeoutReasons(OfStep(name, i), job.steps[i].timeout, OldStep(prior, i).timeout) :: reason
  }

  /** The old rows; an empty old job has none. */
  function OldRows(prior: Job): seq<Row> {
    if prior == NO_JOB then [] else RowsOf(prior)
  }

  function RowReasons(name: string, rows: seq<Row>, prior: Job): set<Reason> {
    (if |rows| > |OldRows(prior)| then {CountGrows(name)} else {})
    + (if prior != NO_JOB && exists i :: 0 <= i < |rows| && rows[i] !in OldRows(prior) then {AddsEntries(name)} else {})
  }

  function RunnerReasons(p: Patterns, name: string, job: Job, prior: Job): set<Reason> {
    var previous := Labels(p, prior.runsOn, OldRows(prior));
    set label_ | label_ in Labels(p, job.runsOn, RowsOf(job)) && RateOf(p, label_).costly && label_ !in previous ::
      AddsRunner(name, label_)
  }

  function LeftOver(job: Job, prior: Job): seq<string> {
    Unmatched(multiset(Commands(prior.steps)), Commands(job.steps))
  }

  function CommandReasons(p: Patterns, name: string, leftOver: seq<string>): set<Reason> {
    set command | command in leftOver && p.long(command) :: LongCommandAdded(name, command)
  }

  function ReusableReasons(name: string, job: Job, prior: Job): set<Reason> {
    if Truthy(job.uses) && job.uses != prior.uses then {ReusableChanged(name)} else {}
  }

  function JobReasons(p: Patterns, name: string, job: Job, prior: Job): set<Reason> {
    RowReasons(name, RowsOf(job), prior)
    + RunnerReasons(p, name, job, prior)
    + ReusableReasons(name, job, prior)
    + ConcurrencyReasons(OfJob(name), prior.concurrency, job.concurrency)
    + TimeoutReasons(OfJob(name), job.timeout, prior.timeout)
    + StepReasons(name, job, prior)
    + CommandReasons(p, name, LeftOver(job, prior))
  }

  /** The planned minutes of the long commands that were added to a job. */
  function AddedMinutes(p: Patterns, job: Job, prior: Job): real {
    LongMinutes(p, LeftOver(job, prior)) * RowsWeight(p, job.runsOn, RowsOf(job))
  }

  function AllJobReasons(p: Patterns, jobs: seq<NamedJob>, oldJobs: seq<NamedJob>): set<Reason> {
    if jobs == [] then {}
    else
      var last := jobs[|jobs| - 1];
      AllJobReasons(p, jobs[..|jobs| - 1], oldJobs) + JobReasons(p, last.name, last.job, Lookup(oldJobs, last.name))
  }

  function AllAddedMinutes(p: Patterns, jobs: seq<NamedJob>, oldJobs: seq<NamedJob>): real {
    if jobs == [] then 0.0
    else
      var last := jobs[|jobs| - 1];
      AllAddedMinutes(p, jobs[..|jobs| - 1], oldJobs) + AddedMinutes(p, last.job, Lookup(oldJobs, last.name))
  }

  /* ---- when the comparison completes ---- */

  predicate JobCompares(p: Patterns, job: Job, prior: Job) {
    && JobResolves(p, job)
    && (prior != NO_JOB ==> JobResolves(p, prior))
    && TimeoutsCompare(job.timeout, prior.timeout)
    && forall i :: 0 <= i < |job.steps| ==> TimeoutsCompare(job.steps[i].timeout, OldStep(prior, i).timeout)
  }

  predicate JobsCompare(p: Patterns, jobs: seq<NamedJob>, oldJobs: seq<NamedJob>) {
    forall i :: 0 <= i < |jobs| ==> JobCompares(p, jobs[i].job, Lookup(oldJobs, jobs[i].name))
  }

  /** Neither version makes the code raise one of its handled errors. */
  ghost predicate Resolves(p: Patterns, before: Version, after: Version, window: seq<CronSchedule.Day>) {
    after.Absent? ||
    (!before.Malformed? && !after.Malformed? &&
     var a, b := Body(before), Body(after);
     var prior, next := Triggers(a), Triggers(b);
     && prior.Some? && next.Some? && PushReadable(prior.value) && PushReadable(next.value)
     && JobsCompare(p, b.jobs, a.jobs)
     && WorkflowResolves(p, a)
     && ScheduleRuns(prior.value, window).Some? && ScheduleRuns(next.value, window).Some?)
  }

  /* ---- the analysis ---- */

  function ReasonsOf(p: Patterns, before: Version, a: Workflow, b: Workflow, prior: Events, next: Events): set<Reason> {
    (if before.File? then {} else {NewWorkflowFile})
    + EventReasons(prior, next)
    + ConcurrencyReasons(WholeWorkflow, a.concurrency, b.concurrency)
    + AllJobReasons(p, b.jobs, a.jobs)
  }

  function Spent(minutes: real, times: nat): real {
    minutes * times as real
  }

  /** The cost side: `reasoned` says whether the list of reasons is not empty. */
  function AddedPerPush(beforePr: real, afterPr: real, stepAdded: real, fanout: nat, reasoned: bool): real {
    var added := Max(0.0, Max(afterPr - beforePr, stepAdded * fanout as real));
    if reasoned && fanout > 0 && added == 0.0 then Max(0.1, afterPr * 0.1) else added
  }

  ghost function AnalysisOf(p: Patterns, before: Version, after: Version, window: seq<CronSchedule.Day>): Analysis
    requires Resolves(p, before, after, window)
  {
    if after.Absent? then Analysis({}, 0.0, 0.0)
    else
      var a, b := Body(before), Body(after);
      var prior, next := Triggers(a).value, Triggers(b).value;
      var reasons := ReasonsOf(p, before, a, b, prior, next);
      var perPush := AddedPerPush(Spent(TotalMinutes(p, a), Fanout(prior)), Spent(TotalMinutes(p, b), Fanout(next)),
                                  AllAddedMinutes(p, b.jobs, a.jobs), Fanout(next), reasons != {});
      var fixed := Max(0.0, Spent(TotalMinutes(p, b), ScheduleRuns(next, window).value)
                            - Spent(TotalMinutes(p, a), ScheduleRuns(prior, window).value));
      Analysis(reasons, perPush, fixed)
  }
}
