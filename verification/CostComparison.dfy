/** The loops of `analyze`, proved against the specification of module CostAnalysis. */
module CostComparison {
  import opened Common
  import opened Workflows
  import opened CostAnalysis
  import CronSchedule

  /* ---- step matching ---- */

  /** `commands.remove(command)`: without its first occurrence. */
  function Remove(commands: seq<string>, command: string): (rest: seq<string>)
    requires command in commands
    ensures multiset(rest) == multiset(commands) - multiset{command}
  {
    assert commands == [commands[0]] + commands[1..];
    if commands[0] == command then commands[1..] else [commands[0]] + Remove(commands[1..], command)
  }

  /** The greedy loop over the new steps: what is left is what the specification leaves over. */
  method MatchCommands(previous: seq<string>, current: seq<string>) returns (left: seq<string>)
    ensures left == Unmatched(multiset(previous), current)
  {
    var commands := previous;
    left := [];
    assert current[0..] == current;
    for i := 0 to |current|
      invariant Unmatched(multiset(previous), current) == left + Unmatched(multiset(commands), current[i..])
    {
      assert current[i..][0] == current[i] && current[i..][1..] == current[i + 1..];
      if current[i] in commands {
        commands := Remove(commands, current[i]);
      } else {
        left := left + [current[i]];
      }
    }
  }

  /* ---- one job ---- */

  function RunnerReason(p: Patterns, name: string, label_: string, previous: set<string>): set<Reason> {
    if RateOf(p, label_).costly && label_ !in previous then {AddsRunner(name, label_)} else {}
  }

  method RunnerLoop(p: Patterns, name: string, job: Job, prior: Job) returns (reasons: set<Reason>)
    ensures reasons == RunnerReasons(p, name, job, prior)
  {
    hide RateOf, RowsOf, OldRows;
    var oldLabels := Labels(p, prior.runsOn, OldRows(prior));
    var previous := set l | l in oldLabels;
    var labels := Labels(p, job.runsOn, RowsOf(job));
    reasons := {};
    for i := 0 to |labels|
      invariant reasons == set l | l in labels[..i] && RateOf(p, l).costly && l !in previous :: AddsRunner(name, l)
    {
      assert labels[..i + 1] == labels[..i] + [labels[i]];
      reasons := reasons + RunnerReason(p, name, labels[i], previous);
    }
    assert labels[..|labels|] == labels;
  }

  method StepLoop(name: string, job: Job, prior: Job) returns (reasons: set<Reason>)
    ensures reasons == StepReasons(name, job, prior)
  {
    hide TimeoutReasons;
    reasons := {};
    for i := 0 to |job.steps|
      invariant reasons == set k, reason | 0 <= k < i &&
        reason in TimeoutReasons(OfStep(name, k), job.steps[k].timeout, OldStep(prior, k).timeout) :: reason
    {
      reasons := reasons + TimeoutReasons(OfStep(name, i), job.steps[i].timeout, OldStep(prior, i).timeout);
    }
  }

  method CommandLoop(p: Patterns, name: string, job: Job, prior: Job) returns (reasons: set<Reason>, added: real)
    ensures reasons == CommandReasons(p, name, LeftOver(job, prior))
    ensures added == AddedMinutes(p, job, prior)
  {
    hide RowsOf, RowsWeight, Unmatched;
    var left := MatchCommands(Commands(prior.steps), Commands(job.steps));
    var weight := RowsWeight(p, job.runsOn, RowsOf(job));
    reasons, added := {}, 0.0;
    for i := 0 to |left|
      invariant reasons == set c | c in left[..i] && p.long(c) :: LongCommandAdded(name, c)
      invariant added == LongMinutes(p, left[..i]) * weight
    {
      assert left[..i + 1] == left[..i] + [left[i]];
      LongStep(p, left, i);
      if p.long(left[i]) {
        reasons := reasons + {LongCommandAdded(name, left[i])};
        added := added + LONG_MINUTES * weight;
      }
      hide LongMinutes;
    }
    assert left[..|left|] == left;
  }

  lemma LongStep(p: Patterns, commands: seq<string>, i: nat)
    requires i < |commands|
    ensures LongMinutes(p, commands[..i + 1]) ==
            LongMinutes(p, commands[..i]) + if p.long(commands[i]) then LONG_MINUTES else 0.0
  {
    assert commands[..i + 1][..i] == commands[..i];
  }

  /** The body of the loop over the jobs of the new version. */
  method CompareJob(p: Patterns, name: string, job: Job, prior: Job) returns (reasons: set<Reason>, added: real)
    requires JobCompares(p, job, prior)
    ensures reasons == JobReasons(p, name, job, prior)
    ensures added == AddedMinutes(p, job, prior)
  {
    hide RunnerReasons, StepReasons, CommandReasons, LeftOver, AddedMinutes, JobCompares, RowsOf, OldRows,
         TimeoutReasons, ConcurrencyReasons;
    var rows, oldRows := RowsOf(job), OldRows(prior);
    reasons := {};
    if |rows| > |oldRows| {
      reasons := reasons + {CountGrows(name)};
    }
    if prior != NO_JOB && exists i :: 0 <= i < |rows| && rows[i] !in oldRows {
      reasons := reasons + {AddsEntries(name)};
    }
    var runnerReasons := RunnerLoop(p, name, job, prior);
    reasons := reasons + runnerReasons;
    if Truthy(job.uses) && job.uses != prior.uses {
      reasons := reasons + {ReusableChanged(name)};
    }
    reasons := reasons + ConcurrencyReasons(OfJob(name), prior.concurrency, job.concurrency);
    reasons := reasons + TimeoutReasons(OfJob(name), job.timeout, prior.timeout);
    var stepReasons := StepLoop(name, job, prior);
    var commandReasons, minutes := CommandLoop(p, name, job, prior);
    reasons := reasons + stepReasons + commandReasons;
    added := minutes;
  }

  /* ---- triggers ---- */

  method TriggerLoop(prior: Events, next: Events) returns (reasons: set<Reason>)
    ensures reasons == TriggerReasons(prior, next)
  {
    hide TriggerAdded;
    reasons := {};
    for i := 0 to |GUARDED_EVENTS|
      invariant reasons == set event | event in GUARDED_EVENTS[..i] && TriggerAdded(prior, next, event) ::
        AddedTrigger(event)
    {
      assert GUARDED_EVENTS[..i + 1] == GUARDED_EVENTS[..i] + [GUARDED_EVENTS[i]];
      if TriggerAdded(prior, next, GUARDED_EVENTS[i]) {
        reasons := reasons + {AddedTrigger(GUARDED_EVENTS[i])};
      }
    }
    assert GUARDED_EVENTS[..|GUARDED_EVENTS|] == GUARDED_EVENTS;
  }

  method FilterLoop(prior: Events, next: Events) returns (reasons: set<Reason>)
    ensures reasons == FilterReasons(prior, next)
  {
    hide FilterLost;
    reasons := {};
    var todo, done := prior.Keys * next.Keys, {};
    while todo != {}
      invariant todo + done == prior.Keys * next.Keys && todo !! done
      invariant reasons == set event, key |
        event in done && key in FILTER_KEYS && FilterLost(prior, next, event, key) ::
        FilterChanged(event, key)
      decreases todo
    {
      var event :| event in todo;
      var lost := set key | key in FILTER_KEYS && FilterLost(prior, next, event, key) :: FilterChanged(event, key);
      reasons := reasons + lost;
      todo, done := todo - {event}, done + {event};
    }
    assert done == prior.Keys * next.Keys;
  }

  method EventLoop(prior: Events, next: Events) returns (reasons: set<Reason>)
    ensures reasons == EventReasons(prior, next)
  {
    hide TriggerReasons, FilterReasons, PushOpened, ScheduleDiffers;
    reasons := TriggerLoop(prior, next);
    if PushOpened(prior, next) {
      reasons := reasons + {PushUnrestricted};
    }
    var filterReasons := FilterLoop(prior, next);
    reasons := reasons + filterReasons;
    if ScheduleDiffers(prior, next) {
      reasons := reasons + {ScheduleChanged};
    }
  }

  /* ---- all jobs ---- */

  method JobLoop(p: Patterns, jobs: seq<NamedJob>, oldJobs: seq<NamedJob>)
    returns (reasons: set<Reason>, stepAdded: real)
    requires JobsCompare(p, jobs, oldJobs)
    ensures reasons == AllJobReasons(p, jobs, oldJobs)
    ensures stepAdded == AllAddedMinutes(p, jobs, oldJobs)
  {
    hide JobReasons, AddedMinutes, JobCompares;
    reasons, stepAdded := {}, 0.0;
    for i := 0 to |jobs|
      invariant reasons == AllJobReasons(p, jobs[..i], oldJobs)
      invariant stepAdded == AllAddedMinutes(p, jobs[..i], oldJobs)
    {
      assert jobs[..i + 1][..i] == jobs[..i];
      var found, minutes := CompareJob(p, jobs[i].name, jobs[i].job, Lookup(oldJobs, jobs[i].name));
      reasons := reasons + found;
      stepAdded := stepAdded + minutes;
    }
    assert jobs[..|jobs|] == jobs;
  }

  /** `schedule_runs(events)` with the entries it iterates over. */
  method CountRuns(events: Events, window: seq<CronSchedule.Day>) returns (runs: Option<nat>)
    ensures runs == ScheduleRuns(events, window)
  {
    hide CronSchedule.Firings;
    var entries := ScheduleEntries(events);
    if entries.None? { return None; }
    runs := CronSchedule.ScheduleRuns(entries.value, window);
  }

  /** `analyze(before, after)`; None stands for one of the errors that `evaluate` handles. */
  method Analyze(p: Patterns, before: Version, after: Version, window: seq<CronSchedule.Day>)
    returns (result: Option<Analysis>)
    ensures result.Some? <==> Resolves(p, before, after, window)
    ensures result.Some? ==> result.value == AnalysisOf(p, before, after, window)
  {
    hide EventReasons, AllJobReasons, AllAddedMinutes, JobsCompare, WorkflowResolves, TotalMinutes, Fanout,
         ScheduleRuns, ConcurrencyReasons, AddedPerPush, Spent, Max;
    if after.Absent? { return Some(Analysis({}, 0.0, 0.0)); }
    if before.Malformed? || after.Malformed? { return None; }
    var a, b := Body(before), Body(after);
    var reasons: set<Reason> := {};
    if !before.File? {
      reasons := {NewWorkflowFile};
    }
    var prior, next := Triggers(a), Triggers(b);
    if prior.None? || next.None? || !PushReadable(prior.value) || !PushReadable(next.value) { return None; }
    var eventReasons := EventLoop(prior.value, next.value);
    reasons := reasons + eventReasons + ConcurrencyReasons(WholeWorkflow, a.concurrency, b.concurrency);
    if !JobsCompare(p, b.jobs, a.jobs) { return None; }
    var jobReasons, stepAdded := JobLoop(p, b.jobs, a.jobs);
    reasons := reasons + jobReasons;
    assert reasons == ReasonsOf(p, before, a, b, prior.value, next.value);
    if !WorkflowResolves(p, a) { return None; }
    var minutesBefore, minutesAfter := TotalMinutes(p, a), TotalMinutes(p, b);
    var beforePr, afterPr := Spent(minutesBefore, Fanout(prior.value)), Spent(minutesAfter, Fanout(next.value));
    var added := AddedPerPush(beforePr, afterPr, stepAdded, Fanout(next.value), reasons != {});
    var runsAfter := CountRuns(next.value, window);
    var runsBefore := CountRuns(prior.value, window);
    if runsAfter.None? || runsBefore.None? { return None; }
    var fixed := Max(0.0, Spent(minutesAfter, runsAfter.value) - Spent(minutesBefore, runsBefore.value));
    return Some(Analysis(reasons, added, fixed));
  }
}
