/** What the results of the comparison mean: which reasons are reported, what cost is
    reported, and when the comparison raises. */
module CostMeaning {
  import opened Common
  import opened MatrixExpansion
  import opened Workflows
  import opened CostAnalysis
  import opened SilentGrowth
  import opened RunnerGuard
  import opened WorkflowMeaning
  import opened CostReporting
  import CronSchedule

  /* ---- every reason ---- */

  predicate TimeoutIsRaised(newer: Timeout, older: Timeout) {
    newer.Minutes? && newer.minutes > 10.0 && older.Minutes? && newer.minutes > older.minutes
  }

  ghost predicate Occurs(commands: seq<string>, more: seq<string>, c: string) {
    multiset(commands)[c] > multiset(more)[c]
  }

  /** What a reason says about one job and its old version. */
  ghost predicate SaidOfJob(p: Patterns, name: string, job: Job, prior: Job, reason: Reason) {
    match reason
    case CountGrows(n) => n == name && |RowsOf(job)| > (if prior == NO_JOB then 0 else |RowsOf(prior)|)
    case AddsEntries(n) => n == name && prior != NO_JOB && exists row :: row in RowsOf(job) && row !in RowsOf(prior)
    case AddsRunner(n, label_) =>
      n == name && (exists row :: row in RowsOf(job) && p.expand(job.runsOn, row) == label_) &&
      RateOf(p, label_).weight > 1.0 && !RanOn(p, prior, label_)
    case ReusableChanged(n) => n == name && Truthy(job.uses) && job.uses != prior.uses
    case ConcurrencyRemoved(owner) => owner == OfJob(name) && !ConcurrencyKept(prior.concurrency, job.concurrency)
    case DynamicTimeout(owner) =>
      if owner.OfStep? then owner.job == name && owner.index < |job.steps| && job.steps[owner.index].timeout.NotANumber?
      else owner == OfJob(name) && job.timeout.NotANumber?
    case TimeoutRaised(owner) =>
      if owner.OfStep?
      then owner.job == name && owner.index < |job.steps| &&
           TimeoutIsRaised(job.steps[owner.index].timeout, StepTimeout(prior, owner.index))
      else owner == OfJob(name) && TimeoutIsRaised(job.timeout, prior.timeout)
    case LongCommandAdded(n, c) => n == name && p.long(c) && Occurs(Commands(job.steps), Commands(prior.steps), c)
    case _ => false
  }

  /** What a reason says about two versions of a workflow. */
  ghost predicate Said(p: Patterns, before: Version, after: Version, reason: Reason)
    requires Triggers(Body(before)).Some? && Triggers(Body(after)).Some?
  {
    var a, b := Body(before), Body(after);
    var was, now := Triggers(a).value, Triggers(b).value;
    match reason
    case NewWorkflowFile => !before.File?
    case AddedTrigger(event) =>
      event in {"push", "schedule", "pull_request_target", "merge_group", "pull_request"} &&
      event in now && event !in was && !(event == "push" && PushesMainOnly(now[event]))
    case PushUnrestricted =>
      "push" in was && "push" in now && PushesMainOnly(was["push"]) && !PushesMainOnly(now["push"])
    case FilterChanged(event, key) =>
      event in was && event in now && key in {"paths", "paths-ignore", "branches", "branches-ignore"} &&
      !FilterKept(was[event], now[event], key)
    case ScheduleChanged => "schedule" in was && "schedule" in now && was["schedule"] != now["schedule"]
    case _ =>
      (reason == ConcurrencyRemoved(WholeWorkflow) && !ConcurrencyKept(a.concurrency, b.concurrency)) ||
      exists i :: 0 <= i < |b.jobs| &&
        SaidOfJob(p, b.jobs[i].name, b.jobs[i].job, Lookup(a.jobs, b.jobs[i].name), reason)
  }

  lemma RowReasonsSay(name: string, job: Job, prior: Job, reason: Reason)
    ensures reason in RowReasons(name, RowsOf(job), prior) <==>
            (reason == CountGrows(name) && |RowsOf(job)| > (if prior == NO_JOB then 0 else |RowsOf(prior)|)) ||
            (reason == AddsEntries(name) && prior != NO_JOB &&
             exists row :: row in RowsOf(job) && row !in RowsOf(prior))
  {
    hide RowsOf;
    if row :| row in RowsOf(job) && row !in RowsOf(prior) {
      var i :| 0 <= i < |RowsOf(job)| && RowsOf(job)[i] == row;
    }
    assert forall i :: 0 <= i < |RowsOf(job)| ==> RowsOf(job)[i] in RowsOf(job);
  }

  lemma RunnerReasonsSay(p: Patterns, name: string, job: Job, prior: Job, reason: Reason)
    ensures reason in RunnerReasons(p, name, job, prior) <==>
            reason.AddsRunner? && reason.job == name && RateOf(p, reason.runner).weight > 1.0 &&
            !RanOn(p, prior, reason.runner) &&
            exists row :: row in RowsOf(job) && p.expand(job.runsOn, row) == reason.runner
  {
    hide RowsOf, OldRows, Labels, RanOn, RateOf;
    if reason.AddsRunner? {
      var label_ := reason.runner;
      RanOnExactly(p, prior, label_);
      CostlyIsHeavy(p, label_);
      if row :| row in RowsOf(job) && p.expand(job.runsOn, row) == label_ {
        LabelOfRow(p, job.runsOn, RowsOf(job), row);
      }
      if label_ in Labels(p, job.runsOn, RowsOf(job)) {
        var row := RowOfLabel(p, job.runsOn, RowsOf(job), label_);
      }
    }
  }

  lemma CostlyIsHeavy(p: Patterns, label_: string)
    ensures RateOf(p, label_).costly <==> RateOf(p, label_).weight > 1.0
  {
  }

  lemma TimeoutReasonsSay(owner: Owner, newer: Timeout, older: Timeout, reason: Reason)
    ensures reason in TimeoutReasons(owner, newer, older) <==>
            (reason == DynamicTimeout(owner) && newer.NotANumber?) ||
            (reason == TimeoutRaised(owner) && TimeoutIsRaised(newer, older))
  {
  }

  lemma StepReasonsSay(name: string, job: Job, prior: Job, reason: Reason)
    ensures reason in StepReasons(name, job, prior) <==>
            (reason.DynamicTimeout? || reason.TimeoutRaised?) && reason.owner.OfStep? && reason.owner.job == name &&
            reason.owner.index < |job.steps| &&
            if reason.DynamicTimeout? then job.steps[reason.owner.index].timeout.NotANumber?
            else TimeoutIsRaised(job.steps[reason.owner.index].timeout, StepTimeout(prior, reason.owner.index))
  {
    assert forall i: nat :: OldStep(prior, i).timeout == StepTimeout(prior, i);
    forall i | 0 <= i < |job.steps|
      ensures reason in TimeoutReasons(OfStep(name, i), job.steps[i].timeout, OldStep(prior, i).timeout) <==>
              (reason == DynamicTimeout(OfStep(name, i)) && job.steps[i].timeout.NotANumber?) ||
              (reason == TimeoutRaised(OfStep(name, i)) &&
               TimeoutIsRaised(job.steps[i].timeout, StepTimeout(prior, i)))
    {
      TimeoutReasonsSay(OfStep(name, i), job.steps[i].timeout, OldStep(prior, i).timeout, reason);
    }
    hide TimeoutReasons, TimeoutIsRaised, OldStep, StepTimeout;
  }

  lemma CommandReasonsSay(p: Patterns, name: string, job: Job, prior: Job, reason: Reason)
    ensures reason in CommandReasons(p, name, LeftOver(job, prior)) <==>
            reason.LongCommandAdded? && reason.job == name && p.long(reason.command) &&
            Occurs(Commands(job.steps), Commands(prior.steps), reason.command)
  {
    hide Unmatched, Commands;
    if reason.LongCommandAdded? {
      var c, left := reason.command, LeftOver(job, prior);
      AddedCommandCount(Commands(prior.steps), Commands(job.steps), c);
      assert c in left <==> c in multiset(left);
    }
  }

  lemma JobReasonsSay(p: Patterns, name: string, job: Job, prior: Job, reason: Reason)
    ensures reason in JobReasons(p, name, job, prior) <==> SaidOfJob(p, name, job, prior, reason)
  {
    hide RowReasons, RunnerReasons, TimeoutReasons, StepReasons, CommandReasons, TimeoutIsRaised, StepTimeout, Occurs,
         RowsOf, RateOf, RanOn, LeftOver, Commands, Truthy, ConcurrencyLost, ConcurrencyKept;
    RowReasonsSay(name, job, prior, reason);
    RunnerReasonsSay(p, name, job, prior, reason);
    ConcurrencySays(prior.concurrency, job.concurrency);
    TimeoutReasonsSay(OfJob(name), job.timeout, prior.timeout, reason);
    StepReasonsSay(name, job, prior, reason);
    CommandReasonsSay(p, name, job, prior, reason);
  }

  lemma ConcurrencySays(before: Value, after: Value)
    ensures ConcurrencyLost(before, after) <==> !ConcurrencyKept(before, after)
  {
  }

  lemma {:induction false} AllReasonsSay(p: Patterns, jobs: seq<NamedJob>, priors: seq<NamedJob>, reason: Reason)
    ensures reason in AllJobReasons(p, jobs, priors) <==>
            exists i :: 0 <= i < |jobs| && SaidOfJob(p, jobs[i].name, jobs[i].job, Lookup(priors, jobs[i].name), reason)
  {
    hide JobReasons, Lookup, SaidOfJob;
    if jobs != [] {
      var n := |jobs| - 1;
      AllReasonsSay(p, jobs[..n], priors, reason);
      JobReasonsSay(p, jobs[n].name, jobs[n].job, Lookup(priors, jobs[n].name), reason);
      assert forall i :: 0 <= i < n ==> jobs[..n][i] == jobs[i];
    }
  }

  lemma OnlyJobReasons(p: Patterns, jobs: seq<NamedJob>, priors: seq<NamedJob>, reason: Reason)
    requires reason in AllJobReasons(p, jobs, priors)
    ensures !reason.NewWorkflowFile? && !reason.AddedTrigger? && !reason.PushUnrestricted? && !reason.FilterChanged? &&
            !reason.ScheduleChanged? && reason != ConcurrencyRemoved(WholeWorkflow)
  {
    AllReasonsSay(p, jobs, priors, reason);
    hide RowsOf, RateOf, AllJobReasons, Commands, TimeoutIsRaised;
  }

  lemma EventReasonsSay(was: Events, now: Events, reason: Reason)
    ensures reason in EventReasons(was, now) <==>
            match reason
            case AddedTrigger(event) =>
              event in {"push", "schedule", "pull_request_target", "merge_group", "pull_request"} &&
              event in now && event !in was && !(event == "push" && PushesMainOnly(now[event]))
            case PushUnrestricted =>
              "push" in was && "push" in now && PushesMainOnly(was["push"]) && !PushesMainOnly(now["push"])
            case FilterChanged(event, key) =>
              event in was && event in now && key in {"paths", "paths-ignore", "branches", "branches-ignore"} &&
              !FilterKept(was[event], now[event], key)
            case ScheduleChanged => "schedule" in was && "schedule" in now && was["schedule"] != now["schedule"]
            case _ => false
  {
    assert reason in TriggerReasons(was, now) ==> reason.AddedTrigger?;
    assert reason in FilterReasons(was, now) ==> reason.FilterChanged?;
    match reason {
      case AddedTrigger(event) => AddedTriggerExactly(was, now, event);
      case FilterChanged(event, key) => FilterChangedExactly(was, now, event, key);
      case PushUnrestricted => PushOpenedExactly(was, now);
      case _ =>
    }
    hide TriggerReasons, FilterReasons, PushOpened, FilterKept, PushesMainOnly;
  }

  /** EXACT REASONS. A reason is reported exactly when what it says is so. */
  lemma ReasonsSayWhatIsSo(p: Patterns, before: Version, after: Version, window: seq<CronSchedule.Day>, reason: Reason)
    requires Resolves(p, before, after, window) && !after.Absent?
    ensures reason in AnalysisOf(p, before, after, window).reasons <==> Said(p, before, after, reason)
  {
    hide EventReasons, AllJobReasons, WorkflowResolves, JobsCompare, ScheduleRuns, TotalMinutes, AllAddedMinutes,
         Fanout, Triggers, SaidOfJob, FilterKept, PushesMainOnly, ConcurrencyKept, ConcurrencyLost, Lookup;
    var a, b := Body(before), Body(after);
    EventReasonsSay(Triggers(a).value, Triggers(b).value, reason);
    ConcurrencySays(a.concurrency, b.concurrency);
    AllReasonsSay(p, b.jobs, a.jobs, reason);
    if reason in AllJobReasons(p, b.jobs, a.jobs) {
      OnlyJobReasons(p, b.jobs, a.jobs, reason);
    }
  }

  /* ---- the reported cost ---- */

  /** A deleted workflow is compared without reading the old version, and is free. */
  lemma DeletionIsFree(p: Patterns, before: Version, window: seq<CronSchedule.Day>)
    ensures Resolves(p, before, Absent, window)
    ensures AnalysisOf(p, before, Absent, window) == Analysis({}, 0.0, 0.0)
  {
  }

  /** The added minutes of a job: 3.5 for each left-over long command, for every row at its weight. */
  lemma AddedMinutesExactly(p: Patterns, job: Job, prior: Job)
    ensures AddedMinutes(p, job, prior) ==
            3.5 * |LongPositions(p, LeftOver(job, prior))| as real * RowsWeight(p, job.runsOn, RowsOf(job))
  {
    LongMinutesCount(p, LeftOver(job, prior));
    hide LongMinutes, LongPositions, LeftOver, RowsWeight, RowsOf;
  }

  /** They add up over the jobs. */
  lemma AddedMinutesAddUp(p: Patterns, jobs: seq<NamedJob>, named: NamedJob, priors: seq<NamedJob>)
    ensures AllAddedMinutes(p, [], priors) == 0.0
    ensures AllAddedMinutes(p, jobs + [named], priors) ==
            AllAddedMinutes(p, jobs, priors) + AddedMinutes(p, named.job, Lookup(priors, named.name))
  {
    hide AddedMinutes, Lookup;
    assert (jobs + [named])[..|jobs|] == jobs;
  }

  /** EXACT COST. The report per push is the growth of the minutes or the added long
      commands, whichever is more, each counted by the triggers of a push. When neither
      is positive, a flagged workflow with such a trigger still costs a tenth of its
      minutes and at least 0.1. The report by schedule is the growth, if there is any. */
  lemma ReportedExactly(p: Patterns, before: Version, after: Version, window: seq<CronSchedule.Day>)
    requires Resolves(p, before, after, window) && !after.Absent?
    ensures var a, b := Body(before), Body(after);
            var was, now := Triggers(a).value, Triggers(b).value;
            var analysis := AnalysisOf(p, before, after, window);
            var minutes := TotalMinutes(p, b) * |Starters(now)| as real;
            var growth := minutes - TotalMinutes(p, a) * |Starters(was)| as real;
            var steps := AllAddedMinutes(p, b.jobs, a.jobs) * |Starters(now)| as real;
            if growth > 0.0 || steps > 0.0 then analysis.perPush == if growth >= steps then growth else steps
            else if analysis.reasons != {} && Starters(now) != {}
            then analysis.perPush == if minutes >= 1.0 then minutes / 10.0 else 0.1
            else analysis.perPush == 0.0
    ensures var a, b := Body(before), Body(after);
            var was := ScheduleRuns(Triggers(a).value, window).value;
            var now := ScheduleRuns(Triggers(b).value, window).value;
            var growth := TotalMinutes(p, b) * now as real - TotalMinutes(p, a) * was as real;
            AnalysisOf(p, before, after, window).fixed == if growth > 0.0 then growth else 0.0
  {
    hide ReasonsOf, TotalMinutes, AllAddedMinutes, Fanout, ScheduleRuns, Triggers, JobsCompare, WorkflowResolves,
         Starters, Spent, AddedPerPush, Max;
    var a, b := Body(before), Body(after);
    var was, now := Triggers(a).value, Triggers(b).value;
    FanoutCounts(was);
    FanoutCounts(now);
    assert Starters(now) != {} <==> |Starters(now)| > 0;
    var firings, earlier := ScheduleRuns(now, window).value, ScheduleRuns(was, window).value;
    PerPushIs(TotalMinutes(p, a), Fanout(was), TotalMinutes(p, b), AllAddedMinutes(p, b.jobs, a.jobs), Fanout(now),
              AnalysisOf(p, before, after, window).reasons != {});
    FixedIs(TotalMinutes(p, a), earlier, TotalMinutes(p, b), firings);
  }

  lemma FixedIs(was: real, timesWas: nat, now: real, timesNow: nat)
    ensures Max(0.0, Spent(now, timesNow) - Spent(was, timesWas)) ==
            if now * timesNow as real - was * timesWas as real > 0.0
            then now * timesNow as real - was * timesWas as real else 0.0
  {
  }

  lemma PerPushIs(was: real, timesWas: nat, now: real, stepAdded: real, fanout: nat, reasoned: bool)
    ensures var perPush := AddedPerPush(Spent(was, timesWas), Spent(now, fanout), stepAdded, fanout, reasoned);
            var minutes := now * fanout as real;
            var growth, steps := minutes - was * timesWas as real, stepAdded * fanout as real;
            if growth > 0.0 || steps > 0.0 then perPush == if growth >= steps then growth else steps
            else if reasoned && fanout > 0 then perPush == if minutes >= 1.0 then minutes / 10.0 else 0.1
            else perPush == 0.0
  {
  }

  /* ---- when the comparison raises ---- */

  /** The matrix resolves and no row has an open runner expression. */
  predicate RunnersResolve(p: Patterns, job: Job) {
    Variants(job.matrix).Some? &&
    forall row :: row in Variants(job.matrix).value ==> !p.unresolved(p.expand(job.runsOn, row))
  }

  /** A long timeout is only compared with a number. */
  predicate LongTimeoutsCompare(job: Job, prior: Job) {
    && (job.timeout.Minutes? && job.timeout.minutes > 10.0 ==> prior.timeout.Minutes?)
    && forall i :: 0 <= i < |job.steps| && job.steps[i].timeout.Minutes? && job.steps[i].timeout.minutes > 10.0 ==>
         StepTimeout(prior, i).Minutes?
  }

  /** The push of a workflow is a mapping and its schedule a list of cron expressions. */
  ghost predicate EventsReadable(events: Events) {
    && ("push" in events ==> events["push"].Settings?)
    && ("schedule" in events ==>
          events["schedule"] == Settings(map[]) ||
          (events["schedule"].Entries? &&
           forall entry :: entry in events["schedule"].entries ==> CronSchedule.ParseCron(entry).Some?))
  }

  lemma JobComparesExactly(p: Patterns, job: Job, prior: Job)
    ensures JobCompares(p, job, prior) <==>
            RunnersResolve(p, job) && (prior != NO_JOB ==> RunnersResolve(p, prior)) && LongTimeoutsCompare(job, prior)
  {
    JobResolvesExactly(p, job);
    JobResolvesExactly(p, prior);
    assert forall i: nat :: OldStep(prior, i).timeout == StepTimeout(prior, i);
    hide JobResolves, Variants, OldStep, StepTimeout;
  }

  lemma {:induction false} FiringsExist(entries: seq<CronSchedule.Entry>, window: seq<CronSchedule.Day>)
    ensures CronSchedule.Firings(entries, window).Some? <==>
            forall entry :: entry in entries ==> CronSchedule.ParseCron(entry).Some?
  {
    hide CronSchedule.ParseCron;
    var counts := seq(|entries|, i requires 0 <= i < |entries| => CronSchedule.EntryFirings(entries[i], window));
    TotalExists(counts);
    assert forall i :: 0 <= i < |entries| ==> (counts[i].Some? <==> CronSchedule.ParseCron(entries[i]).Some?);
    if forall i :: 0 <= i < |counts| ==> counts[i].Some? {
      forall entry | entry in entries ensures CronSchedule.ParseCron(entry).Some? {
        var i :| 0 <= i < |entries| && entries[i] == entry;
      }
    }
  }

  lemma {:induction false} TotalExists(counts: seq<Option<nat>>)
    ensures CronSchedule.Total(counts).Some? <==> forall i :: 0 <= i < |counts| ==> counts[i].Some?
  {
    if counts != [] {
      var n := |counts| - 1;
      TotalExists(counts[..n]);
      assert forall i :: 0 <= i < n ==> counts[..n][i] == counts[i];
    }
  }

  lemma EventsReadableExactly(events: Events, window: seq<CronSchedule.Day>)
    ensures EventsReadable(events) <==> PushReadable(events) && ScheduleRuns(events, window).Some?
  {
    ReadableExactly(events);
    if ScheduleEntries(events).Some? {
      FiringsExist(ScheduleEntries(events).value, window);
    }
    hide CronSchedule.Firings, CronSchedule.ParseCron;
  }

  /** EXACT FAILURE. A comparison with a new version completes exactly when both versions
      have readable shapes, events and schedules, all runners and matrices resolve, and
      no long timeout is compared with something that is not a number. */
  lemma ResolvesExactly(p: Patterns, before: Version, after: Version, window: seq<CronSchedule.Day>)
    requires !after.Absent?
    ensures var a, b := Body(before), Body(after);
            Resolves(p, before, after, window) <==>
            (!before.Malformed? && !after.Malformed? && !a.on.Unresolvable? && !b.on.Unresolvable? &&
             EventsReadable(Triggers(a).value) && EventsReadable(Triggers(b).value) &&
             (forall i :: 0 <= i < |a.jobs| ==> RunnersResolve(p, a.jobs[i].job)) &&
             (forall i :: 0 <= i < |b.jobs| ==>
                RunnersResolve(p, b.jobs[i].job) && LongTimeoutsCompare(b.jobs[i].job, Lookup(a.jobs, b.jobs[i].name))))
  {
    var a, b := Body(before), Body(after);
    TriggersExactly(a, "");
    TriggersExactly(b, "");
    if Triggers(a).Some? && Triggers(b).Some? {
      EventsReadableExactly(Triggers(a).value, window);
      EventsReadableExactly(Triggers(b).value, window);
    }
    JobsResolve(p, a.jobs, b.jobs);
    hide JobsCompare, RunnersResolve, LongTimeoutsCompare, EventsReadable, PushReadable, ScheduleRuns, Lookup;
  }

  lemma JobsResolve(p: Patterns, olds: seq<NamedJob>, jobs: seq<NamedJob>)
    ensures JobsCompare(p, jobs, olds) && (forall i :: 0 <= i < |olds| ==> JobResolves(p, olds[i].job)) <==>
            (forall i :: 0 <= i < |olds| ==> RunnersResolve(p, olds[i].job)) &&
            (forall i :: 0 <= i < |jobs| ==>
               RunnersResolve(p, jobs[i].job) && LongTimeoutsCompare(jobs[i].job, Lookup(olds, jobs[i].name)))
  {
    hide JobCompares, RunnersResolve, LongTimeoutsCompare, JobResolves, Lookup;
    forall i | 0 <= i < |olds| ensures JobResolves(p, olds[i].job) <==> RunnersResolve(p, olds[i].job) {
      ResolvesIs(p, olds[i].job);
    }
    forall i | 0 <= i < |jobs|
      ensures var prior := Lookup(olds, jobs[i].name);
              && (JobCompares(p, jobs[i].job, prior) <==>
                  RunnersResolve(p, jobs[i].job) && (prior != NO_JOB ==> RunnersResolve(p, prior)) &&
                  LongTimeoutsCompare(jobs[i].job, prior))
              && (prior != NO_JOB ==> exists k :: 0 <= k < |olds| && olds[k].job == prior)
    {
      JobComparesExactly(p, jobs[i].job, Lookup(olds, jobs[i].name));
      LookupFinds(olds, jobs[i].name);
    }
  }

  lemma ResolvesIs(p: Patterns, job: Job)
    ensures JobResolves(p, job) <==> RunnersResolve(p, job)
  {
    JobResolvesExactly(p, job);
  }
}
