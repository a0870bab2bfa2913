/** What an analysis says: exactly what an empty list of reasons means, that standing
    still is no reason, and that a report never falls below what a change adds. */
module CostReporting {
  import opened Common
  import opened MatrixExpansion
  import opened Workflows
  import opened CostAnalysis
  import opened SilentGrowth
  import opened RunnerGuard
  import opened WorkflowMeaning
  import CronSchedule

  /* ---- what an empty list of reasons says ---- */

  /** A filter that was set is the same. */
  predicate FilterKept(was: TriggerConfig, now: TriggerConfig, key: string) {
    was.Settings? && now.Settings? && key in was.fields && Truthy(was.fields[key]) ==>
      key in now.fields && now.fields[key] == was.fields[key]
  }

  /** No guarded event is new, except a push restricted to main; main-only pushes and
      filters that were set stay as they are, and so does a schedule that is kept. */
  ghost predicate EventsKept(was: Events, now: Events) {
    && (forall event ::
          event in now && event in {"push", "schedule", "pull_request_target", "merge_group", "pull_request"} ==>
          event in was || (event == "push" && PushesMainOnly(now[event])))
    && ("push" in was && "push" in now && PushesMainOnly(was["push"]) ==> PushesMainOnly(now["push"]))
    && (forall event, key ::
          event in was && event in now && key in {"paths", "paths-ignore", "branches", "branches-ignore"} ==>
          FilterKept(was[event], now[event], key))
    && ("schedule" in was && "schedule" in now ==> now["schedule"] == was["schedule"])
  }

  /** A `concurrency` mapping that cancels runs in progress. */
  predicate Cancels(v: Value) {
    v.Obj? && "cancel-in-progress" in v.fields && Truthy(v.fields["cancel-in-progress"])
  }

  predicate ConcurrencyKept(before: Value, after: Value) {
    Truthy(before) ==> Truthy(after) && (Cancels(before) ==> Cancels(after))
  }

  /** A number that is small or not larger than before. */
  predicate TimeoutKept(newer: Timeout, older: Timeout) {
    newer.Minutes? && (newer.minutes <= 10.0 || (older.Minutes? && newer.minutes <= older.minutes))
  }

  /** An empty job had no rows. */
  predicate RowsKept(job: Job, prior: Job) {
    if prior == NO_JOB then RowsOf(job) == []
    else |RowsOf(job)| <= |RowsOf(prior)| && forall row :: row in RowsOf(job) ==> row in RowsOf(prior)
  }

  /** A row of the old job ran on this label. */
  ghost predicate RanOn(p: Patterns, prior: Job, label_: string) {
    prior != NO_JOB && exists row :: row in RowsOf(prior) && p.expand(prior.runsOn, row) == label_
  }

  /** Every row runs at weight one or on a label of the old job. */
  ghost predicate RunnersKept(p: Patterns, job: Job, prior: Job) {
    forall row :: row in RowsOf(job) ==>
      RateOf(p, p.expand(job.runsOn, row)).weight == 1.0 || RanOn(p, prior, p.expand(job.runsOn, row))
  }

  /** The timeout of the step at the same place, or none. */
  function StepTimeout(prior: Job, i: nat): Timeout {
    if i < |prior.steps| then prior.steps[i].timeout else Minutes(0.0)
  }

  predicate StepsKept(job: Job, prior: Job) {
    forall i :: 0 <= i < |job.steps| ==> TimeoutKept(job.steps[i].timeout, StepTimeout(prior, i))
  }

  /** No long command occurs more often than before. */
  ghost predicate CommandsKept(p: Patterns, job: Job, prior: Job) {
    forall c :: p.long(c) ==> multiset(Commands(job.steps))[c] <= multiset(Commands(prior.steps))[c]
  }

  ghost predicate JobKept(p: Patterns, job: Job, prior: Job) {
    && RowsKept(job, prior)
    && RunnersKept(p, job, prior)
    && (Truthy(job.uses) ==> job.uses == prior.uses)
    && ConcurrencyKept(prior.concurrency, job.concurrency)
    && TimeoutKept(job.timeout, prior.timeout)
    && StepsKept(job, prior)
    && CommandsKept(p, job, prior)
  }

  lemma FilterLostExactly(was: Events, now: Events, event: string, key: string)
    requires event in was && event in now
    ensures FilterLost(was, now, event, key) <==> !FilterKept(was[event], now[event], key)
  {
  }

  lemma FilterKeys(key: string)
    ensures key in FILTER_KEYS <==> key in {"paths", "paths-ignore", "branches", "branches-ignore"}
  {
  }

  lemma FilterChangedExactly(was: Events, now: Events, event: string, key: string)
    ensures FilterChanged(event, key) in FilterReasons(was, now) <==>
            event in was && event in now && key in {"paths", "paths-ignore", "branches", "branches-ignore"} &&
            !FilterKept(was[event], now[event], key)
  {
    FilterKeys(key);
    if event in was && event in now {
      FilterLostExactly(was, now, event, key);
      assert event in was.Keys * now.Keys;
    }
    hide FilterLost, FilterKept, FILTER_KEYS;
  }

  lemma FilterReasonsExactly(was: Events, now: Events)
    ensures FilterReasons(was, now) == {} <==>
            forall event, key ::
              event in was && event in now && key in {"paths", "paths-ignore", "branches", "branches-ignore"} ==>
              FilterKept(was[event], now[event], key)
  {
    forall event, key ensures FilterChanged(event, key) in FilterReasons(was, now) <==>
      event in was && event in now && key in {"paths", "paths-ignore", "branches", "branches-ignore"} &&
      !FilterKept(was[event], now[event], key)
    {
      FilterChangedExactly(was, now, event, key);
    }
    assert forall reason :: reason in FilterReasons(was, now) ==> reason.FilterChanged?;
    hide FilterReasons, FilterKept;
    if FilterReasons(was, now) != {} {
      var reason :| reason in FilterReasons(was, now);
      assert FilterChanged(reason.event, reason.key) in FilterReasons(was, now);
    }
  }

  lemma GuardedEvents(event: string)
    ensures event in GUARDED_EVENTS <==>
            event in {"push", "schedule", "pull_request_target", "merge_group", "pull_request"}
  {
  }

  lemma AddedTriggerExactly(was: Events, now: Events, event: string)
    ensures AddedTrigger(event) in TriggerReasons(was, now) <==>
            event in {"push", "schedule", "pull_request_target", "merge_group", "pull_request"} &&
            event in now && event !in was && !(event == "push" && PushesMainOnly(now[event]))
  {
    GuardedEvents(event);
    TriggerAddedExactly(was, now, event);
    hide TriggerAdded, PushesMainOnly, GUARDED_EVENTS;
  }

  lemma TriggerReasonsExactly(was: Events, now: Events)
    ensures TriggerReasons(was, now) == {} <==>
            forall event ::
              event in now && event in {"push", "schedule", "pull_request_target", "merge_group", "pull_request"} ==>
              event in was || (event == "push" && PushesMainOnly(now[event]))
  {
    forall event ensures AddedTrigger(event) in TriggerReasons(was, now) <==>
      event in {"push", "schedule", "pull_request_target", "merge_group", "pull_request"} &&
      event in now && event !in was && !(event == "push" && PushesMainOnly(now[event]))
    {
      AddedTriggerExactly(was, now, event);
    }
    assert forall reason :: reason in TriggerReasons(was, now) ==> reason.AddedTrigger?;
    hide TriggerReasons, PushesMainOnly;
    if TriggerReasons(was, now) != {} {
      var reason :| reason in TriggerReasons(was, now);
      assert AddedTrigger(reason.event) in TriggerReasons(was, now);
    }
  }

  lemma TriggerAddedExactly(was: Events, now: Events, event: string)
    ensures TriggerAdded(was, now, event) <==>
            event in now && event !in was && !(event == "push" && PushesMainOnly(now[event]))
  {
    if event in now {
      MainOnlyExactly(now[event]);
    }
    hide MainOnly, PushesMainOnly;
  }

  lemma PushOpenedExactly(was: Events, now: Events)
    ensures PushOpened(was, now) <==>
            "push" in was && "push" in now && PushesMainOnly(was["push"]) && !PushesMainOnly(now["push"])
  {
    if "push" in was && "push" in now {
      MainOnlyExactly(was["push"]);
      MainOnlyExactly(now["push"]);
    }
    hide MainOnly, PushesMainOnly;
  }

  lemma EventReasonsExactly(was: Events, now: Events)
    ensures EventReasons(was, now) == {} <==> EventsKept(was, now)
  {
    TriggerReasonsExactly(was, now);
    FilterReasonsExactly(was, now);
    PushOpenedExactly(was, now);
    hide TriggerReasons, FilterReasons, PushOpened, FilterKept, PushesMainOnly;
  }

  lemma SameEvents(events: Events)
    ensures EventsKept(events, events) && EventReasons(events, events) == {}
  {
    EventReasonsExactly(events, events);
    hide EventReasons, PushesMainOnly, Truthy;
  }

  lemma ConcurrencyReasonsExactly(owner: Owner, before: Value, after: Value)
    ensures ConcurrencyReasons(owner, before, after) == {} <==> ConcurrencyKept(before, after)
  {
  }

  lemma TimeoutReasonsExactly(owner: Owner, newer: Timeout, older: Timeout)
    requires TimeoutsCompare(newer, older)
    ensures TimeoutReasons(owner, newer, older) == {} <==> TimeoutKept(newer, older)
  {
  }

  lemma RowReasonsExactly(name: string, job: Job, prior: Job)
    ensures RowReasons(name, RowsOf(job), prior) == {} <==> RowsKept(job, prior)
  {
    hide RowsOf;
    if RowReasons(name, RowsOf(job), prior) == {} {
      SilentRows(name, RowsOf(job), prior);
    } else if RowsKept(job, prior) {
      assert forall i :: 0 <= i < |RowsOf(job)| ==> RowsOf(job)[i] in RowsOf(job);
    }
  }

  /** The labels that count as known are those that an old row ran on. */
  lemma RanOnExactly(p: Patterns, prior: Job, label_: string)
    ensures label_ in Labels(p, prior.runsOn, OldRows(prior)) <==> RanOn(p, prior, label_)
  {
    hide RowsOf, Labels;
    if label_ in Labels(p, prior.runsOn, OldRows(prior)) {
      var row := RowOfLabel(p, prior.runsOn, OldRows(prior), label_);
    }
    if RanOn(p, prior, label_) {
      var row :| row in RowsOf(prior) && p.expand(prior.runsOn, row) == label_;
      LabelOfRow(p, prior.runsOn, RowsOf(prior), row);
    }
  }

  lemma RunnerReasonsExactly(p: Patterns, name: string, job: Job, prior: Job)
    ensures RunnerReasons(p, name, job, prior) == {} <==> RunnersKept(p, job, prior)
  {
    hide RowsOf, OldRows, Labels, RateOf, RanOn;
    var labels, previous := Labels(p, job.runsOn, RowsOf(job)), Labels(p, prior.runsOn, OldRows(prior));
    if RunnerReasons(p, name, job, prior) == {} {
      forall row | row in RowsOf(job)
        ensures RateOf(p, p.expand(job.runsOn, row)).weight == 1.0 || RanOn(p, prior, p.expand(job.runsOn, row))
      {
        var label_ := p.expand(job.runsOn, row);
        LabelOfRow(p, job.runsOn, RowsOf(job), row);
        RateIsCostlyAboveOne(p, label_);
        RanOnExactly(p, prior, label_);
        assert RateOf(p, label_).costly && label_ !in previous ==>
               AddsRunner(name, label_) in RunnerReasons(p, name, job, prior);
      }
    }
    if RunnersKept(p, job, prior) {
      forall label_ | label_ in labels ensures !RateOf(p, label_).costly || label_ in previous {
        var row := RowOfLabel(p, job.runsOn, RowsOf(job), label_);
        RanOnExactly(p, prior, label_);
      }
    }
  }

  lemma StepReasonsExactly(name: string, job: Job, prior: Job)
    requires forall i :: 0 <= i < |job.steps| ==> TimeoutsCompare(job.steps[i].timeout, OldStep(prior, i).timeout)
    ensures StepReasons(name, job, prior) == {} <==> StepsKept(job, prior)
  {
    assert forall i: nat :: OldStep(prior, i).timeout == StepTimeout(prior, i);
    hide TimeoutReasons, TimeoutsCompare, TimeoutKept, OldStep, StepTimeout;
    forall i | 0 <= i < |job.steps|
      ensures TimeoutReasons(OfStep(name, i), job.steps[i].timeout, OldStep(prior, i).timeout) == {} <==>
              TimeoutKept(job.steps[i].timeout, StepTimeout(prior, i))
      ensures TimeoutReasons(OfStep(name, i), job.steps[i].timeout, OldStep(prior, i).timeout) <=
              StepReasons(name, job, prior)
    {
      TimeoutReasonsExactly(OfStep(name, i), job.steps[i].timeout, OldStep(prior, i).timeout);
    }
  }

  lemma CommandReasonsExactly(p: Patterns, name: string, job: Job, prior: Job)
    ensures CommandReasons(p, name, LeftOver(job, prior)) == {} <==> CommandsKept(p, job, prior)
  {
    hide Unmatched, Commands;
    var left := LeftOver(job, prior);
    if CommandReasons(p, name, left) == {} {
      NoLongLeft(p, name, left);
    }
    forall c ensures c in left <==> multiset(Commands(job.steps))[c] > multiset(Commands(prior.steps))[c] {
      AddedCommandCount(Commands(prior.steps), Commands(job.steps), c);
      assert c in left <==> c in multiset(left);
    }
  }

  /** A job gives no reason exactly when all of this is kept. */
  lemma JobReasonsExactly(p: Patterns, name: string, job: Job, prior: Job)
    requires JobCompares(p, job, prior)
    ensures JobReasons(p, name, job, prior) == {} <==> JobKept(p, job, prior)
  {
    hide JobResolves, RowReasons, RunnerReasons, ConcurrencyReasons, TimeoutReasons, TimeoutsCompare, StepReasons,
         CommandReasons, RowsKept, RunnersKept, ConcurrencyKept, TimeoutKept, StepsKept, CommandsKept, LeftOver,
         RowsOf;
    RowReasonsExactly(name, job, prior);
    RunnerReasonsExactly(p, name, job, prior);
    ConcurrencyReasonsExactly(OfJob(name), prior.concurrency, job.concurrency);
    TimeoutReasonsExactly(OfJob(name), job.timeout, prior.timeout);
    StepReasonsExactly(name, job, prior);
    CommandReasonsExactly(p, name, job, prior);
  }

  lemma {:induction false} NoJobReasons(p: Patterns, jobs: seq<NamedJob>, priors: seq<NamedJob>)
    ensures AllJobReasons(p, jobs, priors) == {} <==>
            forall i :: 0 <= i < |jobs| ==> JobReasons(p, jobs[i].name, jobs[i].job, Lookup(priors, jobs[i].name)) == {}
  {
    hide JobReasons, Lookup;
    if jobs != [] {
      var rest := jobs[..|jobs| - 1];
      NoJobReasons(p, rest, priors);
      forall i | 0 <= i < |rest| ensures rest[i] == jobs[i] {}
    }
  }

  /** There was a workflow before, and its triggers, its concurrency and every job of
      the new version are kept. */
  ghost predicate WorkflowKept(p: Patterns, before: Version, after: Version) {
    var a, b := Body(before), Body(after);
    && before.File?
    && Triggers(a).Some? && Triggers(b).Some? && EventsKept(Triggers(a).value, Triggers(b).value)
    && ConcurrencyKept(a.concurrency, b.concurrency)
    && forall i :: 0 <= i < |b.jobs| ==> JobKept(p, b.jobs[i].job, Lookup(a.jobs, b.jobs[i].name))
  }

  /** EXACT MEANING of an empty list of reasons: everything that is guarded is kept. */
  lemma SilentExactly(p: Patterns, before: Version, after: Version, window: seq<CronSchedule.Day>)
    requires Resolves(p, before, after, window) && !after.Absent?
    ensures AnalysisOf(p, before, after, window).reasons == {} <==> WorkflowKept(p, before, after)
  {
    hide JobReasons, JobCompares, JobKept, EventReasons, EventsKept, AllJobReasons, ConcurrencyReasons,
         ConcurrencyKept, WorkflowResolves, ScheduleRuns, TotalMinutes, AllAddedMinutes, Fanout, Triggers;
    var a, b := Body(before), Body(after);
    EventReasonsExactly(Triggers(a).value, Triggers(b).value);
    ConcurrencyReasonsExactly(WholeWorkflow, a.concurrency, b.concurrency);
    NoJobReasons(p, b.jobs, a.jobs);
    forall i | 0 <= i < |b.jobs|
      ensures JobReasons(p, b.jobs[i].name, b.jobs[i].job, Lookup(a.jobs, b.jobs[i].name)) == {} <==>
              JobKept(p, b.jobs[i].job, Lookup(a.jobs, b.jobs[i].name))
    {
      JobReasonsExactly(p, b.jobs[i].name, b.jobs[i].job, Lookup(a.jobs, b.jobs[i].name));
    }
  }

  /* ---- an unchanged workflow ---- */

  predicate NumericTimeouts(job: Job) {
    job.timeout.Minutes? && forall i :: 0 <= i < |job.steps| ==> job.steps[i].timeout.Minutes?
  }

  lemma {:induction false} LookupOwn(jobs: seq<NamedJob>, i: nat)
    requires UniqueNames(jobs) && i < |jobs|
    ensures Lookup(jobs, jobs[i].name) == jobs[i].job
  {
    if i < |jobs| - 1 {
      LookupOwn(jobs[..|jobs| - 1], i);
    }
  }

  lemma EmptyJobHasARow()
    ensures |RowsOf(NO_JOB)| == 1
  {
  }

  lemma SameJobExactly(p: Patterns, job: Job)
    ensures JobKept(p, job, job) <==> job != NO_JOB && NumericTimeouts(job)
  {
    hide RowsOf, RateOf, Truthy, Commands;
    EmptyJobHasARow();
  }

  ghost predicate Unremarkable(w: Workflow) {
    forall i :: 0 <= i < |w.jobs| ==> w.jobs[i].job != NO_JOB && NumericTimeouts(w.jobs[i].job)
  }

  lemma SameWorkflowExactly(p: Patterns, w: Workflow)
    requires Triggers(w).Some?
    ensures WorkflowKept(p, File(w), File(w)) <==> Unremarkable(w)
  {
    SameEvents(Triggers(w).value);
    hide JobKept, NumericTimeouts, Triggers, EventsKept, EventReasons, Lookup;
    forall i | 0 <= i < |w.jobs|
      ensures JobKept(p, w.jobs[i].job, Lookup(w.jobs, w.jobs[i].name)) <==>
              w.jobs[i].job != NO_JOB && NumericTimeouts(w.jobs[i].job)
    {
      LookupOwn(w.jobs, i);
      SameJobExactly(p, w.jobs[i].job);
    }
  }

  /** NO FALSE ALARM. A workflow compared with itself is not reported exactly when it
      has no empty job and no timeout that is not a number. */
  lemma UnchangedExactly(p: Patterns, w: Workflow, window: seq<CronSchedule.Day>)
    requires Resolves(p, File(w), File(w), window)
    ensures AnalysisOf(p, File(w), File(w), window).reasons == {} <==> Unremarkable(w)
  {
    hide WorkflowKept, Unremarkable, Triggers, JobsCompare, WorkflowResolves, ScheduleRuns, ReasonsOf;
    SilentExactly(p, File(w), File(w), window);
    SameWorkflowExactly(p, w);
    hide AnalysisOf;
  }

  const IDLE := Workflow(Named("pull_request"), Null, [NamedJob("t", NO_JOB)])

  /** A workflow whose one job is an empty mapping is flagged although nothing changed. */
  lemma EmptyJobIsFlagged(p: Patterns)
    requires !p.unresolved(p.expand(Str(""), map[]))
    ensures Resolves(p, File(IDLE), File(IDLE), []) && AnalysisOf(p, File(IDLE), File(IDLE), []).reasons != {}
  {
    EmptyJobResolves(p);
    hide JobsCompare, WorkflowResolves, ScheduleRuns, AnalysisOf, Unremarkable;
    UnchangedExactly(p, IDLE, []);
    assert !Unremarkable(IDLE) by { EmptyJobIsRemarkable(); }
  }

  lemma EmptyJobIsRemarkable()
    ensures !Unremarkable(IDLE)
  {
    assert IDLE.jobs[0].job == NO_JOB;
  }

  lemma EmptyJobResolves(p: Patterns)
    requires !p.unresolved(p.expand(Str(""), map[]))
    ensures JobsCompare(p, IDLE.jobs, IDLE.jobs) && WorkflowResolves(p, IDLE)
    ensures ScheduleRuns(Triggers(IDLE).value, []) == Some(0)
  {
    assert RowsOf(NO_JOB) == [map[]] && Variants(NO_JOB.matrix).Some?;
    assert Lookup(IDLE.jobs, "t") == NO_JOB;
    assert CronSchedule.Firings([], []) == Some(0);
  }

  /* ---- a flagged workflow ---- */

  /** The report never falls below the growth of the planned minutes, below the long
      commands that were added, or below the growth of the schedule, counted by the
      triggers that a push to a pull request sets off; a flagged workflow with such a
      trigger is never reported as free. */
  lemma NeverUnderReports(p: Patterns, before: Version, after: Version, window: seq<CronSchedule.Day>)
    requires Resolves(p, before, after, window) && !after.Absent?
    ensures var a, b := Body(before), Body(after);
            var was, now := Triggers(a).value, Triggers(b).value;
            var analysis := AnalysisOf(p, before, after, window);
            && analysis.perPush >= TotalMinutes(p, b) * |Starters(now)| as real
                                   - TotalMinutes(p, a) * |Starters(was)| as real
            && analysis.perPush >= AllAddedMinutes(p, b.jobs, a.jobs) * |Starters(now)| as real
            && analysis.fixed >= TotalMinutes(p, b) * ScheduleRuns(now, window).value as real
                                 - TotalMinutes(p, a) * ScheduleRuns(was, window).value as real
            && (analysis.reasons != {} && Starters(now) != {} ==> analysis.perPush > 0.0)
  {
    hide ReasonsOf, TotalMinutes, AllAddedMinutes, Fanout, ScheduleRuns, Triggers, JobsCompare, WorkflowResolves,
         Starters, Spent, AddedPerPush, Max;
    var a, b := Body(before), Body(after);
    var was, now := Triggers(a).value, Triggers(b).value;
    FanoutCounts(was);
    FanoutCounts(now);
    assert Starters(now) != {} ==> |Starters(now)| > 0;
    SpentIs(TotalMinutes(p, a), Fanout(was));
    SpentIs(TotalMinutes(p, b), Fanout(now));
    SpentIs(TotalMinutes(p, a), ScheduleRuns(was, window).value);
    SpentIs(TotalMinutes(p, b), ScheduleRuns(now, window).value);
    PerPushCovers(Spent(TotalMinutes(p, a), Fanout(was)), Spent(TotalMinutes(p, b), Fanout(now)),
                  AllAddedMinutes(p, b.jobs, a.jobs), Fanout(now), AnalysisOf(p, before, after, window).reasons != {});
    NotBelow(Spent(TotalMinutes(p, b), ScheduleRuns(now, window).value)
             - Spent(TotalMinutes(p, a), ScheduleRuns(was, window).value));
  }

  lemma SpentIs(minutes: real, times: nat)
    ensures Spent(minutes, times) == minutes * times as real
  {
  }

  lemma NotBelow(x: real)
    ensures Max(0.0, x) == if x > 0.0 then x else 0.0
  {
  }

  lemma PerPushCovers(beforePr: real, afterPr: real, stepAdded: real, fanout: nat, reasoned: bool)
    ensures var perPush := AddedPerPush(beforePr, afterPr, stepAdded, fanout, reasoned);
            && perPush >= afterPr - beforePr && perPush >= stepAdded * fanout as real
            && (reasoned && fanout > 0 ==> perPush > 0.0)
  {
  }
}
