/** How much more a workflow can cost without a reported reason, exactly. */
module SilentCost {
  import opened Common
  import opened MatrixExpansion
  import opened Sums
  import opened Workflows
  import opened CostAnalysis
  import opened SilentGrowth
  import opened RunnerGuard
  import opened CostReporting
  import CronSchedule

  type Window = seq<CronSchedule.Day>

  /** The comparison with this version completes and gives no reason. */
  ghost predicate Silent(p: Patterns, a: Workflow, b: Workflow, window: Window) {
    Resolves(p, File(a), File(b), window) && AnalysisOf(p, File(a), File(b), window).reasons == {}
  }

  /** No version without a reason adds to the cost of a push. */
  ghost predicate NeverAddsPerPush(p: Patterns, a: Workflow, window: Window) {
    forall b: Workflow :: Silent(p, a, b, window) ==> AnalysisOf(p, File(a), File(b), window).perPush == 0.0
  }

  /** No version without a reason adds to the cost of the schedule. */
  ghost predicate NeverAddsFixed(p: Patterns, a: Workflow, window: Window) {
    forall b: Workflow :: Silent(p, a, b, window) ==> AnalysisOf(p, File(a), File(b), window).fixed == 0.0
  }

  ghost predicate AllUniform(p: Patterns, a: Workflow) {
    forall i :: 0 <= i < |a.jobs| ==> UniformWeight(p, a.jobs[i].job)
  }

  ghost predicate AllLiteralsRender(p: Patterns, a: Workflow) {
    forall i :: 0 <= i < |a.jobs| ==> LiteralsRender(p, a.jobs[i].job)
  }

  predicate NoEmptyJob(a: Workflow) {
    forall i :: 0 <= i < |a.jobs| ==> a.jobs[i].job != NO_JOB
  }

  /* ---- the peak of a workflow ---- */

  /** The weight of the heaviest row of a job. */
  function TopWeight(p: Patterns, job: Job): real {
    if RowsOf(job) == [] then 0.0
    else RowWeight(p, job.runsOn)(Heaviest(RowsOf(job), RowWeight(p, job.runsOn)))
  }

  /** All rows at the heaviest weight; an empty job costs nothing in a reason-free version. */
  function PeakCost(p: Patterns): NamedJob -> real {
    (named: NamedJob) =>
      if named.job == NO_JOB then 0.0
      else JobMinutes(p, named.job) * Spent(TopWeight(p, named.job), |RowsOf(named.job)|)
  }

  /** The weighted minutes of one run with every row at the heaviest weight of its job. */
  function Peak(p: Patterns, a: Workflow): real {
    Sum(a.jobs, PeakCost(p))
  }

  /** The minutes of one run that a reason-free version can add. */
  function Headroom(p: Patterns, a: Workflow): real {
    Max(0.0, Peak(p, a) - TotalMinutes(p, a))
  }

  lemma PeakCostIs(p: Patterns, name: string, job: Job)
    requires job != NO_JOB
    ensures PeakCost(p)(NamedJob(name, job)) == JobMinutes(p, job) * Spent(TopWeight(p, job), |RowsOf(job)|)
  {
    hide JobMinutes, RowsOf, TopWeight, Spent;
  }

  lemma TopIsTop(p: Patterns, job: Job)
    ensures forall row :: row in RowsOf(job) ==> RowWeight(p, job.runsOn)(row) <= TopWeight(p, job)
    ensures RowsOf(job) != [] ==> TopWeight(p, job) >= 1.0
    ensures TopWeight(p, job) >= 0.0
  {
    hide RowsOf, RowWeight;
    if RowsOf(job) != [] {
      RowWeightPositive(p, job.runsOn, Heaviest(RowsOf(job), RowWeight(p, job.runsOn)));
    }
  }

  lemma SpentNonnegative(w: real, n: nat)
    requires w >= 0.0
    ensures Spent(w, n) >= 0.0
  {
  }

  lemma PeakCostNonnegative(p: Patterns, named: NamedJob)
    ensures PeakCost(p)(named) >= 0.0
  {
    hide RowsOf, TopWeight, JobMinutes, Spent;
    if named.job != NO_JOB {
      PeakCostIs(p, named.name, named.job);
      assert named == NamedJob(named.name, named.job);
      TopIsTop(p, named.job);
      MinutesPositive(p, named.job);
      SpentNonnegative(TopWeight(p, named.job), |RowsOf(named.job)|);
      SilentGrowth.Product(0.0, JobMinutes(p, named.job), 0.0, Spent(TopWeight(p, named.job), |RowsOf(named.job)|));
    }
  }

  /* ---- no reason-free version is above the peak ---- */

  lemma RowsAtMost(p: Patterns, runsOn: Value, rows: seq<Row>, n: nat, w: real)
    requires |rows| <= n && w >= 0.0 && forall row :: row in rows ==> RowWeight(p, runsOn)(row) <= w
    ensures RowsWeight(p, runsOn, rows) <= Spent(w, n)
  {
    hide RowWeight, Sum;
    SumAtMost(rows, RowWeight(p, runsOn), w);
    MoreTimes(|rows|, n, w);
  }

  lemma RowsAt(p: Patterns, runsOn: Value, rows: seq<Row>, w: real)
    requires forall row :: row in rows ==> RowWeight(p, runsOn)(row) == w
    ensures RowsWeight(p, runsOn, rows) == Spent(w, |rows|)
  {
    hide RowWeight, Sum;
    SumAtMost(rows, RowWeight(p, runsOn), w);
    SumAtLeast(rows, RowWeight(p, runsOn), w);
  }

  /** The rows of a reason-free version weigh no more than the old rows at their top. */
  lemma SilentWeight(p: Patterns, name: string, job: Job, prior: Job)
    requires JobReasons(p, name, job, prior) == {} && prior != NO_JOB
    ensures RowsWeight(p, job.runsOn, RowsOf(job)) <= Spent(TopWeight(p, prior), |RowsOf(prior)|)
  {
    NoReasonInParts(p, name, job, prior);
    hide RowsOf, RowReasons, RowWeight, RowsWeight, TopWeight, JobReasons, Spent;
    SilentRows(name, RowsOf(job), prior);
    TopIsTop(p, prior);
    forall row | row in RowsOf(job) ensures RowWeight(p, job.runsOn)(row) <= TopWeight(p, prior) {
      SilentTopWeight(p, name, job, prior, row);
    }
    RowsAtMost(p, job.runsOn, RowsOf(job), |RowsOf(prior)|, TopWeight(p, prior));
  }

  lemma SilentTopWeight(p: Patterns, name: string, job: Job, prior: Job, row: Row)
    requires JobReasons(p, name, job, prior) == {} && prior != NO_JOB && row in RowsOf(job)
    requires RowsOf(prior) != []
    ensures RowWeight(p, job.runsOn)(row) <= TopWeight(p, prior)
  {
    SilentRunners(p, name, job, prior, row);
    hide RowsOf, JobReasons, RateOf, Labels, TopWeight;
    TopIsTop(p, prior);
    var label_ := p.expand(job.runsOn, row);
    if label_ in Labels(p, prior.runsOn, OldRows(prior)) {
      var r := RowOfLabel(p, prior.runsOn, RowsOf(prior), label_);
      assert RowWeight(p, prior.runsOn)(r) == RateOf(p, label_).weight;
    }
  }

  /** A job without reasons costs at most the peak of its old version, and nothing without one. */
  lemma SilentJobPeak(p: Patterns, name: string, job: Job, prior: Job)
    requires JobReasons(p, name, job, prior) == {}
    ensures AddedMinutes(p, job, prior) == 0.0
    ensures JobCost(p)(NamedJob(name, job)) <= PeakCost(p)(NamedJob(name, prior))
  {
    hide JobReasons, RowReasons, CommandReasons, LeftOver, JobMinutes, RowsOf, RowsWeight, AddedMinutes, JobCost,
         TopWeight, Spent;
    if prior == NO_JOB {
      SilentJob(p, name, job, prior);
    } else {
      NoReasonInParts(p, name, job, prior);
      SilentCommands(p, name, job, prior);
      SilentWeight(p, name, job, prior);
      JobCostIs(p, name, job);
      PeakCostIs(p, name, prior);
      MinutesPositive(p, job);
      WeightNonnegative(p, job.runsOn, RowsOf(job));
      SilentGrowth.Product(JobMinutes(p, job), JobMinutes(p, prior), RowsWeight(p, job.runsOn, RowsOf(job)),
              Spent(TopWeight(p, prior), |RowsOf(prior)|));
    }
  }

  lemma SilentTotal(p: Patterns, a: Workflow, b: Workflow)
    requires AllJobReasons(p, b.jobs, a.jobs) == {}
    ensures AllAddedMinutes(p, b.jobs, a.jobs) == 0.0
    ensures 0.0 <= TotalMinutes(p, b) <= Peak(p, a)
  {
    CommandsAddNothing(p, b.jobs, a.jobs);
    hide JobReasons, JobCost, PeakCost, AllAddedMinutes, AllJobReasons;
    forall x | x in b.jobs && JobCost(p)(x) > 0.0
      ensures exists j :: 0 <= j < |a.jobs| && a.jobs[j].name == x.name && JobCost(p)(x) <= PeakCost(p)(a.jobs[j])
    {
      var i :| 0 <= i < |b.jobs| && b.jobs[i] == x;
      SilentJobIsMatched(p, a, b, i);
    }
    forall x: NamedJob ensures PeakCost(p)(x) >= 0.0 && JobCost(p)(x) >= 0.0 {
      PeakCostNonnegative(p, x);
      JobCostNonnegative(p, x);
    }
    SumMatched(b.jobs, JobCost(p), a.jobs, PeakCost(p));
    SumNonnegative(b.jobs, JobCost(p));
  }

  lemma SilentJobIsMatched(p: Patterns, a: Workflow, b: Workflow, i: nat)
    requires AllJobReasons(p, b.jobs, a.jobs) == {} && i < |b.jobs| && JobCost(p)(b.jobs[i]) > 0.0
    ensures exists j :: 0 <= j < |a.jobs| && a.jobs[j].name == b.jobs[i].name &&
              JobCost(p)(b.jobs[i]) <= PeakCost(p)(a.jobs[j])
  {
    var named, prior := b.jobs[i], Lookup(a.jobs, b.jobs[i].name);
    assert PeakCost(p)(NamedJob(named.name, NO_JOB)) == 0.0;
    NoJobReason(p, b.jobs, a.jobs, i);
    hide JobReasons, JobCost, PeakCost, AllJobReasons, AddedMinutes, Lookup;
    SilentJobPeak(p, named.name, named.job, prior);
    assert named == NamedJob(named.name, named.job);
    LookupFinds(a.jobs, named.name);
    var j :| 0 <= j < |a.jobs| && a.jobs[j] == NamedJob(named.name, prior);
  }

  /** BOUND. A version without a reason adds at most the headroom for every push that
      starts the workflow, and for every firing of its schedule. */
  lemma SilentGrowthBound(p: Patterns, a: Workflow, b: Workflow, window: Window)
    requires Silent(p, a, b, window)
    ensures AnalysisOf(p, File(a), File(b), window).perPush <= Spent(Headroom(p, a), Fanout(Triggers(a).value))
    ensures AnalysisOf(p, File(a), File(b), window).fixed <=
            Spent(Headroom(p, a), ScheduleRuns(Triggers(a).value, window).value)
  {
    hide EventReasons, AllJobReasons, ReasonsOf, ScheduleRuns, TotalMinutes, Fanout, Triggers, JobsCompare,
         WorkflowResolves, AllAddedMinutes, Peak, Spent;
    var was, now := Triggers(a).value, Triggers(b).value;
    NoReasonAtAll(p, File(a), a, b, was, now);
    SilentEvents(was, now);
    SilentSchedule(was, now, window);
    SilentTotal(p, a, b);
    GrowthBound(TotalMinutes(p, a), TotalMinutes(p, b), Peak(p, a), Fanout(was), Fanout(now));
    GrowthBound(TotalMinutes(p, a), TotalMinutes(p, b), Peak(p, a), ScheduleRuns(was, window).value,
                ScheduleRuns(now, window).value);
  }

  lemma GrowthBound(was: real, now: real, peak: real, timesWas: nat, timesNow: nat)
    requires 0.0 <= now <= peak && timesNow <= timesWas
    ensures AddedPerPush(Spent(was, timesWas), Spent(now, timesNow), 0.0, timesNow, false) <=
            Spent(Max(0.0, peak - was), timesWas)
    ensures Max(0.0, Spent(now, timesNow) - Spent(was, timesWas)) <= Spent(Max(0.0, peak - was), timesWas)
  {
    var n := timesWas as real;
    SilentGrowth.Product(now, peak, timesNow as real, n);
    assert peak * n - was * n == (peak - was) * n;
    Scaled(peak - was, Max(0.0, peak - was), n);
    Scaled(0.0, Max(0.0, peak - was), n);
  }

  lemma Scaled(x: real, y: real, n: real)
    requires x <= y && n >= 0.0
    ensures x * n <= y * n
  {
  }

  /* ---- the peak is reached ---- */

  /** A version without rows. */
  const NO_ROWS := NO_JOB.(matrix := Matrix([], None, Some([])))

  /** The heaviest version of a job that gives no reason. */
  function Raised(p: Patterns, job: Job): Job {
    if job == NO_JOB then NO_ROWS
    else if RowsOf(job) == [] then MovedOnto(job, "")
    else MovedOnto(job, p.expand(job.runsOn, Heaviest(RowsOf(job), RowWeight(p, job.runsOn))))
  }

  lemma NoRowsIsKept(p: Patterns, name: string)
    ensures RowsOf(NO_ROWS) == [] && Variants(NO_ROWS.matrix) == Some([])
    ensures JobReasons(p, name, NO_ROWS, NO_JOB) == {}
  {
    NoRowsAtAll();
    hide RowsOf, Variants, RateOf;
    assert LeftOver(NO_ROWS, NO_JOB) == [];
    assert RunnerReasons(p, name, NO_ROWS, NO_JOB) == {};
    assert StepReasons(name, NO_ROWS, NO_JOB) == {};
    assert CommandReasons(p, name, []) == {};
  }

  lemma NoRowsAtAll()
    ensures RowsOf(NO_ROWS) == [] && Variants(NO_ROWS.matrix) == Some([])
  {
    assert Names([]) == {} && Kept([], []) == [] && Overlays([], [], {}) == [];
    assert Standalone([], [], {}) == [];
  }

  lemma RaisedIsKept(p: Patterns, name: string, job: Job)
    requires JobResolves(p, job) && LiteralsRender(p, job)
    ensures JobCompares(p, Raised(p, job), job) && JobReasons(p, name, Raised(p, job), job) == {}
  {
    if job == NO_JOB {
      NoRowsIsKept(p, name);
      hide RowsOf, JobReasons, Variants;
    } else if RowsOf(job) == [] {
      SameMatrixSameRows(job, MovedOnto(job, ""));
      hide RowsOf, JobReasons, Variants, LiteralsRender;
      assert Commands(MovedOnto(job, "").steps) == Commands(job.steps);
      KnownRunnersAreNoReason(p, name, MovedOnto(job, ""), job);
    } else {
      hide JobReasons, JobCompares, JobResolves, LiteralsRender, RowsOf, RowWeight, Labels;
      var top := Heaviest(RowsOf(job), RowWeight(p, job.runsOn));
      var label_ := p.expand(job.runsOn, top);
      LabelOfRow(p, job.runsOn, RowsOf(job), top);
      MovedOntoRunsThere(p, job, label_);
      MovedOntoCompares(p, job, top);
      KnownRunnersAreNoReason(p, name, MovedOnto(job, label_), job);
    }
  }

  lemma RaisedRowWeight(p: Patterns, job: Job, row: Row)
    requires job != NO_JOB && LiteralsRender(p, job) && row in RowsOf(job)
    ensures RowWeight(p, Raised(p, job).runsOn)(row) == TopWeight(p, job)
  {
    hide RowsOf, LiteralsRender, Labels, RateOf;
    var top := Heaviest(RowsOf(job), RowWeight(p, job.runsOn));
    var label_ := p.expand(job.runsOn, top);
    LabelOfRow(p, job.runsOn, RowsOf(job), top);
    MovedOntoRunsThere(p, job, label_);
    assert p.expand(Str(label_), row) == label_;
  }

  lemma RaisedWeight(p: Patterns, job: Job)
    requires job != NO_JOB && LiteralsRender(p, job)
    ensures var raised := Raised(p, job);
            RowsWeight(p, raised.runsOn, RowsOf(raised)) == Spent(TopWeight(p, job), |RowsOf(job)|)
    ensures Commands(Raised(p, job).steps) == Commands(job.steps)
  {
    SameMatrixSameRows(job, Raised(p, job));
    assert Commands(Raised(p, job).steps) == Commands(job.steps);
    hide RowsOf, RowsWeight, RowWeight, TopWeight, Raised, LiteralsRender, Spent;
    forall row | row in RowsOf(job) ensures RowWeight(p, Raised(p, job).runsOn)(row) == TopWeight(p, job) {
      RaisedRowWeight(p, job, row);
    }
    RowsAt(p, Raised(p, job).runsOn, RowsOf(job), TopWeight(p, job));
  }

  lemma RaisedCost(p: Patterns, name: string, job: Job)
    requires LiteralsRender(p, job)
    ensures JobCost(p)(NamedJob(name, Raised(p, job))) == PeakCost(p)(NamedJob(name, job))
  {
    JobCostIs(p, name, Raised(p, job));
    if job == NO_JOB {
      NoRowsAtAll();
      hide RowsOf, JobMinutes, JobCost, Spent;
      NoRowsNoCost(p, NO_ROWS);
    } else {
      hide RowsOf, JobMinutes, JobCost, Raised, LiteralsRender, RowsWeight, TopWeight, Commands;
      RaisedWeight(p, job);
      SameCommandsSameMinutes(p, job, Raised(p, job));
      PeakCostIs(p, name, job);
    }
  }

  /** Every job of a workflow in its heaviest version that gives no reason. */
  function RaisedJobs(p: Patterns, jobs: Jobs): (raised: Jobs)
    ensures |raised| == |jobs|
    ensures forall i :: 0 <= i < |jobs| ==> raised[i] == NamedJob(jobs[i].name, Raised(p, jobs[i].job))
  {
    seq(|jobs|, i requires 0 <= i < |jobs| => NamedJob(jobs[i].name, Raised(p, jobs[i].job)))
  }

  function RaisedWorkflow(p: Patterns, a: Workflow): Workflow {
    a.(jobs := RaisedJobs(p, a.jobs))
  }

  lemma RaisedJobsAreKept(p: Patterns, a: Workflow)
    requires WorkflowResolves(p, a) && AllLiteralsRender(p, a)
    ensures JobsCompare(p, RaisedJobs(p, a.jobs), a.jobs)
    ensures AllJobReasons(p, RaisedJobs(p, a.jobs), a.jobs) == {}
  {
    hide JobCompares, JobReasons, Lookup, JobResolves, Raised, AllJobReasons, LiteralsRender;
    var jobs := RaisedJobs(p, a.jobs);
    forall i | 0 <= i < |jobs|
      ensures JobCompares(p, jobs[i].job, Lookup(a.jobs, jobs[i].name))
      ensures JobReasons(p, jobs[i].name, jobs[i].job, Lookup(a.jobs, jobs[i].name)) == {}
    {
      LookupOwn(a.jobs, i);
      RaisedIsKept(p, a.jobs[i].name, a.jobs[i].job);
    }
    NoJobReasons(p, jobs, a.jobs);
  }

  lemma RaisedIsSilent(p: Patterns, a: Workflow, window: Window)
    requires Resolves(p, File(a), File(a), window) && AllLiteralsRender(p, a)
    ensures Silent(p, a, RaisedWorkflow(p, a), window)
  {
    hide JobsCompare, AllJobReasons, WorkflowResolves, EventReasons, ScheduleRuns, Triggers, RaisedJobs, TotalMinutes,
         AllAddedMinutes, Fanout, ConcurrencyLost, AllLiteralsRender;
    RaisedJobsAreKept(p, a);
    SameTriggers(a, RaisedWorkflow(p, a));
    SameEvents(Triggers(a).value);
    SameConcurrency(a.concurrency);
  }

  lemma RaisedTotal(p: Patterns, a: Workflow)
    requires AllLiteralsRender(p, a)
    ensures TotalMinutes(p, RaisedWorkflow(p, a)) == Peak(p, a)
  {
    hide JobCost, PeakCost, Raised, LiteralsRender, Sum;
    var raised := RaisedJobs(p, a.jobs);
    forall i | 0 <= i < |raised| ensures JobCost(p)(raised[i]) == PeakCost(p)(a.jobs[i]) {
      RaisedCost(p, a.jobs[i].name, a.jobs[i].job);
      assert a.jobs[i] == NamedJob(a.jobs[i].name, a.jobs[i].job);
    }
    SumSame(raised, JobCost(p), a.jobs, PeakCost(p));
  }

  /** A reason-free version at the peak with the same triggers adds the whole headroom. */
  lemma GrowthAtPeak(p: Patterns, a: Workflow, b: Workflow, window: Window)
    requires Silent(p, a, b, window) && b.on == a.on && TotalMinutes(p, b) == Peak(p, a)
    ensures AnalysisOf(p, File(a), File(b), window).perPush == Spent(Headroom(p, a), Fanout(Triggers(a).value))
    ensures AnalysisOf(p, File(a), File(b), window).fixed ==
            Spent(Headroom(p, a), ScheduleRuns(Triggers(a).value, window).value)
  {
    hide EventReasons, AllJobReasons, ReasonsOf, ScheduleRuns, TotalMinutes, Fanout, Triggers, JobsCompare,
         WorkflowResolves, AllAddedMinutes, Peak, Spent, AddedPerPush, Max;
    assert Triggers(b) == Triggers(a) by { SameTriggers(a, b); }
    NoReasonAtAll(p, File(a), a, b, Triggers(a).value, Triggers(b).value);
    SilentTotal(p, a, b);
    GrowthReached(TotalMinutes(p, a), Peak(p, a), Fanout(Triggers(a).value));
    GrowthReached(TotalMinutes(p, a), Peak(p, a), ScheduleRuns(Triggers(a).value, window).value);
  }

  /** REACHED. One version without a reason adds the whole headroom for every push that
      starts the workflow and for every firing of its schedule. */
  lemma LargestSilentGrowth(p: Patterns, a: Workflow, window: Window) returns (b: Workflow)
    requires Resolves(p, File(a), File(a), window) && AllLiteralsRender(p, a)
    ensures Silent(p, a, b, window)
    ensures AnalysisOf(p, File(a), File(b), window).perPush == Spent(Headroom(p, a), Fanout(Triggers(a).value))
    ensures AnalysisOf(p, File(a), File(b), window).fixed ==
            Spent(Headroom(p, a), ScheduleRuns(Triggers(a).value, window).value)
  {
    hide JobsCompare, WorkflowResolves, ScheduleRuns, Fanout, Triggers, AnalysisOf, AllLiteralsRender, Headroom, Peak,
         TotalMinutes, Spent, RaisedJobs;
    b := RaisedWorkflow(p, a);
    RaisedIsSilent(p, a, window);
    RaisedTotal(p, a);
    GrowthAtPeak(p, a, b, window);
  }

  lemma GrowthReached(was: real, peak: real, times: nat)
    ensures AddedPerPush(Spent(was, times), Spent(peak, times), 0.0, times, false) == Spent(Max(0.0, peak - was), times)
    ensures Max(0.0, Spent(peak, times) - Spent(was, times)) == Spent(Max(0.0, peak - was), times)
  {
    var n := times as real;
    assert peak * n - was * n == (peak - was) * n;
    if peak >= was {
      Scaled(0.0, peak - was, n);
    } else {
      Scaled(peak - was, 0.0, n);
    }
  }

  /* ---- exactly when nothing can be added ---- */

  lemma NoHeadroom(p: Patterns, a: Workflow, times: nat)
    ensures Spent(Headroom(p, a), times) <= 0.0 <==> times == 0 || Peak(p, a) <= TotalMinutes(p, a)
  {
    hide Peak, TotalMinutes;
    SignOfProduct(Headroom(p, a), times as real);
  }

  /** EXACT GUARD of a workflow. No version without a reason adds to the cost of a push
      exactly when pushes do not start the workflow or its peak is no more than its
      minutes; and likewise for the cost of the schedule. */
  lemma SilentCostExactly(p: Patterns, a: Workflow, window: Window)
    requires Resolves(p, File(a), File(a), window) && AllLiteralsRender(p, a)
    ensures NeverAddsPerPush(p, a, window) <==> Fanout(Triggers(a).value) == 0 || Peak(p, a) <= TotalMinutes(p, a)
    ensures NeverAddsFixed(p, a, window) <==>
            ScheduleRuns(Triggers(a).value, window).value == 0 || Peak(p, a) <= TotalMinutes(p, a)
  {
    hide AnalysisOf, LiteralsRender, Fanout, ScheduleRuns, Triggers, JobsCompare, WorkflowResolves, Peak, TotalMinutes,
         Spent;
    var pushes, firings := Fanout(Triggers(a).value), ScheduleRuns(Triggers(a).value, window).value;
    hide Resolves;
    NoHeadroom(p, a, pushes);
    NoHeadroom(p, a, firings);
    var b := LargestSilentGrowth(p, a, window);
    hide Headroom;
    forall c: Workflow | Silent(p, a, c, window)
      ensures 0.0 <= AnalysisOf(p, File(a), File(c), window).perPush <= Spent(Headroom(p, a), pushes)
      ensures 0.0 <= AnalysisOf(p, File(a), File(c), window).fixed <= Spent(Headroom(p, a), firings)
    {
      SilentGrowthBound(p, a, c, window);
      CostsNonnegative(p, File(a), File(c), window);
    }
  }

  lemma CostsNonnegative(p: Patterns, before: Version, after: Version, window: Window)
    requires Resolves(p, before, after, window)
    ensures AnalysisOf(p, before, after, window).perPush >= 0.0 && AnalysisOf(p, before, after, window).fixed >= 0.0
  {
    hide Resolves, ReasonsOf, TotalMinutes, Fanout, ScheduleRuns, AllAddedMinutes, Spent, Triggers;
  }

  /** A workflow that does not run costs nothing per push, or nothing by schedule. */
  lemma NotRunning(p: Patterns, a: Workflow, b: Workflow, window: Window)
    requires Silent(p, a, b, window)
    ensures Fanout(Triggers(a).value) == 0 ==> AnalysisOf(p, File(a), File(b), window).perPush == 0.0
    ensures ScheduleRuns(Triggers(a).value, window).value == 0 ==> AnalysisOf(p, File(a), File(b), window).fixed == 0.0
  {
    hide AnalysisOf, Fanout, ScheduleRuns, Triggers, JobsCompare, WorkflowResolves, Headroom, Spent;
    SilentGrowthBound(p, a, b, window);
    NothingSpent(Headroom(p, a));
    CostsNonnegative(p, File(a), File(b), window);
  }

  lemma NothingSpent(x: real)
    ensures Spent(x, 0) == 0.0
  {
  }

  /* ---- workflows without empty jobs ---- */

  /** Without empty jobs the peak is more than the minutes exactly when some job runs
      its rows at different weights. */
  lemma PeakIsUniform(p: Patterns, a: Workflow)
    requires NoEmptyJob(a)
    ensures Peak(p, a) <= TotalMinutes(p, a) <==> AllUniform(p, a)
  {
    hide JobCost, PeakCost, UniformWeight, Sum;
    forall i | 0 <= i < |a.jobs|
      ensures JobCost(p)(a.jobs[i]) <= PeakCost(p)(a.jobs[i])
      ensures UniformWeight(p, a.jobs[i].job) <==> JobCost(p)(a.jobs[i]) == PeakCost(p)(a.jobs[i])
    {
      JobIsUniform(p, a.jobs[i].name, a.jobs[i].job);
      assert a.jobs[i] == NamedJob(a.jobs[i].name, a.jobs[i].job);
    }
    SumsAgree(a.jobs, JobCost(p), PeakCost(p));
  }

  lemma {:induction false} SumsAgree<T>(s: seq<T>, f: T -> real, g: T -> real)
    requires forall i :: 0 <= i < |s| ==> f(s[i]) <= g(s[i])
    ensures Sum(s, f) <= Sum(s, g)
    ensures Sum(s, g) <= Sum(s, f) <==> forall i :: 0 <= i < |s| ==> f(s[i]) == g(s[i])
  {
    if s != [] {
      var n := |s| - 1;
      assert forall i :: 0 <= i < n ==> s[..n][i] == s[i];
      SumsAgree(s[..n], f, g);
    }
  }

  lemma JobIsUniform(p: Patterns, name: string, job: Job)
    requires job != NO_JOB
    ensures JobCost(p)(NamedJob(name, job)) <= PeakCost(p)(NamedJob(name, job))
    ensures UniformWeight(p, job) <==> JobCost(p)(NamedJob(name, job)) == PeakCost(p)(NamedJob(name, job))
  {
    hide JobCost, PeakCost, JobMinutes, RowsOf, RowsWeight, UniformWeight, TopWeight, Spent;
    JobCostIs(p, name, job);
    PeakCostIs(p, name, job);
    RowsAreUniform(p, job);
    MinutesPositive(p, job);
    SameFactor(JobMinutes(p, job), RowsWeight(p, job.runsOn, RowsOf(job)), Spent(TopWeight(p, job), |RowsOf(job)|));
  }

  lemma SameFactor(m: real, x: real, y: real)
    requires m >= DEFAULT_MINUTES && x <= y
    ensures m * x <= m * y && (m * x == m * y <==> x == y)
  {
    assert m * y - m * x == (y - x) * m;
    SignOfProduct(y - x, m);
  }

  /** The rows weigh at most as much as at their top, and as much exactly when uniform. */
  lemma RowsAreUniform(p: Patterns, job: Job)
    ensures RowsWeight(p, job.runsOn, RowsOf(job)) <= Spent(TopWeight(p, job), |RowsOf(job)|)
    ensures UniformWeight(p, job) <==>
            RowsWeight(p, job.runsOn, RowsOf(job)) == Spent(TopWeight(p, job), |RowsOf(job)|)
  {
    hide RowsOf, RowWeight, Sum, TopWeight;
    TopIsTop(p, job);
    var f, w := RowWeight(p, job.runsOn), TopWeight(p, job);
    SumAtMost(RowsOf(job), f, w);
    if UniformWeight(p, job) {
      forall row | row in RowsOf(job) ensures f(row) == w { TopIsReached(p, job); }
      RowsAt(p, job.runsOn, RowsOf(job), w);
    } else {
      var r, s :| r in RowsOf(job) && s in RowsOf(job) && f(r) != f(s);
      SumBelow(RowsOf(job), f, w, if f(r) < w then r else s);
    }
  }

  lemma TopIsReached(p: Patterns, job: Job)
    requires RowsOf(job) != []
    ensures exists row :: row in RowsOf(job) && RowWeight(p, job.runsOn)(row) == TopWeight(p, job)
  {
    hide RowsOf, RowWeight;
    var top := Heaviest(RowsOf(job), RowWeight(p, job.runsOn));
    assert top in RowsOf(job);
  }

  /** A workflow with a job of mixed weights has a version that gives no reason and
      costs more wherever the workflow runs. */
  lemma MixedWorkflowCanAdd(p: Patterns, a: Workflow, window: Window) returns (b: Workflow)
    requires Resolves(p, File(a), File(a), window) && NoEmptyJob(a) && AllLiteralsRender(p, a) && !AllUniform(p, a)
    ensures Silent(p, a, b, window)
    ensures Fanout(Triggers(a).value) > 0 ==> AnalysisOf(p, File(a), File(b), window).perPush > 0.0
    ensures ScheduleRuns(Triggers(a).value, window).value > 0 ==> AnalysisOf(p, File(a), File(b), window).fixed > 0.0
  {
    hide AnalysisOf, Fanout, ScheduleRuns, Triggers, JobsCompare, WorkflowResolves, Peak, TotalMinutes, AllUniform,
         NoEmptyJob, AllLiteralsRender, Spent;
    PeakIsUniform(p, a);
    b := LargestSilentGrowth(p, a, window);
    NoHeadroom(p, a, Fanout(Triggers(a).value));
    NoHeadroom(p, a, ScheduleRuns(Triggers(a).value, window).value);
  }

  /** Without empty jobs, uniform weights are the exact guard. */
  lemma UniformCostExactly(p: Patterns, a: Workflow, window: Window)
    requires Resolves(p, File(a), File(a), window) && NoEmptyJob(a) && AllLiteralsRender(p, a)
    ensures NeverAddsPerPush(p, a, window) <==> Fanout(Triggers(a).value) == 0 || AllUniform(p, a)
    ensures NeverAddsFixed(p, a, window) <==> ScheduleRuns(Triggers(a).value, window).value == 0 || AllUniform(p, a)
  {
    SilentCostExactly(p, a, window);
    PeakIsUniform(p, a);
    hide NeverAddsPerPush, NeverAddsFixed, AllUniform, NoEmptyJob, AllLiteralsRender, Peak, TotalMinutes, Fanout,
         ScheduleRuns, Triggers;
  }
}
