/** What an empty list of reasons is worth: when it means that nothing costs more,
    exactly when it does not, and a change that costs more without a reason. */
module SilentGrowth {
  import opened Common
  import opened MatrixExpansion
  import opened Sums
  import opened Workflows
  import opened CostAnalysis
  import CronSchedule

  /* ---- triggers ---- */

  lemma NoTriggerAdded(was: Events, now: Events, event: string)
    requires TriggerReasons(was, now) == {} && event in GUARDED_EVENTS
    ensures !TriggerAdded(was, now, event)
  {
    hide TriggerAdded;
    assert TriggerAdded(was, now, event) ==> AddedTrigger(event) in TriggerReasons(was, now);
  }

  /** No trigger reason: the schedule is the same, and a pull-request push starts
      the workflow no more often. */
  lemma SilentEvents(was: Events, now: Events)
    requires EventReasons(was, now) == {}
    ensures Fanout(now) <= Fanout(was)
    ensures "schedule" in now ==> "schedule" in was && was["schedule"] == now["schedule"]
  {
    assert PushOpened(was, now) ==> PushUnrestricted in EventReasons(was, now);
    assert ScheduleDiffers(was, now) ==> ScheduleChanged in EventReasons(was, now);
    assert TriggerReasons(was, now) == {};
    hide TriggerReasons, FilterReasons, MainOnly;
    NoTriggerAdded(was, now, GUARDED_EVENTS[0]);
    NoTriggerAdded(was, now, GUARDED_EVENTS[1]);
    NoTriggerAdded(was, now, GUARDED_EVENTS[2]);
    NoTriggerAdded(was, now, GUARDED_EVENTS[3]);
    NoTriggerAdded(was, now, GUARDED_EVENTS[4]);
  }

  /* ---- one job ---- */

  /** The rows of the new version weigh no more than those of the old one. */
  predicate NotHeavier(p: Patterns, job: Job, prior: Job) {
    RowsWeight(p, job.runsOn, RowsOf(job)) <= RowsWeight(p, prior.runsOn, RowsOf(prior))
  }

  lemma SilentRows(name: string, rows: seq<Row>, prior: Job)
    requires RowReasons(name, rows, prior) == {}
    ensures |rows| <= |OldRows(prior)|
    ensures forall row :: row in rows ==> row in OldRows(prior)
  {
    hide RowsOf;
    assert |rows| > |OldRows(prior)| ==> CountGrows(name) in RowReasons(name, rows, prior);
    assert prior != NO_JOB && (exists i :: 0 <= i < |rows| && rows[i] !in OldRows(prior)) ==>
             AddsEntries(name) in RowReasons(name, rows, prior);
  }

  lemma {:induction false} NoLongMinutes(p: Patterns, commands: seq<string>)
    requires forall c :: c in commands ==> !p.long(c)
    ensures LongMinutes(p, commands) == 0.0
  {
    if commands != [] {
      NoLongMinutes(p, commands[..|commands| - 1]);
    }
  }

  lemma NoLongLeft(p: Patterns, name: string, left: seq<string>)
    requires CommandReasons(p, name, left) == {}
    ensures forall c :: c in left ==> !p.long(c)
  {
    forall c | c in left ensures !p.long(c) {
      assert p.long(c) ==> LongCommandAdded(name, c) in CommandReasons(p, name, left);
    }
  }

  lemma SilentCommands(p: Patterns, name: string, job: Job, prior: Job)
    requires CommandReasons(p, name, LeftOver(job, prior)) == {}
    ensures JobMinutes(p, job) <= JobMinutes(p, prior)
    ensures AddedMinutes(p, job, prior) == 0.0
  {
    hide RowsOf, RowsWeight, Unmatched, CommandReasons;
    NoLongLeft(p, name, LeftOver(job, prior));
    NoLongMinutes(p, LeftOver(job, prior));
    NoLongCommandAdded(p, Commands(prior.steps), Commands(job.steps));
    hide LongMinutes;
  }

  lemma WeightNonnegative(p: Patterns, runsOn: Value, rows: seq<Row>)
    ensures RowsWeight(p, runsOn, rows) >= 0.0
  {
    forall row | row in rows ensures RowWeight(p, runsOn)(row) >= 0.0 {
      RowWeightPositive(p, runsOn, row);
    }
    hide RowWeight;
    SumNonnegative(rows, RowWeight(p, runsOn));
  }

  lemma RowWeightPositive(p: Patterns, runsOn: Value, row: Row)
    ensures RowWeight(p, runsOn)(row) >= 1.0
  {
    assert RowWeight(p, runsOn)(row) == RateOf(p, p.expand(runsOn, row)).weight;
  }

  lemma JobCostIs(p: Patterns, name: string, job: Job)
    ensures JobCost(p)(NamedJob(name, job)) == JobMinutes(p, job) * RowsWeight(p, job.runsOn, RowsOf(job))
  {
    hide JobMinutes, RowsWeight, RowsOf;
  }

  /** A job without reasons whose rows weigh no more costs no more. */
  lemma SilentJob(p: Patterns, name: string, job: Job, prior: Job)
    requires JobReasons(p, name, job, prior) == {}
    requires prior == NO_JOB || NotHeavier(p, job, prior)
    ensures AddedMinutes(p, job, prior) == 0.0
    ensures if prior == NO_JOB then JobCost(p)(NamedJob(name, job)) == 0.0
            else JobCost(p)(NamedJob(name, job)) <= JobCost(p)(NamedJob(name, prior))
  {
    hide RowReasons, CommandReasons, JobReasons, LeftOver, JobMinutes, RowsOf, RowsWeight, AddedMinutes, JobCost;
    NoReasonInParts(p, name, job, prior);
    JobCostIs(p, name, job);
    JobCostIs(p, name, prior);
    SilentCommands(p, name, job, prior);
    SilentRows(name, RowsOf(job), prior);
    WeightNonnegative(p, job.runsOn, RowsOf(job));
    MinutesPositive(p, job);
    if prior == NO_JOB {
      assert RowsOf(job) == [];
      NoRowsNoCost(p, job);
    } else {
      Product(JobMinutes(p, job), JobMinutes(p, prior), RowsWeight(p, job.runsOn, RowsOf(job)),
              RowsWeight(p, prior.runsOn, RowsOf(prior)));
    }
  }

  lemma NoRowsNoCost(p: Patterns, job: Job)
    requires RowsOf(job) == []
    ensures RowsWeight(p, job.runsOn, RowsOf(job)) == 0.0
  {
    hide RowsOf;
  }

  lemma MinutesPositive(p: Patterns, job: Job)
    ensures JobMinutes(p, job) >= DEFAULT_MINUTES
  {
  }

  lemma Product(a: real, b: real, x: real, y: real)
    requires 0.0 <= a <= b && 0.0 <= x <= y
    ensures a * x <= b * y
  {
    assert a * x <= b * x;
    assert b * x <= b * y;
  }

  lemma NoReasonInParts(p: Patterns, name: string, job: Job, prior: Job)
    requires JobReasons(p, name, job, prior) == {}
    ensures RowReasons(name, RowsOf(job), prior) == {}
    ensures CommandReasons(p, name, LeftOver(job, prior)) == {}
  {
    hide RowReasons, CommandReasons, RunnerReasons, StepReasons;
  }

  /** Keeping `runs-on` and having pairwise distinct rows is enough not to be heavier. */
  lemma SameRunnerIsNotHeavier(p: Patterns, name: string, job: Job, prior: Job)
    requires JobReasons(p, name, job, prior) == {}
    requires job.runsOn == prior.runsOn
    requires forall i, j :: 0 <= i < j < |RowsOf(job)| ==> RowsOf(job)[i] != RowsOf(job)[j]
    ensures NotHeavier(p, job, prior)
  {
    NoReasonInParts(p, name, job, prior);
    hide JobReasons, RowReasons, RowWeight, RowsOf, Sum;
    SilentRows(name, RowsOf(job), prior);
    var rows, weight := RowsOf(job), RowWeight(p, job.runsOn);
    forall row ensures weight(row) >= 0.0 { RowWeightPositive(p, job.runsOn, row); }
    if prior == NO_JOB {
      assert rows == [];
      NoRowsNoCost(p, job);
      WeightNonnegative(p, prior.runsOn, RowsOf(prior));
    } else {
      forall row | row in rows ensures multiset(rows)[row] <= multiset(RowsOf(prior))[row] {
        DistinctOnce(rows, row);
      }
      SumDrawnFrom(rows, RowsOf(prior), weight);
    }
  }

  lemma {:induction false} DistinctOnce<T>(s: seq<T>, x: T)
    requires forall i, j :: 0 <= i < j < |s| ==> s[i] != s[j]
    ensures multiset(s)[x] <= 1
  {
    if s != [] {
      var init, last := s[..|s| - 1], s[|s| - 1];
      assert s == init + [last];
      DistinctOnce(init, x);
      assert last !in init;
    }
  }

  /* ---- whole workflows ---- */

  lemma {:induction false} LookupFinds(jobs: seq<NamedJob>, name: string)
    ensures Lookup(jobs, name) != NO_JOB ==> NamedJob(name, Lookup(jobs, name)) in jobs
  {
    if jobs != [] {
      LookupFinds(jobs[..|jobs| - 1], name);
    }
  }

  /** Jobs that each cost nothing or no more than a job of the same name cost no more in
      all, also when the costs of the two lists are measured differently. */
  lemma {:induction false} SumMatched(b: seq<NamedJob>, f: NamedJob -> real, a: seq<NamedJob>, g: NamedJob -> real)
    requires UniqueNames(b)
    requires forall x :: x in a ==> g(x) >= 0.0
    requires forall x :: x in b && f(x) > 0.0 ==>
               exists i :: 0 <= i < |a| && a[i].name == x.name && f(x) <= g(a[i])
    ensures Sum(b, f) <= Sum(a, g)
  {
    if b == [] {
      SumNonnegative(a, g);
    } else {
      var rest, x := b[..|b| - 1], b[|b| - 1];
      if f(x) > 0.0 {
        var i :| 0 <= i < |a| && a[i].name == x.name && f(x) <= g(a[i]);
        var less := a[..i] + a[i + 1..];
        assert a == a[..i] + [a[i]] + a[i + 1..];
        SumWithout(a[..i], a[i], a[i + 1..], g);
        forall y | y in rest && f(y) > 0.0
          ensures exists j :: 0 <= j < |less| && less[j].name == y.name && f(y) <= g(less[j])
        {
          var j :| 0 <= j < |a| && a[j].name == y.name && f(y) <= g(a[j]);
          assert y.name != x.name;
          assert less[if j < i then j else j - 1] == a[j];
        }
        SumMatched(rest, f, less, g);
      } else {
        SumMatched(rest, f, a, g);
      }
    }
  }

  predicate RetainedNotHeavier(p: Patterns, a: Workflow, b: Workflow) {
    forall i :: 0 <= i < |b.jobs| ==>
      Lookup(a.jobs, b.jobs[i].name) == NO_JOB || NotHeavier(p, b.jobs[i].job, Lookup(a.jobs, b.jobs[i].name))
  }

  lemma {:induction false} NoJobReason(p: Patterns, jobs: seq<NamedJob>, priors: seq<NamedJob>, i: nat)
    requires AllJobReasons(p, jobs, priors) == {} && i < |jobs|
    ensures JobReasons(p, jobs[i].name, jobs[i].job, Lookup(priors, jobs[i].name)) == {}
  {
    hide JobReasons;
    if i < |jobs| - 1 {
      NoJobReason(p, jobs[..|jobs| - 1], priors, i);
    }
  }

  lemma {:induction false} NothingAdded(p: Patterns, jobs: seq<NamedJob>, priors: seq<NamedJob>)
    requires forall i :: 0 <= i < |jobs| ==> AddedMinutes(p, jobs[i].job, Lookup(priors, jobs[i].name)) == 0.0
    ensures AllAddedMinutes(p, jobs, priors) == 0.0
  {
    hide AddedMinutes;
    if jobs != [] {
      NothingAdded(p, jobs[..|jobs| - 1], priors);
    }
  }

  lemma JobCostNonnegative(p: Patterns, named: NamedJob)
    ensures JobCost(p)(named) >= 0.0
  {
    WeightNonnegative(p, named.job.runsOn, RowsOf(named.job));
    MinutesPositive(p, named.job);
  }

  lemma SilentTotals(p: Patterns, a: Workflow, b: Workflow)
    requires AllJobReasons(p, b.jobs, a.jobs) == {} && RetainedNotHeavier(p, a, b)
    ensures AllAddedMinutes(p, b.jobs, a.jobs) == 0.0
    ensures 0.0 <= TotalMinutes(p, b) <= TotalMinutes(p, a)
  {
    hide JobReasons, AddedMinutes, NotHeavier, JobCost;
    forall i | 0 <= i < |b.jobs|
      ensures AddedMinutes(p, b.jobs[i].job, Lookup(a.jobs, b.jobs[i].name)) == 0.0
      ensures JobCost(p)(b.jobs[i]) > 0.0 ==>
                exists j :: 0 <= j < |a.jobs| && a.jobs[j].name == b.jobs[i].name &&
                  JobCost(p)(b.jobs[i]) <= JobCost(p)(a.jobs[j])
    {
      var named, prior := b.jobs[i], Lookup(a.jobs, b.jobs[i].name);
      NoJobReason(p, b.jobs, a.jobs, i);
      SilentJob(p, named.name, named.job, prior);
      LookupFinds(a.jobs, named.name);
      assert named == NamedJob(named.name, named.job);
    }
    NothingAdded(p, b.jobs, a.jobs);
    forall x: NamedJob ensures JobCost(p)(x) >= 0.0 { JobCostNonnegative(p, x); }
    SumMatched(b.jobs, JobCost(p), a.jobs, JobCost(p));
    SumNonnegative(b.jobs, JobCost(p));
  }

  lemma SilentSchedule(was: Events, now: Events, window: seq<CronSchedule.Day>)
    requires "schedule" in now ==> "schedule" in was && was["schedule"] == now["schedule"]
    requires ScheduleRuns(was, window).Some? && ScheduleRuns(now, window).Some?
    ensures ScheduleRuns(now, window).value <= ScheduleRuns(was, window).value
  {
    hide CronSchedule.EntryFirings;
    if "schedule" !in now {
      assert ScheduleRuns(now, window) == CronSchedule.Firings([], window) == Some(0);
    }
  }

  /** NO SILENT GROWTH. When the comparison of two versions gives no reason and no
      retained job got heavier rows, the fan-out, the weighted minutes and the
      schedule do not grow and both reported additions are zero. */
  lemma NoSilentGrowth(p: Patterns, before: Version, after: Version, window: seq<CronSchedule.Day>)
    requires Resolves(p, before, after, window) && !after.Absent?
    requires AnalysisOf(p, before, after, window).reasons == {}
    requires RetainedNotHeavier(p, Body(before), Body(after))
    ensures before.File?
    ensures var a, b := Body(before), Body(after);
            var was, now := Triggers(a).value, Triggers(b).value;
            && Fanout(now) <= Fanout(was)
            && TotalMinutes(p, b) <= TotalMinutes(p, a)
            && ScheduleRuns(now, window).value <= ScheduleRuns(was, window).value
    ensures AnalysisOf(p, before, after, window).perPush == 0.0
    ensures AnalysisOf(p, before, after, window).fixed == 0.0
  {
    hide EventReasons, AllJobReasons, ReasonsOf, ScheduleRuns, TotalMinutes, Fanout, Triggers, JobsCompare,
         WorkflowResolves, RetainedNotHeavier, AllAddedMinutes;
    var a, b := Body(before), Body(after);
    var was, now := Triggers(a).value, Triggers(b).value;
    NoReasonAtAll(p, before, a, b, was, now);
    SilentEvents(was, now);
    SilentTotals(p, a, b);
    SilentSchedule(was, now, window);
    SilentCosts(TotalMinutes(p, a), TotalMinutes(p, b), Fanout(was), Fanout(now));
    SilentCosts(TotalMinutes(p, a), TotalMinutes(p, b), ScheduleRuns(was, window).value,
                ScheduleRuns(now, window).value);
  }

  lemma SilentCosts(was: real, now: real, timesWas: nat, timesNow: nat)
    requires 0.0 <= now <= was && timesNow <= timesWas
    ensures Spent(now, timesNow) <= Spent(was, timesWas)
    ensures AddedPerPush(Spent(was, timesWas), Spent(now, timesNow), 0.0, timesNow, false) == 0.0
  {
    Product(now, was, timesNow as real, timesWas as real);
  }

  lemma NoReasonAtAll(p: Patterns, before: Version, a: Workflow, b: Workflow, was: Events, now: Events)
    requires ReasonsOf(p, before, a, b, was, now) == {}
    ensures before.File? && EventReasons(was, now) == {} && AllJobReasons(p, b.jobs, a.jobs) == {}
  {
    hide EventReasons, AllJobReasons;
    assert !before.File? ==> NewWorkflowFile in ReasonsOf(p, before, a, b, was, now);
  }

  /* ---- exactly when a reason-free change costs more ---- */

  /** All jobs keep their names and commands, and all but one keep rows and runner. */
  ghost predicate OneJobEdited(a: Workflow, b: Workflow, k: nat) {
    && b.on == a.on && |b.jobs| == |a.jobs| && k < |a.jobs|
    && (forall i :: 0 <= i < |a.jobs| ==>
          b.jobs[i].name == a.jobs[i].name && Commands(b.jobs[i].job.steps) == Commands(a.jobs[i].job.steps))
    && (forall i :: 0 <= i < |a.jobs| && i != k ==>
          b.jobs[i].job.matrix == a.jobs[i].job.matrix && b.jobs[i].job.runsOn == a.jobs[i].job.runsOn)
  }

  /** Without reasons, an edit of the rows or the runner of one job adds nothing per
      push exactly when no pull-request push starts the workflow or the rows of the job
      weigh no more than before, and likewise for the schedule. */
  lemma SilentEditExactly(p: Patterns, before: Version, after: Version, window: seq<CronSchedule.Day>, k: nat)
    requires Resolves(p, before, after, window) && !after.Absent?
    requires AnalysisOf(p, before, after, window).reasons == {}
    requires OneJobEdited(Body(before), Body(after), k)
    ensures AnalysisOf(p, before, after, window).perPush == 0.0 <==>
            Fanout(Triggers(Body(before)).value) == 0 ||
            NotHeavier(p, Body(after).jobs[k].job, Body(before).jobs[k].job)
    ensures AnalysisOf(p, before, after, window).fixed == 0.0 <==>
            ScheduleRuns(Triggers(Body(before)).value, window).value == 0 ||
            NotHeavier(p, Body(after).jobs[k].job, Body(before).jobs[k].job)
  {
    hide EventReasons, AllJobReasons, ReasonsOf, ScheduleRuns, TotalMinutes, Fanout, Triggers, JobsCompare,
         WorkflowResolves, AllAddedMinutes, NotHeavier;
    var a, b := Body(before), Body(after);
    NoReasonAtAll(p, before, a, b, Triggers(a).value, Triggers(b).value);
    CommandsAddNothing(p, b.jobs, a.jobs);
    assert Triggers(a) == Triggers(b) by { SameTriggers(a, b); }
    EditedTotal(p, a, b, k);
    EditCosts(TotalMinutes(p, a), TotalMinutes(p, b), Fanout(Triggers(a).value));
    EditCosts(TotalMinutes(p, a), TotalMinutes(p, b), ScheduleRuns(Triggers(a).value, window).value);
  }

  lemma EditCosts(was: real, now: real, times: nat)
    ensures AddedPerPush(Spent(was, times), Spent(now, times), 0.0, times, false) == 0.0 <==> times == 0 || now <= was
    ensures Max(0.0, Spent(now, times) - Spent(was, times)) == 0.0 <==> times == 0 || now <= was
  {
    assert Spent(now, times) - Spent(was, times) == (now - was) * times as real;
    SignOfProduct(now - was, times as real);
  }

  lemma SameTriggers(a: Workflow, b: Workflow)
    requires a.on == b.on
    ensures Triggers(a) == Triggers(b)
  {
  }

  lemma SignOfProduct(x: real, f: real)
    requires f >= 0.0
    ensures x * f <= 0.0 <==> f == 0.0 || x <= 0.0
  {
    if f > 0.0 && x > 0.0 { assert x * f > 0.0; }
    if f > 0.0 && x <= 0.0 { assert x * f <= 0.0; }
  }

  lemma CommandsAddNothing(p: Patterns, jobs: seq<NamedJob>, priors: seq<NamedJob>)
    requires AllJobReasons(p, jobs, priors) == {}
    ensures AllAddedMinutes(p, jobs, priors) == 0.0
  {
    forall i | 0 <= i < |jobs| ensures AddedMinutes(p, jobs[i].job, Lookup(priors, jobs[i].name)) == 0.0 {
      hide JobReasons, AddedMinutes, RowReasons, CommandReasons, AllJobReasons, JobMinutes;
      var prior := Lookup(priors, jobs[i].name);
      NoJobReason(p, jobs, priors, i);
      NoReasonInParts(p, jobs[i].name, jobs[i].job, prior);
      SilentCommands(p, jobs[i].name, jobs[i].job, prior);
    }
    NothingAdded(p, jobs, priors);
  }

  /** Only the edited job moves the total. */
  lemma EditedTotal(p: Patterns, a: Workflow, b: Workflow, k: nat)
    requires OneJobEdited(a, b, k)
    ensures TotalMinutes(p, b) <= TotalMinutes(p, a) <==> NotHeavier(p, b.jobs[k].job, a.jobs[k].job)
  {
    hide JobMinutes, RowsWeight, RowsOf, Commands, JobCost, Sum;
    var x, y := a.jobs[k], b.jobs[k];
    forall i | 0 <= i < |a.jobs| && i != k ensures JobCost(p)(a.jobs[i]) == JobCost(p)(b.jobs[i]) {
      SameCost(p, a.jobs[i], b.jobs[i]);
    }
    SumEdited(a.jobs, b.jobs, k, JobCost(p));
    JobCostIs(p, x.name, x.job);
    JobCostIs(p, y.name, y.job);
    SameCommandsSameMinutes(p, x.job, y.job);
    MinutesPositive(p, x.job);
    var m := JobMinutes(p, x.job);
    var w, v := RowsWeight(p, x.job.runsOn, RowsOf(x.job)), RowsWeight(p, y.job.runsOn, RowsOf(y.job));
    assert m * v - m * w == (v - w) * m;
    SignOfProduct(v - w, m);
  }

  lemma SameCost(p: Patterns, x: NamedJob, y: NamedJob)
    requires x.job.matrix == y.job.matrix && x.job.runsOn == y.job.runsOn
    requires Commands(x.job.steps) == Commands(y.job.steps)
    ensures JobCost(p)(x) == JobCost(p)(y)
  {
    hide JobMinutes, RowsWeight, Commands;
    JobCostIs(p, x.name, x.job);
    JobCostIs(p, y.name, y.job);
    SameCommandsSameMinutes(p, x.job, y.job);
  }

  lemma {:induction false} SumSame(a: seq<NamedJob>, f: NamedJob -> real, b: seq<NamedJob>, g: NamedJob -> real)
    requires |a| == |b| && forall i :: 0 <= i < |a| ==> f(a[i]) == g(b[i])
    ensures Sum(a, f) == Sum(b, g)
  {
    if a != [] {
      SumSame(a[..|a| - 1], f, b[..|b| - 1], g);
    }
  }

  lemma SumEdited(a: seq<NamedJob>, b: seq<NamedJob>, k: nat, cost: NamedJob -> real)
    requires |a| == |b| && k < |a| && forall i :: 0 <= i < |a| && i != k ==> cost(a[i]) == cost(b[i])
    ensures Sum(b, cost) - Sum(a, cost) == cost(b[k]) - cost(a[k])
  {
    hide Sum;
    assert a == a[..k] + [a[k]] + a[k + 1..];
    assert b == b[..k] + [b[k]] + b[k + 1..];
    SumWithout(a[..k], a[k], a[k + 1..], cost);
    SumWithout(b[..k], b[k], b[k + 1..], cost);
    var rest, others := a[..k] + a[k + 1..], b[..k] + b[k + 1..];
    forall i | 0 <= i < |rest| ensures cost(rest[i]) == cost(others[i]) {
      var j := if i < k then i else i + 1;
      assert rest[i] == a[j] && others[i] == b[j];
    }
    SumSame(rest, cost, others, cost);
  }

  lemma SameCommandsSameMinutes(p: Patterns, a: Job, b: Job)
    requires Commands(a.steps) == Commands(b.steps)
    ensures JobMinutes(p, a) == JobMinutes(p, b)
  {
  }
}
