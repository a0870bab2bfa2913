/** When the rows of a job decide that no reason-free change can make it heavier. */
module RunnerGuard {
  import opened Common
  import opened MatrixExpansion
  import opened Sums
  import opened Workflows
  import opened CostAnalysis
  import opened SilentGrowth
  import CronSchedule

  /** All rows of a job run at one weight. A job with a single row is of this kind,
      and so is a job that uses ordinary runners only. */
  ghost predicate UniformWeight(p: Patterns, job: Job) {
    forall r, s :: r in RowsOf(job) && s in RowsOf(job) ==> RowWeight(p, job.runsOn)(r) == RowWeight(p, job.runsOn)(s)
  }

  /* ---- uniform rows cannot get heavier without a reason ---- */

  lemma {:induction false} SumAtMost<T>(s: seq<T>, f: T -> real, w: real)
    requires forall x :: x in s ==> f(x) <= w
    ensures Sum(s, f) <= |s| as real * w
  {
    if s != [] {
      SumAtMost(s[..|s| - 1], f, w);
      assert |s| as real * w == (|s| - 1) as real * w + w;
    }
  }

  lemma {:induction false} SumAtLeast<T>(s: seq<T>, f: T -> real, w: real)
    requires forall x :: x in s ==> f(x) >= w
    ensures Sum(s, f) >= |s| as real * w
  {
    if s != [] {
      SumAtLeast(s[..|s| - 1], f, w);
      assert |s| as real * w == (|s| - 1) as real * w + w;
    }
  }

  lemma LabelOfRow(p: Patterns, runsOn: Value, rows: seq<Row>, row: Row)
    requires row in rows
    ensures p.expand(runsOn, row) in Labels(p, runsOn, rows)
  {
    var i :| 0 <= i < |rows| && rows[i] == row;
    assert Labels(p, runsOn, rows)[i] == p.expand(runsOn, row);
  }

  lemma RowOfLabel(p: Patterns, runsOn: Value, rows: seq<Row>, label_: string) returns (row: Row)
    requires label_ in Labels(p, runsOn, rows)
    ensures row in rows && p.expand(runsOn, row) == label_
  {
    var i :| 0 <= i < |rows| && Labels(p, runsOn, rows)[i] == label_;
    row := rows[i];
  }

  /** Without a runner reason, a new row runs at weight one or on a label of the old job. */
  lemma SilentRunners(p: Patterns, name: string, job: Job, prior: Job, row: Row)
    requires JobReasons(p, name, job, prior) == {} && row in RowsOf(job)
    ensures var label_ := p.expand(job.runsOn, row);
            RateOf(p, label_).weight == 1.0 || label_ in Labels(p, prior.runsOn, OldRows(prior))
  {
    hide RowsOf, RowReasons, StepReasons, CommandReasons, OldRows, Labels;
    var label_ := p.expand(job.runsOn, row);
    LabelOfRow(p, job.runsOn, RowsOf(job), row);
    assert RunnerReasons(p, name, job, prior) == {};
    assert RateOf(p, label_).costly && label_ !in Labels(p, prior.runsOn, OldRows(prior)) ==>
             AddsRunner(name, label_) in RunnerReasons(p, name, job, prior);
    RateIsCostlyAboveOne(p, label_);
    hide RateOf;
  }

  lemma RateIsCostlyAboveOne(p: Patterns, label_: string)
    ensures RateOf(p, label_).costly || RateOf(p, label_).weight == 1.0
  {
    assert RateOf(p, label_).weight >= 1.0 && (RateOf(p, label_).costly <==> RateOf(p, label_).weight > 1.0);
  }

  /** The weight of each new row is at most the common weight of the old rows. */
  lemma SilentRowWeight(p: Patterns, name: string, job: Job, prior: Job, row: Row, w: real)
    requires JobReasons(p, name, job, prior) == {} && row in RowsOf(job) && prior != NO_JOB
    requires w >= 1.0 && forall r :: r in RowsOf(prior) ==> RowWeight(p, prior.runsOn)(r) == w
    ensures RowWeight(p, job.runsOn)(row) <= w
  {
    SilentRunners(p, name, job, prior, row);
    hide RowsOf, JobReasons, RateOf, Labels;
    var label_ := p.expand(job.runsOn, row);
    if label_ in Labels(p, prior.runsOn, OldRows(prior)) {
      var r := RowOfLabel(p, prior.runsOn, RowsOf(prior), label_);
      assert RowWeight(p, prior.runsOn)(r) == RateOf(p, label_).weight;
    }
  }

  lemma LighterRows(p: Patterns, job: Job, prior: Job, w: real)
    requires w >= 0.0 && |RowsOf(job)| <= |RowsOf(prior)|
    requires forall r :: r in RowsOf(job) ==> RowWeight(p, job.runsOn)(r) <= w
    requires forall r :: r in RowsOf(prior) ==> RowWeight(p, prior.runsOn)(r) >= w
    ensures NotHeavier(p, job, prior)
  {
    hide RowsOf, RowWeight, Sum;
    SumAtMost(RowsOf(job), RowWeight(p, job.runsOn), w);
    SumAtLeast(RowsOf(prior), RowWeight(p, prior.runsOn), w);
    MoreTimes(|RowsOf(job)|, |RowsOf(prior)|, w);
  }

  lemma MoreTimes(m: nat, n: nat, w: real)
    requires m <= n && w >= 0.0
    ensures m as real * w <= n as real * w
  {
  }

  lemma UniformIsNotHeavier(p: Patterns, name: string, job: Job, prior: Job)
    requires JobReasons(p, name, job, prior) == {} && prior != NO_JOB && UniformWeight(p, prior)
    ensures NotHeavier(p, job, prior)
  {
    NoReasonInParts(p, name, job, prior);
    hide RowsOf, JobReasons, RowReasons, RowWeight, NotHeavier;
    SilentRows(name, RowsOf(job), prior);
    var w := if RowsOf(prior) == [] then 1.0 else RowWeight(p, prior.runsOn)(RowsOf(prior)[0]);
    if RowsOf(prior) != [] {
      RowWeightPositive(p, prior.runsOn, RowsOf(prior)[0]);
    }
    forall row | row in RowsOf(job) ensures RowWeight(p, job.runsOn)(row) <= w {
      SilentRowWeight(p, name, job, prior, row, w);
    }
    LighterRows(p, job, prior, w);
  }

  /* ---- mixed rows can ---- */

  /** A version of a job with the same rows, commands and reusable workflow, only
      short timeouts, and labels that the old rows already use, has no reason. */
  lemma KnownRunnersAreNoReason(p: Patterns, name: string, job: Job, prior: Job)
    requires prior != NO_JOB && job.matrix == prior.matrix && job.uses == prior.uses &&
             job.concurrency == prior.concurrency
    requires Commands(job.steps) == Commands(prior.steps)
    requires job.timeout == Minutes(0.0) && forall i :: 0 <= i < |job.steps| ==> job.steps[i].timeout == Minutes(0.0)
    requires forall l :: l in Labels(p, job.runsOn, RowsOf(job)) ==> l in Labels(p, prior.runsOn, RowsOf(prior))
    ensures JobReasons(p, name, job, prior) == {}
  {
    hide RowsOf, Labels, Unmatched, RateOf, ConcurrencyLost;
    assert RowsOf(job) == RowsOf(prior) by { SameMatrixSameRows(job, prior); }
    assert RowReasons(name, RowsOf(job), prior) == {};
    assert RunnerReasons(p, name, job, prior) == {};
    assert StepReasons(name, job, prior) == {};
    assert ConcurrencyReasons(OfJob(name), prior.concurrency, job.concurrency) == {} by {
      SameConcurrency(prior.concurrency);
    }
    assert LeftOver(job, prior) == [] by { NothingLeft(multiset(Commands(prior.steps)), Commands(job.steps)); }
    assert CommandReasons(p, name, LeftOver(job, prior)) == {};
  }

  lemma SameMatrixSameRows(a: Job, b: Job)
    requires a.matrix == b.matrix
    ensures RowsOf(a) == RowsOf(b)
  {
  }

  lemma SameConcurrency(v: Value)
    ensures !ConcurrencyLost(v, v)
  {
  }

  lemma NothingLeft(available: multiset<string>, commands: seq<string>)
    requires multiset(commands) <= available
    ensures Unmatched(available, commands) == []
  {
    UnmatchedIsDifference(available, commands);
    var left := Unmatched(available, commands);
    assert |left| == |multiset(left)| == |multiset(commands) - available| == 0;
  }

  /** A row of the greatest weight. */
  function Heaviest(rows: seq<Row>, f: Row -> real): (row: Row)
    requires rows != []
    ensures row in rows && forall r :: r in rows ==> f(r) <= f(row)
  {
    var init, last := rows[..|rows| - 1], rows[|rows| - 1];
    assert rows == init + [last];
    if init == [] || f(Heaviest(init, f)) < f(last) then last else Heaviest(init, f)
  }

  lemma OneMoreTime(n: nat, w: real)
    ensures (n + 1) as real * w == n as real * w + w
  {
    assert (n + 1) as real == n as real + 1.0;
  }

  lemma SumOfLast<T>(s: seq<T>, f: T -> real)
    requires s != []
    ensures Sum(s, f) == Sum(s[..|s| - 1], f) + f(s[|s| - 1])
  {
  }

  lemma {:induction false} SumBelow<T>(s: seq<T>, f: T -> real, w: real, x: T)
    requires (forall y :: y in s ==> f(y) <= w) && x in s && f(x) < w
    ensures Sum(s, f) < |s| as real * w
  {
    hide Sum;
    var init, last := s[..|s| - 1], s[|s| - 1];
    assert s == init + [last];
    OneMoreTime(|init|, w);
    SumOfLast(s, f);
    if last == x {
      SumAtMost(init, f, w);
    } else {
      SumBelow(init, f, w, x);
      assert f(last) <= w;
    }
  }

  /** A label without expressions renders as itself. */
  ghost predicate LiteralsRender(p: Patterns, job: Job) {
    forall l, row :: l in Labels(p, job.runsOn, RowsOf(job)) && row in RowsOf(job) ==> p.expand(Str(l), row) == l
  }

  /** All rows of a job moved onto one label, with short timeouts. */
  function MovedOnto(job: Job, label_: string): Job {
    job.(runsOn := Str(label_), timeout := Minutes(0.0),
         steps := seq(|job.steps|, i requires 0 <= i < |job.steps| => Step(job.steps[i].run, Minutes(0.0))))
  }

  lemma MovedOntoRunsThere(p: Patterns, job: Job, label_: string)
    requires LiteralsRender(p, job) && label_ in Labels(p, job.runsOn, RowsOf(job))
    ensures RowsOf(MovedOnto(job, label_)) == RowsOf(job)
    ensures forall row :: row in RowsOf(job) ==> p.expand(Str(label_), row) == label_
    ensures forall l :: l in Labels(p, Str(label_), RowsOf(job)) ==> l == label_
    ensures Commands(MovedOnto(job, label_).steps) == Commands(job.steps)
  {
    SameMatrixSameRows(job, MovedOnto(job, label_));
    hide RowsOf;
    forall l | l in Labels(p, Str(label_), RowsOf(job)) ensures l == label_ {
      var row := RowOfLabel(p, Str(label_), RowsOf(job), l);
    }
  }

  lemma MovedOntoCompares(p: Patterns, prior: Job, top: Row)
    requires LiteralsRender(p, prior) && JobResolves(p, prior) && top in RowsOf(prior)
    ensures JobCompares(p, MovedOnto(prior, p.expand(prior.runsOn, top)), prior)
  {
    var label_ := p.expand(prior.runsOn, top);
    var job := MovedOnto(prior, label_);
    LabelOfRow(p, prior.runsOn, RowsOf(prior), top);
    MovedOntoRunsThere(p, prior, label_);
    hide RowsOf, Labels, LiteralsRender;
    var k :| 0 <= k < |RowsOf(prior)| && RowsOf(prior)[k] == top;
    assert !p.unresolved(label_);
    forall i | 0 <= i < |RowsOf(job)| ensures !p.unresolved(p.expand(job.runsOn, RowsOf(job)[i])) {
      assert RowsOf(job)[i] in RowsOf(prior);
    }
  }

  /** Moving the rows of a job with mixed weights onto its heaviest label is no reason
      and makes the job heavier. */
  lemma MixedCanGetHeavier(p: Patterns, name: string, prior: Job) returns (job: Job)
    requires prior != NO_JOB && LiteralsRender(p, prior) && JobResolves(p, prior) && !UniformWeight(p, prior)
    ensures JobCompares(p, job, prior) && JobReasons(p, name, job, prior) == {} && !NotHeavier(p, job, prior)
    ensures Commands(job.steps) == Commands(prior.steps)
  {
    var rows := RowsOf(prior);
    var r, s :| r in rows && s in rows && RowWeight(p, prior.runsOn)(r) != RowWeight(p, prior.runsOn)(s);
    hide RowsOf, Sum, Labels, RateOf, JobResolves, JobCompares;
    var top := Heaviest(rows, RowWeight(p, prior.runsOn));
    var label_ := p.expand(prior.runsOn, top);
    LabelOfRow(p, prior.runsOn, rows, top);
    job := MovedOnto(prior, label_);
    MovedOntoRunsThere(p, prior, label_);
    MovedOntoCompares(p, prior, top);
    KnownRunnersAreNoReason(p, name, job, prior);
    hide JobReasons;
    var w := RowWeight(p, prior.runsOn)(top);
    forall row | row in rows ensures RowWeight(p, job.runsOn)(row) >= w {
      assert p.expand(job.runsOn, row) == label_;
    }
    SumAtLeast(rows, RowWeight(p, job.runsOn), w);
    SumBelow(rows, RowWeight(p, prior.runsOn), w, if RowWeight(p, prior.runsOn)(r) < w then r else s);
  }

  /** No comparable version of a job without reasons has heavier rows. */
  ghost predicate NeverHeavier(p: Patterns, name: string, prior: Job) {
    forall job :: JobCompares(p, job, prior) && JobReasons(p, name, job, prior) == {} ==> NotHeavier(p, job, prior)
  }

  /** EXACT GUARD. A job never gets heavier without a reason exactly when its rows all
      run at one weight. */
  lemma RunnerGuardExactly(p: Patterns, name: string, prior: Job)
    requires prior != NO_JOB && LiteralsRender(p, prior) && JobResolves(p, prior)
    ensures UniformWeight(p, prior) <==> NeverHeavier(p, name, prior)
  {
    hide JobReasons, JobCompares, NotHeavier, UniformWeight, LiteralsRender, JobResolves;
    if UniformWeight(p, prior) {
      forall job | JobCompares(p, job, prior) && JobReasons(p, name, job, prior) == {}
        ensures NotHeavier(p, job, prior)
      {
        UniformIsNotHeavier(p, name, job, prior);
      }
    } else {
      var job := MixedCanGetHeavier(p, name, prior);
    }
  }

  /* ---- the guarantee under a checkable hypothesis ---- */

  /** A retained job is guarded when its old rows run at one weight, or when it keeps
      its `runs-on` and has pairwise distinct rows. */
  ghost predicate Guarded(p: Patterns, job: Job, prior: Job) {
    || UniformWeight(p, prior)
    || (job.runsOn == prior.runsOn && forall j, k :: 0 <= j < k < |RowsOf(job)| ==> RowsOf(job)[j] != RowsOf(job)[k])
  }

  ghost predicate RetainedGuarded(p: Patterns, a: Workflow, b: Workflow) {
    forall i :: 0 <= i < |b.jobs| && Lookup(a.jobs, b.jobs[i].name) != NO_JOB ==>
      Guarded(p, b.jobs[i].job, Lookup(a.jobs, b.jobs[i].name))
  }

  /** An empty list of reasons means no cost growth when every retained job is guarded. */
  lemma GuardedJobsDoNotGrow(p: Patterns, before: Version, after: Version, window: seq<CronSchedule.Day>)
    requires Resolves(p, before, after, window) && !after.Absent?
    requires AnalysisOf(p, before, after, window).reasons == {}
    requires RetainedGuarded(p, Body(before), Body(after))
    ensures TotalMinutes(p, Body(after)) <= TotalMinutes(p, Body(before))
    ensures Fanout(Triggers(Body(after)).value) <= Fanout(Triggers(Body(before)).value)
    ensures AnalysisOf(p, before, after, window).perPush == 0.0
    ensures AnalysisOf(p, before, after, window).fixed == 0.0
  {
    hide NotHeavier, UniformWeight, EventReasons, TotalMinutes, Fanout, AllJobReasons, JobsCompare, WorkflowResolves,
         ScheduleRuns, JobReasons, AllAddedMinutes, RowsOf;
    var a, b := Body(before), Body(after);
    NoReasonAtAll(p, before, a, b, Triggers(a).value, Triggers(b).value);
    forall i | 0 <= i < |b.jobs| && Lookup(a.jobs, b.jobs[i].name) != NO_JOB
      ensures NotHeavier(p, b.jobs[i].job, Lookup(a.jobs, b.jobs[i].name))
    {
      var job, prior := b.jobs[i].job, Lookup(a.jobs, b.jobs[i].name);
      NoJobReason(p, b.jobs, a.jobs, i);
      if UniformWeight(p, prior) {
        UniformIsNotHeavier(p, b.jobs[i].name, job, prior);
      } else {
        SameRunnerIsNotHeavier(p, b.jobs[i].name, job, prior);
      }
    }
    NoSilentGrowth(p, before, after, window);
  }
}
