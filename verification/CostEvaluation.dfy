/** The verdict over a set of changed workflows (`evaluate`). */
module CostEvaluation {
  import opened Common
  import opened Sums
  import opened Workflows
  import opened CostAnalysis
  import opened RunnerGuard
  import CostAuthorization
  import CostComparison
  import CronSchedule

  datatype Change = Change(path: string, before: Version, after: Version)

  /** `Unresolved` is the reason text built from a handled error. */
  datatype Cause = Unresolved | Reasons(reasons: set<Reason>)

  datatype Finding = Finding(path: string, cause: Cause, perPush: real, fixed: real)

  /** The totals are those before the final rounding. */
  datatype Evaluation = Evaluation(ok: bool, authorized: bool, findings: seq<Finding>, perPush: real, perMonth: real)

  const UNRESOLVED_MINUTES := 50.0

  type Window = seq<CronSchedule.Day>

  ghost function FindingOf(p: Patterns, window: Window, change: Change): Option<Finding> {
    if !Resolves(p, change.before, change.after, window) then
      Some(Finding(change.path, Unresolved, UNRESOLVED_MINUTES, 0.0))
    else
      var analysis := AnalysisOf(p, change.before, change.after, window);
      if analysis.reasons == {} then None
      else Some(Finding(change.path, Reasons(analysis.reasons), analysis.perPush, analysis.fixed))
  }

  ghost function Findings(p: Patterns, window: Window, changes: seq<Change>): seq<Finding> {
    if changes == [] then []
    else
      var last := FindingOf(p, window, changes[|changes| - 1]);
      Findings(p, window, changes[..|changes| - 1]) + if last.Some? then [last.value] else []
  }

  function PerPush(): Finding -> real { (f: Finding) => f.perPush }

  function Fixed(): Finding -> real { (f: Finding) => f.fixed }

  function MonthlyMinutes(findings: seq<Finding>, pushesPerMonth: real): real {
    Sum(findings, PerPush()) * pushesPerMonth + Sum(findings, Fixed())
  }

  method Evaluate(p: Patterns, window: Window, changes: seq<Change>, labels: set<string>,
                  timeline: seq<CostAuthorization.Event>, operators: seq<string>, pushesPerMonth: real)
    returns (e: Evaluation)
    ensures e.findings == Findings(p, window, changes)
    ensures e.authorized <==> CostAuthorization.Authorized(labels, timeline, operators)
    ensures e.ok <==> e.findings == [] || e.authorized
    ensures e.perPush == Sum(e.findings, PerPush())
    ensures e.perMonth == e.perPush * pushesPerMonth + Sum(e.findings, Fixed())
  {
    hide Resolves, AnalysisOf;
    var findings: seq<Finding> := [];
    for i := 0 to |changes|
      invariant findings == Findings(p, window, changes[..i])
    {
      assert changes[..i + 1][..i] == changes[..i];
      var change := changes[i];
      var result := CostComparison.Analyze(p, change.before, change.after, window);
      if result.None? {
        findings := findings + [Finding(change.path, Unresolved, UNRESOLVED_MINUTES, 0.0)];
      } else if result.value.reasons != {} {
        findings := findings + [Finding(change.path, Reasons(result.value.reasons), result.value.perPush,
                                        result.value.fixed)];
      }
    }
    assert changes[..|changes|] == changes;
    var authorized := CostAuthorization.Approved(labels, timeline, operators);
    e := Evaluation(findings == [] || authorized, authorized, findings, Sum(findings, PerPush()),
                    MonthlyMinutes(findings, pushesPerMonth));
  }

  /* ---- findings of a list of changes ---- */

  lemma {:induction false} FindingsConcat(p: Patterns, window: Window, a: seq<Change>, b: seq<Change>)
    ensures Findings(p, window, a + b) == Findings(p, window, a) + Findings(p, window, b)
  {
    hide FindingOf;
    if b == [] {
      assert a + b == a;
    } else {
      assert (a + b)[..|a + b| - 1] == a + b[..|b| - 1];
      FindingsConcat(p, window, a, b[..|b| - 1]);
    }
  }

  lemma FindingsInsert(p: Patterns, window: Window, head: seq<Change>, change: Change, tail: seq<Change>)
    ensures Findings(p, window, head + [change] + tail) ==
            Findings(p, window, head) +
            (if FindingOf(p, window, change).Some? then [FindingOf(p, window, change).value] else []) +
            Findings(p, window, tail)
  {
    FindingsConcat(p, window, head + [change], tail);
    assert (head + [change])[..|head|] == head;
    hide FindingOf;
  }

  /** FAIL CLOSED. Among any other changes, a change whose analysis raises is a
      finding, so that without authorization the verdict is not ok. */
  lemma UnresolvedIsFound(p: Patterns, window: Window, head: seq<Change>, change: Change, tail: seq<Change>)
    requires !Resolves(p, change.before, change.after, window)
    ensures Finding(change.path, Unresolved, 50.0, 0.0) in Findings(p, window, head + [change] + tail)
  {
    FindingsInsert(p, window, head, change, tail);
    hide Findings, Resolves;
  }

  /** Among any other changes, a change with reasons is a finding with these reasons and
      its costs. */
  lemma ReasonIsFound(p: Patterns, window: Window, head: seq<Change>, change: Change, tail: seq<Change>)
    requires Resolves(p, change.before, change.after, window)
    requires AnalysisOf(p, change.before, change.after, window).reasons != {}
    ensures var analysis := AnalysisOf(p, change.before, change.after, window);
            Finding(change.path, Reasons(analysis.reasons), analysis.perPush, analysis.fixed)
            in Findings(p, window, head + [change] + tail)
  {
    FindingsInsert(p, window, head, change, tail);
    hide Findings, Resolves, AnalysisOf;
  }

  /** No finding means that every change was analyzed and gave no reason. */
  lemma {:induction false} NoFindingExactly(p: Patterns, window: Window, changes: seq<Change>)
    ensures Findings(p, window, changes) == [] <==> forall c :: c in changes ==> FindingOf(p, window, c).None?
  {
    hide FindingOf;
    if changes != [] {
      var init, last := changes[..|changes| - 1], changes[|changes| - 1];
      NoFindingExactly(p, window, init);
      assert changes == init + [last];
    }
  }

  /** A clean verdict without authorization bounds the cost of every change whose
      retained jobs are guarded: nothing it runs got more frequent or more expensive. */
  lemma CleanVerdictBoundsCost(p: Patterns, window: Window, changes: seq<Change>, c: Change)
    requires Findings(p, window, changes) == [] && c in changes
    requires !c.after.Absent? && RetainedGuarded(p, Body(c.before), Body(c.after))
    ensures Resolves(p, c.before, c.after, window)
    ensures TotalMinutes(p, Body(c.after)) <= TotalMinutes(p, Body(c.before))
    ensures Fanout(Triggers(Body(c.after)).value) <= Fanout(Triggers(Body(c.before)).value)
  {
    NoFindingExactly(p, window, changes);
    assert FindingOf(p, window, c).None?;
    hide TotalMinutes, Fanout, Findings;
    GuardedJobsDoNotGrow(p, c.before, c.after, window);
  }

  /* ---- adding a change ---- */

  lemma FindingNonnegative(p: Patterns, window: Window, change: Change)
    requires FindingOf(p, window, change).Some?
    ensures FindingOf(p, window, change).value.perPush >= 0.0
    ensures FindingOf(p, window, change).value.fixed >= 0.0
  {
    hide Resolves, ReasonsOf, TotalMinutes, Fanout, ScheduleRuns, AllAddedMinutes, Spent, Triggers;
  }

  /** One more change, anywhere, never lowers the totals per push and never turns a
      verdict ok. */
  lemma AddingAChangeIsMonotone(p: Patterns, window: Window, head: seq<Change>, change: Change, tail: seq<Change>)
    ensures var few, many := Findings(p, window, head + tail), Findings(p, window, head + [change] + tail);
            && Sum(few, PerPush()) <= Sum(many, PerPush())
            && Sum(few, Fixed()) <= Sum(many, Fixed())
            && (many == [] ==> few == [])
  {
    var found := FindingOf(p, window, change);
    var a, b := Findings(p, window, head), Findings(p, window, tail);
    FindingsInsert(p, window, head, change, tail);
    FindingsConcat(p, window, head, tail);
    if found.Some? {
      FindingNonnegative(p, window, change);
      SumWithout(a, found.value, b, PerPush());
      SumWithout(a, found.value, b, Fixed());
    } else {
      assert a + [] + b == a + b;
    }
    hide Findings, FindingOf, Sum;
  }

  ghost predicate MonthlyMonotone(p: Patterns, window: Window, pushesPerMonth: real) {
    forall head: seq<Change>, change: Change, tail: seq<Change>
      {:trigger Findings(p, window, head + [change] + tail)} ::
      MonthlyMinutes(Findings(p, window, head + tail), pushesPerMonth) <=
      MonthlyMinutes(Findings(p, window, head + [change] + tail), pushesPerMonth)
  }

  /** The monthly total grows with every added change exactly when the configured
      number of pushes is not negative; the code does not check that it is. */
  lemma MonthlyMonotoneExactly(p: Patterns, window: Window, pushesPerMonth: real)
    ensures MonthlyMonotone(p, window, pushesPerMonth) <==> pushesPerMonth >= 0.0
  {
    if pushesPerMonth >= 0.0 {
      forall head: seq<Change>, change: Change, tail: seq<Change>
        ensures MonthlyMinutes(Findings(p, window, head + tail), pushesPerMonth) <=
                MonthlyMinutes(Findings(p, window, head + [change] + tail), pushesPerMonth)
      {
        AddingAChangeIsMonotone(p, window, head, change, tail);
        MonthlyGrows(Findings(p, window, head + tail), Findings(p, window, head + [change] + tail), pushesPerMonth);
      }
    } else {
      NegativePushes(p, window, pushesPerMonth, Change("", Malformed, Blank));
    }
  }

  lemma MonthlyGrows(few: seq<Finding>, many: seq<Finding>, pushesPerMonth: real)
    requires pushesPerMonth >= 0.0
    requires Sum(few, PerPush()) <= Sum(many, PerPush()) && Sum(few, Fixed()) <= Sum(many, Fixed())
    ensures MonthlyMinutes(few, pushesPerMonth) <= MonthlyMinutes(many, pushesPerMonth)
  {
    hide Sum, PerPush, Fixed;
    MoreMonthly(Sum(few, PerPush()), Sum(many, PerPush()), Sum(few, Fixed()), Sum(many, Fixed()), pushesPerMonth);
  }

  lemma MoreMonthly(few: real, many: real, fewFixed: real, manyFixed: real, pushesPerMonth: real)
    requires few <= many && fewFixed <= manyFixed && pushesPerMonth >= 0.0
    ensures few * pushesPerMonth + fewFixed <= many * pushesPerMonth + manyFixed
  {
    TimesMore(few, many, pushesPerMonth);
    BothMore(few * pushesPerMonth, many * pushesPerMonth, fewFixed, manyFixed);
  }

  lemma TimesMore(few: real, many: real, n: real)
    requires few <= many && n >= 0.0
    ensures few * n <= many * n
  {
    assert (many - few) * n >= 0.0;
  }

  lemma BothMore(a: real, b: real, c: real, d: real)
    requires a <= b && c <= d
    ensures a + c <= b + d
  {
  }

  lemma NegativePushes(p: Patterns, window: Window, pushesPerMonth: real, broken: Change)
    requires pushesPerMonth < 0.0 && broken.before.Malformed? && broken.after.Blank?
    ensures !MonthlyMonotone(p, window, pushesPerMonth)
  {
    var none: seq<Change> := [];
    UnresolvedAlone(p, window, broken);
    var found := Finding(broken.path, Unresolved, UNRESOLVED_MINUTES, 0.0);
    MonthlyOfOne(found, pushesPerMonth);
    assert none + [broken] + none == [broken] && none + none == none;
    assert Findings(p, window, none) == [];
    hide FindingOf;
    assert MonthlyMinutes(Findings(p, window, none + [broken] + none), pushesPerMonth) == 50.0 * pushesPerMonth;
  }

  lemma MonthlyOfOne(found: Finding, pushesPerMonth: real)
    ensures MonthlyMinutes([found], pushesPerMonth) == found.perPush * pushesPerMonth + found.fixed
    ensures MonthlyMinutes([], pushesPerMonth) == 0.0
  {
    SumOfOne(found, PerPush());
    SumOfOne(found, Fixed());
    hide Sum;
    assert Sum([], PerPush()) == 0.0 && Sum([], Fixed()) == 0.0 by { NothingSums(); }
  }

  lemma NothingSums()
    ensures Sum([], PerPush()) == 0.0 && Sum([], Fixed()) == 0.0
  {
  }

  lemma UnresolvedAlone(p: Patterns, window: Window, change: Change)
    requires change.before.Malformed? && change.after.Blank?
    ensures Findings(p, window, [change]) == [Finding(change.path, Unresolved, UNRESOLVED_MINUTES, 0.0)]
  {
    assert [change][..0] == [];
  }
}
