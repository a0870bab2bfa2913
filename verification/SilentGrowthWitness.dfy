/** A change that costs more and has no reason: the silent-growth guarantee needs
    its hypothesis about runners. */
module SilentGrowthWitness {
  import opened Common
  import opened MatrixExpansion
  import opened PythonText
  import opened Sums
  import opened Workflows
  import opened CostAnalysis
  import opened SilentGrowth
  import opened RunnerGuard
  import opened CostReporting
  import CronSchedule

  const UBUNTU_ROW: Row := map["os" := Str("ubuntu")]
  const MACOS_ROW: Row := map["os" := Str("macos")]

  const MATRIX_OS := Str("${{ matrix.os }}")

  /** Rendering for the example: the expression for `matrix.os` becomes the row's `os`. */
  function ExampleRender(v: Value, row: Row): string {
    if v == MATRIX_OS then (if Get(row, "os").Str? then Get(row, "os").s else "UNKNOWN")
    else if v.Str? then v.s else ""
  }

  function ExamplePatterns(): Patterns {
    Patterns((c: string) => false, (l: string) => false, (v: Value, row: Row) => ExampleRender(v, row),
             (l: string) => false)
  }

  function ExampleJob(runsOn: Value): Job {
    Job(Matrix([], None, Some([UBUNTU_ROW, MACOS_ROW])), runsOn, Null, Null, Minutes(0.0), [], false)
  }

  function ExampleWorkflow(runsOn: Value): Workflow {
    Workflow(Named("pull_request"), Null, [NamedJob("test", ExampleJob(runsOn))])
  }

  /** A job that ran on Ubuntu and macOS moves both rows to macOS: no reason, and
      45 more weighted minutes per pull-request push. */
  lemma GrowthWithoutReason()
    ensures var p := ExamplePatterns();
            var before, after := File(ExampleWorkflow(MATRIX_OS)), File(ExampleWorkflow(Str("macos")));
            && Resolves(p, before, after, [])
            && AnalysisOf(p, before, after, []).reasons == {}
            && AnalysisOf(p, before, after, []).perPush == 45.0
  {
    hide RowsOf, Variants, RateOf, TotalMinutes, AllAddedMinutes, AllJobReasons, JobReasons, EventReasons,
         ScheduleRuns, JobsCompare, WorkflowResolves, Fanout;
    var p, a, b := ExamplePatterns(), ExampleWorkflow(MATRIX_OS), ExampleWorkflow(Str("macos"));
    ExampleReasons();
    ExampleResolves();
    ExampleTotals();
    CommandsAddNothing(p, b.jobs, a.jobs);
  }

  lemma ExampleResolves()
    ensures var p, a, b := ExamplePatterns(), ExampleWorkflow(MATRIX_OS), ExampleWorkflow(Str("macos"));
            && JobsCompare(p, b.jobs, a.jobs) && WorkflowResolves(p, a)
            && ScheduleRuns(Triggers(a).value, []) == Some(0) && Fanout(Triggers(a).value) == 1
  {
    hide RowsOf, Variants;
    ExampleRows(MATRIX_OS);
    ExampleRows(Str("macos"));
    assert CronSchedule.Firings([], []) == Some(0);
  }

  lemma ExampleReasons()
    ensures var p, a, b := ExamplePatterns(), ExampleWorkflow(MATRIX_OS), ExampleWorkflow(Str("macos"));
            AllJobReasons(p, b.jobs, a.jobs) == {} && EventReasons(Triggers(a).value, Triggers(b).value) == {}
  {
    var p, a, b := ExamplePatterns(), ExampleWorkflow(MATRIX_OS), ExampleWorkflow(Str("macos"));
    ExampleRows(MATRIX_OS);
    hide JobReasons, RowsOf, Variants, EventReasons, EventsKept, RateOf;
    SameEvents(Triggers(a).value);
    var job := ExampleJob(MATRIX_OS);
    assert forall l :: l in Labels(p, Str("macos"), RowsOf(job)) ==> l == "macos";
    assert Labels(p, MATRIX_OS, RowsOf(job))[1] == "macos";
    KnownRunnersAreNoReason(p, "test", ExampleJob(Str("macos")), job);
    assert b.jobs[..0] == [];
    assert AllJobReasons(p, [], a.jobs) == {};
  }

  lemma ExampleRows(runsOn: Value)
    ensures Variants(ExampleJob(runsOn).matrix) == Some([UBUNTU_ROW, MACOS_ROW])
    ensures RowsOf(ExampleJob(runsOn)) == [UBUNTU_ROW, MACOS_ROW]
  {
    var includes: seq<Row> := [UBUNTU_ROW, MACOS_ROW];
    assert Names([]) == {};
    assert Standalone(includes, [], {}) == includes by { ExampleStandalone(); }
    hide Standalone;
    assert Overlays([], includes, {}) == [];
    assert Kept([], []) == [];
    assert Merged([], [], includes, {}) == includes;
    hide Merged;
  }

  lemma ExampleStandalone()
    ensures Standalone([UBUNTU_ROW, MACOS_ROW], [], {}) == [UBUNTU_ROW, MACOS_ROW]
  {
    hide MatchesSome, Standalone;
    var includes: seq<Row> := [UBUNTU_ROW, MACOS_ROW];
    NothingMatches(UBUNTU_ROW);
    NothingMatches(MACOS_ROW);
    StandaloneStep(includes, [], {}, 0);
    StandaloneStep(includes, [], {}, 1);
    assert includes[..0] == [] && includes[..2] == includes;
    assert Standalone([], [], {}) == [] by { NoStandalone(); }
  }

  lemma NoStandalone()
    ensures Standalone([], [], {}) == []
  {
  }

  lemma NothingMatches(row: Row)
    ensures !MatchesSome(row, [], {})
  {
  }

  lemma {:induction false} TooLong(text: string, part: string)
    requires |text| < |part|
    ensures !Contains(text, part)
  {
    if text != "" {
      TooLong(text[1..], part);
    }
  }

  lemma LowerOf(c: char, rest: string)
    requires 'a' <= c <= 'z'
    ensures Lower([c] + rest) == [c] + Lower(rest)
  {
  }

  lemma UbuntuRate()
    ensures RateOf(ExamplePatterns(), "ubuntu").weight == 1.0
  {
    assert Lower("ubuntu") == "ubuntu" by {
      LowerOf('u', "buntu"); LowerOf('b', "untu"); LowerOf('u', "ntu"); LowerOf('n', "tu"); LowerOf('t', "u");
      LowerOf('u', "");
    }
    hide Lower;
    assert !Contains("ubuntu", "windows") by { TooLong("ubuntu", "windows"); }
    assert !Contains("ubuntu", "macos") by {
      assert "ubuntu"[1..] == "buntu" && "buntu"[1..] == "untu";
      TooLong("untu", "macos");
      assert "ubuntu"[0] != "macos"[0] && "buntu"[0] != "macos"[0];
    }
    assert Contains("ubuntu", "ubuntu");
    hide Contains;
  }

  lemma MacosRate()
    ensures RateOf(ExamplePatterns(), "macos").weight == 10.0
  {
    assert Lower("macos") == "macos" by {
      LowerOf('m', "acos"); LowerOf('a', "cos"); LowerOf('c', "os"); LowerOf('o', "s"); LowerOf('s', "");
    }
    hide Lower;
    assert Contains("macos", "macos");
    hide Contains;
  }

  lemma ExampleTotals()
    ensures TotalMinutes(ExamplePatterns(), ExampleWorkflow(MATRIX_OS)) == 55.0
    ensures TotalMinutes(ExamplePatterns(), ExampleWorkflow(Str("macos"))) == 100.0
  {
    ExampleTotal(MATRIX_OS);
    ExampleTotal(Str("macos"));
    UbuntuRate();
    MacosRate();
    hide RateOf, TotalMinutes;
  }

  lemma ExampleTotal(runsOn: Value)
    ensures var p := ExamplePatterns();
            TotalMinutes(p, ExampleWorkflow(runsOn)) ==
            5.0 * (RateOf(p, ExampleRender(runsOn, UBUNTU_ROW)).weight +
                   RateOf(p, ExampleRender(runsOn, MACOS_ROW)).weight)
  {
    hide RateOf, RowsOf, ExampleRender;
    var p, job := ExamplePatterns(), ExampleJob(runsOn);
    ExampleRows(runsOn);
    SumOfOne(NamedJob("test", job), JobCost(p));
    SumOfTwo(UBUNTU_ROW, MACOS_ROW, RowWeight(p, runsOn));
    assert Commands(job.steps) == [];
  }
}
