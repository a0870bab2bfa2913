/** Parsed workflow files and what one run of them costs: triggers, pull-request
    fan-out, runners and minutes. */
module Workflows {
  import opened Common
  import opened PythonText
  import opened MatrixExpansion
  import opened Sums
  import CronSchedule

  /* ---- parsed files ---- */

  /** The value under one event name, after `v or {}`. Cron entries are a list;
      `Scalar` is any other truthy value that is not a mapping. */
  datatype TriggerConfig =
    | Settings(fields: map<string, Value>)
    | Entries(entries: seq<CronSchedule.Entry>)
    | Scalar

  type Events = map<string, TriggerConfig>

  datatype OnClause =
    | Named(name: string)
    | NamedList(names: seq<string>)
    | Configured(events: Events)
    | Unresolvable

  datatype Timeout = Minutes(minutes: real) | NotANumber

  datatype Step = Step(run: string, timeout: Timeout)

  /** One job. An absent key has its default; `otherKeys` says that the mapping
      has keys which the other fields do not show, so that it is not empty. */
  datatype Job = Job(matrix: Matrix, runsOn: Value, uses: Value, concurrency: Value, timeout: Timeout,
                     steps: seq<Step>, otherKeys: bool)

  datatype NamedJob = NamedJob(name: string, job: Job)

  ghost predicate UniqueNames(jobs: seq<NamedJob>) {
    forall i, j :: 0 <= i < j < |jobs| ==> jobs[i].name != jobs[j].name
  }

  /** The jobs of a file in order; a mapping has each name once. */
  type Jobs = jobs: seq<NamedJob> | UniqueNames(jobs) witness []

  datatype Workflow = Workflow(on: OnClause, concurrency: Value, jobs: Jobs)

  /** One side of a change: no file, an empty document, a workflow, or a document
      in which the code meets a shape it cannot read. */
  datatype Version = Absent | Blank | File(workflow: Workflow) | Malformed

  const NO_STEP := Step("", Minutes(0.0))
  const NO_JOB := Job(NoMatrix, Str(""), Null, Null, Minutes(0.0), [], false)
  const NO_WORKFLOW := Workflow(Configured(map[]), Null, [])

  function Body(version: Version): Workflow {
    if version.File? then version.workflow else NO_WORKFLOW
  }

  /** `jobs.get(name, {})`. */
  function Lookup(jobs: seq<NamedJob>, name: string): Job {
    if jobs == [] then NO_JOB
    else if jobs[|jobs| - 1].name == name then jobs[|jobs| - 1].job
    else Lookup(jobs[..|jobs| - 1], name)
  }

  /* ---- triggers ---- */

  /** `triggers(workflow)`; None stands for ValueError. */
  function Triggers(workflow: Workflow): Option<Events> {
    match workflow.on
    case Named(name) => Some(map[name := Settings(map[])])
    case NamedList(names) => Some(map name | name in names :: Settings(map[]))
    case Configured(events) => Some(events)
    case Unresolvable => None
  }

  predicate MainOnly(config: TriggerConfig) {
    config.Settings? && Get(config.fields, "branches") == List([Str("main")])
  }

  /** The push configuration is read with `.get`, which only a mapping has. */
  predicate PushReadable(events: Events) {
    "push" in events ==> events["push"].Settings?
  }

  function One(condition: bool): nat {
    if condition then 1 else 0
  }

  /** `pr_fanout`: how often one push to a pull request starts the workflow. */
  function Fanout(events: Events): nat {
    One("pull_request" in events) + One("pull_request_target" in events) + One("merge_group" in events)
    + One("push" in events && !MainOnly(events["push"]))
  }

  /** The cron entries to iterate over; None when they cannot be iterated. */
  function ScheduleEntries(events: Events): Option<seq<CronSchedule.Entry>> {
    if "schedule" !in events then Some([])
    else
      match events["schedule"]
      case Entries(entries) => Some(entries)
      case Settings(fields) => if fields == map[] then Some([]) else None
      case Scalar => None
  }

  ghost function ScheduleRuns(events: Events, window: seq<CronSchedule.Day>): Option<nat> {
    var entries := ScheduleEntries(events);
    if entries.None? then None else CronSchedule.Firings(entries.value, window)
  }

  /* ---- runners ---- */

  /** The regular expressions of the program and its rendering of `runs-on`, kept
      abstract: `long` finds a long-running command, `larger` a larger-runner
      label, `expand` renders the value for a row, `unresolved` says that an
      expression is left which does not route to Ubuntu. */
  datatype Patterns = Patterns(long: string -> bool, larger: string -> bool, expand: (Value, Row) -> string,
                               unresolved: string -> bool)

  datatype Rate = Rate(weight: real, costly: bool)

  /** Weight and costliness of a rendered runner label. */
  function RateOf(p: Patterns, label_: string): (rate: Rate)
    ensures rate.costly <==> rate.weight > 1.0
    ensures rate.weight >= 1.0
  {
    var lower := Lower(label_);
    var weight := if Contains(lower, "macos") then 10.0 else if Contains(lower, "windows") then 2.0 else 1.0;
    var knownLinux := Contains(lower, "ubuntu") || Contains(lower, "linux");
    var costly := weight > 1.0 || p.larger(lower) || (!knownLinux && weight == 1.0);
    Rate(if costly && weight == 1.0 then 4.0 else weight, costly)
  }

  /** A runner is free of a surcharge exactly when its label names Linux and nothing
      that costs more; macOS weighs ten whatever else the label says. */
  lemma OnlyPlainLinuxIsFree(p: Patterns, label_: string)
    ensures var lower, weight := Lower(label_), RateOf(p, label_).weight;
            && (weight == 1.0 <==> (Contains(lower, "ubuntu") || Contains(lower, "linux")) && !Contains(lower, "macos")
                                   && !Contains(lower, "windows") && !p.larger(lower))
            && (weight == 10.0 <==> Contains(lower, "macos"))
            && (weight == 2.0 <==> Contains(lower, "windows") && !Contains(lower, "macos"))
            && weight in {1.0, 2.0, 4.0, 10.0}
  {
    hide Lower, Contains;
  }

  function RowWeight(p: Patterns, runsOn: Value): Row -> real {
    (row: Row) => RateOf(p, p.expand(runsOn, row)).weight
  }

  /** The summed runner weights of the rows of a job. */
  function RowsWeight(p: Patterns, runsOn: Value, rows: seq<Row>): real {
    Sum(rows, RowWeight(p, runsOn))
  }

  function Labels(p: Patterns, runsOn: Value, rows: seq<Row>): seq<string> {
    seq(|rows|, i requires 0 <= i < |rows| => p.expand(runsOn, rows[i]))
  }

  /** The rows of a job whose matrix resolves. */
  function RowsOf(job: Job): seq<Row> {
    var rows := Variants(job.matrix);
    if rows.Some? then rows.value else []
  }

  /** No ValueError from the matrix or the runners of a job. */
  predicate JobResolves(p: Patterns, job: Job) {
    Variants(job.matrix).Some? && forall i :: 0 <= i < |RowsOf(job)| ==>
      !p.unresolved(p.expand(job.runsOn, RowsOf(job)[i]))
  }

  /* ---- minutes ---- */

  const DEFAULT_MINUTES := 5.0
  const LONG_MINUTES := 3.5

  function Commands(steps: seq<Step>): seq<string> {
    seq(|steps|, i requires 0 <= i < |steps| => steps[i].run)
  }

  function CommandMinutes(p: Patterns): string -> real {
    (command: string) => if p.long(command) then LONG_MINUTES else 0.0
  }

  function LongMinutes(p: Patterns, commands: seq<string>): real {
    Sum(commands, CommandMinutes(p))
  }

  function Max(a: real, b: real): real {
    if a >= b then a else b
  }

  /** `job_minutes`. */
  function JobMinutes(p: Patterns, job: Job): real {
    Max(DEFAULT_MINUTES, LongMinutes(p, Commands(job.steps)))
  }

  function JobCost(p: Patterns): NamedJob -> real {
    (named: NamedJob) => JobMinutes(p, named.job) * RowsWeight(p, named.job.runsOn, RowsOf(named.job))
  }

  /** `total_minutes`: the weighted minutes of one run. */
  function TotalMinutes(p: Patterns, workflow: Workflow): real {
    Sum(workflow.jobs, JobCost(p))
  }

  ghost function LongPositions(p: Patterns, commands: seq<string>): set<int> {
    set i | 0 <= i < |commands| && p.long(commands[i])
  }

  /** The long minutes are 3.5 for every position of a long command. */
  lemma {:induction false} LongMinutesCount(p: Patterns, commands: seq<string>)
    ensures LongMinutes(p, commands) == LONG_MINUTES * |LongPositions(p, commands)| as real
  {
    if commands == [] {
      assert LongPositions(p, commands) == {};
    } else {
      var n := |commands| - 1;
      var before := LongPositions(p, commands[..n]);
      LongMinutesCount(p, commands[..n]);
      assert LongPositions(p, commands) == if p.long(commands[n]) then before + {n} else before;
    }
  }

  predicate WorkflowResolves(p: Patterns, workflow: Workflow) {
    forall i :: 0 <= i < |workflow.jobs| ==> JobResolves(p, workflow.jobs[i].job)
  }

  /* ---- matching steps ---- */

  /** The commands left over after each has been taken out of `available` once. */
  function Unmatched(available: multiset<string>, commands: seq<string>): seq<string> {
    if commands == [] then []
    else if commands[0] in available then Unmatched(available - multiset{commands[0]}, commands[1..])
    else [commands[0]] + Unmatched(available, commands[1..])
  }

  /** Greedy matching computes the exact multiset difference. */
  lemma {:induction false} UnmatchedIsDifference(available: multiset<string>, commands: seq<string>)
    ensures multiset(Unmatched(available, commands)) == multiset(commands) - available
  {
    if commands != [] {
      assert commands == [commands[0]] + commands[1..];
      if commands[0] in available {
        UnmatchedIsDifference(available - multiset{commands[0]}, commands[1..]);
      } else {
        UnmatchedIsDifference(available, commands[1..]);
      }
    }
  }

  /** When no long command is left over, the long minutes did not rise. */
  lemma NoLongCommandAdded(p: Patterns, before: seq<string>, after: seq<string>)
    requires forall c :: c in Unmatched(multiset(before), after) ==> !p.long(c)
    ensures LongMinutes(p, after) <= LongMinutes(p, before)
  {
    UnmatchedIsDifference(multiset(before), after);
    var left := Unmatched(multiset(before), after);
    forall c | c in after && CommandMinutes(p)(c) > 0.0 ensures multiset(after)[c] <= multiset(before)[c] {
      assert c !in left;
      assert multiset(left)[c] == 0;
    }
    SumDrawnFrom(after, before, CommandMinutes(p));
  }

  /** The long minutes reported as added are, command by command, the surplus over before. */
  lemma AddedCommandCount(before: seq<string>, after: seq<string>, c: string)
    ensures multiset(Unmatched(multiset(before), after))[c] ==
            if multiset(after)[c] > multiset(before)[c] then multiset(after)[c] - multiset(before)[c] else 0
  {
    UnmatchedIsDifference(multiset(before), after);
  }
}
