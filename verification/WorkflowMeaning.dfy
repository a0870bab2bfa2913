/** What the small definitions about workflows mean, in the words of the workflow file:
    truth values, triggers, labels and minutes. */
module WorkflowMeaning {
  import opened Common
  import opened MatrixExpansion
  import opened PythonText
  import opened Sums
  import opened Workflows
  import CronSchedule

  /* ---- values and text ---- */

  /** A value is false exactly when it is null, false, zero or empty. */
  lemma TruthyExactly(v: Value)
    ensures !Truthy(v) <==> v in {Null, Bool(false), Num(0.0), Str(""), List([]), Obj(map[])}
  {
  }

  predicate OccursAt(text: string, part: string, i: nat) {
    i + |part| <= |text| && forall k :: 0 <= k < |part| ==> text[i + k] == part[k]
  }

  /** One text contains another exactly when it occurs at some position. */
  lemma {:induction false} ContainsExactly(text: string, part: string)
    ensures Contains(text, part) <==> exists i: nat :: OccursAt(text, part, i)
  {
    if part <= text {
      assert OccursAt(text, part, 0);
    } else if text != "" {
      ContainsExactly(text[1..], part);
      if i: nat :| OccursAt(text[1..], part, i) {
        assert OccursAt(text, part, i + 1);
      }
      if i: nat :| OccursAt(text, part, i) {
        assert i > 0 || part <= text;
        assert OccursAt(text[1..], part, i - 1);
      }
    }
  }

  /** Lower-casing moves exactly the capital letters, each by 32. */
  lemma {:induction false} LowerAt(text: string, i: nat)
    requires i < |text|
    ensures Lower(text)[i] as int == text[i] as int + if 'A' <= text[i] <= 'Z' then 32 else 0
  {
    if i > 0 {
      LowerAt(text[1..], i - 1);
    }
  }

  /* ---- triggers ---- */

  /** The events of a workflow are the ones its `on` clause names. */
  lemma TriggersExactly(w: Workflow, event: string)
    ensures Triggers(w).None? <==> w.on.Unresolvable?
    ensures Triggers(w).Some? ==>
              (event in Triggers(w).value <==>
               w.on == Named(event) || (w.on.NamedList? && event in w.on.names) ||
               (w.on.Configured? && event in w.on.events))
    ensures Triggers(w).Some? && event in Triggers(w).value ==>
              Triggers(w).value[event] == if w.on.Configured? then w.on.events[event] else Settings(map[])
  {
  }

  /** The `branches` of a push are exactly `main`. */
  predicate PushesMainOnly(config: TriggerConfig) {
    config.Settings? && "branches" in config.fields && config.fields["branches"] == List([Str("main")])
  }

  lemma MainOnlyExactly(config: TriggerConfig)
    ensures MainOnly(config) <==> PushesMainOnly(config)
  {
  }

  /** The triggers that one push to a pull request sets off. */
  function Starters(events: Events): set<string> {
    set event | event in events &&
      (event in {"pull_request", "pull_request_target", "merge_group"} ||
       (event == "push" && !PushesMainOnly(events[event])))
  }

  function Only<T>(x: T, condition: bool): set<T> {
    if condition then {x} else {}
  }

  lemma SizeOfFour<T>(a: T, b: T, c: T, d: T, p: bool, q: bool, r: bool, s: bool)
    requires a != b && a != c && a != d && b != c && b != d && c != d
    ensures |Only(a, p) + Only(b, q) + Only(c, r) + Only(d, s)| == One(p) + One(q) + One(r) + One(s)
  {
    assert |Only(a, p) + Only(b, q)| == One(p) + One(q);
    assert |Only(a, p) + Only(b, q) + Only(c, r)| == One(p) + One(q) + One(r);
  }

  lemma FourNames()
    ensures "pull_request" != "pull_request_target" && "pull_request" != "merge_group" && "pull_request" != "push"
    ensures "pull_request_target" != "merge_group" && "pull_request_target" != "push" && "merge_group" != "push"
  {
    assert |"pull_request"| == 12 && |"pull_request_target"| == 19 && |"merge_group"| == 11 && |"push"| == 4;
  }

  /** The fan-out is the number of these triggers. */
  lemma FanoutCounts(events: Events)
    ensures Fanout(events) == |Starters(events)|
  {
    hide MainOnly, PushesMainOnly;
    if "push" in events {
      MainOnlyExactly(events["push"]);
    }
    FourNames();
    var p, q, r := "pull_request" in events, "pull_request_target" in events, "merge_group" in events;
    var s := "push" in events && !PushesMainOnly(events["push"]);
    SizeOfFour("pull_request", "pull_request_target", "merge_group", "push", p, q, r, s);
    StartersAre(events, p, q, r, s);
    hide Starters;
  }

  lemma StartersAre(events: Events, p: bool, q: bool, r: bool, s: bool)
    requires p == ("pull_request" in events) && q == ("pull_request_target" in events) && r == ("merge_group" in events)
    requires s == ("push" in events && !PushesMainOnly(events["push"]))
    ensures Starters(events) ==
            Only("pull_request", p) + Only("pull_request_target", q) + Only("merge_group", r) + Only("push", s)
  {
    hide PushesMainOnly;
  }

  /** A push configuration can be read exactly when it is a mapping, and a schedule
      exactly when it is a list of entries, absent or empty. */
  lemma ReadableExactly(events: Events)
    ensures PushReadable(events) <==> "push" !in events || events["push"].Settings?
    ensures ScheduleEntries(events).None? <==>
            "schedule" in events && !events["schedule"].Entries? && events["schedule"] != Settings(map[])
    ensures "schedule" in events && events["schedule"].Entries? ==>
              ScheduleEntries(events) == Some(events["schedule"].entries)
    ensures "schedule" !in events || events["schedule"] == Settings(map[]) ==> ScheduleEntries(events) == Some([])
  {
  }

  /* ---- minutes ---- */

  /** The steps whose command is a long one. */
  ghost function LongSteps(p: Patterns, job: Job): set<int> {
    set i | 0 <= i < |job.steps| && p.long(job.steps[i].run)
  }

  /** Five minutes, or three and a half for each long step when there are two or more. */
  lemma JobMinutesExactly(p: Patterns, job: Job)
    ensures JobMinutes(p, job) == if |LongSteps(p, job)| <= 1 then 5.0 else 3.5 * |LongSteps(p, job)| as real
  {
    LongMinutesCount(p, Commands(job.steps));
    assert LongPositions(p, Commands(job.steps)) == LongSteps(p, job);
    hide LongMinutes, LongPositions, LongSteps;
  }

  /** A job costs its minutes for each row, weighted by the runner of the row, and a
      workflow costs the sum over its jobs. */
  lemma MinutesAddUp(p: Patterns, w: Workflow, runsOn: Value, rows: seq<Row>, row: Row)
    ensures RowsWeight(p, runsOn, rows + [row]) == RowsWeight(p, runsOn, rows) + RateOf(p, p.expand(runsOn, row)).weight
    ensures RowsWeight(p, runsOn, []) == 0.0
    ensures w.jobs == [] ==> TotalMinutes(p, w) == 0.0
    ensures w.jobs != [] ==>
              var init, last := w.jobs[..|w.jobs| - 1], w.jobs[|w.jobs| - 1];
              TotalMinutes(p, w) == TotalMinutes(p, w.(jobs := init)) +
                                    JobMinutes(p, last.job) * RowsWeight(p, last.job.runsOn, RowsOf(last.job))
  {
    hide RateOf, RowsOf, JobMinutes;
    assert (rows + [row])[..|rows|] == rows;
  }

  /** A job resolves exactly when its matrix does and no row has an open runner expression. */
  lemma JobResolvesExactly(p: Patterns, job: Job)
    ensures JobResolves(p, job) <==>
            Variants(job.matrix).Some? &&
            forall row :: row in Variants(job.matrix).value ==> !p.unresolved(p.expand(job.runsOn, row))
  {
    hide Variants;
    if JobResolves(p, job) {
      forall row | row in Variants(job.matrix).value ensures !p.unresolved(p.expand(job.runsOn, row)) {
        var i :| 0 <= i < |RowsOf(job)| && RowsOf(job)[i] == row;
      }
    }
  }
}
