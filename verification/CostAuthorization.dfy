/** The operator authorization of a flagged change (`approved`): a fold over the
    label timeline. */
module CostAuthorization {
  import opened Common
  import opened PythonText

  const LABEL := "ci-cost-approved"

  datatype Actor = Nobody | Actor(kind: string, login: string)

  /** One timeline event; `label_` is the name of its label, if it has one. */
  datatype Event = Event(kind: string, label_: Option<string>, actor: Actor)

  /** A labeled or unlabeled event of the approval label. */
  predicate Relevant(e: Event) {
    e.label_ == Some(LABEL) && (e.kind == "labeled" || e.kind == "unlabeled")
  }

  predicate IsOperator(actor: Actor, operators: seq<string>) {
    && actor.Actor? && actor.kind == "User"
    && !EndsWith(Lower(actor.login), "[bot]")
    && exists i :: 0 <= i < |operators| && Lower(operators[i]) == Lower(actor.login)
  }

  ghost predicate LastRelevant(timeline: seq<Event>, i: nat) {
    && i < |timeline| && Relevant(timeline[i])
    && forall j :: i < j < |timeline| ==> !Relevant(timeline[j])
  }

  /** The label is present and its last event is a labeling by a configured human. */
  ghost predicate Authorized(labels: set<string>, timeline: seq<Event>, operators: seq<string>) {
    LABEL in labels &&
    exists i: nat ::
      LastRelevant(timeline, i) && timeline[i].kind == "labeled" && IsOperator(timeline[i].actor, operators)
  }

  /** The actor that the loop of `approved` holds after a timeline. */
  ghost predicate HeldAfter(timeline: seq<Event>, actor: Actor) {
    if exists i: nat :: LastRelevant(timeline, i)
    then exists i: nat :: LastRelevant(timeline, i) &&
           actor == if timeline[i].kind == "labeled" then timeline[i].actor else Nobody
    else actor == Nobody
  }

  lemma HeldStep(timeline: seq<Event>, i: nat, actor: Actor)
    requires i < |timeline| && HeldAfter(timeline[..i], actor)
    ensures HeldAfter(timeline[..i + 1],
                      if !Relevant(timeline[i]) then actor
                      else if timeline[i].kind == "labeled" then timeline[i].actor else Nobody)
  {
    var before, after := timeline[..i], timeline[..i + 1];
    if Relevant(timeline[i]) {
      assert LastRelevant(after, i);
    } else {
      forall k: nat ensures LastRelevant(after, k) <==> LastRelevant(before, k) {
        assert k < i ==> after[k] == before[k];
        if LastRelevant(before, k) {
          assert forall j :: k < j < |after| ==> j == i || after[j] == before[j];
        }
        if LastRelevant(after, k) {
          assert forall j :: k < j < |before| ==> before[j] == after[j];
        }
      }
      if exists k: nat :: LastRelevant(before, k) {
        var k: nat :| LastRelevant(before, k) &&
                      actor == if before[k].kind == "labeled" then before[k].actor else Nobody;
        assert LastRelevant(after, k) && after[k] == before[k];
      }
    }
  }

  method Approved(labels: set<string>, timeline: seq<Event>, operators: seq<string>) returns (approved: bool)
    ensures approved <==> Authorized(labels, timeline, operators)
  {
    if LABEL !in labels { return false; }
    var actor := Nobody;
    for i := 0 to |timeline|
      invariant HeldAfter(timeline[..i], actor)
    {
      HeldStep(timeline, i, actor);
      var event := timeline[i];
      if event.label_ == Some(LABEL) {
        if event.kind == "unlabeled" {
          actor := Nobody;
        } else if event.kind == "labeled" {
          actor := event.actor;
        }
      }
    }
    assert timeline[..|timeline|] == timeline;
    hide Relevant;
    return IsOperator(actor, operators);
  }

  function Shift(n: nat, i: nat): nat {
    if i < n then i else i + 1
  }

  lemma LastIsShifted(head: seq<Event>, e: Event, tail: seq<Event>, i: nat)
    requires !Relevant(e) && i < |head + tail|
    ensures LastRelevant(head + tail, i) <==> LastRelevant(head + [e] + tail, Shift(|head|, i))
    ensures (head + [e] + tail)[Shift(|head|, i)] == (head + tail)[i]
  {
    hide Relevant;
    var long, short, n := head + [e] + tail, head + tail, |head|;
    assert forall j: nat :: j < |short| ==> long[Shift(n, j)] == short[j];
    if LastRelevant(short, i) {
      forall j: nat | Shift(n, i) < j < |long| ensures !Relevant(long[j]) {
        if j != n {
          var k := if j < n then j else j - 1;
          assert j == Shift(n, k) && i < k;
        }
      }
    }
    if LastRelevant(long, Shift(n, i)) {
      forall j: nat | i < j < |short| ensures !Relevant(short[j]) {
        assert Shift(n, i) < Shift(n, j) < |long|;
      }
    }
  }

  /** An event of another kind or another label, anywhere, never changes the answer. */
  lemma UnrelatedEventsDoNotMatter(labels: set<string>, head: seq<Event>, e: Event, tail: seq<Event>,
                                   operators: seq<string>)
    requires !Relevant(e)
    ensures Authorized(labels, head + [e] + tail, operators) <==> Authorized(labels, head + tail, operators)
  {
    hide Relevant, IsOperator;
    var long, short, n := head + [e] + tail, head + tail, |head|;
    if Authorized(labels, short, operators) {
      var i: nat :| LastRelevant(short, i) && short[i].kind == "labeled" && IsOperator(short[i].actor, operators);
      LastIsShifted(head, e, tail, i);
    }
    if Authorized(labels, long, operators) {
      var k: nat :| LastRelevant(long, k) && long[k].kind == "labeled" && IsOperator(long[k].actor, operators);
      assert k != n;
      var i := if k < n then k else k - 1;
      LastIsShifted(head, e, tail, i);
    }
  }

  /** An event about the approval label. */
  predicate AboutLabel(e: Event) {
    e.label_ == Some("ci-cost-approved") && e.kind in {"labeled", "unlabeled"}
  }

  /** A human whose login, in lower case, is that of a configured operator and no bot's. */
  ghost predicate HumanOperator(actor: Actor, operators: seq<string>) {
    && actor.Actor? && actor.kind == "User"
    && (forall head :: Lower(actor.login) != head + "[bot]")
    && exists o :: o in operators && Lower(o) == Lower(actor.login)
  }

  lemma OperatorExactly(actor: Actor, operators: seq<string>)
    ensures IsOperator(actor, operators) <==> HumanOperator(actor, operators)
  {
    if actor.Actor? {
      var low := Lower(actor.login);
      if EndsWith(low, "[bot]") {
        assert low == low[..|low| - 5] + "[bot]";
      }
      if head :| low == head + "[bot]" {
        assert low[|low| - 5..] == "[bot]";
      }
      if o :| o in operators && Lower(o) == low {
        var i :| 0 <= i < |operators| && operators[i] == o;
      }
      hide Lower, EndsWith;
    }
  }

  /** EXACT APPROVAL. The label is present, and of the events about it the last is a
      labeling by a configured human operator. */
  lemma AuthorizedExactly(labels: set<string>, timeline: seq<Event>, operators: seq<string>)
    ensures Authorized(labels, timeline, operators) <==>
            "ci-cost-approved" in labels &&
            exists i :: 0 <= i < |timeline| && AboutLabel(timeline[i]) && timeline[i].kind == "labeled" &&
              HumanOperator(timeline[i].actor, operators) &&
              forall j :: i < j < |timeline| ==> !AboutLabel(timeline[j])
  {
    assert forall e :: Relevant(e) <==> AboutLabel(e);
    forall i | 0 <= i < |timeline|
      ensures IsOperator(timeline[i].actor, operators) <==> HumanOperator(timeline[i].actor, operators)
    {
      OperatorExactly(timeline[i].actor, operators);
    }
    hide Relevant, AboutLabel, IsOperator, HumanOperator;
    if i :| 0 <= i < |timeline| && AboutLabel(timeline[i]) && timeline[i].kind == "labeled" &&
            HumanOperator(timeline[i].actor, operators) && forall j :: i < j < |timeline| ==> !AboutLabel(timeline[j]) {
      assert LastRelevant(timeline, i);
    }
  }
}
