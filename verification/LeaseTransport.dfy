/** The reviewer transport to the execution-lease broker: what each call does to the
    broker, what the caller is told, and what holds after any run of calls. */
module LeaseTransport {
  import opened Common

  /* ---- calls and their outcomes ---- */

  datatype Lease = Lease(id: nat, requestId: string, identity: string, account: string)

  datatype Selection = Selected(account: string) | NotSelected

  /** What the broker does with an acquire: nothing is granted and the reply is empty
      or the client raises, or a lease is granted and the reply arrives or is lost. */
  datatype Grant = Refused | Raised | Granted(replied: bool)

  /** What a release does at the broker and what is answered. A broker that answers
      positively has dropped the lease; a drop may still be answered with an error. */
  datatype ReleaseOutcome = ReleaseOutcome(dropped: bool, positive: bool)
  type Release = r: ReleaseOutcome | r.positive ==> r.dropped witness ReleaseOutcome(false, false)

  /** One call of the transport with everything that its surroundings decide:
      `serializes` says that the response can be printed as JSON, `printed` that it
      reaches the caller; `diagnosed` that the broker lists its leases. `Expire` is the
      broker dropping a lease on its own. */
  datatype Call =
    | Propose(serializes: bool, printed: bool)
    | Acquire(requestId: string, identity: string, selection: Selection, grant: Grant, serializes: bool,
              release: Release, printed: bool)
    | RenewLease(lease: Lease, positive: bool, printed: bool)
    | ReleaseLease(lease: Lease, release: Release, printed: bool)
    | Recover(requestId: string, identity: string, diagnosed: bool, printed: bool)
    | Expire(id: nat)

  datatype Reply = Response(lease: Option<Lease>) | Done | Held(reason: string) | Error | NoReply

  /** The broker's active leases and next lease number, and the history of the leases:
      handed to a caller, release attempted after a failed response, reply or response lost. */
  datatype World = World(active: seq<Lease>, nextId: nat, delivered: set<nat>, attempted: set<nat>, lost: set<nat>)

  const START := World([], 0, {}, {}, {})

  /* ---- the specification of one call ---- */

  function Without(leases: seq<Lease>, id: nat): (rest: seq<Lease>)
    ensures forall l :: l in rest <==> l in leases && l.id != id
    ensures |rest| <= |leases|
  {
    if leases == [] then []
    else
      var rest, last := Without(leases[..|leases| - 1], id), leases[|leases| - 1];
      if last.id == id then rest else rest + [last]
  }

  function Told(reply: Reply, printed: bool): Reply {
    if printed then reply else NoReply
  }

  function Matching(leases: seq<Lease>, requestId: string): (matches: seq<Lease>)
    ensures forall l :: l in matches <==> l in leases && l.requestId == requestId
    ensures |matches| <= |leases|
  {
    if leases == [] then []
    else
      var rest, last := Matching(leases[..|leases| - 1], requestId), leases[|leases| - 1];
      if last.requestId == requestId then rest + [last] else rest
  }

  /** The answer of `recover`. */
  function Recovered(w: World, requestId: string, identity: string): Reply {
    var matches := Matching(w.active, requestId);
    if |matches| > 1 || exists i :: 0 <= i < |matches| && matches[i].identity != identity then Error
    else Response(if matches == [] then None else Some(matches[0]))
  }

  function AfterAcquire(w: World, c: Call): (World, Reply)
    requires c.Acquire?
  {
    if c.selection.NotSelected? then (w, if c.serializes then Response(None) else Held("evidence-unknown"))
    else
      match c.grant
      case Refused => (w, Held("capacity-saturated"))
      case Raised => (w, Held("evidence-unknown"))
      case Granted(replied) =>
        var lease := Lease(w.nextId, c.requestId, c.identity, c.selection.account);
        var granted := w.(active := w.active + [lease], nextId := w.nextId + 1);
        if !replied then (granted.(lost := w.lost + {lease.id}), Held("evidence-unknown"))
        else if !c.serializes then
          (granted.(attempted := w.attempted + {lease.id},
                    active := if c.release.dropped then Without(granted.active, lease.id) else granted.active),
           Held("evidence-unknown"))
        else if c.printed then (granted.(delivered := w.delivered + {lease.id}), Response(Some(lease)))
        else (granted.(lost := w.lost + {lease.id}), Response(Some(lease)))
  }

  /** One call: the world after it and what the caller is told. */
  function Step(w: World, c: Call): (World, Reply) {
    match c
    case Propose(serializes, printed) =>
      (w, Told(if serializes then Response(None) else Held("evidence-unknown"), printed))
    case Acquire(_, _, _, _, _, _, printed) => var (after, reply) := AfterAcquire(w, c); (after, Told(reply, printed))
    case RenewLease(_, positive, printed) => (w, Told(if positive then Done else Error, printed))
    case ReleaseLease(lease, release, printed) =>
      (w.(active := if release.dropped then Without(w.active, lease.id) else w.active),
       Told(if release.positive then Done else Error, printed))
    case Recover(requestId, identity, diagnosed, printed) =>
      var reply := if diagnosed then Recovered(w, requestId, identity) else Error;
      (if printed && reply.Response? && reply.lease.Some?
       then w.(delivered := w.delivered + {reply.lease.value.id}) else w,
       Told(reply, printed))
    case Expire(id) => (w.(active := Without(w.active, id)), NoReply)
  }

  function Run(calls: seq<Call>): World {
    if calls == [] then START else Step(Run(calls[..|calls| - 1]), calls[|calls| - 1]).0
  }

  /* ---- the implementation: `execute` and its wrapper ---- */

  /** Raised stands for any exception that leaves `execute`. */
  datatype Executed = Returned(reply: Reply) | Raised

  class Broker {
    var active: seq<Lease>
    var nextId: nat
    ghost var delivered: set<nat>
    ghost var attempted: set<nat>
    ghost var lost: set<nat>

    ghost function State(): World reads this {
      World(active, nextId, delivered, attempted, lost)
    }

    constructor ()
      ensures State() == START
    {
      active, nextId := [], 0;
      delivered, attempted, lost := {}, {}, {};
    }

    /** `client.acquire`. */
    method AcquireLease(requestId: string, identity: string, account: string, grant: Grant)
      returns (lease: Option<Lease>, raised: bool)
      modifies this
      ensures raised <==> grant.Raised? || (grant.Granted? && !grant.replied)
      ensures lease.Some? <==> grant.Granted? && grant.replied
      ensures lease.Some? ==> lease.value == Lease(old(nextId), requestId, identity, account)
      ensures State() ==
              if grant.Granted?
              then old(State()).(active := old(active) + [Lease(old(nextId), requestId, identity, account)],
                                 nextId := old(nextId) + 1,
                                 lost := old(lost) + if grant.replied then {} else {old(nextId)})
              else old(State())
    {
      if !grant.Granted? { return None, grant.Raised?; }
      var granted := Lease(nextId, requestId, identity, account);
      active, nextId := active + [granted], nextId + 1;
      if !grant.replied {
        lost := lost + {granted.id};
        return None, true;
      }
      return Some(granted), false;
    }

    /** `client.release`. */
    method Drop(lease: Lease, release: Release) returns (positive: bool)
      modifies this
      ensures positive == release.positive
      ensures State() == old(State()).(
                active := if release.dropped then Without(old(active), lease.id) else old(active))
    {
      if release.dropped {
        active := Without(active, lease.id);
      }
      return release.positive;
    }

    /** `execute` of `recover`; `diagnosed` is false when the diagnostics call raises. */
    method RecoverLease(requestId: string, identity: string, diagnosed: bool) returns (executed: Executed)
      ensures executed == if !diagnosed || Recovered(State(), requestId, identity) == Error then Executed.Raised
                          else Returned(Recovered(State(), requestId, identity))
    {
      if !diagnosed { return Executed.Raised; }
      var matches := Matching(active, requestId);
      if |matches| > 1 || exists i :: 0 <= i < |matches| && matches[i].identity != identity { return Executed.Raised; }
      return Returned(Response(if matches == [] then None else Some(matches[0])));
    }

    /** `execute` of the selecting operations, from the final selection on. */
    method Select(c: Call) returns (executed: Executed, ghost id: Option<nat>)
      requires c.Propose? || c.Acquire?
      modifies this
      ensures id.Some? <==> executed.Returned? && executed.reply.Response? && executed.reply.lease.Some?
      ensures id.Some? ==> id.value == executed.reply.lease.value.id
      ensures c.Propose? ==> State() == old(State())
      ensures c.Propose? ==> executed == (if c.serializes then Returned(Response(None)) else Executed.Raised)
      ensures c.Acquire? ==>
              var (after, reply) := AfterAcquire(old(State()), c);
              && State().(delivered := {}, lost := {}) == after.(delivered := {}, lost := {})
              && State().delivered == old(delivered)
              && (id.None? ==> State().lost == after.lost && after.delivered == old(delivered))
              && (id.Some? ==> State().lost == old(lost))
              && executed == if reply == Held("evidence-unknown") then Executed.Raised else Returned(reply)
    {
      id := None;
      var lease: Option<Lease> := None;
      if c.Acquire? && c.selection.Selected? {
        var raised;
        lease, raised := AcquireLease(c.requestId, c.identity, c.selection.account, c.grant);
        if raised { return Executed.Raised, None; }
        if lease.None? { return Returned(Held("capacity-saturated")), None; }
      }
      if c.serializes {
        id := if lease.Some? then Some(lease.value.id) else None;
        return Returned(Response(lease)), id;
      }
      if lease.Some? {
        attempted := attempted + {lease.value.id};
        var positive := Drop(lease.value, c.release);
      }
      return Executed.Raised, None;
    }

    /** The wrapper around `execute`: it turns exceptions into held admissions or
        operation errors, and a reply that is not printed never arrives. */
    method Serve(c: Call) returns (reply: Reply)
      modifies this
      ensures (State(), reply) == Step(old(State()), c)
    {
      var executed, selecting := Executed.Raised, false;
      ghost var id: Option<nat> := None;
      match c {
        case Propose(_, _) =>
          executed, id := Select(c);
          selecting := true;
        case Acquire(_, _, _, _, _, _, _) =>
          executed, id := Select(c);
          selecting := true;
        case RenewLease(_, positive, _) =>
          executed := if positive then Returned(Done) else Executed.Raised;
        case ReleaseLease(lease, release, _) =>
          var positive := Drop(lease, release);
          executed := if positive then Returned(Done) else Executed.Raised;
        case Recover(requestId, identity, diagnosed, _) =>
          executed := RecoverLease(requestId, identity, diagnosed);
          id := if executed.Returned? && executed.reply.lease.Some? && c.printed
                then Some(executed.reply.lease.value.id) else None;
        case Expire(expired) =>
          active := Without(active, expired);
          return NoReply;
      }
      if id.Some? {
        if c.printed {
          delivered := delivered + {id.value};
        } else {
          lost := lost + {id.value};
        }
      }
      if !c.printed { return NoReply; }
      if executed.Raised? { return if selecting then Held("evidence-unknown") else Error; }
      return executed.reply;
    }
  }

  /* ---- what holds after every run ---- */

  /** Every active lease was handed to a caller, was released in vain, or lost its
      reply or response; lease numbers are unique. */
  ghost predicate Accounted(w: World) {
    && (forall l :: l in w.active ==> l.id in w.delivered + w.attempted + w.lost)
    && (forall l :: l in w.active ==> l.id < w.nextId)
    && (forall k, l :: k in w.active && l in w.active && k.id == l.id ==> k == l)
  }

  lemma StepAccounted(w: World, c: Call)
    requires Accounted(w)
    ensures Accounted(Step(w, c).0)
  {
    hide Recovered, Without, Matching;
    match c {
      case Acquire(_, _, _, _, _, _, _) => AcquireAccounted(w, c);
      case Recover(requestId, identity, diagnosed, printed) => RecoverAccounted(w, c);
      case _ =>
    }
  }

  lemma AcquireAccounted(w: World, c: Call)
    requires Accounted(w) && c.Acquire?
    ensures Accounted(AfterAcquire(w, c).0)
  {
    hide Without;
    var after := AfterAcquire(w, c).0;
    forall l | l in after.active ensures l.id in after.delivered + after.attempted + after.lost && l.id < after.nextId {
      if l in w.active {
        assert l.id in w.delivered + w.attempted + w.lost;
      }
    }
  }

  lemma RecoverAccounted(w: World, c: Call)
    requires Accounted(w) && c.Recover?
    ensures Accounted(Step(w, c).0)
  {
    hide Recovered;
    var after := Step(w, c).0;
    assert after.active == w.active && w.delivered <= after.delivered;
  }

  lemma {:induction false} RunAccounted(calls: seq<Call>)
    ensures Accounted(Run(calls))
  {
    hide Accounted, Step;
    if calls == [] {
      assert Accounted(START) by { StartAccounted(); }
    } else {
      RunAccounted(calls[..|calls| - 1]);
      StepAccounted(Run(calls[..|calls| - 1]), calls[|calls| - 1]);
    }
  }

  lemma StartAccounted()
    ensures Accounted(START)
  {
  }

  /** The acquire call that granted a lease: the broker never holds an account that
      no selection chose. */
  ghost predicate GrantedBy(c: Call, l: Lease) {
    c.Acquire? && c.grant.Granted? && c.requestId == l.requestId && c.identity == l.identity &&
      c.selection == Selected(l.account)
  }

  /** Why the lease of an acquire may still be active: its reply was lost, the release
      after a failed response was in vain, the response was lost, or the caller has it. */
  ghost predicate Explains(c: Call, reply: Reply, l: Lease) {
    GrantedBy(c, l) &&
    (!c.grant.replied || (!c.serializes && !c.release.dropped) || (c.serializes && !c.printed) ||
     reply == Response(Some(l)))
  }

  lemma StepExplains(w: World, c: Call, l: Lease)
    requires l in Step(w, c).0.active
    ensures l in w.active || Explains(c, Step(w, c).1, l)
  {
    hide Recovered;
  }

  /** NO UNEXPLAINED LEASE. After any run, every active lease comes from an acquire of
      the run that granted it and explains why it is still there. */
  lemma {:induction false} EveryLeaseIsExplained(calls: seq<Call>, l: Lease)
    requires l in Run(calls).active
    ensures exists i :: 0 <= i < |calls| && Explains(calls[i], Step(Run(calls[..i]), calls[i]).1, l)
  {
    hide Step, Explains;
    var init, last := calls[..|calls| - 1], calls[|calls| - 1];
    StepExplains(Run(init), last, l);
    if l in Run(init).active {
      EveryLeaseIsExplained(init, l);
      var i :| 0 <= i < |init| && Explains(init[i], Step(Run(init[..i]), init[i]).1, l);
      assert calls[i] == init[i] && calls[..i] == init[..i];
    }
  }

  lemma EveryLeaseWasGranted(calls: seq<Call>, l: Lease)
    requires l in Run(calls).active
    ensures exists i :: 0 <= i < |calls| && GrantedBy(calls[i], l)
  {
    hide Step, Run, GrantedBy;
    EveryLeaseIsExplained(calls, l);
    var i :| 0 <= i < |calls| && Explains(calls[i], Step(Run(calls[..i]), calls[i]).1, l);
  }

  /** No two acquires of a run use one request id. */
  ghost predicate FreshRequests(calls: seq<Call>) {
    forall i, j :: 0 <= i < j < |calls| && calls[i].Acquire? && calls[j].Acquire? ==>
      calls[i].requestId != calls[j].requestId
  }

  /** Each request id has at most one active lease. */
  ghost predicate OnePerRequest(active: seq<Lease>) {
    forall i, j :: 0 <= i < j < |active| ==> active[i].requestId != active[j].requestId
  }

  lemma {:induction false} WithoutKeepsOne(leases: seq<Lease>, id: nat)
    requires OnePerRequest(leases)
    ensures OnePerRequest(Without(leases, id))
  {
    if leases != [] {
      var init, last := leases[..|leases| - 1], leases[|leases| - 1];
      WithoutKeepsOne(init, id);
      assert forall l :: l in Without(init, id) ==> l in init;
    }
  }

  lemma StepKeepsOne(w: World, c: Call)
    requires OnePerRequest(w.active)
    requires c.Acquire? ==> forall l :: l in w.active ==> l.requestId != c.requestId
    ensures OnePerRequest(Step(w, c).0.active)
  {
    hide Recovered, Without;
    match c
    case Acquire(requestId, identity, selection, grant, _, _, _) =>
      if selection.Selected? && grant.Granted? {
        var lease := Lease(w.nextId, requestId, identity, selection.account);
        assert OnePerRequest(w.active + [lease]);
        WithoutKeepsOne(w.active + [lease], lease.id);
      }
    case ReleaseLease(lease, _, _) => WithoutKeepsOne(w.active, lease.id);
    case Expire(id) => WithoutKeepsOne(w.active, id);
    case _ =>
  }

  lemma {:induction false} FreshRunKeepsOne(calls: seq<Call>)
    requires FreshRequests(calls)
    ensures OnePerRequest(Run(calls).active)
  {
    hide Step, OnePerRequest, GrantedBy;
    if calls == [] {
      assert OnePerRequest([]) by { NothingActive(); }
    } else {
      var init, last := calls[..|calls| - 1], calls[|calls| - 1];
      FreshRunKeepsOne(init);
      if last.Acquire? {
        forall l | l in Run(init).active ensures l.requestId != last.requestId {
          EveryLeaseWasGranted(init, l);
          var i :| 0 <= i < |init| && GrantedBy(init[i], l);
          GrantNames(init[i], l);
          assert calls[i] == init[i];
        }
      }
      StepKeepsOne(Run(init), last);
    }
  }

  lemma NothingActive()
    ensures OnePerRequest([])
  {
  }

  lemma GrantNames(c: Call, l: Lease)
    requires GrantedBy(c, l)
    ensures c.Acquire? && c.requestId == l.requestId
  {
  }

  lemma {:induction false} OneMatch(active: seq<Lease>, requestId: string)
    requires OnePerRequest(active)
    ensures |Matching(active, requestId)| <= 1
  {
    if active != [] {
      var init, last := active[..|active| - 1], active[|active| - 1];
      OneMatch(init, requestId);
      assert forall l :: l in Matching(init, requestId) ==> l in init && l.requestId == requestId;
      assert Matching(init, requestId) != [] ==> Matching(init, requestId)[0] in Matching(init, requestId);
    }
  }

  /** RECOVERY after any run with unique request ids: the lease of the request when it
      is active under the same identity, nothing when none is active, an error when it
      belongs to another identity. */
  lemma RecoverExactly(calls: seq<Call>, requestId: string, identity: string)
    requires FreshRequests(calls)
    ensures forall l :: l in Run(calls).active && l.requestId == requestId ==>
              Recovered(Run(calls), requestId, identity) == if l.identity == identity then Response(Some(l)) else Error
    ensures (forall l :: l in Run(calls).active ==> l.requestId != requestId) ==>
              Recovered(Run(calls), requestId, identity) == Response(None)
  {
    hide Run, FreshRequests;
    var w := Run(calls);
    FreshRunKeepsOne(calls);
    OneMatch(w.active, requestId);
    var matches := Matching(w.active, requestId);
    hide Matching, OnePerRequest;
    if matches != [] {
      assert matches[0] in matches;
    }
  }

  /** Without that uniqueness the answer is an error exactly when several leases of
      the request are active or one of them has another identity. */
  lemma RecoverRefusesAmbiguity(w: World, requestId: string, identity: string)
    ensures Recovered(w, requestId, identity) == Error <==>
            |Matching(w.active, requestId)| > 1 ||
            exists l :: l in w.active && l.requestId == requestId && l.identity != identity
  {
    hide Matching;
    var matches := Matching(w.active, requestId);
    if exists l :: l in w.active && l.requestId == requestId && l.identity != identity {
      var l :| l in w.active && l.requestId == requestId && l.identity != identity;
      assert l in matches;
    }
    if exists i :: 0 <= i < |matches| && matches[i].identity != identity {
      var i :| 0 <= i < |matches| && matches[i].identity != identity;
      assert matches[i] in matches;
    }
  }

  /** Recovering the orphan of a request and releasing it, whatever the release does:
      either no lease of the request is left, or recovery still returns the same one.
      A positive answer means the former. */
  lemma RecoverThenRelease(calls: seq<Call>, l: Lease, release: Release)
    requires FreshRequests(calls) && l in Run(calls).active
    ensures var recovered := Step(Run(calls), Recover(l.requestId, l.identity, true, true));
            && recovered.1 == Response(Some(l))
            && var after := Step(recovered.0, ReleaseLease(l, release, true));
               && after.1 == (if release.positive then Done else Error)
               && (if release.dropped then forall k :: k in after.0.active ==> k.requestId != l.requestId
                   else Recovered(after.0, l.requestId, l.identity) == Response(Some(l)))
  {
    RecoverExactly(calls, l.requestId, l.identity);
    FreshRunKeepsOne(calls);
    hide Run;
    var w := Run(calls);
    forall k | k in w.active && k.requestId == l.requestId ensures k == l {
      var i :| 0 <= i < |w.active| && w.active[i] == k;
      var j :| 0 <= j < |w.active| && w.active[j] == l;
    }
  }

  /* ---- what each call tells ---- */

  /** What the caller of a selecting call is told, if the response is printed. */
  lemma AcquireTells(w: World, c: Call)
    requires c.Acquire?
    ensures var (after, reply) := Step(w, c);
            if c.selection.NotSelected? then
              after == w && reply == if !c.printed then NoReply
                                     else if c.serializes then Response(None) else Held("evidence-unknown")
            else if !c.grant.Granted? then
              after == w && reply == if !c.printed then NoReply
                                     else if c.grant.Raised? then Held("evidence-unknown")
                                     else Held("capacity-saturated")
            else
              var lease := Lease(w.nextId, c.requestId, c.identity, c.selection.account);
              && after.nextId == w.nextId + 1
              && reply == (if !c.printed then NoReply
                           else if c.grant.replied && c.serializes then Response(Some(lease))
                           else Held("evidence-unknown"))
              && forall l :: l in after.active <==>
                   (l in w.active || l == lease) &&
                   !(c.grant.replied && !c.serializes && c.release.dropped && l.id == lease.id)
  {
  }

  /** What the other calls do and tell: a proposal and a renewal change nothing, a release
      or an expiry drops the leases of one number, and a recovery only reads. */
  lemma OthersTell(w: World, c: Call)
    requires !c.Acquire?
    ensures var (after, reply) := Step(w, c);
            && after.nextId == w.nextId && after.attempted == w.attempted && after.lost == w.lost
            && match c
               case Propose(serializes, printed) =>
                 after == w && reply == if !printed then NoReply
                                        else if serializes then Response(None) else Held("evidence-unknown")
               case RenewLease(_, positive, printed) =>
                 after == w && reply == if !printed then NoReply else if positive then Done else Error
               case ReleaseLease(lease, release, printed) =>
                 && (forall l :: l in after.active <==> l in w.active && !(release.dropped && l.id == lease.id))
                 && reply == if !printed then NoReply else if release.positive then Done else Error
               case Recover(requestId, identity, diagnosed, printed) =>
                 && after.active == w.active
                 && reply == if !printed then NoReply
                             else if !diagnosed then Error else Recovered(w, requestId, identity)
               case Expire(id) =>
                 (forall l :: l in after.active <==> l in w.active && l.id != id) && reply == NoReply
  {
  }
}
