/** The evidence that the transport rewrites before an account is selected: the
    primary reserve refusal and the locally known exhausted accounts. */
module LeaseSelection {
  import opened Common

  datatype Reserve = NoReserve | Reserve(state: Option<string>)

  datatype Quota = Quota(state: string, generation: int)

  /** The evidence about one account; `rest` stands for the components never written. */
  datatype Evidence = Evidence(reserve: Reserve, quota: Option<Quota>, rest: string)

  type Snapshot = map<string, Evidence>

  datatype Selection = Selection(status: string, account: string)

  /** `floorActive` is the reserve policy being active or near its cap; `claude` tells
      the accounts of the Claude Code provider. */
  datatype Request = Request(family: string, taskKind: string, floorActive: bool, pool: seq<string>,
                             claude: string -> bool,
                             blocked: seq<string>, unknown: seq<string>, generation: int)

  predicate PrimaryGate(r: Request) {
    r.family == "claude" && r.taskKind == "review" && r.floorActive
  }

  /** The gate refuses this account of the pool: it has a reserve that is not paused. */
  predicate Refuses(r: Request, snapshot: Snapshot, account: string) {
    && PrimaryGate(r) && account in r.pool && r.claude(account) && account in snapshot
    && snapshot[account].reserve.Reserve? && snapshot[account].reserve.state != Some("paused")
  }

  predicate Listed(r: Request, account: string) {
    account in r.blocked || account in r.unknown
  }

  /** The evidence of one account after both loops. */
  function Adjusted(r: Request, snapshot: Snapshot, account: string): Evidence
    requires account in snapshot
  {
    var e := snapshot[account];
    e.(reserve := if Refuses(r, snapshot, account) then Reserve(Some("floor-refused")) else e.reserve,
       quota := if Listed(r, account) then
                  Some(Quota(if account in r.unknown then "unknown" else "exhausted", r.generation))
                else e.quota)
  }

  function AdjustedSnapshot(r: Request, snapshot: Snapshot): Snapshot {
    map account | account in snapshot :: Adjusted(r, snapshot, account)
  }

  predicate Reselects(r: Request, snapshot: Snapshot) {
    (exists account :: account in r.pool && Refuses(r, snapshot, account)) || r.blocked != [] || r.unknown != []
  }

  /** The loop over the pool of the identity. */
  method RefuseReserves(r: Request, snapshot: Snapshot) returns (after: Snapshot, refused: bool)
    ensures after.Keys == snapshot.Keys
    ensures forall account :: account in snapshot ==> after[account] == snapshot[account].(
              reserve := if Refuses(r, snapshot, account) then Reserve(Some("floor-refused"))
                         else snapshot[account].reserve)
    ensures refused <==> exists account :: account in r.pool && Refuses(r, snapshot, account)
  {
    after, refused := snapshot, false;
    if !PrimaryGate(r) { return; }
    for i := 0 to |r.pool|
      invariant after.Keys == snapshot.Keys
      invariant forall account :: account in snapshot ==> after[account] == snapshot[account].(
                  reserve := if account in r.pool[..i] && Refuses(r, snapshot, account)
                             then Reserve(Some("floor-refused"))
                             else snapshot[account].reserve)
      invariant refused <==> exists account :: account in r.pool[..i] && Refuses(r, snapshot, account)
    {
      var account := r.pool[i];
      assert r.pool[..i + 1] == r.pool[..i] + [account];
      if r.claude(account) && account in after && after[account].reserve.Reserve? &&
         after[account].reserve.state != Some("paused") {
        after := after[account := after[account].(reserve := Reserve(Some("floor-refused")))];
        refused := true;
      }
    }
    assert r.pool[..|r.pool|] == r.pool;
  }

  /** The loop over the locally exhausted and unknown accounts. */
  method MarkExhausted(r: Request, snapshot: Snapshot) returns (after: Snapshot)
    ensures after.Keys == snapshot.Keys
    ensures forall account :: account in snapshot ==> after[account] == snapshot[account].(
              quota := if Listed(r, account) then
                         Some(Quota(if account in r.unknown then "unknown" else "exhausted", r.generation))
                       else snapshot[account].quota)
  {
    after := snapshot;
    var accounts := r.blocked + r.unknown;
    for i := 0 to |accounts|
      invariant after.Keys == snapshot.Keys
      invariant forall account :: account in snapshot ==> after[account] == snapshot[account].(
                  quota := if account in accounts[..i]
                           then Some(Quota(if account in r.unknown then "unknown" else "exhausted", r.generation))
                           else snapshot[account].quota)
    {
      assert accounts[..i + 1] == accounts[..i] + [accounts[i]];
      if accounts[i] in after {
        var state := if accounts[i] in r.unknown then "unknown" else "exhausted";
        after := after[accounts[i] := after[accounts[i]].(quota := Some(Quota(state, r.generation)))];
      }
    }
    assert accounts[..|accounts|] == accounts;
  }

  /** From the proposal to the final selection: the proposal's own result stands
      unless some evidence had to be rewritten. */
  method FinalSelection(r: Request, snapshot: Snapshot, proposed: Selection, select: Snapshot -> Selection)
    returns (result: Selection, evidence: Snapshot)
    ensures evidence == AdjustedSnapshot(r, snapshot)
    ensures result == if Reselects(r, snapshot) then select(AdjustedSnapshot(r, snapshot)) else proposed
  {
    var refused;
    evidence, refused := RefuseReserves(r, snapshot);
    result := proposed;
    if refused || r.blocked != [] || r.unknown != [] {
      evidence := MarkExhausted(r, evidence);
      assert evidence == AdjustedSnapshot(r, snapshot);
      result := select(evidence);
    }
    assert evidence == AdjustedSnapshot(r, snapshot);
  }

  /** A proposal that stands was made on evidence that needed no rewriting, so that
      every selection is the selection of the adjusted evidence. */
  lemma StandingProposalSawTheSameEvidence(r: Request, snapshot: Snapshot)
    requires !Reselects(r, snapshot)
    ensures AdjustedSnapshot(r, snapshot) == snapshot
  {
    forall account | account in snapshot ensures Adjusted(r, snapshot, account) == snapshot[account] {
      assert !Refuses(r, snapshot, account) && !Listed(r, account);
    }
  }

  /** Rewriting is stable, keeps paused reserves, and touches listed accounts only. */
  lemma RewritingIsStable(r: Request, snapshot: Snapshot)
    ensures AdjustedSnapshot(r, AdjustedSnapshot(r, snapshot)) == AdjustedSnapshot(r, snapshot)
    ensures forall account :: account in snapshot && snapshot[account].reserve == Reserve(Some("paused")) ==>
              AdjustedSnapshot(r, snapshot)[account].reserve == Reserve(Some("paused"))
    ensures forall account :: account in snapshot && account !in r.pool + r.blocked + r.unknown ==>
              AdjustedSnapshot(r, snapshot)[account] == snapshot[account]
  {
    var once := AdjustedSnapshot(r, snapshot);
    forall account | account in snapshot ensures Adjusted(r, once, account) == once[account] {
      assert Refuses(r, once, account) <==> Refuses(r, snapshot, account);
    }
  }

  /** EXACT REWRITING. A reserve becomes refused exactly for a Claude review whose reserve
      policy is active, on an account of the pool at the Claude Code provider with a
      reserve that is not paused; a quota becomes unknown or exhausted exactly as listed;
      nothing else changes. */
  lemma RewritingExactly(r: Request, snapshot: Snapshot, account: string)
    requires account in snapshot
    ensures var was, now := snapshot[account], AdjustedSnapshot(r, snapshot)[account];
            && now.rest == was.rest
            && now.reserve == (
                 if r.family == "claude" && r.taskKind == "review" && r.floorActive && account in r.pool &&
                    r.claude(account) && was.reserve != NoReserve && was.reserve != Reserve(Some("paused"))
                 then Reserve(Some("floor-refused")) else was.reserve)
            && now.quota == (
                 if account in r.unknown then Some(Quota("unknown", r.generation))
                 else if account in r.blocked then Some(Quota("exhausted", r.generation)) else was.quota)
  {
  }

  /** EXACT RESELECTION. The proposal is made again exactly when some account is listed or
      some reserve is refused. */
  lemma ReselectsExactly(r: Request, snapshot: Snapshot)
    ensures Reselects(r, snapshot) <==>
            r.blocked != [] || r.unknown != [] ||
            (r.family == "claude" && r.taskKind == "review" && r.floorActive &&
             exists account :: account in r.pool && account in snapshot && r.claude(account) &&
               snapshot[account].reserve !in {NoReserve, Reserve(Some("paused"))})
  {
    if account :| account in r.pool && account in snapshot && r.claude(account) &&
                  snapshot[account].reserve !in {NoReserve, Reserve(Some("paused"))} {
      assert PrimaryGate(r) ==> Refuses(r, snapshot, account);
    }
    if account :| account in r.pool && Refuses(r, snapshot, account) {
      assert snapshot[account].reserve !in {NoReserve, Reserve(Some("paused"))};
    }
  }
}
