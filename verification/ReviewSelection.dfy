/** Which review decides: the newest submitted authoritative review on the reviewed
    head, its verdict and its findings (`buildReviewState`). */
module ReviewSelection {
  import opened Common
  import opened JsText

  /** A review with the empty string for a missing field. */
  datatype Review = Review(state: string, author: string, commit: string, submittedAt: string, body: string)

  const SUBMITTED_STATES := {"APPROVED", "CHANGES_REQUESTED", "COMMENTED", "DISMISSED"}
  const BOT := "[bot]"

  function NormalizeLogin(login: string): string {
    var low := Lower(Trim(login));
    if |low| >= |BOT| && low[|low| - |BOT|..] == BOT then low[..|low| - |BOT|] else low
  }

  /** `isAuthoritativeReview`. */
  predicate Authoritative(r: Review, sha: string, logins: set<string>) {
    r.submittedAt != "" && r.commit == sha && Upper(r.state) in SUBMITTED_STATES && NormalizeLogin(r.author) in logins
  }

  function Filtered(reviews: seq<Review>, sha: string, logins: set<string>): (kept: seq<Review>)
    ensures forall r :: r in kept <==> r in reviews && Authoritative(r, sha, logins)
  {
    if reviews == [] then []
    else
      var rest, last := Filtered(reviews[..|reviews| - 1], sha, logins), reviews[|reviews| - 1];
      if Authoritative(last, sha, logins) then rest + [last] else rest
  }

  /** Insertion behind all elements that are not older: the stable descending sort.
      `rank` is the order of `localeCompare` on submission times. */
  function Insert(sorted: seq<Review>, r: Review, rank: string -> int): seq<Review> {
    if sorted == [] || rank(sorted[|sorted| - 1].submittedAt) >= rank(r.submittedAt) then sorted + [r]
    else Insert(sorted[..|sorted| - 1], r, rank) + [sorted[|sorted| - 1]]
  }

  function Sorted(reviews: seq<Review>, rank: string -> int): seq<Review> {
    if reviews == [] then [] else Insert(Sorted(reviews[..|reviews| - 1], rank), reviews[|reviews| - 1], rank)
  }

  /** The review that decides, if there is one. */
  function Selected(reviews: seq<Review>, sha: string, logins: set<string>, rank: string -> int): Option<Review> {
    var sorted := if logins != {} then Sorted(Filtered(reviews, sha, logins), rank) else [];
    if sorted == [] then None else Some(sorted[0])
  }

  /** The findings: unknown, or what the classifier reads off the body and verdict. */
  datatype Findings = UnknownFindings | Classified(summary: string)

  datatype ReviewState = ReviewState(verdict: string, findings: Findings)

  /** Verdict and findings of the deciding review; `verdictOf` is the structured verdict
      of a body and `classify` the blocker classifier. */
  function StateOf(selected: Option<Review>, verdictOf: string -> string, classify: (string, string) -> string)
    : ReviewState
  {
    if selected.None? then ReviewState("", UnknownFindings)
    else
      var body := selected.value.body;
      var verdict := if verdictOf(body) == "unknown" then "" else verdictOf(body);
      ReviewState(verdict, if verdict == "" then UnknownFindings else Classified(classify(body, verdict)))
  }

  function BuildReviewState(reviews: seq<Review>, sha: string, logins: set<string>, rank: string -> int,
                            verdictOf: string -> string, classify: (string, string) -> string): ReviewState {
    StateOf(Selected(reviews, sha, logins, rank), verdictOf, classify)
  }

  /* ---- sorting ---- */

  ghost predicate Descending(s: seq<Review>, rank: string -> int) {
    forall i, j :: 0 <= i < j < |s| ==> rank(s[i].submittedAt) >= rank(s[j].submittedAt)
  }

  lemma {:induction false} InsertIsPermutation(sorted: seq<Review>, r: Review, rank: string -> int)
    ensures multiset(Insert(sorted, r, rank)) == multiset(sorted + [r])
  {
    if sorted != [] && rank(sorted[|sorted| - 1].submittedAt) < rank(r.submittedAt) {
      var init, last := sorted[..|sorted| - 1], sorted[|sorted| - 1];
      InsertIsPermutation(init, r, rank);
      assert sorted == init + [last];
    }
  }

  /** Every element of the list is at least as new as `bound`. */
  ghost predicate AllSince(s: seq<Review>, bound: int, rank: string -> int) {
    forall i :: 0 <= i < |s| ==> rank(s[i].submittedAt) >= bound
  }

  lemma {:induction false} InsertSorts(sorted: seq<Review>, r: Review, rank: string -> int)
    requires Descending(sorted, rank)
    ensures Descending(Insert(sorted, r, rank), rank)
    ensures forall bound :: AllSince(sorted, bound, rank) && rank(r.submittedAt) >= bound ==>
            AllSince(Insert(sorted, r, rank), bound, rank)
  {
    if sorted != [] && rank(sorted[|sorted| - 1].submittedAt) < rank(r.submittedAt) {
      var init, last := sorted[..|sorted| - 1], sorted[|sorted| - 1];
      InsertSorts(init, r, rank);
      assert AllSince(init, rank(last.submittedAt), rank);
      assert AllSince(Insert(init, r, rank), rank(last.submittedAt), rank);
    }
  }

  /** The sorted list has the same reviews, newest first. */
  lemma {:induction false} SortedSorts(reviews: seq<Review>, rank: string -> int)
    ensures Descending(Sorted(reviews, rank), rank) && multiset(Sorted(reviews, rank)) == multiset(reviews)
  {
    if reviews != [] {
      var init, last := reviews[..|reviews| - 1], reviews[|reviews| - 1];
      SortedSorts(init, rank);
      InsertSorts(Sorted(init, rank), last, rank);
      InsertIsPermutation(Sorted(init, rank), last, rank);
      hide Insert, Descending;
      assert reviews == init + [last];
    }
  }

  /* ---- the newest review decides ---- */

  /** Position `i` holds the newest authoritative review; of equally new ones the first. */
  ghost predicate Newest(reviews: seq<Review>, sha: string, logins: set<string>, rank: string -> int, i: nat) {
    && i < |reviews| && Authoritative(reviews[i], sha, logins)
    && (forall j :: 0 <= j < i && Authoritative(reviews[j], sha, logins) ==>
          rank(reviews[j].submittedAt) < rank(reviews[i].submittedAt))
    && (forall j :: i < j < |reviews| && Authoritative(reviews[j], sha, logins) ==>
          rank(reviews[j].submittedAt) <= rank(reviews[i].submittedAt))
  }

  lemma InsertHead(sorted: seq<Review>, r: Review, rank: string -> int)
    requires Descending(sorted, rank)
    ensures Insert(sorted, r, rank) != []
    ensures Insert(sorted, r, rank)[0] ==
            if sorted != [] && rank(sorted[0].submittedAt) >= rank(r.submittedAt) then sorted[0] else r
  {
    if sorted != [] && rank(sorted[|sorted| - 1].submittedAt) < rank(r.submittedAt) {
      var init := sorted[..|sorted| - 1];
      InsertHead(init, r, rank);
    }
  }

  /** The position that a scan from the left settles on, or -1. */
  ghost function BestIndex(reviews: seq<Review>, sha: string, logins: set<string>, rank: string -> int): (b: int)
    ensures -1 <= b < |reviews|
  {
    if reviews == [] then -1
    else
      var n := |reviews| - 1;
      var b := BestIndex(reviews[..n], sha, logins, rank);
      if !Authoritative(reviews[n], sha, logins) then b
      else if b >= 0 && rank(reviews[b].submittedAt) >= rank(reviews[n].submittedAt) then b
      else n
  }

  lemma {:induction false} BestIndexIsNewest(reviews: seq<Review>, sha: string, logins: set<string>,
                                             rank: string -> int)
    ensures var b := BestIndex(reviews, sha, logins, rank);
            if b >= 0 then Newest(reviews, sha, logins, rank, b)
            else forall r :: r in reviews ==> !Authoritative(r, sha, logins)
  {
    hide Authoritative;
    if reviews != [] {
      BestIndexIsNewest(reviews[..|reviews| - 1], sha, logins, rank);
    }
  }

  lemma {:induction false} SelectedIsBest(reviews: seq<Review>, sha: string, logins: set<string>, rank: string -> int)
    ensures var b, sorted := BestIndex(reviews, sha, logins, rank), Sorted(Filtered(reviews, sha, logins), rank);
            if b >= 0 then sorted != [] && sorted[0] == reviews[b] else sorted == []
  {
    hide Authoritative, Insert;
    if reviews != [] {
      var n := |reviews| - 1;
      var kept := Filtered(reviews[..n], sha, logins);
      SelectedIsBest(reviews[..n], sha, logins, rank);
      SortedSorts(kept, rank);
      if Authoritative(reviews[n], sha, logins) {
        assert Filtered(reviews, sha, logins)[..|kept|] == kept;
        InsertHead(Sorted(kept, rank), reviews[n], rank);
      }
    }
  }

  lemma OneNewest(reviews: seq<Review>, sha: string, logins: set<string>, rank: string -> int, i: nat, j: nat)
    requires Newest(reviews, sha, logins, rank, i) && Newest(reviews, sha, logins, rank, j)
    ensures i == j
  {
    hide Authoritative;
  }

  /** The deciding review is exactly the newest authoritative one. */
  lemma NewestIsSelected(reviews: seq<Review>, sha: string, logins: set<string>, rank: string -> int)
    ensures Selected(reviews, sha, logins, rank).None? <==> forall r :: r in reviews ==> !Authoritative(r, sha, logins)
    ensures forall i: nat :: Newest(reviews, sha, logins, rank, i) ==>
            Selected(reviews, sha, logins, rank) == Some(reviews[i])
    ensures Selected(reviews, sha, logins, rank).Some? ==> exists i: nat :: Newest(reviews, sha, logins, rank, i)
  {
    BestIndexIsNewest(reviews, sha, logins, rank);
    SelectedIsBest(reviews, sha, logins, rank);
    assert logins == {} ==> forall r :: r in reviews ==> !Authoritative(r, sha, logins);
    hide Authoritative, BestIndex, Sorted, Filtered;
    var b := BestIndex(reviews, sha, logins, rank);
    forall i: nat | Newest(reviews, sha, logins, rank, i) ensures b == i {
      assert reviews[i] in reviews;
      OneNewest(reviews, sha, logins, rank, i, b);
    }
    if b >= 0 {
      assert reviews[b] in reviews;
    }
  }

  /* ---- what never decides ---- */

  /** A review that is not the newest authoritative one can say anything: whatever its
      verdict, changing its body leaves the state as it is. */
  lemma OlderReviewsNeverDecide(reviews: seq<Review>, sha: string, logins: set<string>, rank: string -> int, i: nat,
                                j: nat, body: string,
                                verdictOf: string -> string, classify: (string, string) -> string)
    requires Newest(reviews, sha, logins, rank, i) && j < |reviews| && j != i
    ensures BuildReviewState(reviews[j := reviews[j].(body := body)], sha, logins, rank, verdictOf, classify) ==
            StateOf(Some(reviews[i]), verdictOf, classify)
  {
    var changed := reviews[j := reviews[j].(body := body)];
    assert forall k :: 0 <= k < |reviews| ==>
      (Authoritative(changed[k], sha, logins) <==> Authoritative(reviews[k], sha, logins)) &&
        changed[k].submittedAt == reviews[k].submittedAt;
    hide Authoritative, Selected;
    assert Newest(changed, sha, logins, rank, i);
    NewestIsSelected(changed, sha, logins, rank);
  }

  /** An unknown verdict of the deciding review gives no verdict and unknown findings. */
  lemma UnknownVerdictFailsClosed(reviews: seq<Review>, sha: string, logins: set<string>, rank: string -> int, i: nat,
                                  verdictOf: string -> string, classify: (string, string) -> string)
    requires Newest(reviews, sha, logins, rank, i)
    ensures verdictOf(reviews[i].body) in {"", "unknown"} <==>
            BuildReviewState(reviews, sha, logins, rank, verdictOf, classify) == ReviewState("", UnknownFindings)
  {
    NewestIsSelected(reviews, sha, logins, rank);
    hide Newest, Selected;
  }

  /** A review that is not authoritative, anywhere in the list, changes nothing. */
  lemma OthersAreIgnored(head: seq<Review>, r: Review, tail: seq<Review>, sha: string, logins: set<string>,
                         rank: string -> int)
    requires !Authoritative(r, sha, logins)
    ensures Selected(head + [r] + tail, sha, logins, rank) == Selected(head + tail, sha, logins, rank)
  {
    FilteredConcat(head + [r], tail, sha, logins);
    FilteredConcat(head, [r], sha, logins);
    FilteredConcat(head, tail, sha, logins);
    assert [r][..0] == [];
    assert Filtered([r], sha, logins) == [];
  }

  lemma {:induction false} FilteredConcat(a: seq<Review>, b: seq<Review>, sha: string, logins: set<string>)
    ensures Filtered(a + b, sha, logins) == Filtered(a, sha, logins) + Filtered(b, sha, logins)
  {
    hide Authoritative;
    if b == [] {
      assert a + b == a;
    } else {
      assert (a + b)[..|a + b| - 1] == a + b[..|b| - 1];
      FilteredConcat(a, b[..|b| - 1], sha, logins);
    }
  }

  /** No two authoritative reviews were submitted at the same time. */
  ghost predicate DistinctTimes(reviews: seq<Review>, sha: string, logins: set<string>, rank: string -> int) {
    forall i, j | 0 <= i < |reviews| && 0 <= j < |reviews|
      && Authoritative(reviews[i], sha, logins) && Authoritative(reviews[j], sha, logins) ::
      rank(reviews[i].submittedAt) == rank(reviews[j].submittedAt) ==> reviews[i] == reviews[j]
  }

  /** The order of the list does not matter when submission times are distinct. */
  lemma OrderDoesNotMatter(a: seq<Review>, b: seq<Review>, sha: string, logins: set<string>, rank: string -> int)
    requires multiset(a) == multiset(b) && DistinctTimes(a, sha, logins, rank)
    ensures Selected(a, sha, logins, rank) == Selected(b, sha, logins, rank)
  {
    NewestIsSelected(a, sha, logins, rank);
    NewestIsSelected(b, sha, logins, rank);
    hide Authoritative, Selected;
    assert forall r :: r in a <==> r in b by {
      assert forall r :: r in a <==> r in multiset(a);
      assert forall r :: r in b <==> r in multiset(b);
    }
    if Selected(a, sha, logins, rank).Some? {
      var i: nat :| Newest(a, sha, logins, rank, i);
      var j: nat :| Newest(b, sha, logins, rank, j);
      SameNewest(a, b, sha, logins, rank, i, j);
    }
  }

  lemma SameNewest(a: seq<Review>, b: seq<Review>, sha: string, logins: set<string>, rank: string -> int, i: nat,
                   j: nat)
    requires (forall r :: r in a <==> r in b) && DistinctTimes(a, sha, logins, rank)
    requires Newest(a, sha, logins, rank, i) && Newest(b, sha, logins, rank, j)
    ensures a[i] == b[j]
  {
    hide Authoritative;
    assert a[i] in b && b[j] in a;
    var k :| 0 <= k < |a| && a[k] == b[j];
    var l :| 0 <= l < |b| && b[l] == a[i];
  }

  /* ---- what counts ---- */

  /** EXACT AUTHORITY. A review counts exactly when it was submitted, is on the reviewed
      head, has one of the four submitted states in any case, and comes from a listed login. */
  lemma AuthoritativeExactly(r: Review, sha: string, logins: set<string>)
    ensures Authoritative(r, sha, logins) <==>
            r.submittedAt != "" && r.commit == sha && NormalizeLogin(r.author) in logins &&
            (Upper(r.state) == "APPROVED" || Upper(r.state) == "CHANGES_REQUESTED" || Upper(r.state) == "COMMENTED" ||
             Upper(r.state) == "DISMISSED")
  {
    hide Upper, NormalizeLogin;
  }

  /** A review on another head never decides. */
  lemma OnlyTheReviewedHeadDecides(reviews: seq<Review>, sha: string, logins: set<string>, rank: string -> int)
    ensures Selected(reviews, sha, logins, rank).Some? ==>
              var r := Selected(reviews, sha, logins, rank).value;
              r in reviews && r.commit == sha && r.submittedAt != "" && NormalizeLogin(r.author) in logins
  {
    NewestIsSelected(reviews, sha, logins, rank);
    hide Selected, Upper, NormalizeLogin;
  }

  lemma LowerAt(s: string, i: nat)
    requires i < |s|
    ensures |Lower(s)| == |s| && Lower(s)[i] as int == s[i] as int + if 'A' <= s[i] <= 'Z' then 32 else 0
    ensures |Upper(s)| == |s| && Upper(s)[i] as int == s[i] as int - if 'a' <= s[i] <= 'z' then 32 else 0
  {
  }

  /** A login without the bot suffix, and the same login with it, count as the same. */
  lemma BotSuffixDoesNotMatter(login: string)
    requires IsTrimmed(login) && login != "" && Lower(login) == login
    requires forall head :: login != head + "[bot]"
    ensures NormalizeLogin(login) == login && NormalizeLogin(login + "[bot]") == login
  {
    TrimTrimmed(login);
    var bot := login + "[bot]";
    assert bot[0] == login[0] && bot[|bot| - 1] == ']';
    TrimTrimmed(bot);
    LowerKeeps(login);
    hide Trim;
    if |login| >= 5 && login[|login| - 5..] == "[bot]" {
      assert login == login[..|login| - 5] + "[bot]";
    }
    assert bot[..|bot| - 5] == login && bot[|bot| - 5..] == "[bot]";
  }

  lemma LowerKeeps(login: string)
    requires Lower(login) == login
    ensures Lower(login + "[bot]") == login + "[bot]"
  {
    var bot := login + "[bot]";
    forall i | 0 <= i < |bot| ensures Lower(bot)[i] == bot[i] {
      if i < |login| {
        assert Lower(login)[i] == login[i];
      }
    }
  }

  /** EXACT STATE. A known verdict of the newest authoritative review is the verdict, with
      the findings that the classifier reads off its body. */
  lemma KnownVerdictDecides(reviews: seq<Review>, sha: string, logins: set<string>, rank: string -> int, i: nat,
                            verdictOf: string -> string, classify: (string, string) -> string)
    requires Newest(reviews, sha, logins, rank, i) && verdictOf(reviews[i].body) !in {"", "unknown"}
    ensures BuildReviewState(reviews, sha, logins, rank, verdictOf, classify) ==
            ReviewState(verdictOf(reviews[i].body), Classified(classify(reviews[i].body, verdictOf(reviews[i].body))))
  {
    NewestIsSelected(reviews, sha, logins, rank);
    hide Newest, Selected;
  }
}
