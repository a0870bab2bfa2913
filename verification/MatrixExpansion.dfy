/** Expansion of a job's matrix (`variants`). The implementation merges includes
    into a list of rows that it keeps changing; the specification says, row by
    row, what the final list is. */
module MatrixExpansion {
  import opened Common

  type Row = map<string, Value>

  /** One axis. `Dynamic` stands for a value that is not a list. */
  datatype Axis = Listed(name: string, values: seq<Value>) | Dynamic(name: string)

  /** The `strategy.matrix` value of a job. `NotAMapping` is a truthy value that is not a mapping. */
  datatype Matrix =
    | NoMatrix
    | Matrix(axes: seq<Axis>, excludes: Option<seq<Row>>, includes: Option<seq<Row>>)
    | NotAMapping

  const MAX_ROWS := 4096

  function Entries(list: Option<seq<Row>>): seq<Row> {
    if list.Some? then list.value else []
  }

  function Names(axes: seq<Axis>): set<string> {
    set axis | axis in axes :: axis.name
  }

  function Size(axes: seq<Axis>): nat
    requires forall axis :: axis in axes ==> axis.Listed?
  {
    if axes == [] then 1 else |axes[0].values| * Size(axes[1..])
  }

  /* ---- the product ---- */

  /** `itertools.product` over the axes, first axis slowest, each choice as a row. */
  function Product(axes: seq<Axis>): seq<Row>
    requires forall axis :: axis in axes ==> axis.Listed?
  {
    if axes == [] then [map[]] else Choices(axes[0].name, axes[0].values, Product(axes[1..]))
  }

  /** Every value of one axis in front of every row of the remaining axes. */
  function Choices(name: string, values: seq<Value>, rest: seq<Row>): seq<Row> {
    if values == [] then []
    else Choices(name, values[..|values| - 1], rest) + Prepend(name, values[|values| - 1], rest)
  }

  function Prepend(name: string, value: Value, rest: seq<Row>): seq<Row> {
    seq(|rest|, i requires 0 <= i < |rest| => map[name := value] + rest[i])
  }

  /** The product rows; a matrix without axes has none. */
  function Original(axes: seq<Axis>): seq<Row>
    requires forall axis :: axis in axes ==> axis.Listed?
  {
    if axes == [] then [] else Product(axes)
  }

  /* ---- includes and excludes ---- */

  /** An exclude drops a row that has all of its entries. */
  predicate Excluded(row: Row, excludes: seq<Row>) {
    exists i :: 0 <= i < |excludes| && HasAll(row, excludes[i])
  }

  predicate HasAll(row: Row, entries: Row) {
    forall k :: k in entries ==> Get(row, k) == entries[k]
  }

  /** An include matches a product row when it contradicts none of its axis values. */
  predicate Matches(inc: Row, row: Row, names: set<string>) {
    forall k :: k in inc && k in names ==> Get(row, k) == inc[k]
  }

  predicate MatchesSome(inc: Row, original: seq<Row>, names: set<string>) {
    exists i :: 0 <= i < |original| && Matches(inc, original[i], names)
  }

  predicate SameAxes(a: Row, b: Row, names: set<string>) {
    forall k :: k in names ==> Get(a, k) == Get(b, k)
  }

  /* ---- the specification of the final rows ---- */

  function Kept(original: seq<Row>, excludes: seq<Row>): (rows: seq<Row>)
    ensures forall row :: row in rows ==> row in original && !Excluded(row, excludes)
    ensures |rows| <= |original|
  {
    if original == [] then []
    else
      var rows, last := Kept(original[..|original| - 1], excludes), original[|original| - 1];
      if Excluded(last, excludes) then rows else rows + [last]
  }

  /** A product row with every include that matches it, in order. */
  function Overlay(row: Row, includes: seq<Row>, names: set<string>): Row {
    if includes == [] then row
    else
      var before, last := Overlay(row, includes[..|includes| - 1], names), includes[|includes| - 1];
      if Matches(last, row, names) then before + last else before
  }

  function Overlays(rows: seq<Row>, includes: seq<Row>, names: set<string>): seq<Row> {
    seq(|rows|, i requires 0 <= i < |rows| => Overlay(rows[i], includes, names))
  }

  /** The includes that match no product row, in order. */
  function Standalone(includes: seq<Row>, original: seq<Row>, names: set<string>): (rows: seq<Row>)
    ensures forall row :: row in rows ==> row in includes && !MatchesSome(row, original, names)
  {
    if includes == [] then []
    else
      var rows, last := Standalone(includes[..|includes| - 1], original, names), includes[|includes| - 1];
      if MatchesSome(last, original, names) then rows else rows + [last]
  }

  function Merged(original: seq<Row>, excludes: seq<Row>, includes: seq<Row>, names: set<string>): seq<Row> {
    Overlays(Kept(original, excludes), includes, names) + Standalone(includes, original, names)
  }

  /** The rows of a matrix; None stands for ValueError. */
  function Variants(matrix: Matrix): Option<seq<Row>> {
    match matrix
    case NoMatrix => Some([map[]])
    case NotAMapping => None
    case Matrix(axes, excludes, includes) =>
      if exists axis :: axis in axes && axis.Dynamic? then None
      else if Size(axes) > MAX_ROWS then None
      else
        var rows := Merged(Original(axes), Entries(excludes), Entries(includes), Names(axes));
        Some(if rows == [] && axes == [] && excludes.None? && includes.None? then [map[]] else rows)
  }

  /* ---- facts behind the merge ---- */

  lemma {:induction false} OverlayKeepsAxes(row: Row, includes: seq<Row>, names: set<string>)
    ensures SameAxes(Overlay(row, includes, names), row, names)
  {
    if includes != [] {
      OverlayKeepsAxes(row, includes[..|includes| - 1], names);
    }
  }

  lemma Distribute(a: nat, b: nat)
    ensures (a + 1) * b == a * b + b
  {
  }

  lemma {:induction false} ChoicesSize(name: string, values: seq<Value>, rest: seq<Row>)
    ensures |Choices(name, values, rest)| == |values| * |rest|
  {
    if values != [] {
      ChoicesSize(name, values[..|values| - 1], rest);
      Distribute(|values| - 1, |rest|);
    }
  }

  /** Value `q` in front of row `r` of the rest is row `q * |rest| + r`. */
  lemma {:induction false} ChoicesAt(name: string, values: seq<Value>, rest: seq<Row>, q: nat, r: nat)
    requires q < |values| && r < |rest|
    ensures 0 <= q * |rest| + r < |Choices(name, values, rest)|
    ensures Choices(name, values, rest)[q * |rest| + r] == map[name := values[q]] + rest[r]
  {
    var init := values[..|values| - 1];
    ChoicesSize(name, init, rest);
    if q < |init| {
      ChoicesAt(name, init, rest, q, r);
    }
  }

  lemma {:induction false} ChoicesHaveKeys(name: string, values: seq<Value>, rest: seq<Row>, keys: set<string>)
    requires forall row :: row in rest ==> row.Keys == keys
    ensures forall row :: row in Choices(name, values, rest) ==> row.Keys == {name} + keys
  {
    if values != [] {
      ChoicesHaveKeys(name, values[..|values| - 1], rest, keys);
    }
  }

  lemma {:induction false} ProductHasAxes(axes: seq<Axis>)
    requires forall axis :: axis in axes ==> axis.Listed?
    ensures forall row :: row in Product(axes) ==> row.Keys == Names(axes)
  {
    if axes == [] {
      assert Names(axes) == {};
    } else {
      ProductHasAxes(axes[1..]);
      ChoicesHaveKeys(axes[0].name, axes[0].values, Product(axes[1..]), Names(axes[1..]));
      assert Names(axes) == {axes[0].name} + Names(axes[1..]) by {
        assert axes == [axes[0]] + axes[1..];
      }
    }
  }

  lemma {:induction false} ProductSize(axes: seq<Axis>)
    requires forall axis :: axis in axes ==> axis.Listed?
    ensures |Product(axes)| == Size(axes)
  {
    if axes != [] {
      ProductSize(axes[1..]);
      ChoicesSize(axes[0].name, axes[0].values, Product(axes[1..]));
    }
  }

  /** A standalone row never agrees with a product row on the axes, not even when
      an axis value is null: it would have matched that row. */
  lemma StandaloneIsApart(row: Row, original: seq<Row>, names: set<string>, i: nat)
    requires i < |original| && !MatchesSome(row, original, names)
    ensures !SameAxes(row, original[i], names)
  {
    if SameAxes(row, original[i], names) {
      assert Matches(row, original[i], names);
    }
  }

  /* ---- the implementation ---- */

  /** What one pass of the include loop does to one row of the list. */
  function Updated(row: Row, inc: Row, original: seq<Row>, names: set<string>): Row {
    if exists i :: 0 <= i < |original| && Matches(inc, original[i], names) && SameAxes(row, original[i], names)
    then row + inc else row
  }

  /** One pass of the include loop when some product row matches. */
  method MergeInclude(rows: seq<Row>, inc: Row, original: seq<Row>, names: set<string>) returns (merged: seq<Row>)
    ensures |merged| == |rows|
    ensures forall j :: 0 <= j < |rows| ==> merged[j] == Updated(rows[j], inc, original, names)
  {
    merged := rows;
    for i := 0 to |original|
      invariant |merged| == |rows|
      invariant forall j :: 0 <= j < |rows| ==> merged[j] == Updated(rows[j], inc, original[..i], names)
    {
      ghost var before := merged;
      if Matches(inc, original[i], names) {
        for j := 0 to |merged|
          invariant |merged| == |before|
          invariant forall k :: j <= k < |before| ==> merged[k] == before[k]
          invariant forall k :: 0 <= k < j ==>
            merged[k] == if SameAxes(before[k], original[i], names) then before[k] + inc else before[k]
        {
          if forall k :: k in names ==> Get(merged[j], k) == Get(original[i], k) {
            merged := merged[j := merged[j] + inc];
          }
        }
      }
      forall j | 0 <= j < |rows| ensures merged[j] == Updated(rows[j], inc, original[..i + 1], names) {
        UpdatedStep(rows[j], inc, original, i, names);
      }
    }
    assert original[..|original|] == original;
  }

  /** Updating twice with one include is updating once: matching includes carry
      the axis values the row already has. */
  lemma UpdatedStep(row: Row, inc: Row, original: seq<Row>, i: nat, names: set<string>)
    requires i < |original|
    ensures var before := Updated(row, inc, original[..i], names);
            Updated(row, inc, original[..i + 1], names) ==
            if Matches(inc, original[i], names) && SameAxes(before, original[i], names) then before + inc else before
  {
    var before := Updated(row, inc, original[..i], names);
    var prefix := original[..i + 1];
    if exists k :: 0 <= k < i && Matches(inc, original[..i][k], names) && SameAxes(row, original[..i][k], names) {
      var k :| 0 <= k < i && Matches(inc, original[..i][k], names) && SameAxes(row, original[..i][k], names);
      assert prefix[k] == original[..i][k];
      assert before + inc == before;
    } else if Matches(inc, original[i], names) && SameAxes(row, original[i], names) {
      assert prefix[i] == original[i];
    } else {
      forall k | 0 <= k < i + 1 ensures !(Matches(inc, prefix[k], names) && SameAxes(row, prefix[k], names)) {
        if k < i { assert prefix[k] == original[..i][k]; }
      }
    }
  }

  /** The include loop: the list it keeps changing is, after every include, the
      overlaid product rows followed by the standalone includes seen so far. */
  method MergeIncludes(kept: seq<Row>, includes: seq<Row>, original: seq<Row>, names: set<string>)
    returns (rows: seq<Row>)
    requires forall row :: row in kept ==> row in original
    ensures rows == Overlays(kept, includes, names) + Standalone(includes, original, names)
  {
    rows := kept;
    assert includes[..0] == [];
    for k := 0 to |includes|
      invariant rows == Overlays(kept, includes[..k], names) + Standalone(includes[..k], original, names)
    {
      var inc := includes[k];
      ghost var before := rows;
      if exists i :: 0 <= i < |original| && Matches(inc, original[i], names) {
        rows := MergeInclude(rows, inc, original, names);
      } else {
        rows := rows + [inc];
      }
      MergeStep(kept, includes, original, names, k, before, rows);
    }
    assert includes[..|includes|] == includes;
  }

  lemma MergeStep(kept: seq<Row>, includes: seq<Row>, original: seq<Row>, names: set<string>, k: nat,
                  before: seq<Row>, after: seq<Row>)
    requires k < |includes|
    requires forall row :: row in kept ==> row in original
    requires before == Overlays(kept, includes[..k], names) + Standalone(includes[..k], original, names)
    requires if MatchesSome(includes[k], original, names)
             then |after| == |before| &&
                  forall j :: 0 <= j < |before| ==> after[j] == Updated(before[j], includes[k], original, names)
             else after == before + [includes[k]]
    ensures after == Overlays(kept, includes[..k + 1], names) + Standalone(includes[..k + 1], original, names)
  {
    hide Updated, Overlay, MatchesSome, Matches;
    var inc, alone := includes[k], Standalone(includes[..k], original, names);
    StandaloneStep(includes, original, names, k);
    forall j | 0 <= j < |kept| ensures after[j] == Overlay(kept[j], includes[..k + 1], names) {
      OverlayStep(kept[j], includes, k, original, names);
    }
    if MatchesSome(inc, original, names) {
      forall j | 0 <= j < |alone| ensures after[|kept| + j] == alone[j] {
        assert alone[j] in alone;
        StandaloneUnchanged(alone[j], inc, original, names);
      }
    }
  }

  lemma StandaloneStep(includes: seq<Row>, original: seq<Row>, names: set<string>, k: nat)
    requires k < |includes|
    ensures Standalone(includes[..k + 1], original, names) ==
            Standalone(includes[..k], original, names) +
            if MatchesSome(includes[k], original, names) then [] else [includes[k]]
  {
    assert includes[..k + 1][..k] == includes[..k];
  }

  /** One more include changes the overlaid copy of a product row as the loop does. */
  lemma OverlayStep(row: Row, includes: seq<Row>, k: nat, original: seq<Row>, names: set<string>)
    requires k < |includes| && row in original
    ensures var overlaid := Overlay(row, includes[..k], names);
            Overlay(row, includes[..k + 1], names) ==
            if MatchesSome(includes[k], original, names) then Updated(overlaid, includes[k], original, names)
            else overlaid
  {
    assert includes[..k + 1][..k] == includes[..k];
    OverlayUpdated(row, includes[..k], includes[k], original, names);
    hide Updated, MatchesSome, Matches;
  }

  /** Updating the overlaid copy of a product row adds exactly a matching include. */
  lemma OverlayUpdated(row: Row, includes: seq<Row>, inc: Row, original: seq<Row>, names: set<string>)
    requires row in original
    ensures var overlaid := Overlay(row, includes, names);
            Updated(overlaid, inc, original, names) == if Matches(inc, row, names) then overlaid + inc else overlaid
    ensures Matches(inc, row, names) ==> MatchesSome(inc, original, names)
  {
    OverlayKeepsAxes(row, includes, names);
    hide Overlay;
    var i :| 0 <= i < |original| && original[i] == row;
  }

  lemma StandaloneUnchanged(row: Row, inc: Row, original: seq<Row>, names: set<string>)
    requires !MatchesSome(row, original, names)
    ensures Updated(row, inc, original, names) == row
  {
    forall i | 0 <= i < |original| ensures !SameAxes(row, original[i], names) {
      StandaloneIsApart(row, original, names, i);
    }
  }

  /** `variants(job)` on the matrix of the job. */
  method ExpandMatrix(matrix: Matrix) returns (result: Option<seq<Row>>)
    ensures result == Variants(matrix)
  {
    if matrix.NoMatrix? { return Some([map[]]); }
    if matrix.NotAMapping? { return None; }
    var axes := matrix.axes;
    if exists axis :: axis in axes && axis.Dynamic? { return None; }
    if Size(axes) > MAX_ROWS { return None; }
    var names, original := Names(axes), Original(axes);
    var rows := Kept(original, Entries(matrix.excludes));
    var includes := Entries(matrix.includes);
    rows := MergeIncludes(rows, includes, original, names);
    if rows == [] && axes == [] && matrix.excludes.None? && matrix.includes.None? { return Some([map[]]); }
    return Some(rows);
  }

  /* ---- what a reader may rely on ---- */

  ghost predicate LastMatching(k: string, i: nat, row: Row, includes: seq<Row>, names: set<string>) {
    && i < |includes| && k in includes[i] && Matches(includes[i], row, names)
    && forall j :: i < j < |includes| && k in includes[j] ==> !Matches(includes[j], row, names)
  }

  /** An entry of an overlaid row comes from the last matching include that has
      it, and from the product row when there is no such include. */
  lemma {:induction false} OverlayEntry(row: Row, includes: seq<Row>, names: set<string>, k: string)
    ensures forall i: nat :: LastMatching(k, i, row, includes, names) ==>
              k in Overlay(row, includes, names) && Overlay(row, includes, names)[k] == includes[i][k]
    ensures (forall i: nat :: !LastMatching(k, i, row, includes, names)) ==>
              (k in Overlay(row, includes, names) <==> k in row) &&
              Get(Overlay(row, includes, names), k) == Get(row, k)
  {
    if includes != [] {
      var last := |includes| - 1;
      var init := includes[..last];
      OverlayEntry(row, init, names, k);
      if k in includes[last] && Matches(includes[last], row, names) {
        assert LastMatching(k, last, row, includes, names);
      } else {
        forall i: nat ensures LastMatching(k, i, row, includes, names) <==> LastMatching(k, i, row, init, names) {
          assert i < last ==> init[i] == includes[i];
          assert forall j :: i < j < last ==> init[j] == includes[j];
        }
      }
    }
  }

  ghost function KeptIndices(original: seq<Row>, excludes: seq<Row>): set<int> {
    set i | 0 <= i < |original| && !Excluded(original[i], excludes)
  }

  ghost function UnmatchedIndices(includes: seq<Row>, original: seq<Row>, names: set<string>): set<int> {
    set i | 0 <= i < |includes| && !MatchesSome(includes[i], original, names)
  }

  lemma {:induction false} KeptCount(original: seq<Row>, excludes: seq<Row>)
    ensures |Kept(original, excludes)| == |KeptIndices(original, excludes)|
  {
    hide Excluded;
    if original != [] {
      var last := |original| - 1;
      KeptCount(original[..last], excludes);
      KeptIndicesStep(original, excludes);
    }
  }

  lemma KeptIndicesStep(original: seq<Row>, excludes: seq<Row>)
    requires original != []
    ensures var last := |original| - 1;
            |KeptIndices(original, excludes)| ==
            |KeptIndices(original[..last], excludes)| + if Excluded(original[last], excludes) then 0 else 1
  {
    hide Excluded;
    var last := |original| - 1;
    var before := KeptIndices(original[..last], excludes);
    assert KeptIndices(original, excludes) == if Excluded(original[last], excludes) then before else before + {last};
  }

  lemma {:induction false} StandaloneCount(includes: seq<Row>, original: seq<Row>, names: set<string>)
    ensures |Standalone(includes, original, names)| == |UnmatchedIndices(includes, original, names)|
  {
    hide MatchesSome;
    if includes != [] {
      StandaloneCount(includes[..|includes| - 1], original, names);
      UnmatchedIndicesStep(includes, original, names);
    }
  }

  lemma UnmatchedIndicesStep(includes: seq<Row>, original: seq<Row>, names: set<string>)
    requires includes != []
    ensures var last := |includes| - 1;
            |UnmatchedIndices(includes, original, names)| ==
            |UnmatchedIndices(includes[..last], original, names)| +
            if MatchesSome(includes[last], original, names) then 0 else 1
  {
    hide MatchesSome;
    var last := |includes| - 1;
    var before := UnmatchedIndices(includes[..last], original, names);
    assert UnmatchedIndices(includes, original, names) ==
           if MatchesSome(includes[last], original, names) then before else before + {last};
  }

  /** The whole law of expansion for a mapping with some key: the combinations that
      survive, each with its own axis values, then the unmatched includes verbatim;
      their number is the surviving combinations plus the unmatched includes. */
  lemma ExpansionLaw(matrix: Matrix)
    requires matrix.Matrix? && Variants(matrix).Some?
    requires !(matrix.axes == [] && matrix.excludes.None? && matrix.includes.None?)
    ensures var names, original := Names(matrix.axes), Original(matrix.axes);
            var rows, kept := Variants(matrix).value, Kept(original, Entries(matrix.excludes));
            && |rows| == |KeptIndices(original, Entries(matrix.excludes))| +
                         |UnmatchedIndices(Entries(matrix.includes), original, names)|
            && |kept| <= |rows|
            && (forall i :: 0 <= i < |kept| ==> SameAxes(rows[i], kept[i], names))
            && rows[|kept|..] == Standalone(Entries(matrix.includes), original, names)
  {
    var names, original := Names(matrix.axes), Original(matrix.axes);
    var excludes, includes := Entries(matrix.excludes), Entries(matrix.includes);
    KeptCount(original, excludes);
    StandaloneCount(includes, original, names);
    forall i | 0 <= i < |Kept(original, excludes)|
      ensures SameAxes(Overlays(Kept(original, excludes), includes, names)[i], Kept(original, excludes)[i], names)
    {
      OverlayKeepsAxes(Kept(original, excludes)[i], includes, names);
    }
  }

  /* ---- the order of the product ---- */

  ghost predicate DistinctNames(axes: seq<Axis>) {
    forall i, j :: 0 <= i < j < |axes| ==> axes[i].name != axes[j].name
  }

  /** One index per axis. */
  ghost predicate IsChoice(axes: seq<Axis>, choice: seq<nat>)
    requires forall axis :: axis in axes ==> axis.Listed?
  {
    |choice| == |axes| && forall k :: 0 <= k < |axes| ==> choice[k] < |axes[k].values|
  }

  /** The position of a choice in the product: the first axis varies slowest. */
  ghost function Rank(axes: seq<Axis>, choice: seq<nat>): nat
    requires (forall axis :: axis in axes ==> axis.Listed?) && |choice| == |axes|
  {
    if axes == [] then 0 else choice[0] * Size(axes[1..]) + Rank(axes[1..], choice[1..])
  }

  lemma MulMonotone(a: nat, b: nat, m: nat)
    requires a < b
    ensures a * m + m <= b * m
  {
    assert (a + 1) * m <= b * m;
  }

  lemma {:induction false} RankBelowSize(axes: seq<Axis>, choice: seq<nat>)
    requires (forall axis :: axis in axes ==> axis.Listed?) && IsChoice(axes, choice)
    ensures Rank(axes, choice) < Size(axes)
  {
    if axes != [] {
      RankBelowSize(axes[1..], choice[1..]);
      MulMonotone(choice[0], |axes[0].values|, Size(axes[1..]));
    }
  }

  /** The row at the rank of a choice has the chosen value on every axis. */
  lemma {:induction false} ProductAt(axes: seq<Axis>, choice: seq<nat>, k: nat)
    requires (forall axis :: axis in axes ==> axis.Listed?) && DistinctNames(axes)
    requires IsChoice(axes, choice) && k < |axes|
    ensures Rank(axes, choice) < |Product(axes)|
    ensures Get(Product(axes)[Rank(axes, choice)], axes[k].name) == axes[k].values[choice[k]]
  {
    hide Choices, Size;
    var rest, r := Product(axes[1..]), Rank(axes[1..], choice[1..]);
    ProductSize(axes[1..]);
    RankBelowSize(axes[1..], choice[1..]);
    ChoicesAt(axes[0].name, axes[0].values, rest, choice[0], r);
    RowKeys(axes[1..], r);
    NamesOfRest(axes, k);
    if k > 0 {
      ProductAt(axes[1..], choice[1..], k - 1);
    }
  }

  lemma RowKeys(axes: seq<Axis>, i: nat)
    requires (forall axis :: axis in axes ==> axis.Listed?) && i < |Product(axes)|
    ensures Product(axes)[i].Keys == Names(axes)
  {
    ProductHasAxes(axes);
    assert Product(axes)[i] in Product(axes);
  }

  lemma NamesOfRest(axes: seq<Axis>, k: nat)
    requires DistinctNames(axes) && k < |axes|
    ensures axes[0].name !in Names(axes[1..])
    ensures k > 0 ==> axes[1..][k - 1] == axes[k] && axes[k].name in Names(axes[1..])
  {
  }

  /** Ranks grow in dictionary order: a smaller value at the first difference comes first. */
  lemma {:induction false} RankOrder(axes: seq<Axis>, a: seq<nat>, b: seq<nat>, j: nat)
    requires (forall axis :: axis in axes ==> axis.Listed?) && IsChoice(axes, a) && IsChoice(axes, b)
    requires j < |axes| && a[..j] == b[..j] && a[j] < b[j]
    ensures Rank(axes, a) < Rank(axes, b)
  {
    hide Size;
    if j == 0 {
      RankBelowSize(axes[1..], a[1..]);
      MulMonotone(a[0], b[0], Size(axes[1..]));
    } else {
      assert a[0] == a[..j][0] == b[..j][0] == b[0];
      assert a[1..][..j - 1] == a[..j][1..] && b[1..][..j - 1] == b[..j][1..];
      RankOrder(axes[1..], a[1..], b[1..], j - 1);
    }
  }
}
