/** What the expansion of a matrix means in terms of choices: one value for each axis. */
module MatrixMeaning {
  import opened Common
  import opened MatrixExpansion

  /* ---- choices and their places in the product ---- */

  ghost predicate Proper(axes: seq<Axis>) {
    (forall axis :: axis in axes ==> axis.Listed?) && DistinctNames(axes)
  }

  lemma MulAtLeast(a: nat, b: nat, m: nat)
    requires a <= b
    ensures a * m <= b * m
  {
  }

  lemma QuotientBelow(i: nat, n: nat, m: nat)
    requires i < n * m
    ensures m > 0 && i / m < n && i % m < m && i == (i / m) * m + i % m
  {
    if m > 0 && i / m >= n {
      MulAtLeast(n, i / m, m);
      assert false;
    }
  }

  /** The choice at a place of the product, the first axis varying slowest. */
  ghost function ChoiceAt(axes: seq<Axis>, i: nat): seq<nat>
    requires (forall axis :: axis in axes ==> axis.Listed?) && i < Size(axes)
  {
    if axes == [] then []
    else
      QuotientBelow(i, |axes[0].values|, Size(axes[1..]));
      [i / Size(axes[1..])] + ChoiceAt(axes[1..], i % Size(axes[1..]))
  }

  lemma {:induction false} ChoiceAtHasRank(axes: seq<Axis>, i: nat)
    requires (forall axis :: axis in axes ==> axis.Listed?) && i < Size(axes)
    ensures IsChoice(axes, ChoiceAt(axes, i)) && Rank(axes, ChoiceAt(axes, i)) == i
  {
    if axes != [] {
      var m := Size(axes[1..]);
      QuotientBelow(i, |axes[0].values|, m);
      ChoiceAtHasRank(axes[1..], i % m);
      var choice := ChoiceAt(axes, i);
      assert choice[1..] == ChoiceAt(axes[1..], i % m) && choice[0] == i / m;
      hide Size;
      forall k | 0 <= k < |axes| ensures choice[k] < |axes[k].values| {
        if k > 0 { assert axes[1..][k - 1] == axes[k] && choice[1..][k - 1] == choice[k]; }
      }
    }
  }

  lemma FirstDifference(a: seq<nat>, b: seq<nat>) returns (j: nat)
    requires |a| == |b| && a != b
    ensures j < |a| && a[..j] == b[..j] && a[j] != b[j]
  {
    if a[0] != b[0] {
      j := 0;
    } else {
      assert a == [a[0]] + a[1..] && b == [b[0]] + b[1..];
      var k := FirstDifference(a[1..], b[1..]);
      assert a[..k + 1] == [a[0]] + a[1..][..k] && b[..k + 1] == [b[0]] + b[1..][..k];
      j := k + 1;
    }
  }

  /** A place has one choice. */
  lemma RankIsInjective(axes: seq<Axis>, a: seq<nat>, b: seq<nat>)
    requires (forall axis :: axis in axes ==> axis.Listed?) && IsChoice(axes, a) && IsChoice(axes, b)
    requires Rank(axes, a) == Rank(axes, b)
    ensures a == b
  {
    hide Rank, Size;
    if a != b {
      var j := FirstDifference(a, b);
      if a[j] < b[j] {
        RankOrder(axes, a, b, j);
      } else {
        RankOrder(axes, b, a, j);
      }
    }
  }

  /** The choices at the first places. */
  ghost function ChoicesBelow(axes: seq<Axis>, n: nat): set<seq<nat>>
    requires (forall axis :: axis in axes ==> axis.Listed?) && n <= Size(axes)
  {
    set i | 0 <= i < n :: ChoiceAt(axes, i)
  }

  /** All choices of one value for each axis. */
  ghost function AllChoices(axes: seq<Axis>): set<seq<nat>>
    requires forall axis :: axis in axes ==> axis.Listed?
  {
    ChoicesBelow(axes, Size(axes))
  }

  lemma ChoicesBelowExactly(axes: seq<Axis>, n: nat, choice: seq<nat>)
    requires (forall axis :: axis in axes ==> axis.Listed?) && n <= Size(axes)
    ensures choice in ChoicesBelow(axes, n) <==> IsChoice(axes, choice) && Rank(axes, choice) < n
  {
    hide Rank, Size, ChoiceAt;
    if choice in ChoicesBelow(axes, n) {
      var i :| 0 <= i < n && ChoiceAt(axes, i) == choice;
      ChoiceAtHasRank(axes, i);
    }
    if IsChoice(axes, choice) && Rank(axes, choice) < n {
      var i := Rank(axes, choice);
      ChoiceAtHasRank(axes, i);
      RankIsInjective(axes, choice, ChoiceAt(axes, i));
    }
  }

  /** These are all choices, and no others. */
  lemma AllChoicesExactly(axes: seq<Axis>, choice: seq<nat>)
    requires forall axis :: axis in axes ==> axis.Listed?
    ensures choice in AllChoices(axes) <==>
            |choice| == |axes| && forall k :: 0 <= k < |axes| ==> choice[k] < |axes[k].values|
  {
    ChoicesBelowExactly(axes, Size(axes), choice);
    if IsChoice(axes, choice) {
      RankBelowSize(axes, choice);
    }
    hide Rank, Size, ChoicesBelow;
  }

  /* ---- what an exclude drops and what an include matches ---- */

  /** An exclude entry differs from a choice: on the axis it names, or by asking a value
      for a key that is no axis. */
  ghost predicate Differs(axes: seq<Axis>, choice: seq<nat>, key: string, value: Value)
    requires (forall axis :: axis in axes ==> axis.Listed?) && IsChoice(axes, choice)
  {
    || (exists k :: 0 <= k < |axes| && axes[k].name == key && axes[k].values[choice[k]] != value)
    || ((forall k :: 0 <= k < |axes| ==> axes[k].name != key) && value != Null)
  }

  /** An exclude misses a choice when some entry of it differs. */
  ghost predicate Misses(axes: seq<Axis>, choice: seq<nat>, exclude: Row)
    requires (forall axis :: axis in axes ==> axis.Listed?) && IsChoice(axes, choice)
  {
    exists key :: key in exclude && Differs(axes, choice, key, exclude[key])
  }

  /** Every exclude misses the choice. */
  ghost predicate Survives(axes: seq<Axis>, excludes: seq<Row>, choice: seq<nat>)
    requires (forall axis :: axis in axes ==> axis.Listed?) && IsChoice(axes, choice)
  {
    forall e :: 0 <= e < |excludes| ==> Misses(axes, choice, excludes[e])
  }

  /** An include has no other value on an axis. */
  ghost predicate Agrees(axes: seq<Axis>, inc: Row, choice: seq<nat>)
    requires (forall axis :: axis in axes ==> axis.Listed?) && IsChoice(axes, choice)
  {
    forall k :: 0 <= k < |axes| && axes[k].name in inc ==> inc[axes[k].name] == axes[k].values[choice[k]]
  }

  /** The product row of a choice has its values on the axes and nothing else. */
  lemma ChoiceRow(axes: seq<Axis>, choice: seq<nat>, key: string) returns (row: Row)
    requires Proper(axes) && IsChoice(axes, choice)
    ensures Rank(axes, choice) < |Product(axes)| && row == Product(axes)[Rank(axes, choice)]
    ensures forall k :: 0 <= k < |axes| ==> axes[k].name in row && row[axes[k].name] == axes[k].values[choice[k]]
    ensures (forall k :: 0 <= k < |axes| ==> axes[k].name != key) ==> key !in row
    ensures row.Keys == Names(axes)
  {
    ProductSize(axes);
    RankBelowSize(axes, choice);
    RowKeys(axes, Rank(axes, choice));
    row := Product(axes)[Rank(axes, choice)];
    hide Rank, Size, Product, IsChoice;
    forall k | 0 <= k < |axes| ensures axes[k].name in row && row[axes[k].name] == axes[k].values[choice[k]] {
      AxisEntry(axes, choice, k);
    }
    if forall k :: 0 <= k < |axes| ==> axes[k].name != key {
      NoAxis(axes, key);
    }
  }

  lemma NoAxis(axes: seq<Axis>, key: string)
    requires forall k :: 0 <= k < |axes| ==> axes[k].name != key
    ensures key !in Names(axes)
  {
  }

  lemma AxisEntry(axes: seq<Axis>, choice: seq<nat>, k: nat)
    requires Proper(axes) && IsChoice(axes, choice) && k < |axes| && Rank(axes, choice) < |Product(axes)|
    ensures choice[k] < |axes[k].values|
    ensures axes[k].name in Product(axes)[Rank(axes, choice)]
    ensures Product(axes)[Rank(axes, choice)][axes[k].name] == axes[k].values[choice[k]]
  {
    ProductAt(axes, choice, k);
    RowKeys(axes, Rank(axes, choice));
    hide Rank, Size, Product;
    assert axes[k] in axes && axes[k].name in Names(axes);
  }

  lemma EntryDiffers(axes: seq<Axis>, choice: seq<nat>, key: string, value: Value)
    requires Proper(axes) && IsChoice(axes, choice) && Rank(axes, choice) < |Product(axes)|
    ensures Get(Product(axes)[Rank(axes, choice)], key) != value <==> Differs(axes, choice, key, value)
  {
    var row := ChoiceRow(axes, choice, key);
    hide Product, Rank, IsChoice, Names;
    if k :| 0 <= k < |axes| && axes[k].name == key {
      assert row[key] == axes[k].values[choice[k]];
      assert forall j :: 0 <= j < |axes| && axes[j].name == key ==> row[key] == axes[j].values[choice[j]];
    }
  }

  lemma MissesExactly(axes: seq<Axis>, exclude: Row, choice: seq<nat>)
    requires Proper(axes) && IsChoice(axes, choice) && Rank(axes, choice) < |Product(axes)|
    ensures HasAll(Product(axes)[Rank(axes, choice)], exclude) <==> !Misses(axes, choice, exclude)
  {
    hide Product, Rank, Differs, Get;
    forall key | key in exclude
      ensures Get(Product(axes)[Rank(axes, choice)], key) != exclude[key] <==> Differs(axes, choice, key, exclude[key])
    {
      EntryDiffers(axes, choice, key, exclude[key]);
    }
  }

  /** EXACT EXCLUDES. The row of a choice is dropped exactly when some exclude does not
      miss it. */
  lemma ExcludedExactly(axes: seq<Axis>, excludes: seq<Row>, choice: seq<nat>)
    requires Proper(axes) && IsChoice(axes, choice) && Rank(axes, choice) < |Product(axes)|
    ensures Excluded(Product(axes)[Rank(axes, choice)], excludes) <==> !Survives(axes, excludes, choice)
  {
    hide Product, Rank, Misses, HasAll;
    forall e | 0 <= e < |excludes|
      ensures HasAll(Product(axes)[Rank(axes, choice)], excludes[e]) <==> !Misses(axes, choice, excludes[e])
    {
      MissesExactly(axes, excludes[e], choice);
    }
  }

  /** EXACT INCLUDES. An include matches the row of a choice exactly when it agrees with
      the choice on every axis it has. */
  lemma MatchesExactly(axes: seq<Axis>, inc: Row, choice: seq<nat>)
    requires Proper(axes) && IsChoice(axes, choice) && Rank(axes, choice) < |Product(axes)|
    ensures Matches(inc, Product(axes)[Rank(axes, choice)], Names(axes)) <==> Agrees(axes, inc, choice)
  {
    var row := ChoiceRow(axes, choice, "");
    hide Product, Rank, IsChoice;
    if Matches(inc, row, Names(axes)) {
      forall k | 0 <= k < |axes| && axes[k].name in inc ensures inc[axes[k].name] == axes[k].values[choice[k]] {
        assert axes[k] in axes && axes[k].name in Names(axes);
      }
    }
    if Agrees(axes, inc, choice) {
      forall key | key in inc && key in Names(axes) ensures Get(row, key) == inc[key] {
        var axis :| axis in axes && axis.name == key;
        var k :| 0 <= k < |axes| && axes[k] == axis;
      }
    }
  }

  /* ---- counting the survivors ---- */

  /** The surviving choices at the first places. */
  ghost function SurvivorsBelow(axes: seq<Axis>, excludes: seq<Row>, n: nat): set<seq<nat>>
    requires (forall axis :: axis in axes ==> axis.Listed?) && n <= Size(axes)
  {
    set choice | choice in ChoicesBelow(axes, n) && IsChoice(axes, choice) && Survives(axes, excludes, choice)
  }

  /** The surviving choices. */
  ghost function Survivors(axes: seq<Axis>, excludes: seq<Row>): set<seq<nat>>
    requires forall axis :: axis in axes ==> axis.Listed?
  {
    SurvivorsBelow(axes, excludes, Size(axes))
  }

  lemma ChoicesBelowStep(axes: seq<Axis>, n: nat)
    requires (forall axis :: axis in axes ==> axis.Listed?) && n < Size(axes)
    ensures ChoicesBelow(axes, n + 1) == ChoicesBelow(axes, n) + {ChoiceAt(axes, n)}
  {
    hide ChoiceAt, Size;
  }

  lemma SurvivorsStep(axes: seq<Axis>, excludes: seq<Row>, n: nat)
    requires (forall axis :: axis in axes ==> axis.Listed?) && n < Size(axes)
    requires IsChoice(axes, ChoiceAt(axes, n)) && Rank(axes, ChoiceAt(axes, n)) == n
    ensures |SurvivorsBelow(axes, excludes, n + 1)| ==
            |SurvivorsBelow(axes, excludes, n)| + if Survives(axes, excludes, ChoiceAt(axes, n)) then 1 else 0
  {
    hide ChoicesBelow, Survives, Size, Rank, ChoiceAt, IsChoice, DistinctNames;
    var last := ChoiceAt(axes, n);
    var before, after := SurvivorsBelow(axes, excludes, n), SurvivorsBelow(axes, excludes, n + 1);
    ChoicesBelowExactly(axes, n, last);
    ChoicesBelowStep(axes, n);
    assert last !in before;
    assert after == if Survives(axes, excludes, last) then before + {last} else before;
  }

  /** The rows that are kept of the first places are as many as the survivors there. */
  lemma {:induction false} KeptBelow(axes: seq<Axis>, excludes: seq<Row>, n: nat)
    requires Proper(axes) && n <= Size(axes) == |Product(axes)|
    ensures |KeptIndices(Product(axes)[..n], excludes)| == |SurvivorsBelow(axes, excludes, n)|
  {
    hide Product, Size, Survives, Excluded, Rank, ChoiceAt;
    if n == 0 {
      assert KeptIndices(Product(axes)[..0], excludes) == {};
      assert SurvivorsBelow(axes, excludes, 0) == {};
    } else {
      KeptBelow(axes, excludes, n - 1);
      ChoiceAtHasRank(axes, n - 1);
      ExcludedExactly(axes, excludes, ChoiceAt(axes, n - 1));
      SurvivorsStep(axes, excludes, n - 1);
      KeptIndicesStep(Product(axes)[..n], excludes);
      assert Product(axes)[..n][..n - 1] == Product(axes)[..n - 1];
      hide KeptIndices, SurvivorsBelow;
    }
  }

  /** A kept row stands behind the kept rows before it. */
  lemma {:induction false} KeptAt(original: seq<Row>, excludes: seq<Row>, i: nat)
    requires i < |original| && !Excluded(original[i], excludes)
    ensures var at := |KeptIndices(original[..i], excludes)|;
            at < |Kept(original, excludes)| && Kept(original, excludes)[at] == original[i]
  {
    hide Excluded, KeptIndices;
    var n := |original| - 1;
    if i == n {
      KeptCount(original[..n], excludes);
    } else {
      KeptAt(original[..n], excludes, i);
      assert original[..n][..i] == original[..i];
    }
  }

  /** An unmatched include stands behind the unmatched includes before it. */
  lemma {:induction false} StandaloneAt(includes: seq<Row>, original: seq<Row>, names: set<string>, i: nat)
    requires i < |includes| && !MatchesSome(includes[i], original, names)
    ensures var at := |UnmatchedIndices(includes[..i], original, names)|;
            at < |Standalone(includes, original, names)| && Standalone(includes, original, names)[at] == includes[i]
  {
    hide MatchesSome, UnmatchedIndices;
    var n := |includes| - 1;
    if i == n {
      StandaloneCount(includes[..n], original, names);
    } else {
      StandaloneAt(includes[..n], original, names, i);
      assert includes[..n][..i] == includes[..i];
    }
  }

  /* ---- the rows of a matrix ---- */

  /** An include that agrees with no choice of the axes. */
  ghost predicate Loose(axes: seq<Axis>, inc: Row)
    requires forall axis :: axis in axes ==> axis.Listed?
  {
    axes == [] || forall choice :: choice in AllChoices(axes) && IsChoice(axes, choice) ==> !Agrees(axes, inc, choice)
  }

  lemma LooseExactly(axes: seq<Axis>, inc: Row)
    requires Proper(axes)
    ensures MatchesSome(inc, Original(axes), Names(axes)) <==> !Loose(axes, inc)
  {
    if axes != [] {
      hide Product, Rank, ChoiceAt, Matches, Agrees;
      ProductSize(axes);
      if MatchesSome(inc, Product(axes), Names(axes)) {
        var i :| 0 <= i < |Product(axes)| && Matches(inc, Product(axes)[i], Names(axes));
        ChoiceAtHasRank(axes, i);
        MatchesExactly(axes, inc, ChoiceAt(axes, i));
        assert ChoiceAt(axes, i) in AllChoices(axes);
      }
      if choice :| choice in AllChoices(axes) && IsChoice(axes, choice) && Agrees(axes, inc, choice) {
        RankBelowSize(axes, choice);
        MatchesExactly(axes, inc, choice);
      }
    }
  }

  ghost function LooseIndices(axes: seq<Axis>, includes: seq<Row>): set<int>
    requires forall axis :: axis in axes ==> axis.Listed?
  {
    set i | 0 <= i < |includes| && Loose(axes, includes[i])
  }

  lemma LooseAreUnmatched(axes: seq<Axis>, includes: seq<Row>)
    requires Proper(axes)
    ensures LooseIndices(axes, includes) == UnmatchedIndices(includes, Original(axes), Names(axes))
  {
    hide MatchesSome, Loose, Original, Names;
    forall i | 0 <= i < |includes|
      ensures MatchesSome(includes[i], Original(axes), Names(axes)) <==> !Loose(axes, includes[i])
    {
      LooseExactly(axes, includes[i]);
    }
  }

  /** The last include that agrees with a choice and has a key. */
  ghost predicate LastAgreeing(axes: seq<Axis>, includes: seq<Row>, choice: seq<nat>, key: string, i: nat)
    requires (forall axis :: axis in axes ==> axis.Listed?) && IsChoice(axes, choice)
  {
    && i < |includes| && key in includes[i] && Agrees(axes, includes[i], choice)
    && forall j :: i < j < |includes| && key in includes[j] ==> !Agrees(axes, includes[j], choice)
  }

  /** A row of a choice: its values on the axes, and any other key from the last include
      that agrees with the choice. */
  ghost predicate RowOf(axes: seq<Axis>, includes: seq<Row>, choice: seq<nat>, row: Row)
    requires (forall axis :: axis in axes ==> axis.Listed?) && IsChoice(axes, choice)
  {
    && (forall k :: 0 <= k < |axes| ==> axes[k].name in row && row[axes[k].name] == axes[k].values[choice[k]])
    && (forall key: string, i: nat :: LastAgreeing(axes, includes, choice, key, i) ==>
          key in row && row[key] == includes[i][key])
    && (forall key :: key in row ==>
          (exists k :: 0 <= k < |axes| && axes[k].name == key) ||
          (exists i: nat :: LastAgreeing(axes, includes, choice, key, i)))
  }

  lemma LastExactly(axes: seq<Axis>, includes: seq<Row>, choice: seq<nat>, key: string, i: nat)
    requires Proper(axes) && IsChoice(axes, choice) && Rank(axes, choice) < |Product(axes)|
    ensures LastMatching(key, i, Product(axes)[Rank(axes, choice)], includes, Names(axes)) <==>
            LastAgreeing(axes, includes, choice, key, i)
  {
    hide Product, Rank, Matches, Agrees, Names;
    forall j | 0 <= j < |includes|
      ensures Matches(includes[j], Product(axes)[Rank(axes, choice)], Names(axes)) <==>
              Agrees(axes, includes[j], choice)
    {
      MatchesExactly(axes, includes[j], choice);
    }
  }

  lemma OverlayIsRow(axes: seq<Axis>, includes: seq<Row>, choice: seq<nat>)
    requires Proper(axes) && IsChoice(axes, choice) && Rank(axes, choice) < |Product(axes)|
    ensures RowOf(axes, includes, choice, Overlay(Product(axes)[Rank(axes, choice)], includes, Names(axes)))
  {
    var product := ChoiceRow(axes, choice, "");
    var row := Overlay(product, includes, Names(axes));
    hide Product, Rank, Overlay, LastAgreeing, LastMatching, IsChoice;
    OverlayKeepsAxes(product, includes, Names(axes));
    forall k | 0 <= k < |axes| ensures axes[k].name in row && row[axes[k].name] == axes[k].values[choice[k]] {
      assert axes[k] in axes && axes[k].name in Names(axes);
      OverlayHas(product, includes, Names(axes), axes[k].name);
    }
    forall key: string, i: nat ensures LastMatching(key, i, product, includes, Names(axes)) <==>
                                       LastAgreeing(axes, includes, choice, key, i)
    {
      LastExactly(axes, includes, choice, key, i);
    }
    forall key: string, i: nat | LastAgreeing(axes, includes, choice, key, i)
      ensures key in row && row[key] == includes[i][key]
    {
      OverlayEntry(product, includes, Names(axes), key);
    }
    forall key | key in row
      ensures (exists k :: 0 <= k < |axes| && axes[k].name == key) ||
              (exists i: nat :: LastAgreeing(axes, includes, choice, key, i))
    {
      OverlayEntry(product, includes, Names(axes), key);
      if !(exists i: nat :: LastAgreeing(axes, includes, choice, key, i)) {
        assert key in product;
        var axis :| axis in axes && axis.name == key;
      }
    }
  }

  lemma {:induction false} OverlayHas(row: Row, includes: seq<Row>, names: set<string>, key: string)
    requires key in row
    ensures key in Overlay(row, includes, names)
  {
    if includes != [] {
      OverlayHas(row, includes[..|includes| - 1], names, key);
    }
  }

  /** The place of a surviving choice among the rows. */
  ghost function PlaceOf(axes: seq<Axis>, excludes: seq<Row>, choice: seq<nat>): nat
    requires (forall axis :: axis in axes ==> axis.Listed?) && IsChoice(axes, choice)
  {
    RankBelowSize(axes, choice);
    |SurvivorsBelow(axes, excludes, Rank(axes, choice))|
  }

  /** EXACT ROWS of a matrix with axes. There are as many rows as surviving choices and
      loose includes. The row of each surviving choice stands behind those of the
      survivors before it, and each loose include stands verbatim behind all of them in
      its order. */
  lemma RowsExactly(axes: seq<Axis>, excludes: seq<Row>, includes: seq<Row>)
    requires Proper(axes) && axes != []
    ensures var rows := Merged(Original(axes), excludes, includes, Names(axes));
            && |rows| == |Survivors(axes, excludes)| + |LooseIndices(axes, includes)|
            && (forall choice: seq<nat> :: IsChoice(axes, choice) && Survives(axes, excludes, choice) ==>
                  PlaceOf(axes, excludes, choice) < |rows| &&
                  RowOf(axes, includes, choice, rows[PlaceOf(axes, excludes, choice)]))
            && (forall i :: 0 <= i < |includes| && Loose(axes, includes[i]) ==>
                  var at := |Survivors(axes, excludes)| + |LooseIndices(axes, includes[..i])|;
                  at < |rows| && rows[at] == includes[i])
  {
    var rows := Merged(Original(axes), excludes, includes, Names(axes));
    hide Product, Kept, Standalone, Overlay, Survives, Loose, RowOf, Rank, Size, IsChoice, SurvivorsBelow, LooseIndices,
         Names, PlaceOf;
    ProductSize(axes);
    KeptBelow(axes, excludes, Size(axes));
    assert Product(axes)[..Size(axes)] == Product(axes);
    KeptCount(Product(axes), excludes);
    StandaloneCount(includes, Product(axes), Names(axes));
    LooseAreUnmatched(axes, includes);
    forall choice: seq<nat> | IsChoice(axes, choice) && Survives(axes, excludes, choice)
      ensures PlaceOf(axes, excludes, choice) < |rows|
      ensures RowOf(axes, includes, choice, rows[PlaceOf(axes, excludes, choice)])
    {
      ChoiceIsPlaced(axes, excludes, includes, choice);
    }
    forall i | 0 <= i < |includes| && Loose(axes, includes[i])
      ensures var at := |Survivors(axes, excludes)| + |LooseIndices(axes, includes[..i])|;
              at < |rows| && rows[at] == includes[i]
    {
      LooseExactly(axes, includes[i]);
      LooseAreUnmatched(axes, includes[..i]);
      StandaloneAt(includes, Product(axes), Names(axes), i);
    }
  }

  lemma ChoiceIsPlaced(axes: seq<Axis>, excludes: seq<Row>, includes: seq<Row>, choice: seq<nat>)
    requires Proper(axes) && axes != [] && IsChoice(axes, choice) && Survives(axes, excludes, choice)
    ensures var rows := Merged(Original(axes), excludes, includes, Names(axes));
            PlaceOf(axes, excludes, choice) < |Kept(Product(axes), excludes)| <= |rows| &&
            RowOf(axes, includes, choice, rows[PlaceOf(axes, excludes, choice)])
  {
    var rank := Rank(axes, choice);
    RankBelowSize(axes, choice);
    ProductSize(axes);
    hide Product, Kept, Standalone, Overlay, Survives, RowOf, Rank, Size, IsChoice, SurvivorsBelow, Names, KeptIndices;
    ExcludedExactly(axes, excludes, choice);
    KeptBelow(axes, excludes, rank);
    KeptAt(Product(axes), excludes, rank);
    OverlayIsRow(axes, includes, choice);
  }

  /* ---- when a matrix has no rows or none at all ---- */

  /** EXACT FAILURE. A matrix does not resolve exactly when it is no mapping, has an axis
      that is no list, or has more than 4096 choices. */
  lemma UnresolvedExactly(matrix: Matrix)
    ensures Variants(matrix).None? <==>
            matrix.NotAMapping? ||
            (matrix.Matrix? &&
             ((exists axis :: axis in matrix.axes && axis.Dynamic?) || |AllChoices(matrix.axes)| > 4096))
  {
    if matrix.Matrix? && !(exists axis :: axis in matrix.axes && axis.Dynamic?) {
      ChoicesCount(matrix.axes, Size(matrix.axes));
    }
    hide Size, Merged, Names, Original;
  }

  lemma {:induction false} ChoicesCount(axes: seq<Axis>, n: nat)
    requires (forall axis :: axis in axes ==> axis.Listed?) && n <= Size(axes)
    ensures |ChoicesBelow(axes, n)| == n
  {
    hide Size, Rank, ChoiceAt;
    if n == 0 {
      assert ChoicesBelow(axes, 0) == {};
    } else {
      ChoicesCount(axes, n - 1);
      ChoiceAtHasRank(axes, n - 1);
      ChoicesBelowExactly(axes, n - 1, ChoiceAt(axes, n - 1));
      ChoicesBelowStep(axes, n - 1);
    }
  }

  /** A job without a matrix, or with an empty one, has one row without entries. Without
      axes the rows are the includes. */
  lemma NoAxesExactly(excludes: Option<seq<Row>>, includes: Option<seq<Row>>)
    ensures Variants(NoMatrix) == Some([map[]]) && Variants(Matrix([], None, None)) == Some([map[]])
    ensures excludes.Some? || includes.Some? ==>
              Variants(Matrix([], excludes, includes)) == Some(if includes.Some? then includes.value else [])
  {
    assert Names([]) == {} && Kept([], Entries(excludes)) == [];
    AllStandalone(Entries(includes));
    AllStandalone([]);
    hide Standalone;
    assert Overlays([], Entries(includes), {}) == [];
    assert Merged([], Entries(excludes), Entries(includes), {}) == Entries(includes);
  }

  lemma {:induction false} AllStandalone(includes: seq<Row>)
    ensures Standalone(includes, [], {}) == includes
  {
    if includes != [] {
      AllStandalone(includes[..|includes| - 1]);
    }
  }

  /** A matrix with axes that resolves has the merged rows. */
  lemma VariantsAreMerged(matrix: Matrix)
    requires matrix.Matrix? && matrix.axes != [] && Variants(matrix).Some?
    ensures forall axis :: axis in matrix.axes ==> axis.Listed?
    ensures Variants(matrix).value ==
            Merged(Original(matrix.axes), Entries(matrix.excludes), Entries(matrix.includes), Names(matrix.axes))
    ensures Entries(matrix.excludes) == if matrix.excludes.Some? then matrix.excludes.value else []
    ensures Entries(matrix.includes) == if matrix.includes.Some? then matrix.includes.value else []
  {
    hide Size, Merged, Names, Original;
  }
}
