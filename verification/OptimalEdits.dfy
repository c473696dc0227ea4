/** The table that CalculateOptimalEdits fills, the path it reads back, and what
    the path is worth. */
module OptimalEdits {
  import opened Arithmetic
  import opened EditDistance

  // ---------- the table as functions of the two prefixes ----------

  function TableMove<T(==)>(left: seq<T>, right: seq<T>): EditType
    decreases |left| + |right|, 0
  {
    if right == [] then Remove
    else if left == [] then Add
    else
      var l, r := left[..|left| - 1], right[..|right| - 1];
      if left[|l|] == right[|r|] then Match
      else
        var add, remove, replace := TableCost(left, r), TableCost(l, right), TableCost(l, r);
        if add < remove && add < replace then Add
        else if remove < add && remove < replace then Remove
        else Replace
  }

  function TableCost<T(==)>(left: seq<T>, right: seq<T>): real
    decreases |left| + |right|, 1
  {
    if right == [] then |left| as real
    else if left == [] then |right| as real
    else
      var l, r := left[..|left| - 1], right[..|right| - 1];
      match TableMove(left, right)
      case Match => TableCost(l, r)
      case Add => TableCost(left, r) + 1.0
      case Remove => TableCost(l, right) + 1.0
      case Replace => TableCost(l, r) + REPLACE_COST
  }

  /** The path read back from the last cell. */
  function Path<T(==)>(left: seq<T>, right: seq<T>): seq<EditType>
    decreases |left| + |right|
  {
    if left == [] && right == [] then []
    else
      var move := TableMove(left, right);
      Path(LeftBefore(move, left), RightBefore(move, right)) + [move]
  }

  // ---------- what the path is worth ----------

  /** The path is a script, and weighs what its cell says. */
  lemma {:induction false} PathIsScript<T>(left: seq<T>, right: seq<T>)
    ensures IsScript(Path(left, right), left, right)
    ensures Weight(Path(left, right)) == TableCost(left, right)
    decreases |left| + |right|
  {
    if left != [] || right != [] {
      var move := TableMove(left, right);
      var l, r := LeftBefore(move, left), RightBefore(move, right);
      PathIsScript(l, r);
      AppendEdit(Path(l, r), left, right, move);
    }
  }

  /** The weight is at most that of replacing along the diagonal and adding or
      removing the rest, and at least the difference in length. */
  lemma {:induction false} WeightBounds<T>(left: seq<T>, right: seq<T>)
    ensures TableCost(left, right)
            <= REPLACE_COST * Min(|left|, |right|) as real
               + (|left| + |right| - 2 * Min(|left|, |right|)) as real
    ensures TableCost(left, right) >= (|left| - |right|) as real
    ensures TableCost(left, right) >= (|right| - |left|) as real
    decreases |left| + |right|
  {
    if left != [] && right != [] {
      WeightBounds(left[..|left| - 1], right);
      WeightBounds(left, right[..|right| - 1]);
      WeightBounds(left[..|left| - 1], right[..|right| - 1]);
    }
  }

  /** The weight is zero exactly on equal inputs. */
  lemma {:induction false} ZeroWeight<T>(left: seq<T>, right: seq<T>)
    ensures TableCost(left, right) == 0.0 <==> left == right
    decreases |left| + |right|
  {
    WeightBounds(left, right);
    if left != [] && right != [] {
      var l, r := left[..|left| - 1], right[..|right| - 1];
      ZeroWeight(l, r);
      WeightBounds(left, r);
      WeightBounds(l, right);
      WeightBounds(l, r);
      assert left == l + [left[|l|]] && right == r + [right[|r|]];
    }
  }

  // ---------- optimality ----------

  /** The last cell takes the replace branch although adding or removing would
      have been cheaper: its test asks for a strict minimum, so a tie between add
      and remove falls through. */
  ghost predicate CheaperEditRefused<T>(left: seq<T>, right: seq<T>) {
    && left != [] && right != [] && TableMove(left, right) == Replace
    && var l, r := left[..|left| - 1], right[..|right| - 1];
       Least(TableCost(left, r), TableCost(l, right)) + 1.0 < TableCost(l, r) + REPLACE_COST
  }

  lemma TableAboveDistance<T>(left: seq<T>, right: seq<T>)
    ensures TableCost(left, right) >= Distance(left, right)
  {
    PathIsScript(left, right);
    NoScriptIsLighter(Path(left, right), left, right);
  }

  /** Some lightest route to the last cell passes only cells that refuse nothing. Equal
      last items leave no choice, since the table matches them at once. */
  ghost predicate FreeRoute<T>(left: seq<T>, right: seq<T>)
    decreases |left| + |right|
  {
    if left == [] || right == [] then true
    else
      var l, r := left[..|left| - 1], right[..|right| - 1];
      if left[|l|] == right[|r|] then FreeRoute(l, r)
      else
        && !CheaperEditRefused(left, right)
        && (|| (Distance(left, r) + 1.0 == Distance(left, right) && FreeRoute(left, r))
            || (Distance(l, right) + 1.0 == Distance(left, right) && FreeRoute(l, right))
            || (Distance(l, r) + REPLACE_COST == Distance(left, right) && FreeRoute(l, r)))
  }

  /** One of three neighbours is the cheapest way to `total`. */
  ghost predicate IsLeast(total: real, add: real, remove: real, replace: real) {
    && total <= add + 1.0 && total <= remove + 1.0 && total <= replace + REPLACE_COST
    && (total == add + 1.0 || total == remove + 1.0 || total == replace + REPLACE_COST)
  }

  lemma LastCell<T>(left: seq<T>, right: seq<T>)
    requires left != [] && right != []
    ensures var l, r := left[..|left| - 1], right[..|right| - 1];
            if left[|l|] == right[|r|] then
              TableCost(left, right) == TableCost(l, r) && Distance(left, right) == Distance(l, r)
            else
              && IsLeast(Distance(left, right), Distance(left, r), Distance(l, right), Distance(l, r))
              && (if CheaperEditRefused(left, right) then
                    TableCost(left, right) > Least(TableCost(left, r), TableCost(l, right)) + 1.0
                  else IsLeast(TableCost(left, right), TableCost(left, r), TableCost(l, right), TableCost(l, r)))
  {
    NeighboursAreClose(left, right[..|right| - 1]);
    NeighboursAreClose(left[..|left| - 1], right);
  }

  /** The last cell holds the distance exactly when there is such a route. */
  lemma {:induction false} CellIsDistance<T>(left: seq<T>, right: seq<T>)
    ensures TableCost(left, right) == Distance(left, right) <==> FreeRoute(left, right)
    decreases |left| + |right|
  {
    if left != [] && right != [] {
      hide TableCost, TableMove, Distance, CheaperEditRefused;
      var l, r := left[..|left| - 1], right[..|right| - 1];
      CellIsDistance(left, r);
      CellIsDistance(l, right);
      CellIsDistance(l, r);
      TableAboveDistance(left, r);
      TableAboveDistance(l, right);
      TableAboveDistance(l, r);
      LastCell(left, right);
    }
  }

  /** The promise of optimal edits, for any two inputs. */
  lemma OptimalIffFreeRoute<T(!new)>(left: seq<T>, right: seq<T>)
    ensures IsOptimal(Path(left, right), left, right) <==> FreeRoute(left, right)
  {
    hide *;
    PathIsScript(left, right);
    OptimalIsDistance(Path(left, right), left, right);
    CellIsDistance(left, right);
  }

  /** The path itself passes a cell that refuses a cheaper edit. */
  ghost predicate RefusedOnPath<T>(left: seq<T>, right: seq<T>)
    decreases |left| + |right|
  {
    if left == [] && right == [] then false
    else
      var move := TableMove(left, right);
      CheaperEditRefused(left, right) || RefusedOnPath(LeftBefore(move, left), RightBefore(move, right))
  }

  /** Such a path is never optimal. */
  lemma {:induction false} RefusalOnPathCosts<T>(left: seq<T>, right: seq<T>)
    requires RefusedOnPath(left, right)
    ensures TableCost(left, right) > Distance(left, right)
    decreases |left| + |right|
  {
    if left != [] && right != [] {
      var l, r := left[..|left| - 1], right[..|right| - 1];
      NeighboursAreClose(left, r);
      NeighboursAreClose(l, right);
      if CheaperEditRefused(left, right) {
        TableAboveDistance(left, r);
        TableAboveDistance(l, right);
      } else {
        var move := TableMove(left, right);
        RefusalOnPathCosts(LeftBefore(move, left), RightBefore(move, right));
      }
    } else if left != [] || right != [] {
      NothingRefusedAtTheEdge(left, right);
    }
  }

  lemma {:induction false} NothingRefusedAtTheEdge<T>(left: seq<T>, right: seq<T>)
    requires left == [] || right == []
    ensures !RefusedOnPath(left, right)
    decreases |left| + |right|
  {
    if left != [] || right != [] {
      var move := TableMove(left, right);
      NothingRefusedAtTheEdge(LeftBefore(move, left), RightBefore(move, right));
    }
  }

  /** No refusal at any pair of prefixes: the table is the distance. */
  lemma {:induction false} TableIsDistance<T(!new)>(left: seq<T>, right: seq<T>)
    requires NoRefusal(left, right)
    ensures TableCost(left, right) == Distance(left, right)
    decreases |left| + |right|
  {
    if left != [] && right != [] {
      var l, r := left[..|left| - 1], right[..|right| - 1];
      assert forall i | 0 <= i <= |l| :: l[..i] == left[..i];
      assert forall i | 0 <= i <= |r| :: r[..i] == right[..i];
      assert left[..|left|] == left && right[..|right|] == right;
      TableIsDistance(l, right);
      TableIsDistance(left, r);
      TableIsDistance(l, r);
      NeighboursAreClose(left, r);
      NeighboursAreClose(l, right);
      assert !CheaperEditRefused(left, right);
    }
  }

  ghost predicate OptimalOnPrefixes<T(!new)>(left: seq<T>, right: seq<T>) {
    forall l, r | 0 <= l <= |left| && 0 <= r <= |right| ::
      IsOptimal(Path(left[..l], right[..r]), left[..l], right[..r])
  }

  lemma OptimalCell<T(!new)>(left: seq<T>, right: seq<T>, a: seq<T>, b: seq<T>)
    requires OptimalOnPrefixes(left, right)
    requires |a| <= |left| && a == left[..|a|] && |b| <= |right| && b == right[..|b|]
    ensures TableCost(a, b) == Distance(a, b)
  {
    PathIsScript(a, b);
    OptimalIsDistance(Path(a, b), a, b);
  }

  ghost predicate NoRefusal<T(!new)>(left: seq<T>, right: seq<T>) {
    forall l, r | 0 <= l <= |left| && 0 <= r <= |right| :: !CheaperEditRefused(left[..l], right[..r])
  }

  lemma NoRefusalMeansOptimal<T(!new)>(left: seq<T>, right: seq<T>, l: nat, r: nat)
    requires NoRefusal(left, right) && l <= |left| && r <= |right|
    ensures IsOptimal(Path(left[..l], right[..r]), left[..l], right[..r])
  {
    var a, b := left[..l], right[..r];
    assert forall i | 0 <= i <= l :: a[..i] == left[..i];
    assert forall i | 0 <= i <= r :: b[..i] == right[..i];
    TableIsDistance(a, b);
    PathIsScript(a, b);
    OptimalIsDistance(Path(a, b), a, b);
  }

  /** A refusal leaves its cell above the distance. */
  lemma RefusalCosts<T>(left: seq<T>, right: seq<T>)
    requires CheaperEditRefused(left, right)
    requires TableCost(left[..|left| - 1], right) == Distance(left[..|left| - 1], right)
    requires TableCost(left, right[..|right| - 1]) == Distance(left, right[..|right| - 1])
    ensures TableCost(left, right) > Distance(left, right)
  {
  }

  lemma OptimalMeansNoRefusal<T(!new)>(left: seq<T>, right: seq<T>, l: nat, r: nat)
    requires OptimalOnPrefixes(left, right) && l <= |left| && r <= |right|
    ensures !CheaperEditRefused(left[..l], right[..r])
  {
    hide TableCost, TableMove, Distance, IsOptimal, OptimalOnPrefixes, Path;
    var a, b := left[..l], right[..r];
    if CheaperEditRefused(a, b) {
      assert a[..l - 1] == left[..l - 1] && b[..r - 1] == right[..r - 1];
      OptimalCell(left, right, a, b);
      OptimalCell(left, right, a[..l - 1], b);
      OptimalCell(left, right, a, b[..r - 1]);
      RefusalCosts(a, b);
      assert false;
    }
  }

  /** The scripts are optimal for all pairs of prefixes exactly when no cell
      refuses a cheaper edit. */
  lemma OptimalIffNoRefusal<T(!new)>(left: seq<T>, right: seq<T>)
    ensures OptimalOnPrefixes(left, right) <==> NoRefusal(left, right)
  {
    forall l, r | NoRefusal(left, right) && 0 <= l <= |left| && 0 <= r <= |right|
      ensures IsOptimal(Path(left[..l], right[..r]), left[..l], right[..r])
    {
      NoRefusalMeansOptimal(left, right, l, r);
    }
    forall l, r | OptimalOnPrefixes(left, right) && 0 <= l <= |left| && 0 <= r <= |right|
      ensures !CheaperEditRefused(left[..l], right[..r])
    {
      OptimalMeansNoRefusal(left, right, l, r);
    }
  }

  /** "121" to "212": the last cell replaces, where an add and a remove would have done. */
  lemma NotAlwaysOptimal()
    ensures !IsOptimal(Path([1, 2, 1], [2, 1, 2]), [1, 2, 1], [2, 1, 2])
  {
    ThreeReplaces();
    hide CheaperEditRefused;
    OptimalIffFreeRoute([1, 2, 1], [2, 1, 2]);
  }

  lemma ThreeReplaces()
    ensures TableCost([1, 2, 1], [2, 1, 2]) == 3.00003
    ensures CheaperEditRefused([1, 2, 1], [2, 1, 2])
  {
    var a, b := [1, 2, 1], [2, 1, 2];
    assert a[..2] == [1, 2] && b[..2] == [2, 1] && [1, 2][..1] == [1] && [2, 1][..1] == [2];
    assert [1][..0] == [] && [2][..0] == [];
    assert TableCost([1], [2]) == 1.00001;
    assert TableCost([1, 2], [2]) == 1.0;
    assert TableCost([1], [2, 1]) == 1.0;
    assert TableCost([1, 2], [2, 1]) == 2.00002;
    assert TableCost(a, [2, 1]) == 1.0;
    assert TableCost([1, 2], b) == 1.0;
  }

  /** "01" to "100": a refusal that no lightest route needs to pass does no harm. */
  lemma RefusalOffTheRoute()
    ensures CheaperEditRefused([0, 1], [1, 0])
    ensures IsOptimal(Path([0, 1], [1, 0, 0]), [0, 1], [1, 0, 0])
  {
    var a, b := [0, 1], [1, 0, 0];
    assert a[..1] == [0] && b[..2] == [1, 0] && [1, 0][..1] == [1] && [0][..0] == [] && [1][..0] == [];
    assert TableCost([0], [1]) == 1.00001 && TableCost([0], [1, 0]) == 1.0 && TableCost([0], b) == 2.0;
    assert TableCost(a, [1]) == 1.0 && TableCost(a, [1, 0]) == 2.00002;
    assert TableCost(a, b) == 2.00001;
    assert Distance([0], [1]) == 1.00001 && Distance([0], [1, 0]) == 1.0 && Distance([0], b) == 2.0;
    assert Distance(a, [1]) == 1.0 && Distance(a, [1, 0]) == 2.0;
    assert Distance(a, b) == 2.00001;
    hide TableCost, TableMove, Distance, Path, IsOptimal;
    PathIsScript(a, b);
    OptimalIsDistance(Path(a, b), a, b);
  }
}
