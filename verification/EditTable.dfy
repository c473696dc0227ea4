/** CalculateOptimalEdits itself: filling the table, walking back, and the
    interning of lines as ids. */
module EditTable {
  import opened EditDistance
  import opened OptimalEdits

  function Reversed<T>(s: seq<T>): (r: seq<T>)
    ensures |r| == |s|
    ensures forall i | 0 <= i < |s| :: r[i] == s[|s| - 1 - i]
  {
    if s == [] then [] else Reversed(s[1..]) + [s[0]]
  }

  /** The cell at the end of `left[..l + 1]` and `right[..r + 1]`, from its neighbours. */
  lemma InnerCell<T>(left: seq<T>, right: seq<T>, l: nat, r: nat)
    requires l < |left| && r < |right|
    ensures var add, remove, replace :=
              TableCost(left[..l + 1], right[..r]), TableCost(left[..l], right[..r + 1]),
              TableCost(left[..l], right[..r]);
            var move := TableMove(left[..l + 1], right[..r + 1]);
            && move == (if left[l] == right[r] then Match
                        else if add < remove && add < replace then Add
                        else if remove < add && remove < replace then Remove
                        else Replace)
            && TableCost(left[..l + 1], right[..r + 1])
               == (match move
                   case Match => replace
                   case Add => add + 1.0
                   case Remove => remove + 1.0
                   case Replace => replace + REPLACE_COST)
  {
    assert left[..l + 1][..l] == left[..l] && right[..r + 1][..r] == right[..r];
  }

  method FillTable(left: seq<nat>, right: seq<nat>) returns (costs: array2<real>, bestMove: array2<EditType>)
    ensures costs.Length0 == bestMove.Length0 == |left| + 1
    ensures costs.Length1 == bestMove.Length1 == |right| + 1
    ensures forall l, r | 0 <= l <= |left| && 0 <= r <= |right| ::
              costs[l, r] == TableCost(left[..l], right[..r]) && bestMove[l, r] == TableMove(left[..l], right[..r])
  {
    hide TableCost, TableMove;
    costs := new real[|left| + 1, |right| + 1];
    bestMove := new EditType[|left| + 1, |right| + 1];

    // Without right items everything is removed.
    for lI := 0 to |left| + 1
      invariant forall l, r | 0 <= l <= |left| && 0 <= r <= |right| && l < lI && r == 0 ::
                  costs[l, r] == TableCost(left[..l], right[..r]) && bestMove[l, r] == TableMove(left[..l], right[..r])
    {
      EmptyRight(left[..lI], right);
      costs[lI, 0] := lI as real;
      bestMove[lI, 0] := Remove;
    }
    // Without left items everything is added.
    for rI := 1 to |right| + 1
      invariant forall l, r | 0 <= l <= |left| && 0 <= r <= |right| && (r == 0 || (l == 0 && r < rI)) ::
                  costs[l, r] == TableCost(left[..l], right[..r]) && bestMove[l, r] == TableMove(left[..l], right[..r])
    {
      EmptyLeft(left, right[..rI]);
      costs[0, rI] := rI as real;
      bestMove[0, rI] := Add;
    }
    for lI := 0 to |left|
      invariant forall l, r | 0 <= l <= |left| && 0 <= r <= |right| && (r == 0 || l <= lI) ::
                  costs[l, r] == TableCost(left[..l], right[..r]) && bestMove[l, r] == TableMove(left[..l], right[..r])
    {
      for rI := 0 to |right|
        invariant forall l, r
                    | 0 <= l <= |left| && 0 <= r <= |right| && (r == 0 || l <= lI || (l == lI + 1 && r <= rI)) ::
                    && costs[l, r] == TableCost(left[..l], right[..r])
                    && bestMove[l, r] == TableMove(left[..l], right[..r])
      {
        InnerCell(left, right, lI, rI);
        if left[lI] == right[rI] {
          costs[lI + 1, rI + 1] := costs[lI, rI];
          bestMove[lI + 1, rI + 1] := Match;
        } else {
          var add := costs[lI + 1, rI];
          var remove := costs[lI, rI + 1];
          var replace := costs[lI, rI];
          if add < remove && add < replace {
            costs[lI + 1, rI + 1] := add + 1.0;
            bestMove[lI + 1, rI + 1] := Add;
          } else if remove < add && remove < replace {
            costs[lI + 1, rI + 1] := remove + 1.0;
            bestMove[lI + 1, rI + 1] := Remove;
          } else {
            costs[lI + 1, rI + 1] := replace + REPLACE_COST;
            bestMove[lI + 1, rI + 1] := Replace;
          }
        }
      }
    }
  }

  lemma EmptyRight<T>(left: seq<T>, right: seq<T>)
    ensures TableCost(left, right[..0]) == |left| as real && TableMove(left, right[..0]) == Remove
  {
  }

  lemma EmptyLeft<T>(left: seq<T>, right: seq<T>)
    requires right != []
    ensures TableCost(left[..0], right) == |right| as real && TableMove(left[..0], right) == Add
  {
  }

  /** One step back along the path. */
  lemma PathStep<T>(left: seq<T>, right: seq<T>, l: nat, r: nat)
    requires l <= |left| && r <= |right| && (l > 0 || r > 0)
    ensures var move := TableMove(left[..l], right[..r]);
            && (!move.Add? ==> l > 0) && (!move.Remove? ==> r > 0)
            && Path(left[..l], right[..r])
               == Path(left[..if move.Add? then l else l - 1], right[..if move.Remove? then r else r - 1]) + [move]
  {
    assert l > 0 ==> left[..l][..l - 1] == left[..l - 1];
    assert r > 0 ==> right[..r][..r - 1] == right[..r - 1];
  }

  method CalculateOptimalEdits(left: seq<nat>, right: seq<nat>) returns (bestPath: seq<EditType>)
    ensures bestPath == Path(left, right)
    ensures IsScript(bestPath, left, right)
  {
    var costs, bestMove := FillTable(left, right);
    PathIsScript(left, right);
    hide Path, TableMove, TableCost, IsScript, Weight;

    // Walk back from the last cell.
    bestPath := [];
    var lI, rI := |left|, |right|;
    assert left[..lI] == left && right[..rI] == right;
    assert Path(left, right) == Path(left, right) + Reversed(bestPath);
    while lI > 0 || rI > 0
      invariant 0 <= lI <= |left| && 0 <= rI <= |right|
      invariant Path(left, right) == Path(left[..lI], right[..rI]) + Reversed(bestPath)
      decreases lI + rI
      modifies {}
    {
      PathStep(left, right, lI, rI);
      var move := bestMove[lI, rI];
      assert move == TableMove(left[..lI], right[..rI]);
      assert Reversed(bestPath + [move]) == [move] + Reversed(bestPath);
      bestPath := bestPath + [move];
      lI := if move.Add? then lI else lI - 1;
      rI := if move.Remove? then rI else rI - 1;
    }
    EmptyPath(left, right);
    assert Path(left, right) == Reversed(bestPath);
    bestPath := Reversed(bestPath);
  }

  lemma EmptyPath<T>(left: seq<T>, right: seq<T>)
    ensures Path(left[..0], right[..0]) == []
  {
  }

  // ---------- lines as ids ----------

  /** Converts lines into ids with deduplication. */
  class InternalStrings {
    var ids: map<string, nat>

    ghost predicate Valid()
      reads this
    {
      && (forall s | s in ids :: ids[s] < |ids|)
      && (forall s, t | s in ids && t in ids && ids[s] == ids[t] :: s == t)
    }

    constructor ()
      ensures Valid() && ids == map[]
    {
      ids := map[];
    }

    /** Equal lines, and only they, get the same id; earlier ids stay. */
    method GetId(str: string) returns (id: nat)
      requires Valid()
      modifies this
      ensures Valid()
      ensures str in ids && ids[str] == id
      ensures forall s | s in old(ids) :: s in ids && ids[s] == old(ids)[s]
    {
      if str in ids {
        return ids[str];
      }
      id := |ids|;
      ids := ids[str := id];
    }
  }

  ghost predicate SameEqualities<A, B>(left: seq<A>, right: seq<A>, left': seq<B>, right': seq<B>) {
    && |left| == |left'| && |right| == |right'|
    && forall i, j | 0 <= i < |left| && 0 <= j < |right| :: left[i] == right[j] <==> left'[i] == right'[j]
  }

  lemma {:induction false} CellSeesOnlyEquality<A, B>(left: seq<A>, right: seq<A>, left': seq<B>, right': seq<B>)
    requires SameEqualities(left, right, left', right')
    ensures TableMove(left, right) == TableMove(left', right')
    ensures TableCost(left, right) == TableCost(left', right')
    decreases |left| + |right|
  {
    if left != [] && right != [] {
      var l, r, l', r' := left[..|left| - 1], right[..|right| - 1], left'[..|left| - 1], right'[..|right| - 1];
      CellSeesOnlyEquality(l, right, l', right');
      CellSeesOnlyEquality(left, r, left', r');
      CellSeesOnlyEquality(l, r, l', r');
    }
  }

  /** The path depends only on which items are equal. */
  lemma {:induction false} PathSeesOnlyEquality<A, B>(left: seq<A>, right: seq<A>, left': seq<B>, right': seq<B>)
    requires SameEqualities(left, right, left', right')
    ensures Path(left, right) == Path(left', right')
    decreases |left| + |right|
  {
    hide TableCost;
    if left != [] || right != [] {
      var move := TableMove(left, right);
      CellSeesOnlyEquality(left, right, left', right');
      PathSeesOnlyEquality(LeftBefore(move, left), RightBefore(move, right),
                           LeftBefore(move, left'), RightBefore(move, right'));
    }
  }

  /** The same edits as if the lines themselves had been compared. */
  method CalculateOptimalLineEdits(left: seq<string>, right: seq<string>) returns (edits: seq<EditType>)
    ensures edits == Path(left, right)
    ensures IsScript(edits, left, right)
  {
    var internTable := new InternalStrings();
    var leftIds, rightIds: seq<nat> := [], [];
    for i := 0 to |left|
      invariant internTable.Valid()
      invariant |leftIds| == i
      invariant forall k | 0 <= k < i :: left[k] in internTable.ids && leftIds[k] == internTable.ids[left[k]]
    {
      var id := internTable.GetId(left[i]);
      leftIds := leftIds + [id];
    }
    for i := 0 to |right|
      invariant internTable.Valid()
      invariant |rightIds| == i
      invariant forall k | 0 <= k < |left| :: left[k] in internTable.ids && leftIds[k] == internTable.ids[left[k]]
      invariant forall k | 0 <= k < i :: right[k] in internTable.ids && rightIds[k] == internTable.ids[right[k]]
    {
      var id := internTable.GetId(right[i]);
      rightIds := rightIds + [id];
    }
    edits := CalculateOptimalEdits(leftIds, rightIds);
    PathSeesOnlyEquality(leftIds, rightIds, left, right);
    PathIsScript(left, right);
  }
}
