/** The edit scripts behind assertion diffs: a dynamic-programming table over
    prefixes and the path read back from it. */
module EditDistance {
  datatype EditType = Match | Add | Remove | Replace

  // ---------- scripts ----------

  /** How many left (right) items a script consumes. */
  function LeftLength(edits: seq<EditType>): nat {
    if edits == [] then 0
    else LeftLength(edits[..|edits| - 1]) + if edits[|edits| - 1].Add? then 0 else 1
  }

  function RightLength(edits: seq<EditType>): nat {
    if edits == [] then 0
    else RightLength(edits[..|edits| - 1]) + if edits[|edits| - 1].Remove? then 0 else 1
  }

  /** The script walks over all of `left` and all of `right`, and matches only
      equal items. */
  ghost predicate IsScript<T>(edits: seq<EditType>, left: seq<T>, right: seq<T>) {
    && LeftLength(edits) == |left|
    && RightLength(edits) == |right|
    && forall k | 0 <= k < |edits| && edits[k].Match? :: MatchesAt(edits, left, right, k)
  }

  ghost predicate MatchesAt<T>(edits: seq<EditType>, left: seq<T>, right: seq<T>, k: int)
    requires 0 <= k < |edits|
  {
    && LeftLength(edits[..k]) < |left|
    && RightLength(edits[..k]) < |right|
    && left[LeftLength(edits[..k])] == right[RightLength(edits[..k])]
  }

  /** The prefixes that remain to be explained before a last edit. */
  function LeftBefore<T>(last: EditType, left: seq<T>): seq<T>
    requires !last.Add? ==> left != []
  {
    if last.Add? then left else left[..|left| - 1]
  }

  function RightBefore<T>(last: EditType, right: seq<T>): seq<T>
    requires !last.Remove? ==> right != []
  {
    if last.Remove? then right else right[..|right| - 1]
  }

  /** What the script makes of `left`: matched items are kept from `left`, added
      and replaced ones come from `right`. */
  ghost function Rewrite<T>(edits: seq<EditType>, left: seq<T>, right: seq<T>): seq<T>
    requires LeftLength(edits) <= |left| && RightLength(edits) <= |right|
  {
    if edits == [] then []
    else
      var before, last := edits[..|edits| - 1], edits[|edits| - 1];
      Rewrite(before, left, right)
      + if last.Match? then [left[LeftLength(before)]]
        else if last.Remove? then []
        else [right[RightLength(before)]]
  }

  lemma {:induction false} PrefixLengths(edits: seq<EditType>, k: nat)
    requires k <= |edits|
    ensures LeftLength(edits[..k]) <= LeftLength(edits)
    ensures RightLength(edits[..k]) <= RightLength(edits)
    decreases |edits|
  {
    if k < |edits| {
      PrefixLengths(edits[..|edits| - 1], k);
      assert edits[..|edits| - 1][..k] == edits[..k];
    } else {
      assert edits[..k] == edits;
    }
  }

  /** Following a script turns `left` into `right`. */
  lemma {:induction false} ScriptRewrites<T>(edits: seq<EditType>, left: seq<T>, right: seq<T>, n: nat)
    requires IsScript(edits, left, right) && n <= |edits|
    requires LeftLength(edits[..n]) <= |left| && RightLength(edits[..n]) <= |right|
    ensures Rewrite(edits[..n], left, right) == right[..RightLength(edits[..n])]
  {
    if n > 0 {
      assert edits[..n][..n - 1] == edits[..n - 1];
      ScriptRewrites(edits, left, right, n - 1);
      if edits[n - 1].Match? {
        assert MatchesAt(edits, left, right, n - 1);
      }
    }
  }

  // ---------- weights ----------

  /** Replacing is a little dearer than adding or removing. */
  const REPLACE_COST := 1.00001

  function Cost(e: EditType): real {
    match e
    case Match => 0.0
    case Add => 1.0
    case Remove => 1.0
    case Replace => REPLACE_COST
  }

  function Weight(edits: seq<EditType>): real {
    if edits == [] then 0.0 else Weight(edits[..|edits| - 1]) + Cost(edits[|edits| - 1])
  }

  ghost predicate IsOptimal<T(!new)>(edits: seq<EditType>, left: seq<T>, right: seq<T>) {
    && IsScript(edits, left, right)
    && forall other | IsScript(other, left, right) :: Weight(edits) <= Weight(other)
  }

  /** The least weight of any script between two prefixes. */
  ghost function Distance<T>(left: seq<T>, right: seq<T>): real
    decreases |left| + |right|
  {
    if left == [] then |right| as real
    else if right == [] then |left| as real
    else
      var l, r := left[..|left| - 1], right[..|right| - 1];
      var replaced := Distance(l, r) + if left[|l|] == right[|r|] then 0.0 else REPLACE_COST;
      Least(Distance(left, r) + 1.0, Least(Distance(l, right) + 1.0, replaced))
  }

  ghost function Changes(edits: seq<EditType>): nat {
    if edits == [] then 0
    else Changes(edits[..|edits| - 1]) + if edits[|edits| - 1].Match? then 0 else 1
  }

  ghost function Replaces(edits: seq<EditType>): nat {
    if edits == [] then 0
    else Replaces(edits[..|edits| - 1]) + if edits[|edits| - 1].Replace? then 1 else 0
  }

  /** A script weighs as much as its changes number, and a little more for replacing. */
  lemma {:induction false} WeightIsChanges(edits: seq<EditType>)
    ensures Weight(edits) == Changes(edits) as real + 0.00001 * Replaces(edits) as real
  {
    if edits != [] {
      WeightIsChanges(edits[..|edits| - 1]);
    }
  }

  lemma {:induction false} ReplacesWalkBothSides(edits: seq<EditType>)
    ensures Replaces(edits) <= LeftLength(edits) && Replaces(edits) <= RightLength(edits)
  {
    if edits != [] {
      ReplacesWalkBothSides(edits[..|edits| - 1]);
    }
  }

  /** In files of ordinary size an optimal script makes the fewest changes, and of those
      scripts it is one with the fewest replaces. */
  lemma FewestChanges<T(!new)>(edits: seq<EditType>, other: seq<EditType>, left: seq<T>, right: seq<T>)
    requires IsOptimal(edits, left, right) && IsScript(other, left, right)
    requires |left| < 100000 || |right| < 100000
    ensures Changes(edits) <= Changes(other)
    ensures Changes(edits) == Changes(other) ==> Replaces(edits) <= Replaces(other)
  {
    hide Weight, Changes, Replaces, LeftLength, RightLength;
    WeightIsChanges(edits);
    WeightIsChanges(other);
    ReplacesWalkBothSides(other);
  }

  function Least(a: real, b: real): real { if a < b then a else b }

  lemma {:induction false} NeighboursAreClose<T>(left: seq<T>, right: seq<T>)
    ensures left != [] ==> Distance(left[..|left| - 1], right) <= Distance(left, right) + 1.0
    ensures right != [] ==> Distance(left, right[..|right| - 1]) <= Distance(left, right) + 1.0
    decreases |left| + |right|
  {
    if left != [] && right != [] {
      NeighboursAreClose(left, right[..|right| - 1]);
      NeighboursAreClose(left[..|left| - 1], right);
    }
  }

  lemma DropLast<T>(edits: seq<EditType>, left: seq<T>, right: seq<T>)
    requires IsScript(edits, left, right) && edits != []
    ensures var last := edits[|edits| - 1];
            && (!last.Add? ==> left != [])
            && (!last.Remove? ==> right != [])
            && (last.Match? ==> left[|left| - 1] == right[|right| - 1])
            && IsScript(edits[..|edits| - 1], LeftBefore(last, left), RightBefore(last, right))
  {
    var n := |edits| - 1;
    var before, last := edits[..n], edits[n];
    if last.Match? {
      assert MatchesAt(edits, left, right, n);
    }
    forall k | 0 <= k < n && before[k].Match?
      ensures MatchesAt(before, LeftBefore(last, left), RightBefore(last, right), k)
    {
      assert MatchesAt(edits, left, right, k);
      assert before[..k] == edits[..k] && before[..k + 1] == edits[..k + 1];
      PrefixLengths(before, k + 1);
      assert edits[..k + 1][..k] == edits[..k];
    }
  }

  lemma AppendEdit<T>(edits: seq<EditType>, left: seq<T>, right: seq<T>, last: EditType)
    requires !last.Add? ==> left != []
    requires !last.Remove? ==> right != []
    requires last.Match? ==> left[|left| - 1] == right[|right| - 1]
    requires IsScript(edits, LeftBefore(last, left), RightBefore(last, right))
    ensures IsScript(edits + [last], left, right)
    ensures Weight(edits + [last]) == Weight(edits) + Cost(last)
  {
    var all := edits + [last];
    assert all[..|edits|] == edits;
    forall k | 0 <= k < |all| && all[k].Match?
      ensures MatchesAt(all, left, right, k)
    {
      if k < |edits| {
        assert MatchesAt(edits, LeftBefore(last, left), RightBefore(last, right), k);
        assert all[..k] == edits[..k];
      }
    }
  }

  /** No script is lighter than the distance ... */
  lemma {:induction false} NoScriptIsLighter<T>(edits: seq<EditType>, left: seq<T>, right: seq<T>)
    requires IsScript(edits, left, right)
    ensures Weight(edits) >= Distance(left, right)
    decreases |edits|
  {
    if edits != [] {
      DropLast(edits, left, right);
      var last := edits[|edits| - 1];
      NoScriptIsLighter(edits[..|edits| - 1], LeftBefore(last, left), RightBefore(last, right));
      NeighboursAreClose(left, right);
    }
  }

  /** ... and some script attains it. */
  lemma {:induction false} SomeScriptAttains<T>(left: seq<T>, right: seq<T>) returns (edits: seq<EditType>)
    ensures IsScript(edits, left, right) && Weight(edits) == Distance(left, right)
    decreases |left| + |right|
  {
    if left == [] && right == [] {
      edits := [];
    } else {
      var last := LightestEdit(left, right);
      edits := SomeScriptAttains(LeftBefore(last, left), RightBefore(last, right));
      AppendEdit(edits, left, right, last);
      edits := edits + [last];
    }
  }

  ghost function LightestEdit<T>(left: seq<T>, right: seq<T>): (last: EditType)
    requires left != [] || right != []
    ensures !last.Add? ==> left != []
    ensures !last.Remove? ==> right != []
    ensures last.Match? ==> left[|left| - 1] == right[|right| - 1]
    ensures Distance(left, right)
            == Distance(LeftBefore(last, left), RightBefore(last, right)) + Cost(last)
  {
    if left == [] then Add
    else if right == [] then Remove
    else
      var l, r := left[..|left| - 1], right[..|right| - 1];
      if Distance(left, right) == Distance(left, r) + 1.0 then Add
      else if Distance(left, right) == Distance(l, right) + 1.0 then Remove
      else if left[|l|] == right[|r|] then Match
      else Replace
  }

  lemma OptimalIsDistance<T(!new)>(edits: seq<EditType>, left: seq<T>, right: seq<T>)
    requires IsScript(edits, left, right)
    ensures IsOptimal(edits, left, right) <==> Weight(edits) == Distance(left, right)
  {
    var best := SomeScriptAttains(left, right);
    forall other | IsScript(other, left, right)
      ensures Weight(other) >= Distance(left, right)
    {
      NoScriptIsLighter(other, left, right);
    }
  }
}
