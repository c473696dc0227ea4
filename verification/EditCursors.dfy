/** Where the two files stand along an edit script. */
module EditCursors {
  import opened EditDistance

  /** The first `editI` edits consume `lI` left and `rI` right lines. */
  ghost predicate At(edits: seq<EditType>, editI: int, lI: int, rI: int) {
    && 0 <= editI <= |edits|
    && lI == LeftLength(edits[..editI])
    && rI == RightLength(edits[..editI])
  }

  ghost predicate MatchesFrom(edits: seq<EditType>, first: int, past: int) {
    && 0 <= first && past <= |edits|
    && forall k | first <= k < past :: edits[k].Match?
  }

  /** The next change is fewer than `context` edits away. */
  ghost predicate ChangeIsNear(edits: seq<EditType>, editI: nat, context: nat) {
    exists it: nat ::
      editI <= it < |edits| && MatchesFrom(edits, editI, it) && !edits[it].Match? && it - editI < context
  }

  lemma NearChange(edits: seq<EditType>, editI: nat, it: nat, context: nat)
    requires editI <= it < |edits| && MatchesFrom(edits, editI, it) && !edits[it].Match? && it - editI < context
    ensures ChangeIsNear(edits, editI, context)
  {
  }

  /** No change among the next `context` edits. */
  ghost predicate NextIsFar(edits: seq<EditType>, editI: nat, context: nat) {
    forall k | editI <= k < |edits| && k < editI + context :: edits[k].Match?
  }

  lemma Advance<T>(edits: seq<EditType>, left: seq<T>, right: seq<T>, editI: int, lI: int, rI: int)
    requires IsScript(edits, left, right) && At(edits, editI, lI, rI) && editI < |edits|
    ensures var e := edits[editI];
            && At(edits, editI + 1, if e.Add? then lI else lI + 1, if e.Remove? then rI else rI + 1)
            && (!e.Add? ==> lI < |left|)
            && (!e.Remove? ==> rI < |right|)
            && (e.Match? ==> left[lI] == right[rI])
  {
    assert edits[..editI + 1][..editI] == edits[..editI];
    PrefixLengths(edits, editI + 1);
    if edits[editI].Match? {
      assert MatchesAt(edits, left, right, editI);
    }
  }

  /** Along a run of matches both files advance together over equal lines. */
  lemma {:induction false} MatchRun<T>(edits: seq<EditType>, left: seq<T>, right: seq<T>,
                                       first: int, past: int, lI: int, rI: int)
    requires IsScript(edits, left, right) && MatchesFrom(edits, first, past) && first <= past
    requires At(edits, past, lI, rI)
    ensures past - first <= lI && lI <= |left|
    ensures past - first <= rI && rI <= |right|
    ensures At(edits, first, lI - (past - first), rI - (past - first))
    ensures left[lI - (past - first)..lI] == right[rI - (past - first)..rI]
    decreases past - first
  {
    hide IsScript, At;
    AtBounds(edits, left, right, past, lI, rI);
    if first < past {
      StepBack(edits, past, lI, rI);
      Advance(edits, left, right, past - 1, lI - 1, rI - 1);
      MatchRun(edits, left, right, first, past - 1, lI - 1, rI - 1);
      SlicesGrow(left, right, lI - (past - first), lI - 1, rI - (past - first), rI - 1);
    }
  }

  lemma AtBounds<T>(edits: seq<EditType>, left: seq<T>, right: seq<T>, editI: int, lI: int, rI: int)
    requires IsScript(edits, left, right) && At(edits, editI, lI, rI)
    ensures 0 <= editI <= |edits| && 0 <= lI <= |left| && 0 <= rI <= |right|
  {
    PrefixLengths(edits, editI);
  }

  lemma StepBack(edits: seq<EditType>, editI: int, lI: int, rI: int)
    requires At(edits, editI, lI, rI) && editI > 0 && edits[editI - 1].Match?
    ensures At(edits, editI - 1, lI - 1, rI - 1)
  {
    assert edits[..editI][..editI - 1] == edits[..editI - 1];
  }

  lemma SlicesGrow<T>(left: seq<T>, right: seq<T>, a: int, lI: int, b: int, rI: int)
    requires 0 <= a <= lI < |left| && 0 <= b <= rI < |right|
    requires left[a..lI] == right[b..rI] && left[lI] == right[rI]
    ensures left[a..lI + 1] == right[b..rI + 1]
  {
    SliceGrows(left, a, lI);
    SliceGrows(right, b, rI);
  }

  lemma SliceGrows<T>(s: seq<T>, a: int, b: int)
    requires 0 <= a <= b < |s|
    ensures s[a..b + 1] == s[a..b] + [s[b]]
  {
  }

  lemma AtUnique(edits: seq<EditType>, editI: int, lI: int, rI: int, lI': int, rI': int)
    requires At(edits, editI, lI, rI) && At(edits, editI, lI', rI')
    ensures lI == lI' && rI == rI'
  {
  }
}
