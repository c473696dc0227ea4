/** Filling one hunk of a unified diff: its leading context, its changes, and the
    matches that end it. */
module HunkFilling {
  import opened Arithmetic
  import opened DiffTexts
  import opened EditCursors
  import opened EditDistance
  import opened EditLines
  import opened HunkShape
  import opened Hunks
  import opened ShownLines

  ghost predicate SameLines(s: seq<string>, t: seq<string>, a: int, b: int, n: nat) {
    && 0 <= a && a + n <= |s| && 0 <= b && b + n <= |t|
    && forall k | 0 <= k < n :: SameAt(s, t, a, b, k)
  }

  ghost predicate SameAt(s: seq<string>, t: seq<string>, a: int, b: int, k: int) {
    && 0 <= a + k < |s| && 0 <= b + k < |t|
    && s[a + k] == t[b + k]
  }

  /** The lines show exactly these ranges of the two files. */
  ghost predicate Shows(lines: seq<Line>, left: seq<string>, right: seq<string>, a: int, lI: int, b: int, rI: int) {
    && 0 <= a <= lI <= |left| && 0 <= b <= rI <= |right|
    && OldSide(lines) == left[a..lI]
    && NewSide(lines) == right[b..rI]
  }

  lemma ShowsMore(lines: seq<Line>, lines': seq<Line>, left: seq<string>, right: seq<string>,
                  a: int, lI: int, b: int, rI: int, edit: EditType)
    requires Shows(lines, left, right, a, lI, b, rI)
    requires !edit.Add? ==> lI < |left|
    requires !edit.Remove? ==> rI < |right|
    requires OldSide(lines') == OldSide(lines) + if edit.Add? then [] else [left[lI]]
    requires NewSide(lines') == NewSide(lines) + if edit.Remove? then [] else [right[rI]]
    ensures Shows(lines', left, right, a, if edit.Add? then lI else lI + 1, b, if edit.Remove? then rI else rI + 1)
  {
    hide TextsWithout;
    if !edit.Add? {
      SliceGrows(left, a, lI);
    }
    if !edit.Remove? {
      SliceGrows(right, b, rI);
    }
  }

  /** The state of a hunk being filled: what it shows and what shape it has. */
  ghost predicate Filling(hunk: Hunk, left: seq<string>, right: seq<string>, a: int, lI: int, b: int, rI: int,
                          started: bool, lead: nat, trail: nat, n: nat)
    reads hunk
  {
    && hunk.Valid() && hunk.InGroups() && (!started ==> !hunk.HasEdits())
    && Shows(hunk.Lines(), left, right, a, lI, b, rI)
    && Open(hunk.hunk, hunk.hunkRemoves, hunk.hunkAdds, started, lead, trail, n)
  }

  lemma EmptyHunk(hunk: Hunk, left: seq<string>, right: seq<string>, a: int, b: int, n: nat)
    requires hunk.Valid() && hunk.InGroups() && !hunk.HasEdits()
    requires hunk.hunk == [] && hunk.hunkRemoves == [] && hunk.hunkAdds == []
    requires 0 <= a <= |left| && 0 <= b <= |right|
    ensures Filling(hunk, left, right, a, a, b, b, false, 0, 0, n)
  {
  }

  /** Pushes what one edit shows of the two files. */
  method PushEdit(hunk: Hunk, edit: EditType, left: seq<string>, right: seq<string>, lI: nat, rI: nat,
                  ghost a: int, ghost b: int, ghost started: bool, ghost lead: nat, ghost trail: nat, ghost n: nat)
    requires Filling(hunk, left, right, a, lI, b, rI, started, lead, trail, n)
    requires if edit.Match? then started else trail < n
    requires !edit.Add? ==> lI < |left|
    requires !edit.Remove? ==> rI < |right|
    requires edit.Match? ==> left[lI] == right[rI]
    modifies hunk
    ensures Filling(hunk, left, right, a, if edit.Add? then lI else lI + 1, b, if edit.Remove? then rI else rI + 1,
                    true, lead, if edit.Match? then trail + 1 else 0, n)
    ensures hunk.pushed == old(hunk.pushed) + LinesOfEdit(edit, left, right, lI, rI)
  {
    hide Open, Shows, TextsWithout, Hunk.InGroups;
    ghost var before := hunk.Lines();
    ghost var started', trail' := started, trail;
    if edit.Match? {
      OpenCommon(hunk.hunk, hunk.hunkRemoves, hunk.hunkAdds, lead, trail, n, Line(' ', left[lI]));
    } else if !edit.Add? {
      OpenRemove(hunk.hunk, hunk.hunkRemoves, hunk.hunkAdds, started, lead, trail, n, Line('-', left[lI]));
      started', trail' := true, 0;
    }
    if !edit.Add? {
      hunk.PushLine(if edit.Match? then ' ' else '-', left[lI]);
    }
    if edit.Add? || edit.Replace? {
      OpenAdd(hunk.hunk, hunk.hunkRemoves, hunk.hunkAdds, started', lead, trail', n, Line('+', right[rI]));
      hunk.PushLine('+', right[rI]);
    }
    ShowsMore(before, hunk.Lines(), left, right, a, lI, b, rI, edit);
  }

  /** Pushes one common line before the first change. */
  method PushContext(hunk: Hunk, left: seq<string>, ghost right: seq<string>, lI: nat, ghost rI: nat,
                     ghost a: int, ghost b: int, ghost lead: nat, ghost n: nat)
    requires Filling(hunk, left, right, a, lI, b, rI, false, lead, 0, n)
    requires lI < |left| && rI < |right| && left[lI] == right[rI]
    modifies hunk
    ensures Filling(hunk, left, right, a, lI + 1, b, rI + 1, false, lead + 1, 0, n)
    ensures hunk.pushed == old(hunk.pushed) + [Line(' ', left[lI])]
  {
    ghost var before := hunk.Lines();
    hide Shows, TextsWithout, Hunk.InGroups;
    hunk.PushLine(' ', left[lI]);
    ShowsMore(before, hunk.Lines(), left, right, a, lI, b, rI, Match);
  }

  /** The first index from `editI` on that is no match. */
  method FindChange(edits: seq<EditType>, editI: nat) returns (it: nat)
    requires editI <= |edits|
    ensures editI <= it <= |edits| && MatchesFrom(edits, editI, it)
    ensures it < |edits| ==> !edits[it].Match?
  {
    it := editI;
    while it < |edits| && edits[it].Match?
      invariant editI <= it <= |edits| && MatchesFrom(edits, editI, it)
    {
      it := it + 1;
    }
  }

  lemma ContextLines(left: seq<string>, right: seq<string>, edits: seq<EditType>,
                     lI: nat, rI: nat, editI: nat, prefix: nat)
    requires IsScript(edits, left, right) && At(edits, editI, lI, rI)
    requires prefix <= editI && MatchesFrom(edits, editI - prefix, editI)
    ensures prefix <= lI && lI <= |left| && prefix <= rI && rI <= |right|
    ensures SameLines(left, right, lI - prefix, rI - prefix, prefix)
  {
    MatchRun(edits, left, right, editI - prefix, editI, lI, rI);
    forall k {:trigger SameAt(left, right, lI - prefix, rI - prefix, k)} | 0 <= k < prefix
      ensures SameAt(left, right, lI - prefix, rI - prefix, k)
    {
      assert left[lI - prefix..lI][k] == right[rI - prefix..rI][k];
    }
  }

  lemma SameItem(s: seq<string>, t: seq<string>, a: int, b: int, n: nat, k: nat)
    requires SameLines(s, t, a, b, n) && k < n
    ensures 0 <= a && a + k < |s| && 0 <= b && b + k < |t| && s[a + k] == t[b + k]
  {
    assert SameAt(s, t, a, b, k);
  }

  /** Opens a hunk with its leading context. */
  method StartHunk(left: seq<string>, right: seq<string>, ghost edits: seq<EditType>, context: nat,
                   lI: nat, rI: nat, ghost editI: nat) returns (hunk: Hunk, ghost prefix: nat)
    requires IsScript(edits, left, right) && At(edits, editI, lI, rI)
    requires Min(lI, context) <= editI && MatchesFrom(edits, editI - Min(lI, context), editI)
    ensures prefix == Min(lI, context) && prefix <= rI <= |right| && lI <= |left|
    ensures fresh(hunk)
    ensures hunk.leftStart == lI - prefix + 1 && hunk.rightStart == rI - prefix + 1
    ensures Filling(hunk, left, right, lI - prefix, lI, rI - prefix, rI, false, prefix, 0, 2 * context)
    ensures hunk.pushed == LinesOf(edits, left, right, editI - prefix, editI)
  {
    hide *;
    var prefixContext := Min(lI, context);
    prefix := prefixContext;
    ContextLines(left, right, edits, lI, rI, editI, prefix);
    MatchesAreCommon(edits, left, right, editI - prefix, editI, lI, rI);
    hunk := new Hunk(lI - prefixContext + 1, rI - prefixContext + 1);
    EmptyHunk(hunk, left, right, lI - prefix, rI - prefix, 2 * context);
    PushPrefix(hunk, left, right, lI, rI, prefixContext, 2 * context);
  }

  /** The loop over the leading context. */
  method PushPrefix(hunk: Hunk, left: seq<string>, ghost right: seq<string>, lI: nat, ghost rI: nat,
                    prefix: nat, ghost n: nat)
    requires prefix <= lI && prefix <= rI && SameLines(left, right, lI - prefix, rI - prefix, prefix)
    requires Filling(hunk, left, right, lI - prefix, lI - prefix, rI - prefix, rI - prefix, false, 0, 0, n)
    requires hunk.pushed == []
    modifies hunk
    ensures Filling(hunk, left, right, lI - prefix, lI, rI - prefix, rI, false, prefix, 0, n)
    ensures hunk.pushed == Commons(left, lI - prefix, lI)
  {
    hide *;
    var i := prefix;
    ghost var a, b, shown: nat := lI - prefix, rI - prefix, 0;
    NoCommons(left, a);
    while i > 0
      invariant 0 <= i && shown == prefix - i
      invariant Filling(hunk, left, right, a, a + shown, b, b + shown, false, shown, 0, n)
      invariant hunk.pushed == Commons(left, a, a + shown)
    {
      SameItem(left, right, a, b, prefix, shown);
      assert lI - i == a + shown;
      OneMoreCommon(left, a, a + shown);
      PushContext(hunk, left, right, lI - i, b + shown, a, b, shown, n);
      shown := shown + 1;
      i := i - 1;
    }
  }

  /** The last `nSuffix` edits match. More than `context` of them are kept only
      because the next change is near. */
  ghost predicate Suffix(edits: seq<EditType>, editI: nat, nSuffix: nat, context: nat) {
    && MatchesFrom(edits, editI - nSuffix, editI)
    && (nSuffix > context ==>
          exists it: nat :: editI <= it < |edits| && MatchesFrom(edits, editI, it)
                            && !edits[it].Match? && nSuffix + (it - editI) < 2 * context)
  }

  lemma SuffixStart(edits: seq<EditType>, editI: nat, context: nat)
    requires editI <= |edits|
    ensures Suffix(edits, editI, 0, context)
  {
  }

  lemma SuffixStep(edits: seq<EditType>, editI: nat, nSuffix: nat, context: nat)
    requires Suffix(edits, editI, nSuffix, context) && editI < |edits|
    requires nSuffix >= context ==> ChangeIsNear(edits, editI, context)
    ensures nSuffix < 2 * context
    ensures Suffix(edits, editI + 1, if edits[editI].Match? then nSuffix + 1 else 0, context)
  {
    if nSuffix >= context {
      var near: nat :| editI <= near < |edits| && MatchesFrom(edits, editI, near)
                       && !edits[near].Match? && near - editI < context;
      if edits[editI].Match? {
        assert MatchesFrom(edits, editI + 1, near);
      }
    }
  }

  /** The hunk is full: the script is over, or enough matches follow and no change is near. */
  ghost predicate Stopped(edits: seq<EditType>, editI: nat, nSuffix: nat, context: nat) {
    && editI <= |edits| && nSuffix <= context
    && (editI < |edits| ==> nSuffix == context && NextIsFar(edits, editI, context)
                            && MatchesFrom(edits, editI - context, editI))
  }

  /** The state of the loop that fills a hunk from the change `editS` on. */
  ghost predicate FillingAt(hunk: Hunk, edits: seq<EditType>, left: seq<string>, right: seq<string>, context: nat,
                            a: int, lI: nat, b: int, rI: nat, lead: nat, editS: nat, editI: nat, nSuffix: nat)
    reads hunk
  {
    && IsScript(edits, left, right) && At(edits, editI, lI, rI)
    && Filling(hunk, left, right, a, lI, b, rI, editI > editS, lead, nSuffix, 2 * context)
    && Suffix(edits, editI, nSuffix, context)
    && ShownSoFar(edits, editS, editI, nSuffix, context)
    && lead <= editS <= editI && hunk.pushed == LinesOf(edits, left, right, editS - lead, editI)
  }

  lemma FillingParts(hunk: Hunk, edits: seq<EditType>, left: seq<string>, right: seq<string>, context: nat,
                     a: int, lI: nat, b: int, rI: nat, lead: nat, editS: nat, editI: nat, nSuffix: nat)
    requires FillingAt(hunk, edits, left, right, context, a, lI, b, rI, lead, editS, editI, nSuffix)
    ensures IsScript(edits, left, right) && At(edits, editI, lI, rI) && lI <= |left| && rI <= |right|
    ensures Filling(hunk, left, right, a, lI, b, rI, editI > editS, lead, nSuffix, 2 * context)
    ensures Suffix(edits, editI, nSuffix, context) && ShownSoFar(edits, editS, editI, nSuffix, context)
    ensures lead <= editS <= editI && hunk.pushed == LinesOf(edits, left, right, editS - lead, editI)
  {
    AtBounds(edits, left, right, editI, lI, rI);
  }

  lemma FillingWhole(hunk: Hunk, edits: seq<EditType>, left: seq<string>, right: seq<string>, context: nat,
                     a: int, lI: nat, b: int, rI: nat, lead: nat, editS: nat, editI: nat, nSuffix: nat)
    requires IsScript(edits, left, right) && At(edits, editI, lI, rI)
    requires Filling(hunk, left, right, a, lI, b, rI, editI > editS, lead, nSuffix, 2 * context)
    requires Suffix(edits, editI, nSuffix, context) && ShownSoFar(edits, editS, editI, nSuffix, context)
    requires lead <= editS <= editI && hunk.pushed == LinesOf(edits, left, right, editS - lead, editI)
    ensures FillingAt(hunk, edits, left, right, context, a, lI, b, rI, lead, editS, editI, nSuffix)
  {
  }

  /** The loop leaves when the script is over, or when the next change is not near. */
  lemma FillingStops(hunk: Hunk, edits: seq<EditType>, left: seq<string>, right: seq<string>, context: nat,
                     a: int, lI: nat, b: int, rI: nat, lead: nat, editS: nat, editI: nat, nSuffix: nat, it: nat)
    requires FillingAt(hunk, edits, left, right, context, a, lI, b, rI, lead, editS, editI, nSuffix)
    requires editI == |edits|
             || (nSuffix >= context && editI <= it <= |edits| && MatchesFrom(edits, editI, it)
                 && (it == |edits| || (!edits[it].Match? && it - editI >= context)))
    ensures Stopped(edits, editI, nSuffix, context)
  {
    hide Filling, At, IsScript, ShownSoFar;
  }

  /** What a full hunk shows, and the shape it has. */
  lemma FilledHunk(hunk: Hunk, edits: seq<EditType>, left: seq<string>, right: seq<string>, context: nat,
                   a: int, lI: nat, b: int, rI: nat, lead: nat, editS: nat, editI: nat, trail: nat)
    requires FillingAt(hunk, edits, left, right, context, a, lI, b, rI, lead, editS, editI, trail)
    ensures At(edits, editI, lI, rI) && lI <= |left| && rI <= |right|
    ensures AllShown(edits, editS, editI, context)
    ensures hunk.Valid() && (editI > editS <==> hunk.HasEdits())
    ensures Shows(hunk.Lines(), left, right, a, lI, b, rI) && Grouped(hunk.Lines())
    ensures lead <= editS && Rearranges(hunk.Lines(), LinesOf(edits, left, right, editS - lead, editI))
    ensures editI > editS ==> Framed(hunk.Lines(), lead, trail, 2 * context)
  {
    AtBounds(edits, left, right, editI, lI, rI);
    hide Shows, Framed, At, IsScript, AllShown, Grouped, Rearranges, LinesOf;
    hunk.LinesAreGrouped();
    if editI > editS {
      OpenIsFramed(hunk.hunk, hunk.hunkRemoves, hunk.hunkAdds, lead, trail, 2 * context);
      hunk.EditsAreShown();
      FramedHasChange(hunk.Lines(), lead, trail, 2 * context);
    }
  }

  /** Pushes one edit and advances the cursors as it says. */
  method PushNext(hunk: Hunk, edits: seq<EditType>, left: seq<string>, right: seq<string>, ghost context: nat,
                  lI: nat, rI: nat, ghost editS: nat, editI: nat, nSuffix: nat, ghost a: int, ghost b: int,
                  ghost lead: nat)
      returns (lI': nat, rI': nat, nSuffix': nat)
    requires FillingAt(hunk, edits, left, right, context, a, lI, b, rI, lead, editS, editI, nSuffix)
    requires editS <= editI < |edits| && !edits[editS].Match?
    requires nSuffix >= context ==> ChangeIsNear(edits, editI, context)
    modifies hunk
    ensures lI <= lI' && rI <= rI'
    ensures FillingAt(hunk, edits, left, right, context, a, lI', b, rI', lead, editS, editI + 1, nSuffix')
  {
    hide *;
    FillingParts(hunk, edits, left, right, context, a, lI, b, rI, lead, editS, editI, nSuffix);
    var edit := edits[editI];
    SuffixStep(edits, editI, nSuffix, context);
    NextIsShown(edits, editS, editI, nSuffix, context);
    Advance(edits, left, right, editI, lI, rI);
    OneMoreEdit(edits, left, right, editS - lead, editI, lI, rI);
    PushEdit(hunk, edit, left, right, lI, rI, a, b, editI > editS, lead, nSuffix, 2 * context);
    nSuffix' := if edit.Match? then nSuffix + 1 else 0;
    lI' := if edit.Add? then lI else lI + 1;
    rI' := if edit.Remove? then rI else rI + 1;
    FillingWhole(hunk, edits, left, right, context, a, lI', b, rI', lead, editS, editI + 1, nSuffix');
  }

  /** Pushes edits until `context` matches follow the last change with no further
      change close by, or the script is over. */
  method FillHunk(hunk: Hunk, edits: seq<EditType>, left: seq<string>, right: seq<string>, context: nat,
                  lS: nat, rS: nat, editS: nat, ghost prefix: nat)
      returns (lI: nat, rI: nat, editI: nat, ghost trail: nat)
    requires IsScript(edits, left, right) && At(edits, editS, lS, rS)
    requires editS < |edits| ==> !edits[editS].Match?
    requires prefix <= lS && prefix <= rS
    requires Filling(hunk, left, right, lS - prefix, lS, rS - prefix, rS, false, prefix, 0, 2 * context)
    requires prefix <= editS && hunk.pushed == LinesOf(edits, left, right, editS - prefix, editS)
    modifies hunk
    ensures At(edits, editI, lI, rI) && lS <= lI <= |left| && rS <= rI <= |right|
    ensures editS <= editI <= |edits| && AllShown(edits, editS, editI, context)
    ensures hunk.Valid() && (editI > editS <==> hunk.HasEdits())
    ensures Shows(hunk.Lines(), left, right, lS - prefix, lI, rS - prefix, rI) && Grouped(hunk.Lines())
    ensures Rearranges(hunk.Lines(), LinesOf(edits, left, right, editS - prefix, editI))
    ensures editS == |edits| || context == 0 ==> editI == editS
    ensures editS < |edits| && context > 0 ==>
              && editS < editI && Stopped(edits, editI, trail, context)
              && Framed(hunk.Lines(), prefix, trail, 2 * context)
  {
    hide *;
    AtBounds(edits, left, right, editS, lS, rS);
    SuffixStart(edits, editS, context);
    NothingShown(edits, editS, context);
    lI, rI, editI := lS, rS, editS;
    var nSuffix: nat := 0;
    ghost var a, b := lS - prefix, rS - prefix;
    FillingWhole(hunk, edits, left, right, context, a, lI, b, rI, prefix, editS, editI, nSuffix);
    while editI < |edits|
      invariant editS <= editI <= |edits| && lS <= lI && rS <= rI
      invariant FillingAt(hunk, edits, left, right, context, a, lI, b, rI, prefix, editS, editI, nSuffix)
      invariant if context == 0 then editI == editS else editI > editS || nSuffix == 0
      decreases |edits| - editI
    {
      if nSuffix >= context {
        // Enough matches end the hunk, unless its neighbour would touch it.
        var it := FindChange(edits, editI);
        if it == |edits| || it - editI >= context {
          FillingStops(hunk, edits, left, right, context, a, lI, b, rI, prefix, editS, editI, nSuffix, it);
          break;
        }
        NearChange(edits, editI, it, context);
      }
      lI, rI, nSuffix := PushNext(hunk, edits, left, right, context, lI, rI, editS, editI, nSuffix, a, b, prefix);
      editI := editI + 1;
    }
    trail := nSuffix;
    FilledHunk(hunk, edits, left, right, context, a, lI, b, rI, prefix, editS, editI, trail);
    if editI == |edits| {
      FillingStops(hunk, edits, left, right, context, a, lI, b, rI, prefix, editS, editI, nSuffix, editI);
    }
  }
}
