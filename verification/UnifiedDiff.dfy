/** CreateUnifiedDiff: cutting an edit script into hunks with context. */
module UnifiedDiff {
  import opened Arithmetic
  import opened DiffTexts
  import opened EditCursors
  import opened EditDistance
  import opened EditLines
  import opened EditTable
  import opened HunkFilling
  import opened HunkShape
  import opened Hunks
  import opened OptimalEdits
  import opened Options
  import opened Patches
  import opened ShownLines
  import opened ToldEdits

  /** A file has a range exactly if it has lines of its own, and in each run of changes
      the removes come before the adds. */
  ghost predicate WellFormed(h: PrintedHunk) { Headed(h) && Grouped(h.body) }

  ghost predicate AtTop(h: PrintedHunk) {
    && (h.left.Some? ==> h.left.value.first == 1)
    && (h.right.Some? ==> h.right.value.first == 1)
  }

  /** A hunk carries `context` common lines on each side of its changes, unless it
      reaches the top (or the end) of the files, and joins changes that are fewer
      than twice `context` common lines apart. */
  ghost predicate WellCut(h: PrintedHunk, context: nat, atTop: bool, atEnd: bool) {
    exists lead: nat, trail: nat ::
      && Framed(h.body, lead, trail, 2 * context)
      && (lead == context || (lead < context && atTop && AtTop(h)))
      && (trail == context || (trail < context && atEnd))
  }

  ghost predicate AllWellCut(hunks: seq<PrintedHunk>, context: nat, ended: bool) {
    forall i | 0 <= i < |hunks| :: WellCut(hunks[i], context, i == 0, ended && i == |hunks| - 1)
  }

  /** Applying one more hunk, printed where the files stand some equal lines
      further on. */
  lemma AppliesNext(left: seq<string>, right: seq<string>, hunks: seq<PrintedHunk>, h: PrintedHunk,
                    lB: nat, rB: nat, lS: nat, rS: nat, lE: nat, rE: nat)
    requires lB <= lS <= lE <= |left| && rB <= rS <= rE <= |right|
    requires ApplyHunks(left, hunks) == Some(Patch(lB, right[..rB]))
    requires lS - lB == rS - rB && left[lB..lS] == right[rB..rS]
    requires Shows(h.body, left, right, lS, lE, rS, rE)
    requires h.left.Some? || h.right.Some?
    requires h.left.Some? ==> h.left.value == Range(lS + 1, lE - lS)
    requires h.right.Some? ==> h.right.value == Range(rS + 1, rE - rS)
    ensures ApplyHunks(left, hunks + [h]) == Some(Patch(lE, right[..rE]))
  {
    AppliesOne(left, right, h, lB, rB, lS, rS, lE, rE);
    hide ApplyHunk, Shows;
    assert (hunks + [h])[..|hunks|] == hunks;
  }

  lemma AppliesOne(left: seq<string>, right: seq<string>, h: PrintedHunk,
                   lB: nat, rB: nat, lS: nat, rS: nat, lE: nat, rE: nat)
    requires lB <= lS <= lE <= |left| && rB <= rS <= rE <= |right|
    requires lS - lB == rS - rB && left[lB..lS] == right[rB..rS]
    requires Shows(h.body, left, right, lS, lE, rS, rE)
    requires h.left.Some? || h.right.Some?
    requires h.left.Some? ==> h.left.value == Range(lS + 1, lE - lS)
    requires h.right.Some? ==> h.right.value == Range(rS + 1, rE - rS)
    ensures ApplyHunk(left, Patch(lB, right[..rB]), h) == Some(Patch(lE, right[..rE]))
  {
    hide TextsWithout;
    assert right[..rB] + right[rB..rS] + right[rS..rE] == right[..rE];
  }

  /** Where the loop stands between hunks. */
  ghost predicate Between(left: seq<string>, right: seq<string>, edits: seq<EditType>, hunks: seq<PrintedHunk>,
                          context: nat, lI: int, rI: int, editI: int) {
    && At(edits, editI, lI, rI)
    && 0 <= lI <= |left| && 0 <= rI <= |right|
    && ApplyHunks(left, hunks) == Some(Patch(lI, right[..rI]))
    && AllWellCut(hunks, context, editI == |edits|)
    && (hunks == [] ==> editI == 0)
    && (hunks != [] ==> context > 0)
    && (hunks != [] && editI < |edits| ==>
          NextIsFar(edits, editI, context) && MatchesFrom(edits, editI - context, editI))
  }

  lemma BeforeFirst(left: seq<string>, right: seq<string>, edits: seq<EditType>, context: nat)
    requires IsScript(edits, left, right)
    ensures Between(left, right, edits, [], context, 0, 0, 0)
  {
  }

  /** The loop has skipped the matches since the last hunk, and the leading context
      of the next one lies in them. */
  ghost predicate Ready(left: seq<string>, right: seq<string>, edits: seq<EditType>, hunks: seq<PrintedHunk>,
                        context: nat, lB: int, rB: int, editB: int, lS: int, rS: int, editS: int) {
    && At(edits, editS, lS, rS)
    && 0 <= lB <= lS <= |left| && 0 <= rB <= rS <= |right| && 0 <= editB <= editS
    && MatchesFrom(edits, editB, editS)
    && (editS < |edits| ==> !edits[editS].Match?)
    && lS - lB == rS - rB && left[lB..lS] == right[rB..rS]
    && var prefix := Min(lS, context);
       && prefix <= editS && MatchesFrom(edits, editS - prefix, editS)
       && (prefix == context || (prefix < context && hunks == [] && prefix == lS == rS))
       && (editS < |edits| ==> lB <= lS - prefix)
  }

  /** After skipping matches the leading context of the next hunk lies in them, or
      in the matches that ended the previous hunk. */
  lemma ContextAvailable(left: seq<string>, right: seq<string>, edits: seq<EditType>, hunks: seq<PrintedHunk>,
                         context: nat, lB: int, rB: int, editB: int, lS: int, rS: int, editS: int)
    requires IsScript(edits, left, right)
    requires Between(left, right, edits, hunks, context, lB, rB, editB) && editB < |edits|
    requires At(edits, editS, lS, rS) && editB <= editS && MatchesFrom(edits, editB, editS)
    requires editS < |edits| ==> !edits[editS].Match?
    ensures Ready(left, right, edits, hunks, context, lB, rB, editB, lS, rS, editS)
  {
    MatchRun(edits, left, right, editB, editS, lS, rS);
    AtUnique(edits, editB, lB, rB, lS - (editS - editB), rS - (editS - editB));
    AtBounds(edits, left, right, editS, lS, rS);
    if hunks != [] {
      MatchRun(edits, left, right, editB - context, editB, lB, rB);
    }
  }

  /** `h` is the hunk that starts at the change `editS`, with `prefix` lines of
      context before it, and leaves the loop at `editI`. */
  ghost predicate HunkOf(left: seq<string>, right: seq<string>, edits: seq<EditType>, context: nat,
                         lS: int, rS: int, editS: int, prefix: nat, h: PrintedHunk, trail: nat,
                         lI: int, rI: int, editI: int) {
    && 0 < context && prefix <= lS <= lI <= |left| && prefix <= rS <= rI <= |right|
    && 0 <= editS < editI <= |edits|
    && At(edits, editI, lI, rI)
    && Framed(h.body, prefix, trail, 2 * context) && trail <= context
    && WellFormed(h) && prefix <= editS && AllShown(edits, editS - prefix, editI, context)
    && Rearranges(h.body, LinesOf(edits, left, right, editS - prefix, editI))
    && Shows(h.body, left, right, lS - prefix, lI, rS - prefix, rI)
    && (h.left.Some? || h.right.Some?)
    && (h.left.Some? ==> h.left.value == Range(lS - prefix + 1, lI - (lS - prefix)))
    && (h.right.Some? ==> h.right.value == Range(rS - prefix + 1, rI - (rS - prefix)))
    && (editI < |edits| ==> trail == context && NextIsFar(edits, editI, context)
                            && MatchesFrom(edits, editI - context, editI))
  }

  /** One more printed hunk keeps everything. */
  lemma HunkAdded(left: seq<string>, right: seq<string>, edits: seq<EditType>, hunks: seq<PrintedHunk>, h: PrintedHunk,
                  context: nat, lB: int, rB: int, editB: int, lS: int, rS: int, editS: int, prefix: nat, trail: nat,
                  lI: int, rI: int, editI: int)
    requires Between(left, right, edits, hunks, context, lB, rB, editB) && editB < |edits|
    requires HunkOf(left, right, edits, context, lS, rS, editS, prefix, h, trail, lI, rI, editI)
    requires Ready(left, right, edits, hunks, context, lB, rB, editB, lS, rS, editS) && prefix == Min(lS, context)
    ensures Between(left, right, edits, hunks + [h], context, lI, rI, editI)
    ensures editB < editI && editI <= |edits| && 0 < context
  {
    hide Framed, Shows, ApplyHunks, At, AllWellCut, MatchesFrom, NextIsFar;
    SlicePrefix(left, right, lB, lS, rB, rS, lS - prefix - lB);
    AppliesNext(left, right, hunks, h, lB, rB, lS - prefix, rS - prefix, lI, rI);
    CutsMore(hunks, h, context, editI == |edits|, prefix, trail);
  }

  lemma CutsMore(hunks: seq<PrintedHunk>, h: PrintedHunk, context: nat, ended: bool, lead: nat, trail: nat)
    requires AllWellCut(hunks, context, false)
    requires Framed(h.body, lead, trail, 2 * context)
    requires lead == context || (lead < context && hunks == [] && AtTop(h))
    requires trail == context || (trail < context && ended)
    ensures AllWellCut(hunks + [h], context, ended)
  {
    hide Framed;
    assert WellCut(h, context, hunks == [], ended);
    var all := hunks + [h];
    forall i | 0 <= i < |all|
      ensures WellCut(all[i], context, i == 0, ended && i == |all| - 1)
    {
      if i < |hunks| {
        assert all[i] == hunks[i] && WellCut(hunks[i], context, i == 0, false && i == |hunks| - 1);
      }
    }
  }

  lemma SlicePrefix<T>(s: seq<T>, t: seq<T>, a: int, a': int, b: int, b': int, k: int)
    requires 0 <= a <= a' <= |s| && 0 <= b <= b' <= |t| && s[a..a'] == t[b..b']
    requires 0 <= k <= a' - a
    ensures s[a..a + k] == t[b..b + k]
  {
    assert s[a..a + k] == s[a..a'][..k];
    assert t[b..b + k] == t[b..b'][..k];
  }

  /** The diff is a patch when the rest of the script only matches. */
  lemma Finish(left: seq<string>, right: seq<string>, edits: seq<EditType>, hunks: seq<PrintedHunk>,
               context: nat, lB: int, rB: int, editB: int)
    requires IsScript(edits, left, right)
    requires Between(left, right, edits, hunks, context, lB, rB, editB)
    requires MatchesFrom(edits, editB, |edits|)
    ensures ApplyDiff(left, hunks) == Some(right)
    ensures CutsFiles(left, hunks, context)
  {
    assert edits[..|edits|] == edits;
    assert At(edits, |edits|, |left|, |right|);
    MatchRun(edits, left, right, editB, |edits|, |left|, |right|);
    AtUnique(edits, editB, lB, rB, |left| - (|edits| - editB), |right| - (|edits| - editB));
    FinalCuts(left, hunks, context, lB, editB == |edits|);
    hide *;
    FinalCopy(left, right, hunks, lB, rB);
  }

  lemma FinalCopy(left: seq<string>, right: seq<string>, hunks: seq<PrintedHunk>, lB: nat, rB: nat)
    requires lB <= |left| && rB <= |right| && left[lB..|left|] == right[rB..|right|]
    requires ApplyHunks(left, hunks) == Some(Patch(lB, right[..rB]))
    ensures ApplyDiff(left, hunks) == Some(right)
  {
    hide ApplyHunks;
    assert left[lB..|left|] == left[lB..] && right[rB..|right|] == right[rB..];
    assert right[..rB] + right[rB..] == right;
  }

  lemma FinalCuts(left: seq<string>, hunks: seq<PrintedHunk>, context: nat, lB: nat, ended: bool)
    requires ApplyHunks(left, hunks).Some? && ApplyHunks(left, hunks).value.consumed == lB
    requires AllWellCut(hunks, context, ended) && (ended ==> lB == |left|)
    ensures CutsFiles(left, hunks, context)
  {
    hide ApplyHunks, WellCut;
    forall i | 0 <= i < |hunks|
      ensures WellCut(hunks[i], context, i == 0, i == |hunks| - 1 && lB == |left|)
    {
      CutWidens(hunks[i], context, i == 0, ended && i == |hunks| - 1, i == |hunks| - 1 && lB == |left|);
    }
  }

  lemma CutWidens(h: PrintedHunk, context: nat, atTop: bool, atEnd: bool, atEnd': bool)
    requires WellCut(h, context, atTop, atEnd) && (atEnd ==> atEnd')
    ensures WellCut(h, context, atTop, atEnd')
  {
  }

  /** Every hunk is cut as `context` asks; only the first may reach the top of the
      files, and only the last their end. */
  ghost predicate CutsFiles(left: seq<string>, hunks: seq<PrintedHunk>, context: nat) {
    && ApplyHunks(left, hunks).Some?
    && forall i | 0 <= i < |hunks| ::
         WellCut(hunks[i], context, i == 0, i == |hunks| - 1 && ApplyHunks(left, hunks).value.consumed == |left|)
  }

  lemma NoMatches(edits: seq<EditType>, editI: nat)
    requires editI <= |edits|
    ensures MatchesFrom(edits, editI, editI)
  {
  }

  lemma SkipOne(edits: seq<EditType>, left: seq<string>, right: seq<string>, first: nat, editI: nat, lI: nat, rI: nat)
    requires IsScript(edits, left, right) && At(edits, editI, lI, rI)
    requires first <= editI < |edits| && MatchesFrom(edits, first, editI) && edits[editI].Match?
    ensures MatchesFrom(edits, first, editI + 1) && At(edits, editI + 1, lI + 1, rI + 1)
  {
    Advance(edits, left, right, editI, lI, rI);
    hide IsScript, At;
  }

  lemma BetweenAt(left: seq<string>, right: seq<string>, edits: seq<EditType>, hunks: seq<PrintedHunk>,
                  context: nat, lI: int, rI: int, editI: int)
    requires Between(left, right, edits, hunks, context, lI, rI, editI)
    ensures At(edits, editI, lI, rI)
  {
  }

  /** Finds the first edit. */
  method SkipMatches(left: seq<string>, right: seq<string>, edits: seq<EditType>, lB: nat, rB: nat, editB: nat,
                     ghost hunks: seq<PrintedHunk>, ghost context: nat)
      returns (lI: nat, rI: nat, editI: nat)
    requires IsScript(edits, left, right)
    requires Between(left, right, edits, hunks, context, lB, rB, editB) && editB < |edits|
    ensures Ready(left, right, edits, hunks, context, lB, rB, editB, lI, rI, editI)
  {
    hide *;
    lI, rI, editI := lB, rB, editB;
    BetweenAt(left, right, edits, hunks, context, lI, rI, editI);
    NoMatches(edits, editB);
    while editI < |edits| && edits[editI].Match?
      invariant editB <= editI <= |edits| && MatchesFrom(edits, editB, editI) && At(edits, editI, lI, rI)
    {
      SkipOne(edits, left, right, editB, editI, lI, rI);
      lI, rI, editI := lI + 1, rI + 1, editI + 1;
    }
    ContextAvailable(left, right, edits, hunks, context, lB, rB, editB, lI, rI, editI);
  }

  /** Prints a filled hunk; the header counts the lines of the ranges it shows. */
  method PrintFilled(hunk: Hunk, ghost left: seq<string>, ghost right: seq<string>,
                     ghost a: int, ghost lI: int, ghost b: int, ghost rI: int)
      returns (text: string, ghost h: PrintedHunk)
    requires hunk.Valid() && hunk.HasEdits()
    requires Shows(hunk.Lines(), left, right, a, lI, b, rI) && Grouped(hunk.Lines())
    requires hunk.leftStart == a + 1 && hunk.rightStart == b + 1
    modifies hunk
    ensures text == HunkText(h) && h.body == old(hunk.Lines()) && WellFormed(h)
    ensures h.left.Some? || h.right.Some?
    ensures h.left.Some? ==> 0 <= a && h.left.value == Range(a + 1, lI - a)
    ensures h.right.Some? ==> 0 <= b && h.right.value == Range(b + 1, rI - b)
  {
    hide Headed, Grouped, TextsWithout;
    hunk.RangesCountLines();
    h := hunk.Printed();
    text := hunk.PrintTo();
  }

  /** The text of the hunk at the change `editS`; none if the script is over, or for
      want of context. */
  method NextHunk(left: seq<string>, right: seq<string>, edits: seq<EditType>, context: nat,
                  lS: nat, rS: nat, editS: nat, ghost hunks: seq<PrintedHunk>,
                  ghost lB: int, ghost rB: int, ghost editB: int)
      returns (text: Option<string>, lI: nat, rI: nat, editI: nat,
               ghost h: PrintedHunk, ghost prefix: nat, ghost trail: nat)
    requires IsScript(edits, left, right)
    requires Ready(left, right, edits, hunks, context, lB, rB, editB, lS, rS, editS)
    ensures text.None? ==> context == 0 || MatchesFrom(edits, editB, |edits|)
    ensures context == 0 ==> text.None?
    ensures prefix == Min(lS, context)
    ensures text.Some? ==>
              && text.value == HunkText(h)
              && HunkOf(left, right, edits, context, lS, rS, editS, prefix, h, trail, lI, rI, editI)
  {
    hide IsScript, At, MatchesFrom, NextIsFar, Framed, Shows, Filling, WellFormed, HunkText, AllShown, TextsWithout;
    hide Rearranges, LinesOf;
    var hunk;
    hunk, prefix := StartHunk(left, right, edits, context, lS, rS, editS);
    lI, rI, editI, trail := FillHunk(hunk, edits, left, right, context, lS, rS, editS, prefix);
    if !hunk.HasEdits() {
      text, h := None, hunk.Printed();
    } else {
      PrefixIsShown(edits, editS - prefix, editS, context);
      ShownJoins(edits, editS - prefix, editS, editI, context);
      var os;
      os, h := PrintFilled(hunk, left, right, lS - prefix, lI, rS - prefix, rI);
      text := Some(os);
    }
  }

  // ---------- the text of the diff ----------

  /** What is written so far, and when its lines can be printed. */
  ghost predicate Written(ss: string, hunks: seq<PrintedHunk>, edits: seq<EditType>,
                          left: seq<string>, right: seq<string>, editI: int, context: nat) {
    && ss == DiffText(hunks)
    && (forall i | 0 <= i < |hunks| :: WellFormed(hunks[i]))
    && (PrintableHunks(hunks) <==> PrintableShown(edits, left, right, editI, context))
  }

  lemma NothingWritten(edits: seq<EditType>, left: seq<string>, right: seq<string>, context: nat)
    ensures Written("", [], edits, left, right, 0, context)
  {
  }

  /** The lines of a hunk are those of its edits. */
  lemma LinesOfHunk(left: seq<string>, right: seq<string>, edits: seq<EditType>, hunks: seq<PrintedHunk>,
                    h: PrintedHunk, context: nat, lB: int, rB: int, editB: int, lS: int, rS: int, editS: int,
                    prefix: nat, trail: nat, lI: int, rI: int, editI: int)
    requires IsScript(edits, left, right)
    requires HunkOf(left, right, edits, context, lS, rS, editS, prefix, h, trail, lI, rI, editI)
    requires Ready(left, right, edits, hunks, context, lB, rB, editB, lS, rS, editS) && prefix == Min(lS, context)
    ensures PrintableHunk(h) <==> PrintableEdits(edits, left, right, editS - prefix, editI)
  {
    MatchRun(edits, left, right, editS - prefix, editS, lS, rS);
    LinesOfEdits(edits, left, right, editS - prefix, editI, lS - prefix, lI, rS - prefix, rI);
    SidesArePrintable(h);
    hide IsScript, PrintableHunk, PrintableEdits, AllPrintable, Framed, Headed, Grouped, AllShown, TextsWithout;
  }

  /** Between two hunks no edit is near a change. */
  lemma GapBeforeHunk(left: seq<string>, right: seq<string>, edits: seq<EditType>, hunks: seq<PrintedHunk>,
                      context: nat, lB: int, rB: int, editB: int, lS: int, rS: int, editS: int, prefix: nat)
    requires IsScript(edits, left, right) && editS < |edits|
    requires Between(left, right, edits, hunks, context, lB, rB, editB)
    requires Ready(left, right, edits, hunks, context, lB, rB, editB, lS, rS, editS) && prefix == Min(lS, context)
    ensures editB <= editS - prefix
    ensures NoneShown(edits, editB, editS - prefix, context)
  {
    MatchRun(edits, left, right, editB, editS, lS, rS);
    AtUnique(edits, editB, lB, rB, lS - (editS - editB), rS - (editS - editB));
    hide IsScript, At, ApplyHunks, AllWellCut, NextIsFar;
    if prefix == context {
      GapIsHidden(edits, editB, editS - prefix, context);
    }
  }

  lemma TailIsHidden(left: seq<string>, right: seq<string>, edits: seq<EditType>, hunks: seq<PrintedHunk>,
                     context: nat, lB: int, rB: int, editB: int)
    requires Between(left, right, edits, hunks, context, lB, rB, editB)
    requires MatchesFrom(edits, editB, |edits|)
    ensures NoneShown(edits, editB, |edits|, context)
  {
    hide ApplyHunks, AllWellCut, NextIsFar;
    if editB < |edits| {
      GapIsHidden(edits, editB, |edits|, context);
    }
  }

  lemma WrittenMore(ss: string, left: seq<string>, right: seq<string>, edits: seq<EditType>, hunks: seq<PrintedHunk>,
                    h: PrintedHunk, context: nat, editB: int, first: int, editI: int)
    requires Written(ss, hunks, edits, left, right, editB, context) && WellFormed(h)
    requires 0 <= editB <= first <= editI
    requires NoneShown(edits, editB, first, context) && AllShown(edits, first, editI, context)
    requires PrintableHunk(h) <==> PrintableEdits(edits, left, right, first, editI)
    ensures Written(ss + HunkText(h), hunks + [h], edits, left, right, editI, context)
  {
    PrintableShownGrows(edits, left, right, editB, first, editI, context);
    hide PrintableHunk, PrintableEdits, PrintableShown, WellFormed, HunkText;
    var all := hunks + [h];
    assert all[..|hunks|] == hunks && all[|hunks|] == h;
    assert PrintableHunks(all) ==> PrintableHunks(hunks) by {
      assert forall i | 0 <= i < |hunks| :: all[i] == hunks[i];
    }
  }

  /** The hunk tells the run of edits from its context to where it left the loop. */
  lemma HunkTells(left: seq<string>, right: seq<string>, edits: seq<EditType>, hunks: seq<PrintedHunk>,
                  h: PrintedHunk, context: nat, lB: int, rB: int, editB: int, lS: int, rS: int, editS: int,
                  prefix: nat, trail: nat, lI: int, rI: int, editI: int)
    requires IsScript(edits, left, right)
    requires HunkOf(left, right, edits, context, lS, rS, editS, prefix, h, trail, lI, rI, editI)
    requires Ready(left, right, edits, hunks, context, lB, rB, editB, lS, rS, editS) && prefix == Min(lS, context)
    ensures Tells(h, edits, left, right, Run(editS - prefix, editI), context)
  {
    hide IsScript, WellFormed, Framed, Shows, AllShown, Rearranges, LinesOf, MatchesFrom, NextIsFar, At, Tells;
    MatchRun(edits, left, right, editS - prefix, editS, lS, rS);
    RunIsTold(h, edits, left, right, editS - prefix, editI, lS - prefix, rS - prefix, lI, rI, context);
  }

  /** One more hunk is written. */
  lemma HunkWritten(ss: string, left: seq<string>, right: seq<string>, edits: seq<EditType>, hunks: seq<PrintedHunk>,
                    h: PrintedHunk, context: nat, lB: int, rB: int, editB: int, lS: int, rS: int, editS: int,
                    prefix: nat, trail: nat, lI: int, rI: int, editI: int)
    requires IsScript(edits, left, right)
    requires Written(ss, hunks, edits, left, right, editB, context)
    requires Between(left, right, edits, hunks, context, lB, rB, editB)
    requires HunkOf(left, right, edits, context, lS, rS, editS, prefix, h, trail, lI, rI, editI)
    requires Ready(left, right, edits, hunks, context, lB, rB, editB, lS, rS, editS) && prefix == Min(lS, context)
    ensures Written(ss + HunkText(h), hunks + [h], edits, left, right, editI, context)
  {
    LinesOfHunk(left, right, edits, hunks, h, context, lB, rB, editB, lS, rS, editS, prefix, trail, lI, rI, editI);
    hide Written, Between, Ready, IsScript, PrintableHunk, PrintableEdits, Framed, Shows, WellFormed, AllShown;
    GapBeforeHunk(left, right, edits, hunks, context, lB, rB, editB, lS, rS, editS, prefix);
    WrittenMore(ss, left, right, edits, hunks, h, context, editB, editS - prefix, editI);
  }

  /** No line that the diff shows, of either file, holds a NUL or a newline. */
  ghost predicate ShownArePrintable(left: seq<string>, right: seq<string>, context: nat) {
    PrintableShown(Path(left, right), left, right, |Path(left, right)|, context)
  }

  lemma PrintableFiles(left: seq<string>, right: seq<string>, context: nat)
    requires AllPrintable(left) && AllPrintable(right)
    ensures ShownArePrintable(left, right, context)
  {
    var edits := Path(left, right);
    PathIsScript(left, right);
    hide Path, Shown, Printable;
    forall k | 0 <= k < |edits| && Shown(edits, k, context)
      ensures PrintableEdit(edits, left, right, k)
    {
      Advance(edits, left, right, k, LeftLength(edits[..k]), RightLength(edits[..k]));
    }
  }

  /** Two lines that differ only after a NUL, or only after a newline. */
  lemma NulAndNewlineBreakTheText(context: nat)
    ensures !ShownArePrintable(["a\0b"], ["a\0c"], context)
    ensures !ShownArePrintable(["a\nb"], ["a\nc"], context)
  {
    DifferentLineIsShown("a\0b", "a\0c", context);
    DifferentLineIsShown("a\nb", "a\nc", context);
  }

  lemma DifferentLineIsShown(oldLine: string, newLine: string, context: nat)
    requires oldLine != newLine && !Printable(oldLine) && !Printable(newLine)
    ensures !ShownArePrintable([oldLine], [newLine], context)
  {
    var edits := Path([oldLine], [newLine]);
    PathIsScript([oldLine], [newLine]);
    hide Path;
    assert edits[..0] == [];
    assert MatchesAt(edits, [oldLine], [newLine], 0) ==> oldLine == newLine;
    ChangeShows(edits, 0, 0, context);
    assert !PrintableEdit(edits, [oldLine], [newLine], 0);
  }

  lemma TextPatches(ss: string, left: seq<string>, right: seq<string>, hunks: seq<PrintedHunk>,
                    context: nat, lB: int, rB: int, editB: int)
    requires ApplyDiff(left, hunks) == Some(right)
    requires Written(ss, hunks, Path(left, right), left, right, editB, context)
    requires Between(left, right, Path(left, right), hunks, context, lB, rB, editB)
    requires MatchesFrom(Path(left, right), editB, |Path(left, right)|)
    ensures Patched(left, ss) == Some(right) <==> ShownArePrintable(left, right, context)
  {
    var edits := Path(left, right);
    TextPatchesIffPrintable(left, right, hunks);
    TailIsHidden(left, right, edits, hunks, context, lB, rB, editB);
    assert 0 <= editB <= |edits| by {
      hide ApplyHunks, AllWellCut, NextIsFar, MatchesFrom;
    }
    hide Between, MatchesFrom, Shown, PrintableEdit, PrintableHunks, Patched, ApplyDiff, DiffText, WellFormed, Path;
  }

  /** A context of zero lines loses every edit: applied as a patch, such a diff is
      right only for equal files. */
  lemma NoContextLosesEdits(left: seq<string>, right: seq<string>)
    ensures ApplyDiff(left, []) == Some(right) <==> left == right
    ensures Patched(left, "") == Some(right) <==> left == right
    ensures CutsFiles(left, [], 0)
  {
    assert [] + left[0..] == left;
  }

  lemma {:induction false} NoWeightMatches(edits: seq<EditType>)
    ensures Weight(edits) >= 0.0
    ensures Weight(edits) == 0.0 ==> MatchesFrom(edits, 0, |edits|)
  {
    if edits != [] {
      NoWeightMatches(edits[..|edits| - 1]);
    }
  }

  /** There is nothing to print exactly if the files are equal. */
  lemma EmptyIffEqual(hunks: seq<PrintedHunk>, runs: seq<Run>, left: seq<string>, right: seq<string>, context: nat)
    requires ApplyDiff(left, hunks) == Some(right)
    requires Told(hunks, runs, Path(left, right), left, right, |Path(left, right)|, context)
    ensures DiffText(hunks) == "" <==> left == right
  {
    if left == right {
      PathIsScript(left, right);
      ZeroWeight(left, right);
      NoWeightMatches(Path(left, right));
      MatchesTellNothing(hunks, runs, Path(left, right), left, right, context);
    } else if hunks == [] {
      NoContextLosesEdits(left, right);
    }
    hide ApplyDiff, Told, Path, TableCost, Header, BodyText;
    assert hunks != [] ==> |HunkText(hunks[|hunks| - 1])| > 0;
  }

  /** With some context the hunks make a patch from `left` to `right`, and so does
      their text, unless a line it shows holds a NUL, where the stream cuts it, or a
      newline. With no context the first hunk stops before its first edit, and the
      diff is always empty. */
  method CreateUnifiedDiff(left: seq<string>, right: seq<string>, context: nat)
      returns (ss: string, ghost hunks: seq<PrintedHunk>, ghost runs: seq<Run>)
    ensures ss == DiffText(hunks)
    ensures context > 0 ==> Told(hunks, runs, Path(left, right), left, right, |Path(left, right)|, context)
    ensures context > 0 ==> (ss == "" <==> left == right)
    ensures context > 0 ==>
              && Total(hunks, '-') == Removals(Path(left, right))
              && Total(hunks, '+') == Additions(Path(left, right))
    ensures ApplyDiff(left, hunks) == Some(right) <==> context > 0 || left == right
    ensures Patched(left, ss) == Some(right)
            <==> if context > 0 then ShownArePrintable(left, right, context) else left == right
    ensures forall i | 0 <= i < |hunks| :: WellFormed(hunks[i])
    ensures CutsFiles(left, hunks, context)
    ensures context == 0 ==> hunks == [] && ss == ""
  {
    var edits := CalculateOptimalLineEdits(left, right);
    ss, hunks, runs := "", [], [];
    NothingTold(edits, left, right, context);
    BeforeFirst(left, right, edits, context);
    NothingWritten(edits, left, right, context);
    hide *;
    var lI, rI, editI := 0, 0, 0;
    ghost var lB, rB, editB := 0, 0, 0;
    while editI < |edits|
      invariant 0 <= editI <= |edits|
      invariant lB == lI && rB == rI && editB == editI
      invariant Between(left, right, edits, hunks, context, lI, rI, editI)
      invariant Written(ss, hunks, edits, left, right, editI, context)
      invariant Told(hunks, runs, edits, left, right, editI, context)
      invariant context == 0 ==> hunks == [] && ss == ""
      decreases |edits| - editI
    {
      lI, rI, editI := SkipMatches(left, right, edits, lI, rI, editI, hunks, context);
      ghost var lS, rS, editS := lI, rI, editI;
      var hunk;
      ghost var h, prefix, trail;
      hunk, lI, rI, editI, h, prefix, trail :=
        NextHunk(left, right, edits, context, lI, rI, editI, hunks, lB, rB, editB);
      if hunk.None? {
        // A hunk without a change is not printed.
        break;
      }
      HunkWritten(ss, left, right, edits, hunks, h, context, lB, rB, editB, lS, rS, editS, prefix, trail,
                  lI, rI, editI);
      HunkAdded(left, right, edits, hunks, h, context, lB, rB, editB, lS, rS, editS, prefix, trail, lI, rI, editI);
      HunkTold(left, right, edits, hunks, runs, h, context, lB, rB, editB, lS, rS, editS, prefix, trail,
               lI, rI, editI);
      ss := ss + hunk.value;
      hunks, runs := hunks + [h], runs + [Run(editS - prefix, editI)];
      lB, rB, editB := lI, rI, editI;
    }
    WrittenText(ss, hunks, edits, left, right, editB, context);
    if context > 0 {
      if editB == |edits| {
        NoMatches(edits, editB);
      }
      Finish(left, right, edits, hunks, context, lB, rB, editB);
      TextPatches(ss, left, right, hunks, context, lB, rB, editB);
      ToldInFull(left, right, edits, hunks, runs, context, lB, rB, editB);
      EmptyIffEqual(hunks, runs, left, right, context);
      EveryChangeIsTold(hunks, runs, edits, left, right, context);
    } else {
      NoContextLosesEdits(left, right);
    }
  }

  lemma HunkTold(left: seq<string>, right: seq<string>, edits: seq<EditType>, hunks: seq<PrintedHunk>, runs: seq<Run>,
                 h: PrintedHunk, context: nat, lB: int, rB: int, editB: int, lS: int, rS: int, editS: int,
                 prefix: nat, trail: nat, lI: int, rI: int, editI: int)
    requires IsScript(edits, left, right)
    requires Told(hunks, runs, edits, left, right, editB, context)
    requires Between(left, right, edits, hunks, context, lB, rB, editB)
    requires HunkOf(left, right, edits, context, lS, rS, editS, prefix, h, trail, lI, rI, editI)
    requires Ready(left, right, edits, hunks, context, lB, rB, editB, lS, rS, editS) && prefix == Min(lS, context)
    ensures 0 <= editS - prefix && 0 <= editI
    ensures Told(hunks + [h], runs + [Run(editS - prefix, editI)], edits, left, right, editI, context)
  {
    hide IsScript, Told, Between, Ready, WellFormed, Framed, Shows, AllShown, Rearranges, LinesOf, At, Tells;
    HunkTells(left, right, edits, hunks, h, context, lB, rB, editB, lS, rS, editS, prefix, trail, lI, rI, editI);
    GapBeforeHunk(left, right, edits, hunks, context, lB, rB, editB, lS, rS, editS, prefix);
    ToldMore(hunks, runs, edits, left, right, editB, h, Run(editS - prefix, editI), context);
  }

  lemma ToldInFull(left: seq<string>, right: seq<string>, edits: seq<EditType>, hunks: seq<PrintedHunk>, runs: seq<Run>,
                   context: nat, lB: int, rB: int, editB: int)
    requires Told(hunks, runs, edits, left, right, editB, context) && editB <= |edits|
    requires Between(left, right, edits, hunks, context, lB, rB, editB)
    requires MatchesFrom(edits, editB, |edits|)
    ensures Told(hunks, runs, edits, left, right, |edits|, context)
  {
    hide Told, Between;
    TailIsHidden(left, right, edits, hunks, context, lB, rB, editB);
    ToldToTheEnd(hunks, runs, edits, left, right, editB, context);
  }

  lemma WrittenText(ss: string, hunks: seq<PrintedHunk>, edits: seq<EditType>,
                    left: seq<string>, right: seq<string>, editI: int, context: nat)
    requires Written(ss, hunks, edits, left, right, editI, context)
    ensures ss == DiffText(hunks) && forall i | 0 <= i < |hunks| :: WellFormed(hunks[i])
  {
  }
}
