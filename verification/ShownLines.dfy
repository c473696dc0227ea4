/** Which edits a diff shows, and whether the lines they show can be printed. */
module ShownLines {
  import opened DiffTexts
  import opened EditCursors
  import opened EditDistance
  import opened Hunks
  import opened Patches

  ghost predicate IsChangeAt(edits: seq<EditType>, j: int) {
    0 <= j < |edits| && !edits[j].Match?
  }

  /** A change lies within `context` edits. */
  ghost predicate Shown(edits: seq<EditType>, k: int, context: nat) {
    exists j :: k - context <= j <= k + context && IsChangeAt(edits, j)
  }

  ghost predicate AllShown(edits: seq<EditType>, first: int, past: int, context: nat) {
    forall k | first <= k < past :: Shown(edits, k, context)
  }

  ghost predicate NoneShown(edits: seq<EditType>, first: int, past: int, context: nat) {
    forall k | first <= k < past :: !Shown(edits, k, context)
  }

  lemma ChangeShows(edits: seq<EditType>, j: int, k: int, context: nat)
    requires IsChangeAt(edits, j) && k - context <= j <= k + context
    ensures Shown(edits, k, context)
  {
  }

  /** The last change so far is followed by `nSuffix` matches. */
  ghost predicate LastChange(edits: seq<EditType>, first: int, editI: int, nSuffix: nat) {
    first <= editI - nSuffix - 1 && IsChangeAt(edits, editI - nSuffix - 1)
  }

  /** A hunk that starts at a change shows all its edits. */
  ghost predicate ShownSoFar(edits: seq<EditType>, editS: int, editI: int, nSuffix: nat, context: nat) {
    && AllShown(edits, editS, editI, context)
    && (editS < editI ==> LastChange(edits, editS, editI, nSuffix))
  }

  lemma NothingShown(edits: seq<EditType>, editS: int, context: nat)
    ensures ShownSoFar(edits, editS, editS, 0, context)
  {
  }

  /** The next edit is shown too: it is a change, or follows the last one closely, or
      the next one is near. */
  lemma NextIsShown(edits: seq<EditType>, editS: nat, editI: nat, nSuffix: nat, context: nat)
    requires editS <= editI < |edits| && !edits[editS].Match?
    requires ShownSoFar(edits, editS, editI, nSuffix, context)
    requires nSuffix >= context ==> ChangeIsNear(edits, editI, context)
    ensures ShownSoFar(edits, editS, editI + 1, if edits[editI].Match? then nSuffix + 1 else 0, context)
  {
    if !edits[editI].Match? {
      ChangeShows(edits, editI, editI, context);
    } else if nSuffix < context {
      ChangeShows(edits, editI - nSuffix - 1, editI, context);
    } else {
      var it: nat :| editI <= it < |edits| && MatchesFrom(edits, editI, it) && !edits[it].Match?
                     && it - editI < context;
      ChangeShows(edits, it, editI, context);
    }
    hide Shown;
  }

  /** The leading context is shown for the change that follows it. */
  lemma PrefixIsShown(edits: seq<EditType>, first: int, editS: int, context: nat)
    requires IsChangeAt(edits, editS) && editS - first <= context
    ensures AllShown(edits, first, editS, context)
  {
    forall k | first <= k < editS
      ensures Shown(edits, k, context)
    {
      ChangeShows(edits, editS, k, context);
    }
  }

  lemma ShownJoins(edits: seq<EditType>, a: int, b: int, c: int, context: nat)
    requires AllShown(edits, a, b, context) && AllShown(edits, b, c, context)
    ensures AllShown(edits, a, c, context)
  {
    hide Shown;
  }

  /** Far from the changes on both sides nothing is shown. */
  lemma GapIsHidden(edits: seq<EditType>, first: int, past: int, context: nat)
    requires forall j | first - context <= j < past + context && 0 <= j < |edits| :: edits[j].Match?
    ensures NoneShown(edits, first, past, context)
  {
  }

  // ---------- printable edits ----------

  ghost predicate PrintableAt(file: seq<string>, i: nat) { i < |file| && Printable(file[i]) }

  /** The lines of one edit hold no NUL and no newline. */
  ghost predicate PrintableEdit(edits: seq<EditType>, left: seq<string>, right: seq<string>, k: int) {
    0 <= k < |edits| ==>
      && (!edits[k].Add? ==> PrintableAt(left, LeftLength(edits[..k])))
      && (!edits[k].Remove? ==> PrintableAt(right, RightLength(edits[..k])))
  }

  ghost predicate PrintableEdits(edits: seq<EditType>, left: seq<string>, right: seq<string>, first: int, past: int) {
    forall k | first <= k < past :: PrintableEdit(edits, left, right, k)
  }

  ghost predicate PrintableShown(edits: seq<EditType>, left: seq<string>, right: seq<string>, past: int, context: nat) {
    forall k | 0 <= k < past && Shown(edits, k, context) :: PrintableEdit(edits, left, right, k)
  }

  lemma PrintableGrows(file: seq<string>, a: nat, b: nat)
    requires a <= b < |file|
    ensures AllPrintable(file[a..b + 1]) <==> AllPrintable(file[a..b]) && Printable(file[b])
  {
    var lines, n := file[a..b + 1], b - a;
    assert file[a..b] == lines[..n] && lines[n] == file[b];
    if AllPrintable(lines) {
      assert Printable(lines[n]);
    }
    hide Printable;
  }

  /** The lines that some edits walk over are printable if and only if the edits are. */
  lemma {:induction false} LinesOfEdits(edits: seq<EditType>, left: seq<string>, right: seq<string>,
                                        first: int, past: int, a: int, lI: int, b: int, rI: int)
    requires IsScript(edits, left, right) && first <= past
    requires At(edits, first, a, b) && At(edits, past, lI, rI)
    ensures 0 <= a <= lI <= |left| && 0 <= b <= rI <= |right|
    ensures AllPrintable(left[a..lI]) && AllPrintable(right[b..rI]) <==> PrintableEdits(edits, left, right, first, past)
    decreases past - first
  {
    AtBounds(edits, left, right, past, lI, rI);
    if first == past {
      AtUnique(edits, first, a, b, lI, rI);
    } else {
      var l, r := LeftLength(edits[..past - 1]), RightLength(edits[..past - 1]);
      LinesOfEdits(edits, left, right, first, past - 1, a, l, b, r);
      Advance(edits, left, right, past - 1, l, r);
      var e := edits[past - 1];
      AtUnique(edits, past, lI, rI, if e.Add? then l else l + 1, if e.Remove? then r else r + 1);
      assert PrintableEdit(edits, left, right, past - 1)
             <==> (!e.Add? ==> Printable(left[l])) && (!e.Remove? ==> Printable(right[r]));
      hide IsScript, At, PrintableEdit, AllPrintable, LeftLength, RightLength;
      if !e.Add? {
        PrintableGrows(left, a, l);
      }
      if !e.Remove? {
        PrintableGrows(right, b, r);
      }
    }
  }

  /** A hunk with a header shows its lines on one side or the other. */
  lemma SidesArePrintable(h: PrintedHunk)
    requires Headed(h) && (h.left.Some? || h.right.Some?)
    ensures PrintableHunk(h) <==> AllPrintable(OldSide(h.body)) && AllPrintable(NewSide(h.body))
  {
    if PrintableHunk(h) {
      SideOfPrintable(h.body, '+');
      SideOfPrintable(h.body, '-');
    } else if AllPrintable(OldSide(h.body)) && AllPrintable(NewSide(h.body)) {
      HeadedIsPrintable(h);
    }
  }

  /** A further hunk extends the correspondence: the edits between the hunks are not
      shown, its own all are. */
  lemma PrintableShownGrows(edits: seq<EditType>, left: seq<string>, right: seq<string>,
                            editB: int, first: int, past: int, context: nat)
    requires 0 <= editB <= first <= past
    requires NoneShown(edits, editB, first, context) && AllShown(edits, first, past, context)
    ensures PrintableShown(edits, left, right, past, context)
            <==> PrintableShown(edits, left, right, editB, context) && PrintableEdits(edits, left, right, first, past)
  {
    hide Shown, PrintableEdit;
  }
}
