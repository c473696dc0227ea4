/** Which edits of a script the hunks of a diff tell. */
module ToldEdits {
  import opened DiffTexts
  import opened EditCursors
  import opened EditDistance
  import opened EditLines
  import opened Hunks
  import opened ShownLines

  /** The edits from `first` to before `past`. */
  datatype Run = Run(first: nat, past: nat)

  /** A range counts the lines of its file that the run walks over. */
  ghost predicate Covers(range: Range, before: nat, after: nat) {
    range.first == before + 1 && before + range.count == after
  }

  /** The hunk shows the lines of the run, at the places where the run stands, and all
      edits of the run are to be shown. */
  ghost predicate Tells(h: PrintedHunk, edits: seq<EditType>, left: seq<string>, right: seq<string>, run: Run,
                        context: nat) {
    && run.first < run.past <= |edits|
    && AllShown(edits, run.first, run.past, context)
    && Rearranges(h.body, LinesOf(edits, left, right, run.first, run.past))
    && (h.left.Some? ==> Covers(h.left.value, LeftLength(edits[..run.first]), LeftLength(edits[..run.past])))
    && (h.right.Some? ==> Covers(h.right.value, RightLength(edits[..run.first]), RightLength(edits[..run.past])))
  }

  lemma RunIsTold(h: PrintedHunk, edits: seq<EditType>, left: seq<string>, right: seq<string>,
                  first: nat, past: nat, a: nat, b: nat, lI: nat, rI: nat, context: nat)
    requires first < past && At(edits, first, a, b) && At(edits, past, lI, rI) && a <= lI && b <= rI
    requires AllShown(edits, first, past, context) && Rearranges(h.body, LinesOf(edits, left, right, first, past))
    requires h.left.Some? ==> h.left.value == Range(a + 1, lI - a)
    requires h.right.Some? ==> h.right.value == Range(b + 1, rI - b)
    ensures Tells(h, edits, left, right, Run(first, past), context)
  {
    hide AllShown, Rearranges, LinesOf, LeftLength, RightLength;
  }

  ghost predicate InSomeRun(runs: seq<Run>, k: int) {
    exists i :: 0 <= i < |runs| && runs[i].first <= k < runs[i].past
  }

  ghost predicate InOrder(runs: seq<Run>) {
    forall i, j | 0 <= i < j < |runs| :: runs[i].past <= runs[j].first
  }

  ghost predicate RunsEnd(runs: seq<Run>, editI: int) {
    forall i | 0 <= i < |runs| :: runs[i].past <= editI
  }

  ghost predicate AllTell(hunks: seq<PrintedHunk>, runs: seq<Run>, edits: seq<EditType>,
                          left: seq<string>, right: seq<string>, context: nat) {
    && |runs| == |hunks|
    && forall i | 0 <= i < |hunks| :: Tells(hunks[i], edits, left, right, runs[i], context)
  }

  ghost predicate NoneMissing(runs: seq<Run>, edits: seq<EditType>, editI: int, context: nat) {
    forall k | 0 <= k < editI && Shown(edits, k, context) :: InSomeRun(runs, k)
  }

  /** The hunks tell the edits before `editI` that are to be shown, in order, and no
      others. */
  ghost predicate Told(hunks: seq<PrintedHunk>, runs: seq<Run>, edits: seq<EditType>,
                       left: seq<string>, right: seq<string>, editI: int, context: nat) {
    && AllTell(hunks, runs, edits, left, right, context)
    && InOrder(runs) && RunsEnd(runs, editI) && NoneMissing(runs, edits, editI, context)
  }

  lemma NothingTold(edits: seq<EditType>, left: seq<string>, right: seq<string>, context: nat)
    ensures Told([], [], edits, left, right, 0, context)
  {
  }

  lemma NoneMissed(runs: seq<Run>, edits: seq<EditType>, editB: int, run: Run, context: nat)
    requires NoneMissing(runs, edits, editB, context) && NoneShown(edits, editB, run.first, context)
    ensures NoneMissing(runs + [run], edits, run.past, context)
  {
    hide Shown;
    var all := runs + [run];
    forall k | 0 <= k < run.past && Shown(edits, k, context)
      ensures InSomeRun(all, k)
    {
      if k < editB {
        var i :| 0 <= i < |runs| && runs[i].first <= k < runs[i].past;
        assert all[i] == runs[i];
      } else {
        assert all[|runs|] == run;
      }
    }
  }

  /** One more hunk, past edits that are not to be shown. */
  lemma ToldMore(hunks: seq<PrintedHunk>, runs: seq<Run>, edits: seq<EditType>, left: seq<string>, right: seq<string>,
                 editB: int, h: PrintedHunk, run: Run, context: nat)
    requires Told(hunks, runs, edits, left, right, editB, context) && Tells(h, edits, left, right, run, context)
    requires editB <= run.first && NoneShown(edits, editB, run.first, context)
    ensures Told(hunks + [h], runs + [run], edits, left, right, run.past, context)
  {
    NoneMissed(runs, edits, editB, run, context);
    hide Tells, NoneMissing, NoneShown;
    var all, both := runs + [run], hunks + [h];
    assert forall i | 0 <= i < |runs| :: all[i] == runs[i] && both[i] == hunks[i];
  }

  lemma ToldToTheEnd(hunks: seq<PrintedHunk>, runs: seq<Run>, edits: seq<EditType>,
                     left: seq<string>, right: seq<string>, editB: int, context: nat)
    requires Told(hunks, runs, edits, left, right, editB, context) && editB <= |edits|
    requires NoneShown(edits, editB, |edits|, context)
    ensures Told(hunks, runs, edits, left, right, |edits|, context)
  {
    hide AllTell, Shown;
  }

  // ---------- what follows ----------

  /** The numbers of removed, added and common lines in the hunks. */
  function Total(hunks: seq<PrintedHunk>, tag: char): nat {
    if hunks == [] then 0 else Total(hunks[..|hunks| - 1], tag) + Count(hunks[|hunks| - 1].body, tag)
  }

  lemma {:induction false} MatchesChangeNothing(edits: seq<EditType>, first: nat, past: nat)
    requires first <= past <= |edits| && MatchesFrom(edits, first, past)
    ensures Removals(edits[..past]) == Removals(edits[..first])
    ensures Additions(edits[..past]) == Additions(edits[..first])
    decreases past - first
  {
    if first < past {
      MatchesChangeNothing(edits, first, past - 1);
      EditCounts(edits, past - 1);
    }
  }

  lemma BetweenRuns(runs: seq<Run>, n: nat, k: int)
    requires InOrder(runs) && n <= |runs|
    requires forall i | 0 <= i < |runs| :: runs[i].first < runs[i].past
    requires n > 0 ==> runs[n - 1].past <= k
    requires n < |runs| ==> k < runs[n].first
    ensures !InSomeRun(runs, k)
  {
  }

  lemma RunsAreRanges(hunks: seq<PrintedHunk>, runs: seq<Run>, edits: seq<EditType>,
                      left: seq<string>, right: seq<string>, context: nat)
    requires AllTell(hunks, runs, edits, left, right, context)
    ensures forall i | 0 <= i < |runs| :: runs[i].first < runs[i].past <= |edits|
  {
    hide Rearranges, LinesOf, Covers, AllShown;
    forall i | 0 <= i < |runs|
      ensures runs[i].first < runs[i].past <= |edits|
    {
      assert Tells(hunks[i], edits, left, right, runs[i], context);
    }
  }

  /** Outside the runs there are only matches. */
  lemma GapsMatch(hunks: seq<PrintedHunk>, runs: seq<Run>, edits: seq<EditType>,
                  left: seq<string>, right: seq<string>, context: nat, n: nat)
    requires Told(hunks, runs, edits, left, right, |edits|, context) && n <= |runs|
    ensures MatchesFrom(edits, if n == 0 then 0 else runs[n - 1].past, if n == |runs| then |edits| else runs[n].first)
  {
    RunsAreRanges(hunks, runs, edits, left, right, context);
    hide AllTell, InOrder, InSomeRun, Shown;
    var first, past := if n == 0 then 0 else runs[n - 1].past, if n == |runs| then |edits| else runs[n].first;
    forall k | first <= k < past
      ensures edits[k].Match?
    {
      BetweenRuns(runs, n, k);
      if !edits[k].Match? {
        ChangeShows(edits, k, k, context);
      }
    }
  }

  /** The lines of a told run are as many as its edits of each kind. */
  lemma TellsCounts(h: PrintedHunk, edits: seq<EditType>, left: seq<string>, right: seq<string>, run: Run, context: nat)
    requires IsScript(edits, left, right) && Tells(h, edits, left, right, run, context)
    ensures AreCounted(h.body, edits, run.first, run.past)
  {
    hide Rearranges, LinesOf, Count, AllShown, Covers, IsScript, Removals, Additions, Kept;
    var lines := LinesOf(edits, left, right, run.first, run.past);
    LinesAreCounted(edits, left, right, run.first, run.past);
    RearrangedCounts(h.body, lines, '-');
    RearrangedCounts(h.body, lines, '+');
    RearrangedCounts(h.body, lines, ' ');
  }

  lemma {:induction false} TotalsSoFar(hunks: seq<PrintedHunk>, runs: seq<Run>, edits: seq<EditType>,
                                       left: seq<string>, right: seq<string>, context: nat, n: nat)
    requires IsScript(edits, left, right) && Told(hunks, runs, edits, left, right, |edits|, context) && n <= |runs|
    ensures var past := if n == 0 then 0 else runs[n - 1].past;
            && past <= |edits|
            && Total(hunks[..n], '-') == Removals(edits[..past]) && Total(hunks[..n], '+') == Additions(edits[..past])
  {
    hide IsScript, Count, Removals, Additions, Kept, Rearranges, LinesOf,
         AllShown, Covers, InOrder, RunsEnd, NoneMissing;
    if n == 0 {
      NothingCounted();
      assert edits[..0] == [];
    } else {
      TotalsSoFar(hunks, runs, edits, left, right, context, n - 1);
      GapsMatch(hunks, runs, edits, left, right, context, n - 1);
      var h, run := hunks[n - 1], runs[n - 1];
      assert Tells(h, edits, left, right, run, context);
      TellsCounts(h, edits, left, right, run, context);
      assert hunks[..n][..n - 1] == hunks[..n - 1];
      var past := if n == 1 then 0 else runs[n - 2].past;
      if past <= run.first {
        MatchesChangeNothing(edits, past, run.first);
      }
      RunsDoNotOverlap(hunks, runs, edits, left, right, context, n - 1);
    }
  }

  lemma NothingCounted()
    ensures Removals([]) == 0 && Additions([]) == 0
  {
  }

  lemma RunsDoNotOverlap(hunks: seq<PrintedHunk>, runs: seq<Run>, edits: seq<EditType>,
                         left: seq<string>, right: seq<string>, context: nat, n: nat)
    requires Told(hunks, runs, edits, left, right, |edits|, context) && n < |runs|
    ensures (if n == 0 then 0 else runs[n - 1].past) <= runs[n].first
  {
    hide AllTell, NoneMissing;
  }

  /** A diff shows as many removed (added) lines as the script removes (adds) or
      replaces. */
  lemma EveryChangeIsTold(hunks: seq<PrintedHunk>, runs: seq<Run>, edits: seq<EditType>,
                          left: seq<string>, right: seq<string>, context: nat)
    requires IsScript(edits, left, right) && Told(hunks, runs, edits, left, right, |edits|, context)
    ensures Total(hunks, '-') == Removals(edits) && Total(hunks, '+') == Additions(edits)
  {
    TotalsSoFar(hunks, runs, edits, left, right, context, |runs|);
    GapsMatch(hunks, runs, edits, left, right, context, |runs|);
    var past := if runs == [] then 0 else runs[|runs| - 1].past;
    MatchesChangeNothing(edits, past, |edits|);
    assert hunks[..|runs|] == hunks && edits[..|edits|] == edits;
  }

  lemma RunHasChange(h: PrintedHunk, edits: seq<EditType>, left: seq<string>, right: seq<string>,
                     run: Run, context: nat)
    requires Tells(h, edits, left, right, run, context)
    ensures !MatchesFrom(edits, 0, |edits|)
  {
    hide Rearranges, LinesOf, Covers;
    assert Shown(edits, run.first, context);
    var j :| run.first - context <= j <= run.first + context && IsChangeAt(edits, j);
  }

  /** A run is shown for its changes, so a script of matches has none. */
  lemma MatchesTellNothing(hunks: seq<PrintedHunk>, runs: seq<Run>, edits: seq<EditType>,
                           left: seq<string>, right: seq<string>, context: nat)
    requires Told(hunks, runs, edits, left, right, |edits|, context) && MatchesFrom(edits, 0, |edits|)
    ensures hunks == []
  {
    hide Tells, MatchesFrom;
    if hunks != [] {
      RunHasChange(hunks[0], edits, left, right, runs[0], context);
    }
  }
}
