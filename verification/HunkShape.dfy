/** The shape of a hunk body: some common lines, then changes separated by short
    runs of common lines, then some common lines. */
module HunkShape {
  import opened DiffTexts
  import opened Hunks

  predicate IsChange(line: Line) { line.tag != ' ' }

  /** Neighbouring changes are separated by fewer than `n` common lines. */
  ghost predicate ShortRuns(lines: seq<Line>, n: nat) {
    forall i, j {:trigger CommonBetween(lines, i, j)}
      | 0 <= i < j < |lines| && IsChange(lines[i]) && IsChange(lines[j]) && CommonBetween(lines, i, j) ::
      j - i - 1 < n
  }

  /** Only common lines strictly between two positions. */
  ghost predicate CommonBetween(lines: seq<Line>, after: int, before: int)
    requires -1 <= after && before <= |lines|
  {
    forall k | after < k < before :: !IsChange(lines[k])
  }

  /** Exactly `lead` common lines before the first change, `trail` after the last. */
  ghost predicate Framed(lines: seq<Line>, lead: nat, trail: nat, n: nat) {
    && lead + trail < |lines|
    && CommonBetween(lines, -1, lead) && IsChange(lines[lead])
    && CommonBetween(lines, |lines| - 1 - trail, |lines|) && IsChange(lines[|lines| - 1 - trail])
    && ShortRuns(lines, n)
  }

  /** A hunk under construction; before its first change it is `lead` common lines. */
  ghost predicate Open(flushed: seq<Line>, removes: seq<Line>, adds: seq<Line>,
                       started: bool, lead: nat, trail: nat, n: nat) {
    && lead <= |flushed|
    && Tagged(removes, '-') && Tagged(adds, '+')
    && if started
       then Framed(flushed + removes + adds, lead, trail, n) && (removes + adds != [] ==> trail == 0)
       else |flushed| == lead && CommonBetween(flushed, -1, lead) && removes == [] && adds == [] && trail == 0
  }

  ghost function Inserted(lines: seq<Line>, p: nat, line: Line): seq<Line>
    requires p <= |lines|
  {
    lines[..p] + [line] + lines[p..]
  }

  lemma InsertedRun(lines: seq<Line>, p: nat, line: Line, n: nat, trail: nat, i: nat, j: nat)
    requires ShortRuns(lines, n) && p <= |lines| && IsChange(line) && 0 < n
    requires p < |lines| ==> IsChange(lines[p])
    requires p == |lines| ==> CommonBetween(lines, -1, |lines|)
                              || (trail < n && trail < |lines| && IsChange(lines[|lines| - 1 - trail]))
    requires i < j <= |lines| && IsChange(Inserted(lines, p, line)[i]) && IsChange(Inserted(lines, p, line)[j])
    requires CommonBetween(Inserted(lines, p, line), i, j)
    ensures j - i - 1 < n
  {
    var after := Inserted(lines, p, line);
    assert forall k | 0 <= k < p :: after[k] == lines[k];
    assert forall k | p <= k < |lines| :: after[k + 1] == lines[k];
    assert after[p] == line;
    if j < p {
      assert CommonBetween(lines, i, j);
    } else if i > p {
      assert CommonBetween(lines, i - 1, j - 1);
    } else if i == p {
      assert after[p + 1] == lines[p];
    } else if j == p {
      assert CommonBetween(lines, i, p);
    }
  }

  lemma InsertedRuns(lines: seq<Line>, p: nat, line: Line, n: nat, trail: nat)
    requires ShortRuns(lines, n) && p <= |lines| && IsChange(line) && 0 < n
    requires p < |lines| ==> IsChange(lines[p])
    requires p == |lines| ==> CommonBetween(lines, -1, |lines|)
                              || (trail < n && trail < |lines| && IsChange(lines[|lines| - 1 - trail]))
    ensures ShortRuns(Inserted(lines, p, line), n)
  {
    var after := Inserted(lines, p, line);
    forall i, j | 0 <= i < j < |after| && IsChange(after[i]) && IsChange(after[j]) && CommonBetween(after, i, j)
      ensures j - i - 1 < n
    {
      InsertedRun(lines, p, line, n, trail, i, j);
    }
  }

  /** A change put before a change, or at the end, is the last change or keeps it. */
  lemma FramedInsert(lines: seq<Line>, p: nat, line: Line, started: bool, lead: nat, trail: nat, n: nat)
    requires if started then Framed(lines, lead, trail, n) && trail < n
             else |lines| == lead && CommonBetween(lines, -1, lead) && 0 < n
    requires lead <= p <= |lines| && IsChange(line)
    requires p < |lines| ==> started && trail == 0 && IsChange(lines[p])
    ensures Framed(Inserted(lines, p, line), lead, 0, n)
  {
    hide ShortRuns;
    InsertedRuns(lines, p, line, n, trail);
    var after := Inserted(lines, p, line);
    assert forall k | 0 <= k < lead :: after[k] == lines[k];
    assert p == lead || after[lead] == lines[lead];
    assert p < |lines| ==> after[|after| - 1] == lines[|lines| - 1];
  }

  lemma OpenRemove(flushed: seq<Line>, removes: seq<Line>, adds: seq<Line>,
                   started: bool, lead: nat, trail: nat, n: nat, line: Line)
    requires Open(flushed, removes, adds, started, lead, trail, n) && trail < n
    requires line.tag == '-'
    ensures Open(flushed, removes + [line], adds, true, lead, 0, n)
  {
    var lines, p := flushed + removes + adds, |flushed + removes|;
    assert adds != [] ==> lines[p] == adds[0];
    FramedInsert(lines, p, line, started, lead, trail, n);
    assert Inserted(lines, p, line) == flushed + (removes + [line]) + adds;
    hide Framed;
  }

  lemma OpenAdd(flushed: seq<Line>, removes: seq<Line>, adds: seq<Line>,
                started: bool, lead: nat, trail: nat, n: nat, line: Line)
    requires Open(flushed, removes, adds, started, lead, trail, n) && trail < n
    requires line.tag == '+'
    ensures Open(flushed, removes, adds + [line], true, lead, 0, n)
  {
    var lines := flushed + removes + adds;
    FramedInsert(lines, |lines|, line, started, lead, trail, n);
    assert Inserted(lines, |lines|, line) == flushed + removes + (adds + [line]);
    hide Framed;
  }

  lemma OpenCommon(flushed: seq<Line>, removes: seq<Line>, adds: seq<Line>, lead: nat, trail: nat, n: nat, line: Line)
    requires Open(flushed, removes, adds, true, lead, trail, n)
    requires line.tag == ' '
    ensures Open(flushed + removes + adds + [line], [], [], true, lead, trail + 1, n)
  {
    var lines := flushed + removes + adds;
    FramedCommon(lines, lead, trail, n, line);
    assert lines + [line] + [] + [] == lines + [line];
    hide Framed;
  }

  lemma CommonKeepsRuns(lines: seq<Line>, n: nat, line: Line)
    requires ShortRuns(lines, n) && !IsChange(line)
    ensures ShortRuns(lines + [line], n)
  {
    var after := lines + [line];
    assert forall k | 0 <= k < |lines| :: after[k] == lines[k];
    forall i, j | 0 <= i < j < |after| && IsChange(after[i]) && IsChange(after[j]) && CommonBetween(after, i, j)
      ensures j - i - 1 < n
    {
      assert CommonBetween(lines, i, j);
    }
  }

  lemma FramedCommon(lines: seq<Line>, lead: nat, trail: nat, n: nat, line: Line)
    requires Framed(lines, lead, trail, n) && !IsChange(line)
    ensures Framed(lines + [line], lead, trail + 1, n)
  {
    hide ShortRuns;
    CommonKeepsRuns(lines, n, line);
  }

  lemma OpenIsFramed(flushed: seq<Line>, removes: seq<Line>, adds: seq<Line>, lead: nat, trail: nat, n: nat)
    requires Open(flushed, removes, adds, true, lead, trail, n)
    ensures Framed(flushed + removes + adds, lead, trail, n)
  {
  }

  lemma FramedHasChange(lines: seq<Line>, lead: nat, trail: nat, n: nat)
    requires Framed(lines, lead, trail, n) && KnownTags(lines)
    ensures Count(lines, '-') + Count(lines, '+') > 0
  {
    TagIsCounted(lines, lead);
  }
}
