/** The lines that a run of edits shows, and how a hunk body rearranges them. */
module EditLines {
  import opened DiffTexts
  import opened EditCursors
  import opened EditDistance
  import opened Hunks

  /** A matched line is common, a removed one is the left file's, an added one the
      right file's; a replaced line is both of the latter. */
  function LinesOfEdit(edit: EditType, left: seq<string>, right: seq<string>, lI: nat, rI: nat): seq<Line> {
    match edit
    case Match => if lI < |left| then [Line(' ', left[lI])] else []
    case Remove => if lI < |left| then [Line('-', left[lI])] else []
    case Add => if rI < |right| then [Line('+', right[rI])] else []
    case Replace => if lI < |left| && rI < |right| then [Line('-', left[lI]), Line('+', right[rI])] else []
  }

  /** What the edits from `first` to before `past` show. */
  function LinesOf(edits: seq<EditType>, left: seq<string>, right: seq<string>, first: int, past: int): seq<Line>
    decreases past - first
  {
    if past <= first || past <= 0 || past > |edits| then []
    else
      LinesOf(edits, left, right, first, past - 1)
      + LinesOfEdit(edits[past - 1], left, right, LeftLength(edits[..past - 1]), RightLength(edits[..past - 1]))
  }

  lemma NoLines(edits: seq<EditType>, left: seq<string>, right: seq<string>, first: int)
    ensures LinesOf(edits, left, right, first, first) == []
  {
  }

  lemma OneMoreEdit(edits: seq<EditType>, left: seq<string>, right: seq<string>, first: int, editI: int,
                    lI: nat, rI: nat)
    requires 0 <= first <= editI < |edits| && At(edits, editI, lI, rI)
    ensures LinesOf(edits, left, right, first, editI + 1)
            == LinesOf(edits, left, right, first, editI) + LinesOfEdit(edits[editI], left, right, lI, rI)
  {
  }

  /** Lines of the left file, shown as common. */
  function Commons(left: seq<string>, a: int, b: int): seq<Line>
    decreases b - a
  {
    if b <= a || b <= 0 || b > |left| then [] else Commons(left, a, b - 1) + [Line(' ', left[b - 1])]
  }

  lemma NoCommons(left: seq<string>, a: int)
    ensures Commons(left, a, a) == []
  {
  }

  lemma OneMoreCommon(left: seq<string>, a: int, b: int)
    requires 0 <= a <= b < |left|
    ensures Commons(left, a, b + 1) == Commons(left, a, b) + [Line(' ', left[b])]
  {
  }

  /** A run of matches shows common lines. */
  lemma {:induction false} MatchesAreCommon(edits: seq<EditType>, left: seq<string>, right: seq<string>,
                                            first: int, past: int, lI: int, rI: int)
    requires IsScript(edits, left, right) && MatchesFrom(edits, first, past) && first <= past
    requires At(edits, past, lI, rI)
    ensures LinesOf(edits, left, right, first, past) == Commons(left, lI - (past - first), lI)
    decreases past - first
  {
    hide IsScript, At, LinesOf, Commons;
    MatchRun(edits, left, right, first, past, lI, rI);
    if first == past {
      NoLines(edits, left, right, first);
      NoCommons(left, lI);
    } else {
      StepBack(edits, past, lI, rI);
      MatchesAreCommon(edits, left, right, first, past - 1, lI - 1, rI - 1);
      OneMoreEdit(edits, left, right, first, past - 1, lI - 1, rI - 1);
      OneMoreCommon(left, lI - (past - first), lI - 1);
    }
  }

  // ---------- counting ----------

  /** The edits that take a line from the left file alone (give one to the right). */
  function Removals(edits: seq<EditType>): nat {
    if edits == [] then 0
    else
      var n := |edits| - 1;
      Removals(edits[..n]) + if edits[n].Remove? || edits[n].Replace? then 1 else 0
  }

  function Additions(edits: seq<EditType>): nat {
    if edits == [] then 0
    else
      var n := |edits| - 1;
      Additions(edits[..n]) + if edits[n].Add? || edits[n].Replace? then 1 else 0
  }

  function Kept(edits: seq<EditType>): nat {
    if edits == [] then 0
    else
      var n := |edits| - 1;
      Kept(edits[..n]) + if edits[n].Match? then 1 else 0
  }

  lemma LinesOfEditCount(edit: EditType, left: seq<string>, right: seq<string>, lI: nat, rI: nat)
    requires (!edit.Add? ==> lI < |left|) && (!edit.Remove? ==> rI < |right|)
    ensures var lines := LinesOfEdit(edit, left, right, lI, rI);
            && Count(lines, '-') == (if edit.Remove? || edit.Replace? then 1 else 0)
            && Count(lines, '+') == (if edit.Add? || edit.Replace? then 1 else 0)
            && Count(lines, ' ') == (if edit.Match? then 1 else 0)
  {
    forall line: Line, tag: char
      ensures Count([line], tag) == if line.tag == tag then 1 else 0
    {
      assert [line][..0] == [];
    }
    if edit.Replace? {
      var removed, added := Line('-', left[lI]), Line('+', right[rI]);
      assert [removed, added] == [removed] + [added];
      CountConcat([removed], [added], '-');
      CountConcat([removed], [added], '+');
      CountConcat([removed], [added], ' ');
    }
  }

  /** The lines number the edits of the run, kind by kind. */
  ghost predicate AreCounted(lines: seq<Line>, edits: seq<EditType>, first: int, past: int) {
    && 0 <= first <= past <= |edits|
    && Removals(edits[..first]) + Count(lines, '-') == Removals(edits[..past])
    && Additions(edits[..first]) + Count(lines, '+') == Additions(edits[..past])
    && Kept(edits[..first]) + Count(lines, ' ') == Kept(edits[..past])
  }

  lemma NoneAreCounted(edits: seq<EditType>, first: nat)
    requires first <= |edits|
    ensures AreCounted([], edits, first, first)
  {
  }

  /** Each edit of the run shows its lines, and no other line is shown. */
  lemma {:induction false} LinesAreCounted(edits: seq<EditType>, left: seq<string>, right: seq<string>,
                                           first: nat, past: nat)
    requires IsScript(edits, left, right) && first <= past <= |edits|
    ensures AreCounted(LinesOf(edits, left, right, first, past), edits, first, past)
    decreases past - first
  {
    hide *;
    if first == past {
      NoLines(edits, left, right, first);
      NoneAreCounted(edits, first);
    } else {
      LinesAreCounted(edits, left, right, first, past - 1);
      EditIsCounted(edits, left, right, first, past - 1);
    }
  }

  lemma EditIsCounted(edits: seq<EditType>, left: seq<string>, right: seq<string>, first: nat, editI: nat)
    requires IsScript(edits, left, right) && first <= editI < |edits|
    requires AreCounted(LinesOf(edits, left, right, first, editI), edits, first, editI)
    ensures AreCounted(LinesOf(edits, left, right, first, editI + 1), edits, first, editI + 1)
  {
    hide Count, LinesOfEdit, LinesOf, IsScript, LeftLength, RightLength, Removals, Additions, Kept;
    var l, r := LeftLength(edits[..editI]), RightLength(edits[..editI]);
    EditCounts(edits, editI);
    Advance(edits, left, right, editI, l, r);
    OneMoreEdit(edits, left, right, first, editI, l, r);
    LinesOfEditCount(edits[editI], left, right, l, r);
    var before, last := LinesOf(edits, left, right, first, editI), LinesOfEdit(edits[editI], left, right, l, r);
    CountConcat(before, last, '-');
    CountConcat(before, last, '+');
    CountConcat(before, last, ' ');
  }

  lemma EditCounts(edits: seq<EditType>, editI: nat)
    requires editI < |edits|
    ensures var e := edits[editI];
            && Removals(edits[..editI + 1]) == Removals(edits[..editI]) + (if e.Remove? || e.Replace? then 1 else 0)
            && Additions(edits[..editI + 1]) == Additions(edits[..editI]) + (if e.Add? || e.Replace? then 1 else 0)
            && Kept(edits[..editI + 1]) == Kept(edits[..editI]) + if e.Match? then 1 else 0
  {
    assert edits[..editI + 1][..editI] == edits[..editI];
  }

  lemma LastWithout(lines: seq<Line>, dropped: char)
    requires lines != [] && lines[|lines| - 1].tag != dropped
    ensures var kept, n := Without(lines, dropped), |lines| - 1;
            kept != [] && kept[|kept| - 1] == lines[n] && kept[..|kept| - 1] == Without(lines[..n], dropped)
  {
  }

  lemma LastDropped(lines: seq<Line>)
    requires lines != []
    ensures Without(lines, lines[|lines| - 1].tag) == Without(lines[..|lines| - 1], lines[|lines| - 1].tag)
  {
  }

  lemma {:induction false} CountWithout(lines: seq<Line>, tag: char, dropped: char)
    requires tag != dropped
    ensures Count(Without(lines, dropped), tag) == Count(lines, tag)
  {
    if lines != [] {
      var n := |lines| - 1;
      CountWithout(lines[..n], tag, dropped);
      if lines[n].tag != dropped {
        LastWithout(lines, dropped);
      } else {
        LastDropped(lines);
      }
    }
  }

  /** Rearranging keeps the number of lines of each kind. */
  lemma RearrangedCounts(body: seq<Line>, pushed: seq<Line>, tag: char)
    requires Rearranges(body, pushed)
    ensures Count(body, tag) == Count(pushed, tag)
  {
    var dropped := if tag == '-' then '+' else '-';
    CountWithout(body, tag, dropped);
    CountWithout(pushed, tag, dropped);
  }

  // ---------- there is one such body ----------

  /** A removed line at the end of a grouped body has no added line in its run. */
  lemma {:induction false} NoAddsInFront(lines: seq<Line>)
    requires KnownTags(lines) && Grouped(lines) && lines != [] && lines[|lines| - 1].tag == '-'
    ensures var rest := Without(lines, '-'); rest == [] || rest[|rest| - 1].tag == ' '
  {
    var n := |lines| - 1;
    if n > 0 {
      if lines[n - 1].tag == '-' {
        NoAddsInFront(lines[..n]);
      } else {
        assert lines[n - 1].tag == ' ';
        assert lines[..n][n - 1] == lines[n - 1];
      }
    }
  }

  lemma OnlyEmptyShowsNothing(lines: seq<Line>)
    requires Without(lines, '+') == [] && Without(lines, '-') == []
    ensures lines == []
  {
    if lines != [] {
      LastWithout(lines, if lines[|lines| - 1].tag == '-' then '+' else '-');
    }
  }

  lemma SameLast(a: seq<Line>, b: seq<Line>)
    requires KnownTags(a) && KnownTags(b) && Grouped(a) && Grouped(b) && Rearranges(a, b)
    requires a != [] && b != []
    ensures a[|a| - 1].tag == b[|b| - 1].tag
  {
    var x, y := a[|a| - 1], b[|b| - 1];
    if x.tag != y.tag {
      if x.tag != '+' {
        LastWithout(a, '+');
      }
      if y.tag != '+' {
        LastWithout(b, '+');
      }
      if x.tag != '-' {
        LastWithout(a, '-');
      } else {
        NoAddsInFront(a);
      }
      if y.tag != '-' {
        LastWithout(b, '-');
      } else {
        NoAddsInFront(b);
      }
    }
  }

  lemma DropLastLines(a: seq<Line>, b: seq<Line>)
    requires a != [] && b != [] && a[|a| - 1].tag == b[|b| - 1].tag && Rearranges(a, b)
    requires KnownTags(a)
    ensures a[|a| - 1] == b[|b| - 1] && Rearranges(a[..|a| - 1], b[..|b| - 1])
  {
    hide Without;
    var tag := a[|a| - 1].tag;
    LastDropped(a);
    LastDropped(b);
    if tag != '+' {
      LastWithout(a, '+');
      LastWithout(b, '+');
    }
    if tag != '-' {
      LastWithout(a, '-');
      LastWithout(b, '-');
    }
  }

  lemma PrefixIsGrouped(lines: seq<Line>, n: nat)
    requires KnownTags(lines) && Grouped(lines) && n <= |lines|
    ensures KnownTags(lines[..n]) && Grouped(lines[..n])
  {
  }

  /** A grouped body is determined by the lines it rearranges. */
  lemma {:induction false} OneGroupedBody(a: seq<Line>, b: seq<Line>)
    requires KnownTags(a) && KnownTags(b) && Grouped(a) && Grouped(b) && Rearranges(a, b)
    ensures a == b
    decreases |a| + |b|
  {
    if a == [] {
      OnlyEmptyShowsNothing(b);
    } else if b == [] {
      OnlyEmptyShowsNothing(a);
    } else {
      hide *;
      var n, m := |a| - 1, |b| - 1;
      SameLast(a, b);
      DropLastLines(a, b);
      PrefixIsGrouped(a, n);
      PrefixIsGrouped(b, m);
      OneGroupedBody(a[..n], b[..m]);
      assert a == a[..n] + [a[n]] && b == b[..m] + [b[m]];
    }
  }
}
