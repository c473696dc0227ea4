/** Reading a unified diff back as a patch. */
module Patches {
  import opened DiffTexts
  import opened Hunks
  import opened Options

  /** A patch in progress: how many left lines are consumed, and the output so far. */
  datatype Patch = Patch(consumed: nat, output: seq<string>)

  /** Applies one hunk the way a patch tool does. The lines before it are copied;
      their number follows from whichever file ranges the header shows, and both
      must agree. The old side must be what the left file has there, and the
      header must count the lines shown. */
  function ApplyHunk(file: seq<string>, p: Patch, h: PrintedHunk): Option<Patch> {
    var gap := match (h.left, h.right)
               case (Some(l), _) => l.first - 1 - p.consumed
               case (None, Some(r)) => r.first - 1 - |p.output|
               case (None, None) => -1;
    var start := p.consumed + gap;
    var end := start + |OldSide(h.body)|;
    if && 0 <= gap && end <= |file|
       && file[start..end] == OldSide(h.body)
       && (h.left.Some? ==> h.left.value == Range(start + 1, |OldSide(h.body)|))
       && (h.right.Some? ==> h.right.value == Range(|p.output| + gap + 1, |NewSide(h.body)|))
    then Some(Patch(end, p.output + file[p.consumed..start] + NewSide(h.body)))
    else None
  }

  function ApplyHunks(file: seq<string>, hunks: seq<PrintedHunk>): (p: Option<Patch>)
    ensures p.Some? ==> p.value.consumed <= |file|
  {
    if hunks == [] then Some(Patch(0, []))
    else
      match ApplyHunks(file, hunks[..|hunks| - 1])
      case None => None
      case Some(p) => ApplyHunk(file, p, hunks[|hunks| - 1])
  }

  /** The patched file: what is left after the last hunk is copied. */
  function ApplyDiff(file: seq<string>, hunks: seq<PrintedHunk>): Option<seq<string>> {
    match ApplyHunks(file, hunks)
    case None => None
    case Some(p) => Some(p.output + file[p.consumed..])
  }

  /** What reading the text of a diff as a patch makes of a file. */
  function Patched(file: seq<string>, diff: string): Option<seq<string>> {
    match ReadDiff(diff)
    case None => None
    case Some(hunks) => ApplyDiff(file, hunks)
  }

  /** The lines from `first` on, counted from 1. */
  ghost predicate LinesAt(file: seq<string>, range: Range, lines: seq<string>) {
    && 1 <= range.first && range.first - 1 + range.count <= |file|
    && file[range.first - 1..range.first - 1 + range.count] == lines
  }

  /** A hunk that is applied shows what the two files hold where its header says. */
  lemma AppliedAt(file: seq<string>, p: Patch, h: PrintedHunk)
    requires p.consumed <= |file| && ApplyHunk(file, p, h).Some?
    ensures h.left.Some? || h.right.Some?
    ensures h.left.Some? ==> LinesAt(file, h.left.value, OldSide(h.body))
    ensures h.right.Some? ==> LinesAt(ApplyHunk(file, p, h).value.output, h.right.value, NewSide(h.body))
    ensures p.output <= ApplyHunk(file, p, h).value.output
  {
    hide OldSide, NewSide;
  }

  lemma {:induction false} HunkAppliedAt(file: seq<string>, hunks: seq<PrintedHunk>, i: nat, after: seq<string>)
    requires i < |hunks| && ApplyHunks(file, hunks).Some? && ApplyHunks(file, hunks).value.output <= after
    ensures hunks[i].left.Some? || hunks[i].right.Some?
    ensures hunks[i].left.Some? ==> LinesAt(file, hunks[i].left.value, OldSide(hunks[i].body))
    ensures hunks[i].right.Some? ==> LinesAt(after, hunks[i].right.value, NewSide(hunks[i].body))
    decreases |hunks|
  {
    hide OldSide, NewSide, ApplyHunk;
    var n := |hunks| - 1;
    AppliedAt(file, ApplyHunks(file, hunks[..n]).value, hunks[n]);
    if i < n {
      HunkAppliedAt(file, hunks[..n], i, after);
    }
  }

  ghost predicate AllPrintable(lines: seq<string>) {
    forall i | 0 <= i < |lines| :: Printable(lines[i])
  }

  /** A line is on a side unless its tag is the other side's own. */
  lemma {:induction false} OnSide(lines: seq<Line>, dropped: char, i: nat)
    requires i < |lines| && lines[i].tag != dropped
    ensures lines[i].text in TextsWithout(lines, dropped)
  {
    if i < |lines| - 1 {
      OnSide(lines[..|lines| - 1], dropped, i);
    }
  }

  lemma {:induction false} SideOfPrintable(lines: seq<Line>, dropped: char)
    requires forall i | 0 <= i < |lines| :: Printable(lines[i].text)
    ensures AllPrintable(TextsWithout(lines, dropped))
  {
    if lines != [] {
      SideOfPrintable(lines[..|lines| - 1], dropped);
    }
  }

  /** The sides whose ranges the header shows hold all the lines of the hunk. */
  lemma HeadedIsPrintable(h: PrintedHunk)
    requires Headed(h) && (h.left.Some? || h.right.Some?)
    requires h.left.Some? ==> AllPrintable(OldSide(h.body))
    requires h.right.Some? ==> AllPrintable(NewSide(h.body))
    ensures PrintableHunk(h)
  {
    forall i | 0 <= i < |h.body|
      ensures Printable(h.body[i].text)
    {
      TagIsCounted(h.body, i);
      var dropped := if h.left.Some? && h.body[i].tag != '+' then '+' else '-';
      OnSide(h.body, dropped, i);
    }
  }

  /** If the text of the diff makes `right` of `left`, each hunk was printable: its
      header is read, so what is read below it is what the files hold there. */
  lemma PatchingIsPrintable(left: seq<string>, right: seq<string>, hunks: seq<PrintedHunk>, i: nat)
    requires ApplyDiff(left, hunks) == Some(right) && forall k | 0 <= k < |hunks| :: Headed(hunks[k])
    requires i < |hunks| && PrintableHunks(hunks[..i])
    requires Patched(left, DiffText(hunks)) == Some(right)
    ensures PrintableHunk(hunks[i])
  {
    var read := ReadDiff(DiffText(hunks)).value;
    hide ApplyHunks, DiffText, ReadText, PrintableHunks, PrintableHunk, TextsWithout;
    AllReadable(left, hunks);
    FirstHeadersAreRead(hunks, i);
    HunkAppliedAt(left, hunks, i, right);
    HunkAppliedAt(left, read, i, right);
    ReadHunkIsPrintable(hunks, i);
    SideOfPrintable(read[i].body, '+');
    SideOfPrintable(read[i].body, '-');
    HeadedIsPrintable(hunks[i]);
  }

  lemma AllReadable(file: seq<string>, hunks: seq<PrintedHunk>)
    requires ApplyDiff(file, hunks).Some? && forall k | 0 <= k < |hunks| :: Headed(hunks[k])
    ensures forall k | 0 <= k < |hunks| :: Readable(hunks[k])
  {
    forall k | 0 <= k < |hunks|
      ensures Readable(hunks[k])
    {
      HunkAppliedAt(file, hunks, k, ApplyDiff(file, hunks).value);
    }
  }

  lemma ReadHunkIsPrintable(hunks: seq<PrintedHunk>, i: nat)
    requires forall k | 0 <= k < |hunks| :: Readable(hunks[k])
    requires ReadDiff(DiffText(hunks)).Some? && i < |ReadDiff(DiffText(hunks)).value|
    ensures forall k | 0 <= k < |ReadDiff(DiffText(hunks)).value[i].body| ::
              Printable(ReadDiff(DiffText(hunks)).value[i].body[k].text)
  {
    TextHasNoNul(hunks);
    ReadIsPrintable([], DiffText(hunks));
    assert PrintableHunk(ReadDiff(DiffText(hunks)).value[i]);
  }

  lemma {:induction false} FirstArePrintable(left: seq<string>, right: seq<string>, hunks: seq<PrintedHunk>, n: nat)
    requires ApplyDiff(left, hunks) == Some(right) && forall k | 0 <= k < |hunks| :: Headed(hunks[k])
    requires Patched(left, DiffText(hunks)) == Some(right) && n <= |hunks|
    ensures PrintableHunks(hunks[..n])
  {
    hide ApplyDiff, Patched, DiffText, Headed, PrintableHunk;
    if n > 0 {
      FirstArePrintable(left, right, hunks, n - 1);
      PatchingIsPrintable(left, right, hunks, n - 1);
      assert hunks[..n] == hunks[..n - 1] + [hunks[n - 1]];
    }
  }

  /** The text of a diff that is a patch from `left` to `right` is one too if and only
      if none of its lines holds a NUL or a newline. */
  lemma TextPatchesIffPrintable(left: seq<string>, right: seq<string>, hunks: seq<PrintedHunk>)
    requires ApplyDiff(left, hunks) == Some(right) && forall k | 0 <= k < |hunks| :: Headed(hunks[k])
    ensures Patched(left, DiffText(hunks)) == Some(right) <==> PrintableHunks(hunks)
  {
    AllReadable(left, hunks);
    ReadsBackIffPrintable(hunks);
    if Patched(left, DiffText(hunks)) == Some(right) {
      FirstArePrintable(left, right, hunks, |hunks|);
      assert hunks[..|hunks|] == hunks;
    }
    hide DiffText, ApplyDiff, Headed, PrintableHunks, Readable, ReadDiff;
  }
}
