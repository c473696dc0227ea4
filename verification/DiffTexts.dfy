/** The text of a unified diff: what printing a hunk writes, and how a reader gets
    the hunks back from it. */
module DiffTexts {
  import opened CStrings
  import opened Decimals
  import opened Options

  /** A diff line: ' ' is common, '-' only in the left file, '+' only in the right. */
  datatype Line = Line(tag: char, text: string)

  /** Lines are counted from 1. */
  datatype Range = Range(first: nat, count: nat)

  datatype PrintedHunk = PrintedHunk(left: Option<Range>, right: Option<Range>, body: seq<Line>)

  ghost predicate KnownTags(lines: seq<Line>) {
    forall i | 0 <= i < |lines| :: lines[i].tag in {' ', '-', '+'}
  }

  // ---------- writing ----------

  /** The position of the first `ch`; the length if there is none. */
  function Find(s: string, ch: char): (n: nat)
    ensures n <= |s| && ch !in s[..n] && (n < |s| ==> s[n] == ch)
  {
    if s == "" || s[0] == ch then 0 else 1 + Find(s[1..], ch)
  }

  /** What the stream shows of a string it is given as a `const char*`. */
  function Cut(s: string): string { s[..Find(s, NUL)] }

  function LineText(line: Line): string { [line.tag] + Cut(line.text) + "\n" }

  function BodyText(lines: seq<Line>): string {
    if lines == [] then "" else LineText(lines[0]) + BodyText(lines[1..])
  }

  function RangeText(r: Range): string { Digits(r.first) + "," + Digits(r.count) }

  /** The ranges between the "@@ " and the " @@" of a header. */
  function RangesText(left: Option<Range>, right: Option<Range>): string {
    match (left, right)
    case (Some(l), Some(r)) => BothText(RangeText(l), RangeText(r))
    case (Some(l), None) => ['-'] + RangeText(l)
    case (None, Some(r)) => ['+'] + RangeText(r)
    case (None, None) => ""
  }

  function BothText(left: string, right: string): string { (['-'] + left) + [' '] + (['+'] + right) }

  function Header(left: Option<Range>, right: Option<Range>): string {
    "@@ " + RangesText(left, right) + " @@"
  }

  function HunkText(h: PrintedHunk): string { Header(h.left, h.right) + "\n" + BodyText(h.body) }

  function DiffText(hunks: seq<PrintedHunk>): string {
    if hunks == [] then "" else DiffText(hunks[..|hunks| - 1]) + HunkText(hunks[|hunks| - 1])
  }

  /** The header built up piece by piece. */
  lemma HeaderPieces(left: Option<Range>, right: Option<Range>, ss: string)
    requires ss == (if left.Some? then "@@ " + "-" + Digits(left.value.first) + "," + Digits(left.value.count)
                    else "@@ ")
    ensures right.None? ==> ss + " @@\n" == Header(left, right) + "\n"
    ensures right.Some? ==>
              var sep := if left.Some? then ss + " " else ss;
              sep + "+" + Digits(right.value.first) + "," + Digits(right.value.count) + " @@\n"
              == Header(left, right) + "\n"
  {
    hide Digits;
    assert " @@\n" == " @@" + "\n";
    if left.Some? {
      var l := RangeText(left.value);
      assert ss == "@@ " + (['-'] + l);
      if right.Some? {
        BothPieces(ss, l, Digits(right.value.first), Digits(right.value.count));
      }
    } else if right.Some? {
      OnePiece(Digits(right.value.first), Digits(right.value.count));
    }
  }

  lemma BothPieces(ss: string, left: string, first: string, count: string)
    requires ss == "@@ " + (['-'] + left)
    ensures ss + " " + "+" + first + "," + count + " @@\n" == "@@ " + BothText(left, first + "," + count) + " @@" + "\n"
  {
  }

  lemma OnePiece(first: string, count: string)
    ensures "@@ " + "+" + first + "," + count + " @@\n" == "@@ " + (['+'] + (first + "," + count)) + " @@" + "\n"
  {
  }

  lemma BodyUnfolds(lines: seq<Line>, it: nat)
    requires it < |lines|
    ensures BodyText(lines[it..]) == LineText(lines[it]) + BodyText(lines[it + 1..])
  {
    hide LineText;
  }

  // ---------- reading ----------

  function ReadRange(s: string): Option<Range> {
    var n := Find(s, ',');
    if 0 < n && n + 1 < |s| && AllDigits(s[..n]) && AllDigits(s[n + 1..])
    then Some(Range(Value(s[..n]), Value(s[n + 1..])))
    else None
  }

  function ReadRanges(s: string): Option<PrintedHunk> {
    var n := Find(s, ' ');
    if n < |s| then
      if s[0] != '-' || n + 1 == |s| || s[n + 1] != '+' then None
      else
        var left, right := ReadRange(s[1..n]), ReadRange(s[n + 2..]);
        if left.None? || right.None? then None else Some(PrintedHunk(left, right, []))
    else if s == "" then None
    else
      var range := ReadRange(s[1..]);
      if range.None? then None
      else if s[0] == '-' then Some(PrintedHunk(range, None, []))
      else if s[0] == '+' then Some(PrintedHunk(None, range, []))
      else None
  }

  /** A hunk that has only its header yet. */
  function ReadHeader(line: string): Option<PrintedHunk> {
    if 6 <= |line| && line[..3] == "@@ " && line[|line| - 3..] == " @@"
    then ReadRanges(line[3..|line| - 3])
    else None
  }

  /** A line that starts with '@' opens a hunk; any other belongs to the last one. */
  function ReadLine(hunks: seq<PrintedHunk>, line: string): Option<seq<PrintedHunk>> {
    if line == "" then None
    else if line[0] == '@' then
      match ReadHeader(line)
      case None => None
      case Some(h) => Some(hunks + [h])
    else if hunks == [] || line[0] !in {' ', '-', '+'} then None
    else
      var last := hunks[|hunks| - 1];
      Some(hunks[..|hunks| - 1] + [last.(body := last.body + [Line(line[0], line[1..])])])
  }

  /** Reads on, line by line, after some hunks. */
  function ReadText(hunks: seq<PrintedHunk>, text: string): Option<seq<PrintedHunk>>
    decreases |text|
  {
    if text == "" then Some(hunks)
    else
      var n := Find(text, '\n');
      if n == |text| then None
      else
        match ReadLine(hunks, text[..n])
        case None => None
        case Some(more) => ReadText(more, text[n + 1..])
  }

  function ReadDiff(text: string): Option<seq<PrintedHunk>> { ReadText([], text) }

  // ---------- what is written is read back ----------

  lemma {:induction false} FindIs(s: string, ch: char, n: nat)
    requires n < |s| && s[n] == ch && forall k | 0 <= k < n :: s[k] != ch
    ensures Find(s, ch) == n
  {
    if n > 0 {
      FindIs(s[1..], ch, n - 1);
    }
  }

  lemma FindFirst(before: string, ch: char, after: string)
    requires ch !in before
    ensures Find(before + [ch] + after, ch) == |before|
  {
    FindIs(before + [ch] + after, ch, |before|);
  }

  lemma NotInDigits(s: string, ch: char)
    requires AllDigits(s) && !IsDigit(ch)
    ensures ch !in s
  {
  }

  lemma RangeIsReadBack(r: Range)
    ensures ReadRange(RangeText(r)) == Some(r)
  {
    var first, count := Digits(r.first), Digits(r.count);
    NotInDigits(first, ',');
    FindFirst(first, ',', count);
    IsReadBack(r.first);
    IsReadBack(r.count);
    var s := RangeText(r);
    assert s == first + [','] + count;
    assert s[..|first|] == first && s[|first| + 1..] == count;
  }

  lemma RangeHasNone(r: Range, ch: char)
    requires !IsDigit(ch) && ch != ','
    ensures ch !in RangeText(r)
  {
    NotInDigits(Digits(r.first), ch);
    NotInDigits(Digits(r.count), ch);
  }

  lemma BothAreSplit(left: string, right: string)
    requires ' ' !in left
    ensures var s, n := BothText(left, right), Find(BothText(left, right), ' ');
            && n == |left| + 1 && |s| == |left| + |right| + 3
            && s[0] == '-' && s[n + 1] == '+' && s[1..n] == left && s[n + 2..] == right
  {
    FindFirst(['-'] + left, ' ', ['+'] + right);
    hide Find;
  }

  lemma BothAreRead(s: string, n: nat, left: Range, right: Range)
    requires n == Find(s, ' ') && 0 < n && n + 1 < |s| && s[0] == '-' && s[n + 1] == '+'
    requires ReadRange(s[1..n]) == Some(left) && ReadRange(s[n + 2..]) == Some(right)
    ensures ReadRanges(s) == Some(PrintedHunk(Some(left), Some(right), []))
  {
    hide Find, ReadRange;
  }

  lemma BothAreReadBack(left: Range, right: Range)
    ensures ReadRanges(RangesText(Some(left), Some(right))) == Some(PrintedHunk(Some(left), Some(right), []))
  {
    RangeHasNone(left, ' ');
    hide ReadRanges, ReadRange, RangeText, Find, BothText;
    var l, r := RangeText(left), RangeText(right);
    BothAreSplit(l, r);
    RangeIsReadBack(left);
    RangeIsReadBack(right);
    BothAreRead(BothText(l, r), |l| + 1, left, right);
  }

  lemma OneIsReadBack(sign: char, range: Range)
    requires sign in {'-', '+'}
    ensures ReadRanges([sign] + RangeText(range))
            == Some(if sign == '-' then PrintedHunk(Some(range), None, []) else PrintedHunk(None, Some(range), []))
  {
    RangeIsReadBack(range);
    RangeHasNone(range, ' ');
    hide RangeText, ReadRange, Find;
    var s := [sign] + RangeText(range);
    assert s[1..] == RangeText(range) && Find(s, ' ') == |s|;
  }

  lemma RangesAreReadBack(left: Option<Range>, right: Option<Range>)
    requires left.Some? || right.Some?
    ensures ReadRanges(RangesText(left, right)) == Some(PrintedHunk(left, right, []))
  {
    hide ReadRanges, RangeText, BothText;
    match (left, right)
    case (Some(l), Some(r)) => BothAreReadBack(l, r);
    case (Some(l), None) => OneIsReadBack('-', l);
    case (None, Some(r)) => OneIsReadBack('+', r);
  }

  lemma HeaderIsReadBack(left: Option<Range>, right: Option<Range>)
    requires left.Some? || right.Some?
    ensures ReadHeader(Header(left, right)) == Some(PrintedHunk(left, right, []))
  {
    RangesAreReadBack(left, right);
    hide RangesText, ReadRanges;
    var ranges := RangesText(left, right);
    var s := Header(left, right);
    assert s == "@@ " + ranges + " @@" && |s| == |ranges| + 6;
    assert s[..3] == "@@ " && s[3..|s| - 3] == ranges && s[|s| - 3..] == " @@";
  }

  lemma HeaderHasNone(left: Option<Range>, right: Option<Range>, ch: char)
    requires !IsDigit(ch) && ch !in "@ ,-+"
    ensures ch !in Header(left, right)
  {
    if left.Some? {
      RangeHasNone(left.value, ch);
    }
    if right.Some? {
      RangeHasNone(right.value, ch);
    }
    hide RangeText;
  }

  lemma ReadsOneLine(hunks: seq<PrintedHunk>, line: string, rest: string)
    requires '\n' !in line
    ensures ReadText(hunks, line + "\n" + rest)
            == match ReadLine(hunks, line)
               case None => None
               case Some(more) => ReadText(more, rest)
  {
    FindFirst(line, '\n', rest);
    hide ReadLine, Find;
    var text := line + "\n" + rest;
    assert text[..|line|] == line && text[|line| + 1..] == rest;
  }

  lemma OpensHunk(hunks: seq<PrintedHunk>, left: Option<Range>, right: Option<Range>)
    requires left.Some? || right.Some?
    ensures ReadLine(hunks, Header(left, right)) == Some(hunks + [PrintedHunk(left, right, [])])
  {
    HeaderIsReadBack(left, right);
    hide ReadHeader, RangesText;
    assert Header(left, right)[0] == '@';
  }

  lemma ReadsHeader(hunks: seq<PrintedHunk>, left: Option<Range>, right: Option<Range>, rest: string)
    requires left.Some? || right.Some?
    ensures ReadText(hunks, Header(left, right) + "\n" + rest) == ReadText(hunks + [PrintedHunk(left, right, [])], rest)
  {
    HeaderHasNone(left, right, '\n');
    hide *;
    OpensHunk(hunks, left, right);
    ReadsOneLine(hunks, Header(left, right), rest);
  }

  /** The stream shows all of the line, and it stays one line. */
  predicate Printable(s: string) { NUL !in s && '\n' !in s }

  ghost predicate PrintableHunk(h: PrintedHunk) {
    forall i | 0 <= i < |h.body| :: Printable(h.body[i].text)
  }

  ghost predicate PrintableHunks(hunks: seq<PrintedHunk>) {
    forall i | 0 <= i < |hunks| :: PrintableHunk(hunks[i])
  }

  function Extended(h: PrintedHunk, lines: seq<Line>): PrintedHunk { h.(body := h.body + lines) }

  lemma ReadsBodyLine(hunks: seq<PrintedHunk>, h: PrintedHunk, line: Line, rest: string)
    requires line.tag in {' ', '-', '+'} && Printable(line.text)
    ensures ReadText(hunks + [h], LineText(line) + rest) == ReadText(hunks + [Extended(h, [line])], rest)
  {
    assert Cut(line.text) == line.text;
    var s := [line.tag] + line.text;
    assert LineText(line) + rest == s + "\n" + rest;
    hide ReadText;
    ReadsOneLine(hunks + [h], s, rest);
    assert s[0] == line.tag && s[1..] == line.text;
    assert (hunks + [h])[..|hunks|] == hunks;
  }

  lemma {:induction false} ReadsBody(hunks: seq<PrintedHunk>, h: PrintedHunk, lines: seq<Line>, rest: string)
    requires KnownTags(lines) && forall i | 0 <= i < |lines| :: Printable(lines[i].text)
    ensures ReadText(hunks + [h], BodyText(lines) + rest) == ReadText(hunks + [Extended(h, lines)], rest)
    decreases |lines|
  {
    hide ReadText, LineText;
    if lines == [] {
      assert Extended(h, lines) == h;
      assert BodyText(lines) + rest == rest;
    } else {
      var h' := Extended(h, [lines[0]]);
      assert BodyText(lines) + rest == LineText(lines[0]) + (BodyText(lines[1..]) + rest);
      ReadsBodyLine(hunks, h, lines[0], BodyText(lines[1..]) + rest);
      ReadsBody(hunks, h', lines[1..], rest);
      assert h.body + [lines[0]] + lines[1..] == h.body + lines by {
        assert [lines[0]] + lines[1..] == lines;
      }
    }
  }

  /** The header shows a range; the body has only the three kinds of lines. */
  ghost predicate Readable(h: PrintedHunk) { (h.left.Some? || h.right.Some?) && KnownTags(h.body) }

  lemma ReadsHunk(hunks: seq<PrintedHunk>, h: PrintedHunk, rest: string)
    requires Readable(h) && PrintableHunk(h)
    ensures ReadText(hunks, HunkText(h) + rest) == ReadText(hunks + [h], rest)
  {
    hide ReadText, Header, BodyText;
    var bare := PrintedHunk(h.left, h.right, []);
    assert HunkText(h) + rest == Header(h.left, h.right) + "\n" + (BodyText(h.body) + rest);
    ReadsHeader(hunks, h.left, h.right, BodyText(h.body) + rest);
    ReadsBody(hunks, bare, h.body, rest);
    assert Extended(bare, h.body) == h;
  }

  lemma {:induction false} ReadsHunks(hunks: seq<PrintedHunk>, rest: string)
    requires PrintableHunks(hunks) && forall i | 0 <= i < |hunks| :: Readable(hunks[i])
    ensures ReadText([], DiffText(hunks) + rest) == ReadText(hunks, rest)
    decreases |hunks|
  {
    hide ReadText, HunkText, PrintableHunk, Readable;
    if hunks == [] {
      assert DiffText(hunks) + rest == rest;
    } else {
      var front, last := hunks[..|hunks| - 1], hunks[|hunks| - 1];
      assert DiffText(hunks) + rest == DiffText(front) + (HunkText(last) + rest);
      ReadsHunks(front, HunkText(last) + rest);
      ReadsHunk(front, last, rest);
      assert front + [last] == hunks;
    }
  }

  // ---------- what can be read at all ----------

  /** Reading on keeps the hunks before and their headers. */
  lemma {:induction false} HeadersStay(hunks: seq<PrintedHunk>, text: string, i: nat)
    requires ReadText(hunks, text).Some? && i < |hunks|
    ensures var all := ReadText(hunks, text).value;
            i < |all| && all[i].left == hunks[i].left && all[i].right == hunks[i].right
    decreases |text|
  {
    hide ReadHeader, Find;
    if text != "" {
      var n := Find(text, '\n');
      HeadersStay(ReadLine(hunks, text[..n]).value, text[n + 1..], i);
    }
  }

  lemma HeaderHasNoBody(line: string)
    requires ReadHeader(line).Some?
    ensures ReadHeader(line).value.body == []
  {
  }

  lemma LineIsPrintable(hunks: seq<PrintedHunk>, line: string)
    requires PrintableHunks(hunks) && Printable(line) && ReadLine(hunks, line).Some?
    ensures PrintableHunks(ReadLine(hunks, line).value)
  {
    if line[0] == '@' {
      HeaderHasNoBody(line);
    }
    hide ReadHeader;
  }

  /** Lines that are read hold no NUL if the text holds none, and never a newline. */
  lemma {:induction false} ReadIsPrintable(hunks: seq<PrintedHunk>, text: string)
    requires PrintableHunks(hunks) && NUL !in text && ReadText(hunks, text).Some?
    ensures PrintableHunks(ReadText(hunks, text).value)
    decreases |text|
  {
    hide PrintableHunks, ReadLine, Find;
    if text != "" {
      var n := Find(text, '\n');
      LineIsPrintable(hunks, text[..n]);
      ReadIsPrintable(ReadLine(hunks, text[..n]).value, text[n + 1..]);
    }
  }

  lemma {:induction false} BodyHasNoNul(lines: seq<Line>)
    requires KnownTags(lines)
    ensures NUL !in BodyText(lines)
  {
    if lines != [] {
      BodyHasNoNul(lines[1..]);
    }
  }

  lemma {:induction false} TextHasNoNul(hunks: seq<PrintedHunk>)
    requires forall i | 0 <= i < |hunks| :: Readable(hunks[i])
    ensures NUL !in DiffText(hunks)
  {
    if hunks != [] {
      var last := hunks[|hunks| - 1];
      TextHasNoNul(hunks[..|hunks| - 1]);
      BodyHasNoNul(last.body);
      HeaderHasNone(last.left, last.right, NUL);
      hide BodyText, Header;
    }
  }

  /** A diff reads back as the hunks that were printed if and only if none of their
      lines holds a NUL or a newline. */
  lemma ReadsBackIffPrintable(hunks: seq<PrintedHunk>)
    requires forall i | 0 <= i < |hunks| :: Readable(hunks[i])
    ensures ReadDiff(DiffText(hunks)) == Some(hunks) <==> PrintableHunks(hunks)
  {
    if PrintableHunks(hunks) {
      ReadsHunks(hunks, "");
      assert DiffText(hunks) + "" == DiffText(hunks);
    } else if ReadDiff(DiffText(hunks)) == Some(hunks) {
      TextHasNoNul(hunks);
      ReadIsPrintable([], DiffText(hunks));
      assert false;
    }
  }

  /** However a line breaks the text, the hunks before it are read back, and so is
      the header of its own hunk. */
  lemma FirstHeadersAreRead(hunks: seq<PrintedHunk>, i: nat)
    requires forall k | 0 <= k < |hunks| :: Readable(hunks[k])
    requires i < |hunks| && PrintableHunks(hunks[..i]) && ReadDiff(DiffText(hunks)).Some?
    ensures var read := ReadDiff(DiffText(hunks)).value;
            i < |read| && read[i].left == hunks[i].left && read[i].right == hunks[i].right
  {
    var h, front := hunks[i], hunks[..i];
    var rest := TextAfter(hunks, i);
    hide ReadText, PrintableHunks, Header, DiffText;
    ReadsHunks(front, Header(h.left, h.right) + "\n" + rest);
    ReadsHeader(front, h.left, h.right, rest);
    HeadersStay(front + [PrintedHunk(h.left, h.right, [])], rest, i);
  }

  /** What follows the header of hunk `i`. */
  lemma {:induction false} TextAfter(hunks: seq<PrintedHunk>, i: nat) returns (rest: string)
    requires i < |hunks|
    ensures DiffText(hunks) == DiffText(hunks[..i]) + (Header(hunks[i].left, hunks[i].right) + "\n" + rest)
    decreases |hunks|
  {
    hide Header, BodyText;
    var n := |hunks| - 1;
    if i == n {
      rest := BodyText(hunks[i].body);
    } else {
      var before := TextAfter(hunks[..n], i);
      assert hunks[..n][..i] == hunks[..i];
      rest := before + HunkText(hunks[n]);
    }
  }
}
