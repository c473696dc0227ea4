/** Hunks of a unified diff: what one says about the two files, and how it is built
    line by line and printed. */
module Hunks {
  import opened Decimals
  import opened DiffTexts
  import opened Options

  function TextsWithout(lines: seq<Line>, dropped: char): seq<string> {
    if lines == [] then []
    else
      var n := |lines| - 1;
      TextsWithout(lines[..n], dropped) + if lines[n].tag == dropped then [] else [lines[n].text]
  }

  /** The lines of the left (right) file that a hunk body shows. */
  function OldSide(lines: seq<Line>): seq<string> { TextsWithout(lines, '+') }

  function NewSide(lines: seq<Line>): seq<string> { TextsWithout(lines, '-') }

  function Count(lines: seq<Line>, tag: char): nat {
    if lines == [] then 0
    else Count(lines[..|lines| - 1], tag) + if lines[|lines| - 1].tag == tag then 1 else 0
  }

  ghost predicate Tagged(lines: seq<Line>, tag: char) {
    forall i | 0 <= i < |lines| :: lines[i].tag == tag
  }

  lemma {:induction false} TextsConcat(a: seq<Line>, b: seq<Line>, dropped: char)
    ensures TextsWithout(a + b, dropped) == TextsWithout(a, dropped) + TextsWithout(b, dropped)
    decreases |b|
  {
    if b == [] {
      assert a + b == a;
    } else {
      var n := |b| - 1;
      assert (a + b)[..|a + b| - 1] == a + b[..n];
      TextsConcat(a, b[..n], dropped);
    }
  }

  lemma {:induction false} TextsOfDropped(lines: seq<Line>, dropped: char)
    requires Tagged(lines, dropped)
    ensures TextsWithout(lines, dropped) == []
  {
    if lines != [] {
      TextsOfDropped(lines[..|lines| - 1], dropped);
    }
  }

  lemma {:induction false} CountConcat(a: seq<Line>, b: seq<Line>, tag: char)
    ensures Count(a + b, tag) == Count(a, tag) + Count(b, tag)
    decreases |b|
  {
    if b == [] {
      assert a + b == a;
    } else {
      var n := |b| - 1;
      assert (a + b)[..|a + b| - 1] == a + b[..n];
      CountConcat(a, b[..n], tag);
    }
  }

  lemma {:induction false} CountIsLength(lines: seq<Line>, tag: char, other: char)
    requires Tagged(lines, tag) && other != tag
    ensures Count(lines, tag) == |lines| && Count(lines, other) == 0
  {
    if lines != [] {
      CountIsLength(lines[..|lines| - 1], tag, other);
    }
  }

  lemma {:induction false} TagIsCounted(lines: seq<Line>, i: nat)
    requires i < |lines|
    ensures Count(lines, lines[i].tag) > 0
  {
    if i < |lines| - 1 {
      TagIsCounted(lines[..|lines| - 1], i);
    }
  }

  /** The header counts are the numbers of lines shown of each file. */
  lemma {:induction false} CountsAreSizes(lines: seq<Line>)
    requires KnownTags(lines)
    ensures |OldSide(lines)| == Count(lines, ' ') + Count(lines, '-')
    ensures |NewSide(lines)| == Count(lines, ' ') + Count(lines, '+')
  {
    if lines != [] {
      CountsAreSizes(lines[..|lines| - 1]);
    }
  }

  /** Moving pending removes before pending adds changes neither side. */
  lemma PushedSides(flushed: seq<Line>, removes: seq<Line>, adds: seq<Line>, line: Line)
    requires Tagged(removes, '-') && Tagged(adds, '+')
    ensures line.tag == '-' ==>
              && OldSide(flushed + (removes + [line]) + adds) == OldSide(flushed + removes + adds) + [line.text]
              && NewSide(flushed + (removes + [line]) + adds) == NewSide(flushed + removes + adds)
    ensures line.tag == '+' ==>
              && OldSide(flushed + removes + (adds + [line])) == OldSide(flushed + removes + adds)
              && NewSide(flushed + removes + (adds + [line])) == NewSide(flushed + removes + adds) + [line.text]
    ensures line.tag == ' ' ==>
              && OldSide(flushed + removes + adds + [line]) == OldSide(flushed + removes + adds) + [line.text]
              && NewSide(flushed + removes + adds + [line]) == NewSide(flushed + removes + adds) + [line.text]
  {
    if line.tag == '-' {
      SidesOfParts(flushed, removes, adds);
      SidesOfParts(flushed, removes + [line], adds);
      TextsConcat(removes, [line], '+');
    } else if line.tag == '+' {
      SidesOfParts(flushed, removes, adds);
      SidesOfParts(flushed, removes, adds + [line]);
      TextsConcat(adds, [line], '-');
    } else {
      TextsConcat(flushed + removes + adds, [line], '+');
      TextsConcat(flushed + removes + adds, [line], '-');
    }
  }

  lemma SidesOfParts(flushed: seq<Line>, removes: seq<Line>, adds: seq<Line>)
    requires Tagged(removes, '-') && Tagged(adds, '+')
    ensures OldSide(flushed + removes + adds) == OldSide(flushed) + OldSide(removes)
    ensures NewSide(flushed + removes + adds) == NewSide(flushed) + NewSide(adds)
  {
    TextsConcat(flushed + removes, adds, '+');
    TextsConcat(flushed, removes, '+');
    TextsOfDropped(adds, '+');
    TextsConcat(flushed + removes, adds, '-');
    TextsConcat(flushed, removes, '-');
    TextsOfDropped(removes, '-');
  }

  function Without(lines: seq<Line>, dropped: char): seq<Line> {
    if lines == [] then []
    else
      var n := |lines| - 1;
      Without(lines[..n], dropped) + if lines[n].tag == dropped then [] else [lines[n]]
  }

  lemma {:induction false} WithoutConcat(a: seq<Line>, b: seq<Line>, dropped: char)
    ensures Without(a + b, dropped) == Without(a, dropped) + Without(b, dropped)
    decreases |b|
  {
    if b == [] {
      assert a + b == a;
    } else {
      var n := |b| - 1;
      assert (a + b)[..|a + b| - 1] == a + b[..n];
      WithoutConcat(a, b[..n], dropped);
    }
  }

  lemma {:induction false} WithoutDropped(lines: seq<Line>, dropped: char)
    requires Tagged(lines, dropped)
    ensures Without(lines, dropped) == []
  {
    if lines != [] {
      WithoutDropped(lines[..|lines| - 1], dropped);
    }
  }

  /** The body shows the same lines, and reading only one of the files, in the same
      order; an added and a removed line may have changed places. */
  ghost predicate Rearranges(body: seq<Line>, pushed: seq<Line>) {
    Without(body, '+') == Without(pushed, '+') && Without(body, '-') == Without(pushed, '-')
  }

  lemma OneWithout(line: Line, dropped: char)
    ensures Without([line], dropped) == if line.tag == dropped then [] else [line]
  {
    assert [line][..0] == [];
  }

  lemma PartsWithout(flushed: seq<Line>, removes: seq<Line>, adds: seq<Line>)
    requires Tagged(removes, '-') && Tagged(adds, '+')
    ensures Without(flushed + removes + adds, '+') == Without(flushed, '+') + Without(removes, '+')
    ensures Without(flushed + removes + adds, '-') == Without(flushed, '-') + Without(adds, '-')
  {
    hide Without;
    WithoutConcat(flushed + removes, adds, '+');
    WithoutConcat(flushed, removes, '+');
    WithoutDropped(adds, '+');
    WithoutConcat(flushed + removes, adds, '-');
    WithoutConcat(flushed, removes, '-');
    WithoutDropped(removes, '-');
  }

  /** Keeping removes and adds apart until the next common line rearranges. */
  lemma PushRearranges(flushed: seq<Line>, removes: seq<Line>, adds: seq<Line>, pushed: seq<Line>, line: Line)
    requires Tagged(removes, '-') && Tagged(adds, '+') && Rearranges(flushed + removes + adds, pushed)
    ensures line.tag == '-' ==> Rearranges(flushed + (removes + [line]) + adds, pushed + [line])
    ensures line.tag == '+' ==> Rearranges(flushed + removes + (adds + [line]), pushed + [line])
    ensures line.tag == ' ' ==> Rearranges(flushed + removes + adds + [line], pushed + [line])
  {
    OneWithout(line, '+');
    OneWithout(line, '-');
    hide Without;
    PartsWithout(flushed, removes, adds);
    WithoutConcat(pushed, [line], '+');
    WithoutConcat(pushed, [line], '-');
    if line.tag == '-' {
      PartsWithout(flushed, removes + [line], adds);
      WithoutConcat(removes, [line], '+');
    } else if line.tag == '+' {
      PartsWithout(flushed, removes, adds + [line]);
      WithoutConcat(adds, [line], '-');
    } else {
      WithoutConcat(flushed + removes + adds, [line], '+');
      WithoutConcat(flushed + removes + adds, [line], '-');
    }
  }

  /** A file has no range exactly if it has no lines of its own in the body. */
  ghost predicate Headed(h: PrintedHunk) {
    && KnownTags(h.body)
    && (h.left.None? <==> Count(h.body, '-') == 0)
    && (h.right.None? <==> Count(h.body, '+') == 0)
  }

  /** In each run of changes the removes come before the adds. */
  ghost predicate Grouped(lines: seq<Line>) {
    forall i | 0 < i < |lines| && lines[i].tag == '-' :: lines[i - 1].tag != '+'
  }

  lemma GroupedParts(flushed: seq<Line>, removes: seq<Line>, adds: seq<Line>)
    requires Grouped(flushed) && Tagged(removes, '-') && Tagged(adds, '+')
    requires flushed == [] || flushed[|flushed| - 1].tag != '+' || removes == []
    ensures Grouped(flushed + removes + adds)
  {
  }

  /** The hunk under construction. */
  class Hunk {
    const leftStart: nat
    const rightStart: nat
    var adds: nat
    var removes: nat
    var common: nat
    var hunk: seq<Line>
    var hunkAdds: seq<Line>
    var hunkRemoves: seq<Line>

    /** Everything pushed so far, in the order it was pushed. */
    ghost var pushed: seq<Line>

    /** The same in the order it will be printed. */
    ghost function Lines(): seq<Line>
      reads this
    {
      hunk + hunkRemoves + hunkAdds
    }

    ghost predicate Valid()
      reads this
    {
      && Tagged(hunkRemoves, '-') && Tagged(hunkAdds, '+') && KnownTags(hunk)
      && adds == Count(hunk, '+') + |hunkAdds|
      && removes == Count(hunk, '-') + |hunkRemoves|
      && common == Count(hunk, ' ')
      && Rearranges(Lines(), pushed)
    }

    /** What is flushed is in groups and ends with a common line, so removes may follow. */
    ghost predicate InGroups()
      reads this
    {
      Grouped(hunk) && (hunk == [] || hunk[|hunk| - 1].tag == ' ')
    }

    constructor (leftStart: nat, rightStart: nat)
      ensures Valid() && Lines() == [] && InGroups()
      ensures this.leftStart == leftStart && this.rightStart == rightStart
      ensures hunk == [] && hunkAdds == [] && hunkRemoves == [] && pushed == [] && !HasEdits()
    {
      this.leftStart := leftStart;
      this.rightStart := rightStart;
      adds, removes, common := 0, 0, 0;
      hunk, hunkAdds, hunkRemoves, pushed := [], [], [], [];
    }

    method FlushEdits()
      requires Valid()
      modifies this
      ensures Valid() && hunkRemoves == [] && hunkAdds == []
      ensures hunk == old(Lines()) && Lines() == old(Lines()) && pushed == old(pushed)
      ensures adds == old(adds) && removes == old(removes) && common == old(common)
    {
      EditsAreShown();
      hunk := hunk + hunkRemoves;
      hunk := hunk + hunkAdds;
      hunkRemoves, hunkAdds := [], [];
      assert Lines() == hunk;
    }

    /** Extends the sides that the edit character names; any other is ignored. */
    method PushLine(edit: char, line: string)
      requires Valid()
      modifies this
      ensures Valid()
      ensures OldSide(Lines()) == old(OldSide(Lines())) + if edit in {' ', '-'} then [line] else []
      ensures NewSide(Lines()) == old(NewSide(Lines())) + if edit in {' ', '+'} then [line] else []
      ensures pushed == old(pushed) + if edit in {' ', '-', '+'} then [Line(edit, line)] else []
      ensures old(InGroups()) ==> InGroups()
      ensures adds == old(adds) + (if edit == '+' then 1 else 0)
      ensures removes == old(removes) + (if edit == '-' then 1 else 0)
      ensures edit == ' ' ==> hunk == old(Lines()) + [Line(' ', line)] && hunkRemoves == [] && hunkAdds == []
      ensures edit == '-' ==> hunk == old(hunk) && hunkRemoves == old(hunkRemoves) + [Line('-', line)]
                              && hunkAdds == old(hunkAdds)
      ensures edit == '+' ==> hunk == old(hunk) && hunkRemoves == old(hunkRemoves)
                              && hunkAdds == old(hunkAdds) + [Line('+', line)]
    {
      hide OldSide, NewSide, TextsWithout, Grouped, Rearranges;
      PushedSides(hunk, hunkRemoves, hunkAdds, Line(edit, line));
      PushRearranges(hunk, hunkRemoves, hunkAdds, pushed, Line(edit, line));
      if InGroups() {
        LinesAreGrouped();
      }
      match edit {
        case ' ' =>
          FlushEdits();
          CountConcat(hunk, [Line(' ', line)], '+');
          CountConcat(hunk, [Line(' ', line)], '-');
          CountConcat(hunk, [Line(' ', line)], ' ');
          common := common + 1;
          hunk := hunk + [Line(' ', line)];
          assert Lines() == hunk;
        case '-' =>
          removes := removes + 1;
          hunkRemoves := hunkRemoves + [Line('-', line)];
        case '+' =>
          adds := adds + 1;
          hunkAdds := hunkAdds + [Line('+', line)];
        case _ =>
      }
      if edit in {' ', '-', '+'} {
        pushed := pushed + [Line(edit, line)];
      }
    }

    lemma LinesAreGrouped()
      requires Valid() && InGroups()
      ensures Grouped(Lines())
      ensures forall line: Line | line.tag == ' ' :: Grouped(Lines() + [line])
    {
      GroupedParts(hunk, hunkRemoves, hunkAdds);
    }

    predicate HasEdits()
      reads this
    {
      adds != 0 || removes != 0
    }

    lemma EditsAreShown()
      requires Valid()
      ensures KnownTags(Lines())
      ensures adds == Count(Lines(), '+') && removes == Count(Lines(), '-') && common == Count(Lines(), ' ')
    {
      CountConcat(hunk + hunkRemoves, hunkAdds, '+');
      CountConcat(hunk + hunkRemoves, hunkAdds, '-');
      CountConcat(hunk + hunkRemoves, hunkAdds, ' ');
      CountConcat(hunk, hunkRemoves, '+');
      CountConcat(hunk, hunkRemoves, '-');
      CountConcat(hunk, hunkRemoves, ' ');
      CountIsLength(hunkAdds, '+', '-');
      CountIsLength(hunkAdds, '+', ' ');
      CountIsLength(hunkRemoves, '-', '+');
      CountIsLength(hunkRemoves, '-', ' ');
    }

    /** The hunk as it would be printed. The range of a file is there only if lines
        of it are removed or added. */
    ghost function Printed(): PrintedHunk
      reads this
    {
      PrintedHunk(if removes == 0 then None else Some(Range(leftStart, removes + common)),
                  if adds == 0 then None else Some(Range(rightStart, adds + common)),
                  Lines())
    }

    /** A range counts the lines shown of its file. */
    lemma RangesCountLines()
      requires Valid()
      ensures Headed(Printed())
      ensures removes != 0 ==> removes + common == |OldSide(Lines())|
      ensures adds != 0 ==> adds + common == |NewSide(Lines())|
    {
      EditsAreShown();
      CountsAreSizes(Lines());
    }

    method PrintHeader() returns (ss: string)
      requires Valid()
      ensures ss == Header(Printed().left, Printed().right) + "\n"
    {
      hide Header, Digits;
      ss := "@@ ";
      if removes != 0 {
        ss := ss + "-" + Digits(leftStart) + "," + Digits(removes + common);
      }
      HeaderPieces(Printed().left, Printed().right, ss);
      if removes != 0 && adds != 0 {
        ss := ss + " ";
      }
      if adds != 0 {
        ss := ss + "+" + Digits(rightStart) + "," + Digits(adds + common);
      }
      ss := ss + " @@\n";
    }

    /** Writes the header, then the removes before the adds, and each line up to its
        first NUL. */
    method PrintTo() returns (os: string)
      requires Valid()
      modifies this
      ensures Valid() && Lines() == old(Lines())
      ensures os == HunkText(old(Printed()))
    {
      hide Header, Cut, Rearranges, Count;
      os := PrintHeader();
      FlushEdits();
      ghost var header := os;
      var it := 0;
      while it < |hunk|
        modifies {}
        invariant 0 <= it <= |hunk|
        invariant os + BodyText(hunk[it..]) == header + BodyText(hunk)
      {
        BodyUnfolds(hunk, it);
        os := os + [hunk[it].tag] + Cut(hunk[it].text) + "\n";
        it := it + 1;
      }
      assert hunk[it..] == [];
    }
  }
}
