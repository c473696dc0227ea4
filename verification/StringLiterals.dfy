/** Printing characters as C++ string literals, and reading such literals back. */
module StringLiterals {
  import opened Hexadecimal
  import opened Options

  /** Characters are char or wchar_t values, seen as unsigned. */
  function Limit(wide: bool): nat { if wide then 0x1_0000_0000 else 0x100 }

  function QuoteBegin(wide: bool): string { if wide then "L\"" else "\"" }

  // ---------- the reader: sections lex.ccon and lex.string of the C++ standard ----------

  predicate IsOctalDigit(ch: char) { '0' <= ch <= '7' }

  /** How many hexadecimal digits come first. */
  ghost function HexRun(t: string): (n: nat)
    ensures n <= |t| && forall k | 0 <= k < n :: IsHexDigit(t[k])
    ensures n < |t| ==> !IsHexDigit(t[n])
  {
    if t == "" || !IsHexDigit(t[0]) then 0 else 1 + HexRun(t[1..])
  }

  /** How many octal digits come first, but no more than `most`. */
  ghost function OctalRun(t: string, most: nat): (n: nat)
    ensures n <= |t| && n <= most && forall k | 0 <= k < n :: IsOctalDigit(t[k])
  {
    if t == "" || most == 0 || !IsOctalDigit(t[0]) then 0 else 1 + OctalRun(t[1..], most - 1)
  }

  ghost function OctalValue(t: string): nat
    requires forall k | 0 <= k < |t| :: IsOctalDigit(t[k])
  {
    if t == "" then 0
    else assert IsOctalDigit(t[|t| - 1]); OctalValue(t[..|t| - 1]) * 8 + (t[|t| - 1] as int - '0' as int)
  }

  ghost function SimpleEscape(ch: char): Option<nat> {
    match ch
    case '\'' => Some(0x27) case '"' => Some(0x22) case '?' => Some(0x3F) case '\\' => Some(0x5C)
    case 'a' => Some(7) case 'b' => Some(8) case 'f' => Some(0xC) case 'n' => Some(0xA)
    case 'r' => Some(0xD) case 't' => Some(9) case 'v' => Some(0xB)
    case _ => None
  }

  /** The escape sequence behind a backslash: its value and its length. */
  ghost function Escape(t: string): (e: Option<(nat, nat)>)
    ensures e.Some? ==> 0 < e.value.1 <= |t|
  {
    if t == "" then None
    else if t[0] == 'x' then
      var n := HexRun(t[1..]);
      if n == 0 then None else Some((HexValue(t[1..][..n]), n + 1))
    else if IsOctalDigit(t[0]) then
      var n := OctalRun(t, 3);
      Some((OctalValue(t[..n]), n))
    else
      match SimpleEscape(t[0])
      case Some(v) => Some((v, 1))
      case None => None
  }

  ghost function Prepend(v: nat, rest: Option<seq<nat>>): Option<seq<nat>> {
    match rest
    case Some(s) => Some([v] + s)
    case None => None
  }

  /** Literals of one kind with blanks between them; adjacent literals are one string. */
  ghost function ReadLiterals(t: string, wide: bool): Option<seq<nat>>
    decreases |t|
  {
    if t == "" then Some([])
    else if t[0] == ' ' then ReadLiterals(t[1..], wide)
    else if QuoteBegin(wide) <= t then ReadInside(t[|QuoteBegin(wide)|..], wide)
    else None
  }

  /** The rest of a literal and of what follows it. */
  ghost function ReadInside(t: string, wide: bool): Option<seq<nat>>
    decreases |t|
  {
    if t == "" || t[0] == '\n' then None
    else if t[0] == '"' then ReadLiterals(t[1..], wide)
    else if t[0] == '\\' then
      match Escape(t[1..])
      case Some(e) => if e.0 < Limit(wide) then Prepend(e.0, ReadInside(t[1 + e.1..], wide)) else None
      case None => None
    else Prepend(t[0] as int, ReadInside(t[1..], wide))
  }

  // ---------- the printer ----------

  datatype CharFormat = AsIs | HexEscape | SpecialEscape

  predicate IsPrintableAscii(c: nat) { 0x20 <= c <= 0x7E }

  predicate IsXDigit(c: nat) { c <= 0x7F && IsHexDigit(c as char) }

  function PrintAsCharLiteralTo(c: nat): (string, CharFormat) {
    match c
    case 0 => ("\\0", SpecialEscape)
    case 0x27 => ("\\'", SpecialEscape)
    case 0x5C => ("\\\\", SpecialEscape)
    case 7 => ("\\a", SpecialEscape)
    case 8 => ("\\b", SpecialEscape)
    case 0xC => ("\\f", SpecialEscape)
    case 0xA => ("\\n", SpecialEscape)
    case 0xD => ("\\r", SpecialEscape)
    case 9 => ("\\t", SpecialEscape)
    case 0xB => ("\\v", SpecialEscape)
    case _ => if IsPrintableAscii(c) then ([c as char], AsIs) else ("\\x" + HexDigits(c), HexEscape)
  }

  function PrintAsStringLiteralTo(c: nat): (string, CharFormat) {
    match c
    case 0x27 => ("'", AsIs)
    case 0x22 => ("\\\"", SpecialEscape)
    case _ => PrintAsCharLiteralTo(c)
  }

  /** What is printed for the characters from here to the closing quote. */
  ghost function Body(s: seq<nat>, isPreviousHex: bool, wide: bool): string {
    if s == [] then "\""
    else
      var p := PrintAsStringLiteralTo(s[0]);
      (if isPreviousHex && IsXDigit(s[0]) then "\" " + QuoteBegin(wide) else "")
      + p.0 + Body(s[1..], p.1 == HexEscape, wide)
  }

  // ---------- reading back what was printed ----------

  predicate IsOctalUnit(c: nat) { 0x30 <= c <= 0x37 }

  ghost function OctalUnits(s: seq<nat>, most: nat): (n: nat)
    ensures n <= |s| && n <= most && forall k | 0 <= k < n :: IsOctalUnit(s[k])
  {
    if s == [] || most == 0 || !IsOctalUnit(s[0]) then 0 else 1 + OctalUnits(s[1..], most - 1)
  }

  ghost function UnitsValue(s: seq<nat>): nat
    requires forall k | 0 <= k < |s| :: IsOctalUnit(s[k])
  {
    if s == [] then 0
    else assert IsOctalUnit(s[|s| - 1]); UnitsValue(s[..|s| - 1]) * 8 + (s[|s| - 1] - 0x30)
  }

  /** The string that the printed text stands for: a zero takes up to two octal digits
      behind it into its own escape sequence. */
  ghost function ReadBack(s: seq<nat>): seq<nat>
    decreases |s|
  {
    if s == [] then []
    else if s[0] == 0 then
      var n := OctalUnits(s[1..], 2);
      [UnitsValue(s[1..][..n])] + ReadBack(s[1..][n..])
    else [s[0]] + ReadBack(s[1..])
  }

  /** No zero stands directly before an octal digit. */
  ghost predicate NoZeroBeforeOctal(s: seq<nat>) {
    forall i | 0 <= i < |s| - 1 && s[i] == 0 :: !IsOctalUnit(s[i + 1])
  }

  lemma {:induction false} WhenReadBackIsSame(s: seq<nat>)
    ensures |ReadBack(s)| <= |s|
    ensures |ReadBack(s)| == |s| ==> NoZeroBeforeOctal(s)
    ensures NoZeroBeforeOctal(s) ==> ReadBack(s) == s
    decreases |s|
  {
    if s != [] {
      var rest := s[1..];
      assert s == [s[0]] + rest;
      assert NoZeroBeforeOctal(s) ==> NoZeroBeforeOctal(rest) by {
        assert forall i | 0 <= i < |rest| :: rest[i] == s[i + 1];
      }
      if s[0] == 0 {
        var n := OctalUnits(rest, 2);
        WhenReadBackIsSame(rest[n..]);
        if n == 0 {
          assert rest[..0] == [] && rest[0..] == rest;
          StillNone(s);
        } else {
          assert IsOctalUnit(s[1]);
        }
      } else {
        WhenReadBackIsSame(rest);
        StillNone(s);
      }
    }
  }

  lemma StillNone(s: seq<nat>)
    requires s != [] && (s[0] == 0 && |s| > 1 ==> !IsOctalUnit(s[1]))
    ensures NoZeroBeforeOctal(s[1..]) ==> NoZeroBeforeOctal(s)
  {
    var rest := s[1..];
    assert forall i | 0 < i < |s| :: s[i] == rest[i - 1];
  }

  /** After a hexadecimal escape the text goes on with no hexadecimal digit. */
  lemma HexStops(s: seq<nat>, wide: bool)
    ensures Body(s, true, wide) != "" && !IsHexDigit(Body(s, true, wide)[0])
  {
    if s != [] && !IsXDigit(s[0]) {
      FirstChar(s[0]);
    }
  }

  lemma FirstChar(c: nat)
    ensures var p := PrintAsStringLiteralTo(c);
            && p.0 != ""
            && (p.1 == AsIs ==> IsPrintableAscii(c) && c != 0x22 && c != 0x5C && p.0 == [c as char])
            && (p.1 != AsIs ==> |p.0| > 1 && p.0[0] == '\\')
            && (IsOctalUnit(c) ==> p.1 == AsIs)
  {
  }

  lemma {:induction false} HexRunStops(digits: string, t: string)
    requires forall k | 0 <= k < |digits| :: IsHexDigit(digits[k])
    requires t != "" && !IsHexDigit(t[0])
    ensures HexRun(digits + t) == |digits|
  {
    if digits == "" {
      assert digits + t == t;
    } else {
      HexRunStops(digits[1..], t);
      assert (digits + t)[1..] == digits[1..] + t;
    }
  }

  lemma ReadEscape(t: string, v: nat, n: nat, wide: bool)
    requires Escape(t) == Some((v, n)) && n <= |t| && v < Limit(wide)
    ensures ReadInside("\\" + t, wide) == Prepend(v, ReadInside(t[n..], wide))
  {
    hide Escape, Limit;
    var all := "\\" + t;
    assert all[1..] == t && all[1 + n..] == t[n..];
  }

  lemma ReadHex(c: nat, t: string, wide: bool)
    requires c < Limit(wide) && t != "" && !IsHexDigit(t[0])
    ensures ReadInside("\\x" + HexDigits(c) + t, wide) == Prepend(c, ReadInside(t, wide))
  {
    hide ReadInside;
    var digits := HexDigits(c);
    var e := "x" + (digits + t);
    assert "\\x" + digits + t == "\\" + e;
    assert e[1..] == digits + t && (digits + t)[..|digits|] == digits && e[|digits| + 1..] == t;
    HexRunStops(digits, t);
    HexIsReadBack(c);
    ReadEscape(e, c, |digits| + 1, wide);
  }

  lemma ReadSimple(e: char, v: nat, t: string, wide: bool)
    requires SimpleEscape(e) == Some(v) && v < Limit(wide)
    ensures ReadInside(['\\', e] + t, wide) == Prepend(v, ReadInside(t, wide))
  {
    hide ReadInside;
    assert ['\\', e] + t == "\\" + ([e] + t) && ([e] + t)[1..] == t;
    ReadEscape([e] + t, v, 1, wide);
  }

  lemma ReadPlain(c: char, t: string, wide: bool)
    requires c != '"' && c != '\\' && c != '\n'
    ensures ReadInside([c] + t, wide) == Prepend(c as int, ReadInside(t, wide))
  {
    assert ([c] + t)[1..] == t;
  }

  /** Closing the literal and opening another changes nothing. */
  lemma ReadBreak(t: string, wide: bool)
    ensures ReadInside("\" " + QuoteBegin(wide) + t, wide) == ReadInside(t, wide)
  {
    var q := QuoteBegin(wide);
    var all := "\" " + q + t;
    assert all[1..] == " " + (q + t) && (" " + (q + t))[1..] == q + t && (q + t)[|q|..] == t;
    ReadOpened(t, wide);
    assert ReadLiterals(" " + (q + t), wide) == ReadLiterals(q + t, wide);
    assert ReadInside(all, wide) == ReadLiterals(all[1..], wide);
  }

  ghost function Digits(units: seq<nat>): (t: string)
    requires forall k | 0 <= k < |units| :: IsOctalUnit(units[k])
    ensures |t| == |units| && forall k | 0 <= k < |t| :: IsOctalDigit(t[k])
  {
    var t := seq(|units|, k requires 0 <= k < |units| => assert IsOctalUnit(units[k]); units[k] as char);
    assert forall k | 0 <= k < |units| :: IsOctalUnit(units[k]) && t[k] == units[k] as char;
    t
  }

  lemma FirstDigit(units: seq<nat>)
    requires units != [] && forall k | 0 <= k < |units| :: IsOctalUnit(units[k])
    ensures Digits(units) == [units[0] as char] + Digits(units[1..])
  {
    assert forall k | 0 <= k < |units| :: IsOctalUnit(units[k]);
  }

  lemma {:induction false} ZeroAndDigits(units: seq<nat>)
    requires forall k | 0 <= k < |units| :: IsOctalUnit(units[k])
    ensures OctalValue("0" + Digits(units)) == UnitsValue(units)
  {
    var t := "0" + Digits(units);
    if units == [] {
      assert t[..0] == "";
    } else {
      var m := |units| - 1;
      ZeroAndDigits(units[..m]);
      assert t[..m + 1] == "0" + Digits(units[..m]);
      assert IsOctalUnit(units[m]);
    }
  }

  lemma BodyStart(s: seq<nat>, wide: bool)
    ensures var t := Body(s, false, wide);
            && t != "" && (IsOctalDigit(t[0]) <==> s != [] && IsOctalUnit(s[0]))
            && (s != [] && IsOctalUnit(s[0]) ==> t == [s[0] as char] + Body(s[1..], false, wide))
  {
    if s != [] {
      FirstChar(s[0]);
    }
  }

  /** The octal digits at the head of the text are those at the head of the string. */
  lemma {:induction false} DigitsAhead(s: seq<nat>, most: nat, wide: bool)
    ensures var n := OctalUnits(s, most);
            && OctalRun(Body(s, false, wide), most) == n
            && Body(s, false, wide) == Digits(s[..n]) + Body(s[n..], false, wide)
    decreases most
  {
    hide Body, Digits, IsOctalDigit, IsOctalUnit;
    BodyStart(s, wide);
    var n := OctalUnits(s, most);
    if n == 0 {
      assert s[0..] == s;
      assert Digits([]) == "";
    } else {
      DigitsAhead(s[1..], most - 1, wide);
      FirstDigit(s[..n]);
      assert s[1..][n - 1..] == s[n..] && s[..n][1..] == s[1..][..n - 1];
    }
  }

  lemma EscapeZero(t: string)
    ensures var n := OctalRun(t, 2);
            Escape("0" + t) == Some((OctalValue("0" + t[..n]), n + 1))
  {
    var n := OctalRun(t, 2);
    assert ("0" + t)[1..] == t;
    assert OctalRun("0" + t, 3) == n + 1;
    assert ("0" + t)[..n + 1] == "0" + t[..n];
  }

  lemma SmallValue(units: seq<nat>)
    requires |units| <= 2 && forall k | 0 <= k < |units| :: IsOctalUnit(units[k])
    ensures UnitsValue(units) < 64
  {
    if |units| == 2 {
      assert units[..1][..0] == [];
    }
  }

  lemma ReadZero(s: seq<nat>, wide: bool)
    ensures var n := OctalUnits(s, 2);
            ReadInside("\\0" + Body(s, false, wide), wide)
            == Prepend(UnitsValue(s[..n]), ReadInside(Body(s[n..], false, wide), wide))
  {
    hide Escape, Body, ReadInside, Prepend, OctalUnits, UnitsValue;
    var n, t := OctalUnits(s, 2), Body(s, false, wide);
    ZeroEscape(s, wide);
    assert "\\0" + t == "\\" + ("0" + t);
    ReadEscape("0" + t, UnitsValue(s[..n]), n + 1, wide);
  }

  lemma ZeroEscape(s: seq<nat>, wide: bool)
    ensures var n, e := OctalUnits(s, 2), "0" + Body(s, false, wide);
            && Escape(e) == Some((UnitsValue(s[..n]), n + 1)) && n + 1 <= |e| && e[n + 1..] == Body(s[n..], false, wide)
            && UnitsValue(s[..n]) < Limit(wide)
  {
    hide Escape, Body;
    var n, t := OctalUnits(s, 2), Body(s, false, wide);
    DigitsAhead(s, 2, wide);
    EscapeZero(t);
    assert t[..n] == Digits(s[..n]) && t[n..] == Body(s[n..], false, wide);
    assert ("0" + t)[n + 1..] == t[n..];
    ZeroAndDigits(s[..n]);
    SmallValue(s[..n]);
  }

  /** What one character prints is read as that character. */
  lemma ReadPiece(c: nat, t: string, wide: bool)
    requires c < Limit(wide) && c != 0 && t != ""
    requires PrintAsStringLiteralTo(c).1 == HexEscape ==> !IsHexDigit(t[0])
    ensures ReadInside(PrintAsStringLiteralTo(c).0 + t, wide) == Prepend(c, ReadInside(t, wide))
  {
    hide ReadInside;
    var p := PrintAsStringLiteralTo(c);
    FirstChar(c);
    if p.1 == AsIs {
      ReadPlain(c as char, t, wide);
    } else if p.1 == HexEscape {
      assert p.0 == "\\x" + HexDigits(c);
      ReadHex(c, t, wide);
    } else {
      assert p.0 == ['\\', p.0[1]] && SimpleEscape(p.0[1]) == Some(c);
      ReadSimple(p.0[1], c, t, wide);
    }
  }

  /** Every printed string is read, as the string that it stands for. */
  lemma {:induction false} ReadBody(s: seq<nat>, isPreviousHex: bool, wide: bool)
    requires forall k | 0 <= k < |s| :: s[k] < Limit(wide)
    ensures ReadInside(Body(s, isPreviousHex, wide), wide) == Some(ReadBack(s))
    decreases |s|, isPreviousHex
  {
    hide PrintAsStringLiteralTo, Limit, ReadInside, QuoteBegin, IsXDigit;
    if s == [] {
      ReadEnd(wide);
    } else if isPreviousHex && IsXDigit(s[0]) {
      ReadBreak(Body(s, false, wide), wide);
      ReadBody(s, false, wide);
      assert Body(s, true, wide) == "\" " + QuoteBegin(wide) + Body(s, false, wide);
    } else {
      var p := PrintAsStringLiteralTo(s[0]);
      var rest := Body(s[1..], p.1 == HexEscape, wide);
      assert Body(s, isPreviousHex, wide) == p.0 + rest;
      if s[0] == 0 {
        var n := OctalUnits(s[1..], 2);
        ZeroPrints();
        ReadZero(s[1..], wide);
        ReadBody(s[1..][n..], false, wide);
      } else {
        HexStops(s[1..], wide);
        BodyStart(s[1..], wide);
        ReadPiece(s[0], rest, wide);
        ReadBody(s[1..], p.1 == HexEscape, wide);
      }
    }
  }

  lemma ReadEnd(wide: bool)
    ensures ReadInside("\"", wide) == Some([])
  {
    assert "\""[1..] == "";
  }

  lemma ZeroPrints()
    ensures PrintAsStringLiteralTo(0) == ("\\0", SpecialEscape)
  {
  }

  /** A space to a tilde, and neither the double quote nor the backslash. */
  predicate IsPlain(c: nat) { 0x20 <= c <= 0x7E && c != 0x22 && c != 0x5C }

  /** A character that is neither in ASCII's printable range nor one of the eight control
      characters with an escape sequence of their own. */
  predicate IsUnnamed(c: nat) { !(0x20 <= c <= 0x7E) && c != 0 && !(7 <= c <= 0xD) }

  ghost predicate AllPlain(s: seq<nat>) { forall k | 0 <= k < |s| :: IsPlain(s[k]) }

  ghost function AsText(s: seq<nat>): (t: string)
    requires AllPlain(s)
    ensures |t| == |s| && forall k | 0 <= k < |s| :: t[k] == s[k] as char
  {
    seq(|s|, k requires 0 <= k < |s| => assert IsPlain(s[k]); s[k] as char)
  }

  lemma UnnamedIsHex(c: nat)
    ensures PrintAsStringLiteralTo(c).1 == HexEscape <==> IsUnnamed(c)
  {
  }

  lemma PlainPiece(c: nat)
    requires IsPlain(c)
    ensures PrintAsStringLiteralTo(c) == ([c as char], AsIs)
  {
  }

  lemma {:induction false} PlainBody(s: seq<nat>, wide: bool)
    requires AllPlain(s)
    ensures Body(s, false, wide) == AsText(s) + "\""
  {
    hide PrintAsStringLiteralTo, QuoteBegin, IsXDigit;
    if s == [] {
      assert AsText(s) == "";
    } else {
      PlainPiece(s[0]);
      PlainBody(s[1..], wide);
      assert AsText(s) == [s[0] as char] + AsText(s[1..]);
    }
  }

  /** A string of plain characters prints as itself between quotes. */
  lemma PlainIsItself(s: seq<nat>, wide: bool)
    requires AllPlain(s)
    ensures QuoteBegin(wide) + Body(s, false, wide) == (if wide then "L\"" else "\"") + AsText(s) + "\""
  {
    hide Body, AllPlain;
    PlainBody(s, wide);
  }

  predicate IsHexUnit(c: nat) { 0x30 <= c <= 0x39 || 0x41 <= c <= 0x46 || 0x61 <= c <= 0x66 }

  /** No hexadecimal escape stands directly before a hexadecimal digit. */
  ghost predicate NoDigitAfterHex(s: seq<nat>) {
    forall k | 0 <= k < |s| - 1 && IsUnnamed(s[k]) :: !IsHexUnit(s[k + 1])
  }

  ghost function Pieces(s: seq<nat>): string {
    if s == [] then "" else PrintAsStringLiteralTo(s[0]).0 + Pieces(s[1..])
  }

  lemma XDigits(c: nat)
    ensures IsXDigit(c) <==> IsHexUnit(c)
  {
  }

  /** Without a digit behind a hexadecimal escape all is printed as one literal. */
  lemma {:induction false} OneLiteral(s: seq<nat>, isPreviousHex: bool, wide: bool)
    requires NoDigitAfterHex(s) && (s != [] && isPreviousHex ==> !IsHexUnit(s[0]))
    ensures Body(s, isPreviousHex, wide) == Pieces(s) + "\""
  {
    hide PrintAsStringLiteralTo, QuoteBegin, IsXDigit, IsHexUnit, IsUnnamed;
    if s != [] {
      var p, rest := PrintAsStringLiteralTo(s[0]), s[1..];
      XDigits(s[0]);
      UnnamedIsHex(s[0]);
      assert forall k | 0 <= k < |rest| :: rest[k] == s[k + 1];
      OneLiteral(rest, p.1 == HexEscape, wide);
      assert Body(s, isPreviousHex, wide) == p.0 + Body(rest, p.1 == HexEscape, wide);
    }
  }

  /** Prints the characters as a string literal, or as several adjacent ones. Reading them
      gives the characters back if and only if no zero stands before an octal digit. */
  method PrintCharsAsStringTo(s: seq<nat>, wide: bool) returns (os: string, printFormat: CharFormat)
    requires forall k | 0 <= k < |s| :: s[k] < Limit(wide)
    ensures ReadLiterals(os, wide) == Some(ReadBack(s))
    ensures ReadLiterals(os, wide) == Some(s) <==> NoZeroBeforeOctal(s)
    ensures NoDigitAfterHex(s) ==> os == QuoteBegin(wide) + Pieces(s) + "\""
    ensures AllPlain(s) ==> os == (if wide then "L\"" else "\"") + AsText(s) + "\""
    ensures printFormat == HexEscape <==> exists k | 0 <= k < |s| :: IsUnnamed(s[k])
    ensures printFormat == HexEscape || printFormat == AsIs
  {
    hide *;
    os := QuoteBegin(wide);
    var isPreviousHex := false;
    printFormat := AsIs;
    var index := 0;
    assert s[0..] == s;
    while index < |s|
      invariant 0 <= index <= |s|
      invariant os + Body(s[index..], isPreviousHex, wide) == QuoteBegin(wide) + Body(s, false, wide)
      invariant printFormat == HexEscape <==>
                  exists k | 0 <= k < index :: IsUnnamed(s[k])
      invariant printFormat == HexEscape || printFormat == AsIs
    {
      BodyNext(s, index, isPreviousHex, wide);
      var cur := s[index];
      if isPreviousHex && IsXDigit(cur) {
        os := os + "\" " + QuoteBegin(wide);
      }
      var p := PrintAsStringLiteralTo(cur);
      UnnamedIsHex(cur);
      os := os + p.0;
      isPreviousHex := p.1 == HexEscape;
      if isPreviousHex {
        printFormat := HexEscape;
      }
      index := index + 1;
    }
    BodyEnd(s, isPreviousHex, wide);
    os := os + "\"";
    ReadBody(s, false, wide);
    ReadOpened(Body(s, false, wide), wide);
    WhenReadBackIsSame(s);
    if NoDigitAfterHex(s) {
      OneLiteral(s, false, wide);
    }
    if AllPlain(s) {
      PlainIsItself(s, wide);
    }
  }

  lemma BodyNext(s: seq<nat>, index: nat, isPreviousHex: bool, wide: bool)
    requires index < |s|
    ensures var p := PrintAsStringLiteralTo(s[index]);
            Body(s[index..], isPreviousHex, wide)
            == (if isPreviousHex && IsXDigit(s[index]) then "\" " + QuoteBegin(wide) else "")
               + p.0 + Body(s[index + 1..], p.1 == HexEscape, wide)
  {
    hide PrintAsStringLiteralTo;
    assert s[index..][1..] == s[index + 1..];
  }

  lemma BodyEnd(s: seq<nat>, isPreviousHex: bool, wide: bool)
    ensures Body(s[|s|..], isPreviousHex, wide) == "\""
  {
  }

  lemma ReadOpened(t: string, wide: bool)
    ensures ReadLiterals(QuoteBegin(wide) + t, wide) == ReadInside(t, wide)
  {
    var q := QuoteBegin(wide);
    assert q <= q + t && (q + t)[0] == q[0] && (q + t)[|q|..] == t;
  }
}
