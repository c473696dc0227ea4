/** Wide strings, in UTF-16 or UTF-32, turned into UTF-8. */
module WideStrings {
  import opened Hexadecimal
  import opened MachineWords
  import opened Sequences
  import opened Utf8

  const MAX_CODE_POINT_1 := 0x7F
  const MAX_CODE_POINT_2 := 0x7FF
  const MAX_CODE_POINT_3 := 0xFFFF
  const MAX_CODE_POINT_4 := 0x1F_FFFF

  predicate IsSurrogate(c: int) { 0xD800 <= c <= 0xDFFF }

  /** A Unicode scalar value. */
  predicate IsScalar(c: int) { 0 <= c <= 0x10_FFFF && !IsSurrogate(c) }

  // ---------- one code point ----------

  /** The number that a character stands for: the bits left free by its lead and tails. */
  ghost function Value(s: seq<Byte>): int {
    if |s| == 1 then s[0]
    else if |s| == 2 then (s[0] as int - 0xC0) * 0x40 + Tail(s[1])
    else if |s| == 3 then (s[0] as int - 0xE0) * 0x1000 + Tail(s[1]) * 0x40 + Tail(s[2])
    else if |s| == 4 then (s[0] as int - 0xF0) * 0x4_0000 + Tail(s[1]) * 0x1000 + Tail(s[2]) * 0x40 + Tail(s[3])
    else -1
  }

  ghost function Tail(b: Byte): int { b as int - 0x80 }

  /** Characters and scalar values correspond one to one. */
  lemma CharsAreScalars(s: seq<Byte>)
    requires IsUtf8Char(s)
    ensures IsScalar(Value(s))
  {
    CharByLead(s);
  }

  lemma ValueIsOneToOne(s: seq<Byte>, t: seq<Byte>)
    requires IsUtf8Char(s) && IsUtf8Char(t) && Value(s) == Value(t)
    ensures s == t
  {
    CharByLead(s);
    CharByLead(t);
    ValueBounds(s);
    ValueBounds(t);
    assert |s| == |t|;
    SameBytes(s, t);
  }

  lemma ValueBounds(s: seq<Byte>)
    requires IsUtf8Char(s)
    ensures 1 <= |s| <= 4
    ensures |s| == 1 ==> 0 <= Value(s) <= MAX_CODE_POINT_1
    ensures |s| == 2 ==> MAX_CODE_POINT_1 < Value(s) <= MAX_CODE_POINT_2
    ensures |s| == 3 ==> MAX_CODE_POINT_2 < Value(s) <= MAX_CODE_POINT_3
    ensures |s| == 4 ==> MAX_CODE_POINT_3 < Value(s) <= 0x10_FFFF
    ensures forall k | 1 <= k < |s| :: IsUTF8TrailByte(s[k])
  {
    CharByLead(s);
  }

  lemma SameBytes(s: seq<Byte>, t: seq<Byte>)
    requires 1 <= |s| == |t| <= 4 && Value(s) == Value(t)
    requires forall k | 1 <= k < |s| :: IsUTF8TrailByte(s[k]) && IsUTF8TrailByte(t[k])
    ensures s == t
  {
  }

  function Ascii(s: string): (bytes: seq<Byte>)
    requires forall k | 0 <= k < |s| :: s[k] <= '\U{7f}'
    ensures |bytes| == |s| && forall k | 0 <= k < |s| :: bytes[k] == s[k] as int && bytes[k] <= 0x7F
  {
    seq(|s|, k requires 0 <= k < |s| => s[k] as int)
  }

  function InvalidUnicode(codePoint: nat): (text: seq<Byte>)
    ensures forall k | 0 <= k < |text| :: text[k] <= 0x7F
  {
    Ascii("(Invalid Unicode 0x" + HexDigits(codePoint) + ")")
  }

  /** The lowest `2^n` part of the bits, and what remains. */
  function ChopLowBits(bits: nat, power: nat): (r: (nat, nat))
    requires power > 0
    ensures bits == r.1 * power + r.0 && r.0 < power
  {
    (bits % power, bits / power)
  }

  /** The buffer up to its first zero byte. */
  method UpToNul(str: array<Byte>, ghost written: seq<Byte>) returns (s: seq<Byte>)
    requires |written| < str.Length && str[..|written|] == written && str[|written|] == 0
    requires forall k | 0 <= k < |written| :: written[k] != 0
    ensures s == written
  {
    var n := 0;
    while str[n] != 0
      invariant 0 <= n <= |written|
      decreases str.Length - n
    {
      assert str[..|written|][n] == written[n];
      n := n + 1;
    }
    return str[..n];
  }

  /** What the encoder writes, read by value: the shortest form of the code point, except
      that zero comes out empty. */
  ghost predicate Encodes(out: seq<Byte>, codePoint: nat) {
    if codePoint == 0 then out == []
    else
      && |out| == (if codePoint <= MAX_CODE_POINT_1 then 1 else if codePoint <= MAX_CODE_POINT_2 then 2
                   else if codePoint <= MAX_CODE_POINT_3 then 3 else 4)
      && Value(out) == codePoint
      && (|out| == 1 ==> out[0] <= 0x7F)
      && forall k | 1 <= k < |out| :: IsUTF8TrailByte(out[k])
  }

  method CodePointToUtf8(codePoint: nat) returns (out: seq<Byte>)
    requires codePoint < UINT32
    ensures codePoint <= MAX_CODE_POINT_4 ==> Encodes(out, codePoint)
    ensures codePoint > MAX_CODE_POINT_4 ==> out == InvalidUnicode(codePoint)
  {
    hide InvalidUnicode;
    if codePoint > MAX_CODE_POINT_4 {
      return InvalidUnicode(codePoint);
    }
    var str := new Byte[5];
    var c := codePoint;
    ghost var written: seq<Byte>;
    if c <= MAX_CODE_POINT_1 {
      str[1] := 0;
      str[0] := c;
      written := if c == 0 then [] else [c];
      assert Encodes(written, codePoint);
    } else if c <= MAX_CODE_POINT_2 {
      str[2] := 0;
      var low := ChopLowBits(c, 0x40);
      str[1] := 0x80 + low.0;
      str[0] := 0xC0 + low.1;
      written := [str[0], str[1]];
      assert Encodes(written, codePoint);
    } else if c <= MAX_CODE_POINT_3 {
      str[3] := 0;
      var low := ChopLowBits(c, 0x40);
      str[2] := 0x80 + low.0;
      low := ChopLowBits(low.1, 0x40);
      str[1] := 0x80 + low.0;
      str[0] := 0xE0 + low.1;
      written := [str[0], str[1], str[2]];
      assert Encodes(written, codePoint);
    } else {
      str[4] := 0;
      var low := ChopLowBits(c, 0x40);
      str[3] := 0x80 + low.0;
      low := ChopLowBits(low.1, 0x40);
      str[2] := 0x80 + low.0;
      low := ChopLowBits(low.1, 0x40);
      str[1] := 0x80 + low.0;
      str[0] := 0xF0 + low.1;
      written := [str[0], str[1], str[2], str[3]];
      assert Encodes(written, codePoint);
    }
    out := UpToNul(str, written);
  }

  lemma ScalarsAreEncoded(out: seq<Byte>, codePoint: nat)
    requires 0 < codePoint <= MAX_CODE_POINT_4 && Encodes(out, codePoint)
    ensures IsUtf8Char(out) <==> IsScalar(codePoint)
  {
    CharByLead(out);
  }

  lemma OneChar(s: seq<Byte>)
    requires s != [] && |s| == LengthByLead(s[0])
    ensures IsUtf8(s) <==> IsUtf8Char(s)
  {
    EmptyText();
    TakeFirst(s, |s|);
    assert s[..|s|] == s && s[|s|..] == [];
  }

  lemma {:induction false} AsciiIsUtf8(s: seq<Byte>)
    requires forall k | 0 <= k < |s| :: s[k] <= 0x7F
    ensures IsUtf8(s)
  {
    if s == [] {
      EmptyText();
    } else {
      AsciiIsUtf8(s[1..]);
      CharByLead(s[..1]);
      TakeFirst(s, 1);
    }
  }

  /** The lead announces the right length, except beyond what the RFC allows. */
  lemma LeadOf(out: seq<Byte>, codePoint: nat)
    requires 0 < codePoint <= MAX_CODE_POINT_4 && Encodes(out, codePoint)
    ensures out != []
    ensures LengthByLead(out[0]) == |out| || (LengthByLead(out[0]) == 0 && !IsScalar(codePoint))
  {
  }

  lemma EncodedIsText(out: seq<Byte>, codePoint: nat)
    requires 0 < codePoint <= MAX_CODE_POINT_4 && Encodes(out, codePoint)
    ensures IsUtf8(out) <==> IsScalar(codePoint)
  {
    hide *;
    LeadOf(out, codePoint);
    ScalarsAreEncoded(out, codePoint);
    if LengthByLead(out[0]) == |out| {
      OneChar(out);
    } else {
      NoFirstChar(out);
    }
  }

  lemma NoFirstChar(s: seq<Byte>)
    requires s != [] && LengthByLead(s[0]) == 0
    ensures !IsUtf8(s)
  {
    TakeFirst(s, 0);
    CharByLead(s[..0]);
  }

  lemma InvalidIsText(codePoint: nat)
    ensures IsUtf8(InvalidUnicode(codePoint))
  {
    hide IsUtf8, InvalidUnicode;
    AsciiIsUtf8(InvalidUnicode(codePoint));
  }

  /** No surrogate, and not between the end of Unicode and the encoder's own limit. */
  predicate IsWritable(codePoint: nat) {
    !IsSurrogate(codePoint) && !(0x10_FFFF < codePoint <= MAX_CODE_POINT_4)
  }

  /** What the encoder returns is text, except for surrogates and for the code points
      between the end of Unicode and the encoder's own limit. */
  lemma WhenOutputIsText(out: seq<Byte>, codePoint: nat)
    requires IsOutput(out, codePoint)
    ensures IsUtf8(out) <==> IsWritable(codePoint)
  {
    hide IsUtf8, Value, InvalidUnicode;
    if codePoint == 0 {
      EmptyText();
    } else if codePoint > MAX_CODE_POINT_4 {
      InvalidIsText(codePoint);
    } else {
      EncodedIsText(out, codePoint);
    }
  }

  /** The documented rule asks for the message for every code point beyond U+10FFFF;
      the encoder keeps to it except between there and its own limit. */
  lemma MessageIffBeyondLimit(out: seq<Byte>, codePoint: nat)
    requires IsOutput(out, codePoint)
    ensures out == InvalidUnicode(codePoint) <==> codePoint > MAX_CODE_POINT_4
    ensures (out == InvalidUnicode(codePoint) <==> codePoint > 0x10_FFFF)
            <==> !(0x10_FFFF < codePoint <= MAX_CODE_POINT_4)
  {
    assert |InvalidUnicode(codePoint)| > 4;
  }

  // ---------- wide strings ----------

  /** Both units belong to one surrogate pair; the test clears their low ten bits. */
  predicate IsUtf16SurrogatePair(wcharSize: nat, first: nat, second: nat) {
    wcharSize == 2 && first / 0x400 * 0x400 == 0xD800 && second / 0x400 * 0x400 == 0xDC00
  }

  function CreateCodePointFromUtf16SurrogatePair(first: nat, second: nat): (c: nat)
    ensures 0x1_0000 <= c <= 0x10_FFFF
  {
    first % 0x400 * 0x400 + second % 0x400 + 0x1_0000
  }

  /** What the units spell, up to the first zero. A unit that is half of no pair stands for
      itself. */
  ghost function CodePoints(wcharSize: nat, units: seq<nat>): seq<nat> {
    if units == [] || units[0] == 0 then []
    else if |units| > 1 && IsUtf16SurrogatePair(wcharSize, units[0], units[1]) then
      [CreateCodePointFromUtf16SurrogatePair(units[0], units[1])] + CodePoints(wcharSize, units[2..])
    else [units[0]] + CodePoints(wcharSize, units[1..])
  }

  ghost predicate IsOutput(out: seq<Byte>, codePoint: nat) {
    if codePoint <= MAX_CODE_POINT_4 then Encodes(out, codePoint) else out == InvalidUnicode(codePoint)
  }

  ghost predicate AreOutputs(chunks: seq<seq<Byte>>, codePoints: seq<nat>) {
    && |chunks| == |codePoints|
    && forall k | 0 <= k < |chunks| :: IsOutput(chunks[k], codePoints[k])
  }

  /** The encodings of the code points, one after the other. */
  ghost predicate IsEncoded(out: seq<Byte>, codePoints: seq<nat>) {
    exists chunks: seq<seq<Byte>> {:trigger AreOutputs(chunks, codePoints)} ::
      AreOutputs(chunks, codePoints) && Concat(chunks) == out
  }

  /** Text in front of other bytes does not change what they are. */
  lemma {:induction false} TextInFront(front: seq<Byte>, rest: seq<Byte>)
    requires IsUtf8(front)
    ensures IsUtf8(front + rest) <==> IsUtf8(rest)
    decreases |front|
  {
    hide IsUtf8, IsUtf8Char, LengthByLead;
    if front == [] {
      assert front + rest == rest;
    } else {
      var n := LengthByLead(front[0]);
      TakeFirst(front, n);
      TakeFirst(front + rest, n);
      FirstIsNotEmpty(front[..n]);
      TextInFront(front[n..], rest);
      assert (front + rest)[..n] == front[..n] && (front + rest)[n..] == front[n..] + rest;
    }
  }

  lemma FirstIsNotEmpty(c: seq<Byte>)
    requires IsUtf8Char(c)
    ensures c != []
  {
  }

  /** What is written for a code point outside Unicode spoils whatever follows. */
  lemma NoTextInFront(out: seq<Byte>, codePoint: nat, rest: seq<Byte>)
    requires 0 < codePoint <= MAX_CODE_POINT_4 && Encodes(out, codePoint) && !IsScalar(codePoint)
    ensures !IsUtf8(out + rest)
  {
    hide *;
    LeadOf(out, codePoint);
    ScalarsAreEncoded(out, codePoint);
    var s := out + rest;
    assert s[0] == out[0];
    if LengthByLead(out[0]) == |out| {
      TakeFirst(s, |out|);
      assert s[..|out|] == out;
    } else {
      NoFirstChar(s);
    }
  }

  lemma PieceInFront(out: seq<Byte>, codePoint: nat, rest: seq<Byte>)
    requires IsOutput(out, codePoint)
    ensures IsUtf8(out + rest) <==> IsWritable(codePoint) && IsUtf8(rest)
  {
    WhenOutputIsText(out, codePoint);
    hide IsUtf8, Encodes, InvalidUnicode;
    if IsWritable(codePoint) {
      TextInFront(out, rest);
    } else {
      NoTextInFront(out, codePoint, rest);
    }
  }

  lemma {:induction false} PiecesAreText(chunks: seq<seq<Byte>>, codePoints: seq<nat>)
    requires AreOutputs(chunks, codePoints)
    ensures IsUtf8(Concat(chunks)) <==> forall c | c in codePoints :: IsWritable(c)
  {
    hide IsUtf8, IsOutput, IsWritable;
    if chunks == [] {
      EmptyText();
    } else {
      PieceInFront(chunks[0], codePoints[0], Concat(chunks[1..]));
      PiecesAreText(chunks[1..], codePoints[1..]);
      assert codePoints == [codePoints[0]] + codePoints[1..];
    }
  }

  /** The output is valid if and only if no code point read spoils it. */
  lemma EncodedIsUtf8(out: seq<Byte>, codePoints: seq<nat>)
    requires IsEncoded(out, codePoints)
    ensures IsUtf8(out) <==> forall c | c in codePoints :: IsWritable(c)
  {
    hide IsUtf8, AreOutputs, IsWritable;
    var chunks: seq<seq<Byte>> :| AreOutputs(chunks, codePoints) && Concat(chunks) == out;
    PiecesAreText(chunks, codePoints);
  }

  /** `numChars` limits the units that are read; -1 stands for the whole string. */
  method WideStringToUtf8(wcharSize: nat, str: seq<nat>, numChars: int) returns (out: seq<Byte>)
    requires wcharSize == 2 || wcharSize == 4
    requires forall k | 0 <= k < |str| :: 0 < str[k] < UINT32
    ensures var n := if numChars == -1 || numChars > |str| then |str| else if numChars < 0 then 0 else numChars;
            && IsEncoded(out, CodePoints(wcharSize, str[..n]))
            && (IsUtf8(out) <==> forall c | c in CodePoints(wcharSize, str[..n]) :: IsWritable(c))
  {
    hide Progress, IsUtf16SurrogatePair, CodePoints, CreateCodePointFromUtf16SurrogatePair;
    hide IsEncoded, IsOutput, Encodes, InvalidUnicode;
    var num := if numChars == -1 then |str| else numChars;
    ghost var n := if num > |str| then |str| else if num < 0 then 0 else num;
    ghost var units := str[..n];
    ghost var chunks, done: seq<nat> := [], [];
    out := [];
    Start(wcharSize, units);
    var i := 0;
    while i < num
      invariant 0 <= i <= |units|
      invariant Progress(wcharSize, units, i, chunks, done, out)
    {
      var codePoint;
      ghost var start := i;
      if UnitAt(str, i) == 0 {
        break;
      } else if i + 1 < num && IsUtf16SurrogatePair(wcharSize, str[i], UnitAt(str, i + 1)) {
        NoPairWithNul(wcharSize, str[i]);
        codePoint := CreateCodePointFromUtf16SurrogatePair(str[i], str[i + 1]);
        PairComesNext(wcharSize, units, i);
        i := i + 1;
      } else {
        codePoint := str[i];
        UnitComesNext(wcharSize, units, i);
      }
      var chunk := CodePointToUtf8(codePoint);
      OutputOf(chunk, codePoint);
      Step(wcharSize, units, start, i + 1, chunks, done, out, codePoint, chunk);
      out := out + chunk;
      chunks, done := chunks + [chunk], done + [codePoint];
      i := i + 1;
    }
    End(wcharSize, units, i, chunks, done, out);
    EncodedIsUtf8(out, CodePoints(wcharSize, units));
  }

  /** The first `i` units have been written. */
  ghost predicate Progress(wcharSize: nat, units: seq<nat>, i: nat, chunks: seq<seq<Byte>>, done: seq<nat>,
                           out: seq<Byte>)
    requires i <= |units|
  {
    && AreOutputs(chunks, done) && Concat(chunks) == out
    && CodePoints(wcharSize, units) == done + CodePoints(wcharSize, units[i..])
  }

  lemma Start(wcharSize: nat, units: seq<nat>)
    ensures Progress(wcharSize, units, 0, [], [], [])
  {
    assert units[0..] == units;
  }

  lemma End(wcharSize: nat, units: seq<nat>, i: nat, chunks: seq<seq<Byte>>, done: seq<nat>, out: seq<Byte>)
    requires i == |units| && Progress(wcharSize, units, i, chunks, done, out)
    ensures IsEncoded(out, CodePoints(wcharSize, units))
  {
    assert done + [] == done;
  }

  lemma PairComesNext(wcharSize: nat, units: seq<nat>, i: nat)
    requires i + 1 < |units| && units[i] != 0 && IsUtf16SurrogatePair(wcharSize, units[i], units[i + 1])
    ensures CodePoints(wcharSize, units[i..])
         == [CreateCodePointFromUtf16SurrogatePair(units[i], units[i + 1])] + CodePoints(wcharSize, units[i + 2..])
  {
    assert units[i..][2..] == units[i + 2..];
  }

  lemma UnitComesNext(wcharSize: nat, units: seq<nat>, i: nat)
    requires i < |units| && units[i] != 0
    requires i + 1 < |units| ==> !IsUtf16SurrogatePair(wcharSize, units[i], units[i + 1])
    ensures CodePoints(wcharSize, units[i..]) == [units[i]] + CodePoints(wcharSize, units[i + 1..])
  {
    assert units[i..][1..] == units[i + 1..];
  }

  lemma Step(wcharSize: nat, units: seq<nat>, i: nat, j: nat, chunks: seq<seq<Byte>>, done: seq<nat>,
             out: seq<Byte>, codePoint: nat, chunk: seq<Byte>)
    requires i <= j <= |units| && Progress(wcharSize, units, i, chunks, done, out)
    requires CodePoints(wcharSize, units[i..]) == [codePoint] + CodePoints(wcharSize, units[j..])
    requires IsOutput(chunk, codePoint)
    ensures Progress(wcharSize, units, j, chunks + [chunk], done + [codePoint], out + chunk)
  {
    hide CodePoints, IsOutput, Concat;
    ConcatAppend(chunks, chunk);
  }

  /** Reading a string up to and including its terminator. */
  function UnitAt(str: seq<nat>, i: nat): nat
    requires i <= |str|
  {
    if i < |str| then str[i] else 0
  }

  lemma NoPairWithNul(wcharSize: nat, first: nat)
    ensures !IsUtf16SurrogatePair(wcharSize, first, 0)
  {
  }

  lemma OutputOf(out: seq<Byte>, codePoint: nat)
    requires codePoint <= MAX_CODE_POINT_4 ==> Encodes(out, codePoint)
    requires codePoint > MAX_CODE_POINT_4 ==> out == InvalidUnicode(codePoint)
    ensures IsOutput(out, codePoint)
  {
  }

  // ---------- round trips ----------

  /** The UTF-16 form of section 2.1 of RFC 2781. */
  ghost function Utf16(codePoints: seq<nat>): seq<nat> {
    if codePoints == [] then []
    else
      var c := codePoints[0];
      (if c < 0x1_0000 then [c] else [0xD800 + (c - 0x1_0000) / 0x400, 0xDC00 + (c - 0x1_0000) % 0x400])
      + Utf16(codePoints[1..])
  }

  /** Scalar values other than zero, which would end the string. */
  ghost predicate AreCharacters(codePoints: seq<nat>) {
    forall k | 0 <= k < |codePoints| :: IsScalar(codePoints[k]) && codePoints[k] != 0
  }

  /** A pair is a high and a low surrogate, as in section 2.2 of RFC 2781. */
  lemma PairsAreSurrogates(first: nat, second: nat)
    ensures IsUtf16SurrogatePair(2, first, second) <==> 0xD800 <= first <= 0xDBFF && 0xDC00 <= second <= 0xDFFF
    ensures !IsUtf16SurrogatePair(4, first, second)
  {
  }

  lemma PairsComeBack(c: nat)
    requires 0x1_0000 <= c <= 0x10_FFFF
    ensures var first, second := 0xD800 + (c - 0x1_0000) / 0x400, 0xDC00 + (c - 0x1_0000) % 0x400;
            IsUtf16SurrogatePair(2, first, second) && CreateCodePointFromUtf16SurrogatePair(first, second) == c
  {
  }

  lemma NoPair(c: nat, next: nat)
    requires c < 0x1_0000 && !IsSurrogate(c)
    ensures !IsUtf16SurrogatePair(2, c, next)
  {
  }

  /** UTF-16 is read back. */
  lemma {:induction false} Utf16IsRead(codePoints: seq<nat>)
    requires AreCharacters(codePoints)
    ensures CodePoints(2, Utf16(codePoints)) == codePoints
    ensures forall k | 0 <= k < |Utf16(codePoints)| :: 0 < Utf16(codePoints)[k] < 0x1_0000
  {
    if codePoints != [] {
      hide IsUtf16SurrogatePair, CreateCodePointFromUtf16SurrogatePair;
      var c, rest, units := codePoints[0], codePoints[1..], Utf16(codePoints);
      Utf16IsRead(rest);
      if c < 0x1_0000 {
        assert units[1..] == Utf16(rest);
        if |units| > 1 {
          NoPair(c, units[1]);
        }
      } else {
        PairsComeBack(c);
        assert units[2..] == Utf16(rest);
      }
    }
  }

  /** UTF-32 is read back. */
  lemma {:induction false} Utf32IsRead(codePoints: seq<nat>)
    requires AreCharacters(codePoints)
    ensures CodePoints(4, codePoints) == codePoints
  {
    if codePoints != [] {
      Utf32IsRead(codePoints[1..]);
    }
  }

  ghost predicate HaveValues(chars: seq<seq<Byte>>, codePoints: seq<nat>) {
    && |chars| == |codePoints| && AreUtf8Chars(chars)
    && forall k | 0 <= k < |chars| :: Value(chars[k]) == codePoints[k]
  }

  /** The UTF-8 text spells these code points. */
  ghost predicate Decodes(s: seq<Byte>, codePoints: seq<nat>) {
    exists chars: seq<seq<Byte>> {:trigger HaveValues(chars, codePoints)} ::
      HaveValues(chars, codePoints) && Concat(chars) == s
  }

  /** Text cuts into characters in one way only. */
  lemma {:induction false} OneCut(a: seq<seq<Byte>>, b: seq<seq<Byte>>)
    requires AreUtf8Chars(a) && AreUtf8Chars(b) && Concat(a) == Concat(b)
    ensures a == b
  {
    hide IsUtf8Char;
    if a == [] && b != [] {
      ConcatSplits(b);
    } else if a != [] && b == [] {
      ConcatSplits(a);
    } else if a != [] {
      ConcatSplits(a);
      ConcatSplits(b);
      FirstChar(Concat(a), |a[0]|);
      FirstChar(Concat(a), |b[0]|);
      assert AreUtf8Chars(a[1..]) && AreUtf8Chars(b[1..]);
      OneCut(a[1..], b[1..]);
      assert a == [a[0]] + a[1..] && b == [b[0]] + b[1..];
    }
  }

  lemma DecodingIsUnique(s: seq<Byte>, a: seq<nat>, b: seq<nat>)
    requires Decodes(s, a) && Decodes(s, b)
    ensures a == b
  {
    hide IsUtf8Char, Value, Concat;
    var x: seq<seq<Byte>> :| HaveValues(x, a) && Concat(x) == s;
    var y: seq<seq<Byte>> :| HaveValues(y, b) && Concat(y) == s;
    OneCut(x, y);
  }

  /** Encoded scalar values are valid UTF-8 and decode to what was encoded. */
  lemma EncodedDecodes(out: seq<Byte>, codePoints: seq<nat>)
    requires AreCharacters(codePoints) && IsEncoded(out, codePoints)
    ensures IsUtf8(out) && Decodes(out, codePoints)
  {
    hide IsUtf8Char, Value, Concat;
    var chunks: seq<seq<Byte>> :| AreOutputs(chunks, codePoints) && Concat(chunks) == out;
    forall k | 0 <= k < |chunks|
      ensures IsUtf8Char(chunks[k]) && Value(chunks[k]) == codePoints[k]
    {
      assert IsOutput(chunks[k], codePoints[k]);
      ScalarsAreEncoded(chunks[k], codePoints[k]);
    }
    assert HaveValues(chunks, codePoints);
  }

  /** From scalar values through UTF-16 or UTF-32 to UTF-8 and back: the text is valid, and
      the values encoded are the only ones it decodes to. */
  lemma RoundTrip(wcharSize: nat, units: seq<nat>, codePoints: seq<nat>, out: seq<Byte>)
    requires AreCharacters(codePoints)
    requires (wcharSize == 2 && units == Utf16(codePoints)) || (wcharSize == 4 && units == codePoints)
    requires IsEncoded(out, CodePoints(wcharSize, units))
    ensures IsUtf8(out) && Decodes(out, codePoints)
    ensures forall other | Decodes(out, other) :: other == codePoints
  {
    hide *;
    Utf16IsRead(codePoints);
    Utf32IsRead(codePoints);
    EncodedDecodes(out, codePoints);
    forall other | Decodes(out, other)
      ensures other == codePoints
    {
      DecodingIsUnique(out, other, codePoints);
    }
  }
}
