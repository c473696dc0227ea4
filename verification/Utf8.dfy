/** UTF-8 as section 4 of RFC 3629 defines it, and its validator. */
module Utf8 {
  import opened MachineWords
  import opened Sequences

  // ---------- the grammar ----------

  datatype Range = Range(lo: Byte, hi: Byte)

  const TAIL := Range(0x80, 0xBF)

  /** The alternatives of UTF8-char, in the order of the RFC. */
  const UTF8_CHAR: seq<seq<Range>> := [
    [Range(0x00, 0x7F)],
    [Range(0xC2, 0xDF), TAIL],
    [Range(0xE0, 0xE0), Range(0xA0, 0xBF), TAIL],
    [Range(0xE1, 0xEC), TAIL, TAIL],
    [Range(0xED, 0xED), Range(0x80, 0x9F), TAIL],
    [Range(0xEE, 0xEF), TAIL, TAIL],
    [Range(0xF0, 0xF0), Range(0x90, 0xBF), TAIL, TAIL],
    [Range(0xF1, 0xF3), TAIL, TAIL, TAIL],
    [Range(0xF4, 0xF4), Range(0x80, 0x8F), TAIL, TAIL]
  ]

  ghost predicate Derives(rule: seq<Range>, s: seq<Byte>) {
    && |s| == |rule|
    && forall k | 0 <= k < |s| :: rule[k].lo <= s[k] <= rule[k].hi
  }

  ghost predicate IsUtf8Char(s: seq<Byte>) {
    exists r | 0 <= r < |UTF8_CHAR| :: Derives(UTF8_CHAR[r], s)
  }

  ghost predicate AreUtf8Chars(chars: seq<seq<Byte>>) {
    forall k | 0 <= k < |chars| :: IsUtf8Char(chars[k])
  }

  /** UTF8-octets: characters one after the other. */
  ghost predicate IsUtf8(s: seq<Byte>) {
    exists chars: seq<seq<Byte>> {:trigger AreUtf8Chars(chars)} :: AreUtf8Chars(chars) && Concat(chars) == s
  }

  // ---------- characters at the head of a string ----------

  predicate IsUTF8TrailByte(t: Byte) { 0x80 <= t <= 0xBF }

  /** The length that the first byte announces, 0 when it can start no character. */
  function LengthByLead(lead: Byte): nat {
    if lead <= 0x7F then 1
    else if 0xC2 <= lead <= 0xDF then 2
    else if 0xE0 <= lead <= 0xEF then 3
    else if 0xF0 <= lead <= 0xF4 then 4
    else 0
  }

  predicate SecondOk(lead: Byte, second: Byte) {
    && IsUTF8TrailByte(second)
    && (lead == 0xE0 ==> second >= 0xA0) && (lead == 0xED ==> second < 0xA0)
    && (lead == 0xF0 ==> second >= 0x90) && (lead == 0xF4 ==> second < 0x90)
  }

  /** The nine alternatives put together: the first byte decides the rest. */
  lemma CharByLead(s: seq<Byte>)
    ensures IsUtf8Char(s) <==>
              && |s| > 0 && |s| == LengthByLead(s[0])
              && (|s| > 1 ==> SecondOk(s[0], s[1]))
              && (forall k | 2 <= k < |s| :: IsUTF8TrailByte(s[k]))
  {
    if |s| > 0 && |s| == LengthByLead(s[0]) && (|s| > 1 ==> SecondOk(s[0], s[1]))
       && forall k | 2 <= k < |s| :: IsUTF8TrailByte(s[k])
    {
      var r := if s[0] <= 0x7F then 0 else if s[0] <= 0xDF then 1 else if s[0] == 0xE0 then 2
               else if s[0] <= 0xEC then 3 else if s[0] == 0xED then 4 else if s[0] <= 0xEF then 5
               else if s[0] == 0xF0 then 6 else if s[0] <= 0xF3 then 7 else 8;
      assert Derives(UTF8_CHAR[r], s);
    }
  }

  /** A string starts with at most one character. */
  lemma FirstChar(s: seq<Byte>, n: nat)
    requires 0 < n <= |s| && IsUtf8Char(s[..n])
    ensures n == LengthByLead(s[0])
  {
    CharByLead(s[..n]);
  }

  lemma ConcatSplits(chars: seq<seq<Byte>>)
    requires chars != [] && AreUtf8Chars(chars)
    ensures 0 < |chars[0]| <= |Concat(chars)|
    ensures Concat(chars)[..|chars[0]|] == chars[0]
    ensures Concat(chars)[|chars[0]|..] == Concat(chars[1..])
  {
    CharByLead(chars[0]);
  }

  /** Text is what is left when the first character has been taken off text. */
  lemma TakeFirst(s: seq<Byte>, n: nat)
    requires s != [] && n == LengthByLead(s[0])
    ensures IsUtf8(s) <==> n <= |s| && IsUtf8Char(s[..n]) && IsUtf8(s[n..])
  {
    hide IsUtf8Char, LengthByLead;
    if IsUtf8(s) {
      var chars: seq<seq<Byte>> :| AreUtf8Chars(chars) && Concat(chars) == s;
      ConcatSplits(chars);
      FirstChar(s, |chars[0]|);
      assert AreUtf8Chars(chars[1..]);
    }
    if n <= |s| && IsUtf8Char(s[..n]) && IsUtf8(s[n..]) {
      var chars: seq<seq<Byte>> :| AreUtf8Chars(chars) && Concat(chars) == s[n..];
      var all := [s[..n]] + chars;
      assert all[1..] == chars;
      assert AreUtf8Chars(all);
      assert s[..n] + s[n..] == s;
    }
  }

  /** Whether text goes on at `i`, byte by byte. */
  lemma TextAt(s: seq<Byte>, i: nat)
    requires i < |s|
    ensures IsUtf8(s[i..]) <==>
              var n := LengthByLead(s[i]);
              && 0 < n && i + n <= |s|
              && (n > 1 ==> SecondOk(s[i], s[i + 1]))
              && (n > 2 ==> IsUTF8TrailByte(s[i + 2]))
              && (n > 3 ==> IsUTF8TrailByte(s[i + 3]))
              && IsUtf8(s[i + n..])
  {
    hide IsUtf8, IsUtf8Char, SecondOk;
    var n, t := LengthByLead(s[i]), s[i..];
    TakeFirst(t, n);
    if i + n <= |s| {
      CharByLead(t[..n]);
      assert t[n..] == s[i + n..];
      assert forall k | 0 <= k < n :: t[..n][k] == s[i + k];
    }
  }

  lemma EmptyText()
    ensures IsUtf8([])
  {
    assert AreUtf8Chars([]);
  }

  // ---------- the validator ----------

  method IsValidUTF8(s: seq<Byte>) returns (b: bool)
    ensures b <==> IsUtf8(s)
  {
    hide IsUtf8, IsUtf8Char;
    EmptyText();
    assert s[0..] == s;
    var i := 0;
    while i < |s|
      invariant 0 <= i <= |s|
      invariant IsUtf8(s) <==> IsUtf8(s[i..])
    {
      TextAt(s, i);
      var lead := s[i];
      i := i + 1;
      if lead <= 0x7F {
        continue;
      }
      if lead < 0xC2 {
        return false;
      } else if lead <= 0xDF && i + 1 <= |s| && IsUTF8TrailByte(s[i]) {
        i := i + 1;
      } else if 0xE0 <= lead && lead <= 0xEF && i + 2 <= |s| && IsUTF8TrailByte(s[i]) && IsUTF8TrailByte(s[i + 1])
                && (lead != 0xE0 || s[i] >= 0xA0) && (lead != 0xED || s[i] < 0xA0) {
        i := i + 2;
      } else if 0xF0 <= lead && lead <= 0xF4 && i + 3 <= |s|
                && IsUTF8TrailByte(s[i]) && IsUTF8TrailByte(s[i + 1]) && IsUTF8TrailByte(s[i + 2])
                && (lead != 0xF0 || s[i] >= 0x90) && (lead != 0xF4 || s[i] < 0x90) {
        i := i + 3;
      } else {
        return false;
      }
    }
    assert s[i..] == [];
    return true;
  }
}
