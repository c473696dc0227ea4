/** The simple regular expressions of the port layer: characters, syntax and the
    validator. */
module RegexSyntax {
  import opened CStrings
  import opened Options

  predicate IsInSet(ch: char, str: string) { ch != NUL && ch in str }

  predicate IsAsciiDigit(ch: char) { '0' <= ch <= '9' }

  predicate IsAsciiPunct(ch: char) { IsInSet(ch, "^-!\"#$%&'()*+,./:;<=>?@[\\]_`{|}~") }

  predicate IsRepeat(ch: char) { IsInSet(ch, "?*+") }

  predicate IsAsciiWhiteSpace(ch: char) { IsInSet(ch, " \U{c}\n\r\t\U{b}") }

  predicate IsAsciiWordChar(ch: char) {
    || 'a' <= ch <= 'z'
    || 'A' <= ch <= 'Z'
    || '0' <= ch <= '9'
    || ch == '_'
  }

  predicate IsValidEscape(c: char) { IsAsciiPunct(c) || IsInSet(c, "dDfnrsStvwW") }

  predicate AtomMatchesChar(escaped: bool, patternChar: char, ch: char) {
    if escaped then
      match patternChar
      case 'd' => IsAsciiDigit(ch)
      case 'D' => !IsAsciiDigit(ch)
      case 'f' => ch == '\U{c}'
      case 'n' => ch == '\n'
      case 'r' => ch == '\r'
      case 's' => IsAsciiWhiteSpace(ch)
      case 'S' => !IsAsciiWhiteSpace(ch)
      case 't' => ch == '\t'
      case 'v' => ch == '\U{b}'
      case 'w' => IsAsciiWordChar(ch)
      case 'W' => !IsAsciiWordChar(ch)
      case _ => IsAsciiPunct(patternChar) && patternChar == ch
    else
      (patternChar == '.' && ch != '\n') || patternChar == ch
  }

  // ---------- what the classes mean ----------

  predicate InRange(ch: char, lo: nat, hi: nat) { lo <= ch as int <= hi }

  predicate IsLetterOrDigit(ch: char) { InRange(ch, 0x30, 0x39) || InRange(ch, 0x41, 0x5A) || InRange(ch, 0x61, 0x7A) }

  /** The list leaves out no printing ASCII character but letters, digits and the blank. */
  lemma PunctuationIsComplete(ch: char)
    ensures IsAsciiPunct(ch) <==> InRange(ch, 0x21, 0x7E) && !IsLetterOrDigit(ch)
  {
    if InRange(ch, 0x21, 0x7E) && !IsLetterOrDigit(ch) {
      assert ch in "^-!\"#$%&'()*+,./:;<=>?@[\\]_`{|}~";
    }
  }

  /** Five control characters and the blank. */
  lemma WhiteSpaceIsComplete(ch: char)
    ensures IsAsciiWhiteSpace(ch) <==> InRange(ch, 0x09, 0x0D) || ch == ' '
  {
    if InRange(ch, 0x09, 0x0D) || ch == ' ' {
      assert ch in " \U{c}\n\r\t\U{b}";
    }
  }

  /** The documented classes by character codes. */
  ghost predicate IsDigitSpaceOrWord(c: char, ch: char) {
    if c == 'd' then InRange(ch, 0x30, 0x39)
    else if c == 's' then InRange(ch, 0x09, 0x0D) || ch as int == 0x20
    else IsLetterOrDigit(ch) || ch as int == 0x5F
  }

  /** The documented meaning of an atom. A capital letter stands for the complement. */
  ghost predicate Documented(escaped: bool, c: char, ch: char) {
    if !escaped then if c == '.' then ch as int != 0x0A else c == ch
    else if c == 'd' || c == 's' || c == 'w' then IsDigitSpaceOrWord(c, ch)
    else if c == 'D' then !IsDigitSpaceOrWord('d', ch)
    else if c == 'S' then !IsDigitSpaceOrWord('s', ch)
    else if c == 'W' then !IsDigitSpaceOrWord('w', ch)
    else if c == 't' then ch as int == 0x09
    else if c == 'n' then ch as int == 0x0A
    else if c == 'v' then ch as int == 0x0B
    else if c == 'f' then ch as int == 0x0C
    else if c == 'r' then ch as int == 0x0D
    else c == ch
  }

  /** Every atom that the validator lets through matches what is documented. */
  lemma AtomsMeanWhatIsDocumented(escaped: bool, c: char, ch: char)
    requires escaped ==> IsValidEscape(c)
    ensures AtomMatchesChar(escaped, c, ch) <==> Documented(escaped, c, ch)
  {
    hide IsAsciiPunct, IsAsciiWhiteSpace;
    WhiteSpaceIsComplete(ch);
    PunctuationIsComplete(c);
  }

  // ---------- abstract syntax ----------

  datatype Repeat = Once | Optional | Star | Plus

  datatype Item = Item(escaped: bool, c: char, repeat: Repeat)

  datatype Regex = Regex(caret: bool, items: seq<Item>, dollar: bool)

  /** A plain character is any that has no meaning of its own; '.' is an atom too. */
  predicate IsPlain(c: char) {
    && c != NUL && c != '\\' && c != '^' && c != '$'
    && !IsRepeat(c) && !IsInSet(c, "()[]{}|")
  }

  predicate ItemOk(item: Item) { if item.escaped then IsValidEscape(item.c) else IsPlain(item.c) }

  ghost predicate ItemsOk(items: seq<Item>) { forall i | 0 <= i < |items| :: ItemOk(items[i]) }

  function RepeatText(r: Repeat): string {
    match r
    case Once => ""
    case Optional => "?"
    case Star => "*"
    case Plus => "+"
  }

  function AtomText(item: Item): string { if item.escaped then ['\\', item.c] else [item.c] }

  function ItemsText(items: seq<Item>): string {
    if items == [] then "" else AtomText(items[0]) + RepeatText(items[0].repeat) + ItemsText(items[1..])
  }

  function TailText(items: seq<Item>, dollar: bool): string {
    ItemsText(items) + if dollar then "$" else ""
  }

  function Text(re: Regex): string {
    (if re.caret then "^" else "") + TailText(re.items, re.dollar)
  }

  /** Which atoms there are: a backslash stands before a punctuation character or one of the
      documented letters, and all characters but fourteen stand for themselves. */
  lemma AtomsByCodes(c: char)
    ensures IsValidEscape(c)
            <==> || (InRange(c, 0x21, 0x7E) && !IsLetterOrDigit(c))
                 || c in {'d', 'D', 'f', 'n', 'r', 's', 'S', 't', 'v', 'w', 'W'}
    ensures IsPlain(c)
            <==> c !in {NUL, '\\', '^', '$', '?', '*', '+', '(', ')', '[', ']', '{', '}', '|'}
  {
    PunctuationIsComplete(c);
    hide IsAsciiPunct;
    assert c in "dDfnrsStvwW" <==> c in {'d', 'D', 'f', 'n', 'r', 's', 'S', 't', 'v', 'w', 'W'};
    assert c in "()[]{}|" <==> c in {'(', ')', '[', ']', '{', '}', '|'};
    assert c in "?*+" <==> c in {'?', '*', '+'};
  }

  /** The string is the text of a well-formed regex. */
  ghost predicate IsRegex(s: string) { exists re: Regex :: ItemsOk(re.items) && Text(re) == s }

  // ---------- the validator ----------

  /** What is left to scan is acceptable; `prev` says that a repeat may come next. */
  predicate Acceptable(s: CString, i: nat, prev: bool)
    requires i <= |s|
    decreases |s| - i
  {
    if i == |s| then true
    else if s[i] == '\\' then i + 1 < |s| && IsValidEscape(s[i + 1]) && Acceptable(s, i + 2, true)
    else
      && !(s[i] == '^' && i > 0)
      && !(s[i] == '$' && i + 1 < |s|)
      && !IsInSet(s[i], "()[]{}|")
      && !(IsRepeat(s[i]) && !prev)
      && Acceptable(s, i + 1, !IsInSet(s[i], "^$?*+"))
  }

  lemma CharFacts(c: char)
    ensures IsRepeat(c) <==> c == '?' || c == '*' || c == '+'
    ensures IsInSet(c, "^$?*+") <==> c == '^' || c == '$' || IsRepeat(c)
    ensures IsInSet(c, "()[]{}|") ==> c != '\\' && c != '^' && c != '$' && !IsRepeat(c)
  {
  }

  /** Text from `i` on: a repeat that may be pending, items, and perhaps a final '$'. */
  ghost predicate Reads(s: CString, i: nat, pending: Repeat, items: seq<Item>, dollar: bool) {
    && i <= |s| && ItemsOk(items)
    && s[i..] == RepeatText(pending) + TailText(items, dollar)
  }

  lemma ReadsEnd(s: CString)
    ensures Reads(s, |s|, Once, [], false)
    ensures s != "" && s[|s| - 1] == '$' ==> Reads(s, |s| - 1, Once, [], true)
  {
  }

  lemma ReadsRepeat(s: CString, i: nat, pending: Repeat, items: seq<Item>, dollar: bool)
    requires pending != Once && i < |s| && [s[i]] == RepeatText(pending)
    ensures Reads(s, i, pending, items, dollar) <==> Reads(s, i + 1, Once, items, dollar)
  {
    assert s[i..] == [s[i]] + s[i + 1..];
  }

  lemma ReadsAtom(s: CString, i: nat, item: Item, rest: seq<Item>, dollar: bool)
    requires ItemOk(item) && i + |AtomText(item)| <= |s|
    requires s[i..i + |AtomText(item)|] == AtomText(item)
    ensures Reads(s, i, Once, [item] + rest, dollar) <==> Reads(s, i + |AtomText(item)|, item.repeat, rest, dollar)
  {
    hide IsPlain, IsValidEscape;
    var n := |AtomText(item)|;
    var all := [item] + rest;
    assert all[1..] == rest;
    assert (forall k | 0 <= k < |rest| :: ItemOk(rest[k])) <==> ItemsOk(all) by {
      assert forall k | 0 <= k < |rest| :: all[k + 1] == rest[k];
    }
    assert s[i..] == AtomText(item) + s[i + n..];
    assert TailText(all, dollar) == AtomText(item) + (RepeatText(item.repeat) + TailText(rest, dollar));
    SamePrefix(AtomText(item), s[i + n..], RepeatText(item.repeat) + TailText(rest, dollar));
  }

  lemma SamePrefix(p: string, a: string, b: string)
    ensures p + a == p + b <==> a == b
  {
    if p + a == p + b {
      assert (p + a)[|p|..] == a && (p + b)[|p|..] == b;
    }
  }

  /** Accepted text parses. */
  lemma {:induction false} Parse(s: CString, i: nat, prev: bool)
      returns (pending: Repeat, items: seq<Item>, dollar: bool)
    requires 0 < i <= |s| || (i == 0 && (s == "" || s[0] != '^'))
    requires Acceptable(s, i, prev)
    ensures pending != Once ==> prev
    ensures Reads(s, i, pending, items, dollar)
    decreases |s| - i
  {
    hide IsInSet, IsRepeat, IsValidEscape, Reads;
    if i == |s| {
      pending, items, dollar := Once, [], false;
      ReadsEnd(s);
    } else if s[i] == '\\' {
      var r, rest, d := Parse(s, i + 2, true);
      pending, items, dollar := Once, [Item(true, s[i + 1], r)] + rest, d;
      assert s[i..i + 2] == ['\\', s[i + 1]];
      ReadsAtom(s, i, Item(true, s[i + 1], r), rest, d);
    } else if s[i] == '$' {
      pending, items, dollar := Once, [], true;
      ReadsEnd(s);
    } else {
      CharFacts(s[i]);
      var r, rest, d := Parse(s, i + 1, !IsInSet(s[i], "^$?*+"));
      if IsRepeat(s[i]) {
        pending := if s[i] == '?' then Optional else if s[i] == '*' then Star else Plus;
        items, dollar := rest, d;
        ReadsRepeat(s, i, pending, items, dollar);
      } else {
        pending, items, dollar := Once, [Item(false, s[i], r)] + rest, d;
        assert s[i..i + 1] == [s[i]];
        ReadsAtom(s, i, Item(false, s[i], r), rest, d);
      }
    }
  }

  lemma ReadsFirst(s: CString, i: nat, pending: Repeat, items: seq<Item>, dollar: bool)
    requires Reads(s, i, pending, items, dollar)
    ensures pending != Once ==> i < |s| && [s[i]] == RepeatText(pending)
    ensures pending == Once && items == [] ==> if dollar then i + 1 == |s| && s[i] == '$' else i == |s|
    ensures pending == Once && items != [] ==>
              && i + |AtomText(items[0])| <= |s| && s[i..i + |AtomText(items[0])|] == AtomText(items[0])
              && ItemOk(items[0])
              && (if items[0].escaped then s[i] == '\\' && s[i + 1] == items[0].c else s[i] == items[0].c)
  {
    hide ItemOk;
    if pending != Once {
      assert s[i..][0] == RepeatText(pending)[0];
    } else if items == [] {
      assert |s[i..]| == if dollar then 1 else 0;
      assert dollar ==> s[i..][0] == '$';
    } else {
      var n := |AtomText(items[0])|;
      assert s[i..][..n] == AtomText(items[0]);
      assert s[i..][0] == AtomText(items[0])[0];
      assert items[0].escaped ==> s[i..][1] == AtomText(items[0])[1];
    }
  }

  /** Such text is accepted. */
  lemma {:induction false} Unparse(s: CString, i: nat, prev: bool, pending: Repeat, items: seq<Item>, dollar: bool)
    requires Reads(s, i, pending, items, dollar) && (pending != Once ==> prev)
    ensures i <= |s| && Acceptable(s, i, prev)
    decreases |items|, pending != Once
  {
    hide IsInSet, IsRepeat, IsValidEscape, Reads;
    ReadsBounds(s, i, pending, items, dollar);
    ReadsFirst(s, i, pending, items, dollar);
    if i < |s| {
      CharFacts(s[i]);
    }
    if pending != Once {
      ReadsRepeat(s, i, pending, items, dollar);
      Unparse(s, i + 1, false, Once, items, dollar);
    } else if items != [] {
      var item, rest := items[0], items[1..];
      assert items == [item] + rest;
      ReadsAtom(s, i, item, rest, dollar);
      Unparse(s, i + |AtomText(item)|, true, item.repeat, rest, dollar);
    }
  }

  lemma ReadsBounds(s: CString, i: nat, pending: Repeat, items: seq<Item>, dollar: bool)
    requires Reads(s, i, pending, items, dollar)
    ensures i <= |s|
  {
  }

  lemma TextReads(re: Regex, s: CString)
    requires ItemsOk(re.items)
    ensures Text(re) == s <==> if re.caret then s != "" && s[0] == '^' && Reads(s, 1, Once, re.items, re.dollar)
                               else Reads(s, 0, Once, re.items, re.dollar)
  {
    assert RepeatText(Once) + TailText(re.items, re.dollar) == TailText(re.items, re.dollar);
    assert s[0..] == s;
    if s != "" && s[0] == '^' {
      assert s == "^" + s[1..];
      SamePrefix("^", s[1..], TailText(re.items, re.dollar));
    }
  }

  /** The validator accepts exactly the texts of well-formed regexes. */
  lemma AcceptableIffRegex(s: CString)
    ensures Acceptable(s, 0, false) <==> IsRegex(s)
  {
    hide IsInSet, IsValidEscape, Text;
    if Acceptable(s, 0, false) {
      var caret := s != "" && s[0] == '^';
      if caret {
        CharFacts('^');
        assert Acceptable(s, 1, false);
      }
      var r, items, d := Parse(s, if caret then 1 else 0, false);
      TextReads(Regex(caret, items, d), s);
      assert Text(Regex(caret, items, d)) == s;
    }
    if IsRegex(s) {
      var re: Regex :| ItemsOk(re.items) && Text(re) == s;
      TextReads(re, s);
      if re.caret {
        CharFacts('^');
        Unparse(s, 1, false, Once, re.items, re.dollar);
      } else {
        Unparse(s, 0, false, Once, re.items, re.dollar);
      }
    }
  }

  method ValidateRegex(regex: Option<CString>) returns (ok: bool)
    ensures ok <==> regex.Some? && IsRegex(regex.value)
  {
    if regex.None? {
      return false;
    }
    var s := regex.value;
    AcceptableIffRegex(s);
    var isValid := true;
    var prevRepeatable := false;
    var i := 0;
    while At(s, i) != NUL
      invariant 0 <= i <= |s|
      invariant Acceptable(s, 0, false) <==> isValid && Acceptable(s, i, prevRepeatable)
      decreases |s| - i
    {
      if s[i] == '\\' {
        i := i + 1;
        if At(s, i) == NUL {
          return false;
        }
        if !IsValidEscape(s[i]) {
          isValid := false;
        }
        prevRepeatable := true;
      } else {
        var ch := s[i];
        if ch == '^' && i > 0 {
          isValid := false;
        } else if ch == '$' && At(s, i + 1) != NUL {
          isValid := false;
        } else if IsInSet(ch, "()[]{}|") {
          isValid := false;
        } else if IsRepeat(ch) && !prevRepeatable {
          isValid := false;
        }
        prevRepeatable := !IsInSet(ch, "^$?*+");
      }
      i := i + 1;
    }
    return isValid;
  }
}
