/** The RE class over the simple engine: building the pattern of a full match. */
module RegexFull {
  import opened CStrings
  import opened Options
  import opened RegexSyntax
  import opened RegexMatch

  /** The pattern text ends in an escaped '$', which RE.Init takes for an anchor. */
  ghost predicate EndsInEscapedDollar(re: Regex) {
    !re.dollar && re.items != [] && re.items[|re.items| - 1] == Item(true, '$', Once)
  }

  /** What the full pattern means. */
  ghost function FullRegex(re: Regex): Regex {
    Regex(true, re.items, !EndsInEscapedDollar(re))
  }

  function FrontAnchor(regex: string): string { if regex != "" && regex[0] == '^' then "" else "^" }

  function EndAnchor(regex: string): string { if regex != "" && regex[|regex| - 1] == '$' then "" else "$" }

  /** The pattern that RE.Init builds. */
  function FullPattern(regex: string): string { FrontAnchor(regex) + regex + EndAnchor(regex) }

  lemma PatternParts(regex: CString)
    ensures FullPattern(regex) == FrontAnchor(regex) + regex + EndAnchor(regex)
    ensures NUL !in FullPattern(regex)
  {
  }

  lemma {:induction false} ItemsTextConcat(a: seq<Item>, b: seq<Item>)
    ensures ItemsText(a + b) == ItemsText(a) + ItemsText(b)
  {
    if a == [] {
      assert a + b == b;
    } else {
      assert (a + b)[1..] == a[1..] + b;
      ItemsTextConcat(a[1..], b);
    }
  }

  lemma LastOfItem(item: Item)
    requires ItemOk(item)
    ensures var text := AtomText(item) + RepeatText(item.repeat);
            text != "" && (text[|text| - 1] == '$' <==> item == Item(true, '$', Once))
  {
    hide IsInSet, IsRepeat, IsValidEscape;
  }

  /** The last character of items is a '$' only if it is an escaped one. */
  lemma LastCharacter(items: seq<Item>)
    requires ItemsOk(items) && items != []
    ensures var text := ItemsText(items);
            text != "" && (text[|text| - 1] == '$' <==> items[|items| - 1] == Item(true, '$', Once))
  {
    var n := |items| - 1;
    var last := items[n];
    assert items == items[..n] + [last];
    ItemsTextConcat(items[..n], [last]);
    LastOfItem(last);
    OneItem(last);
    hide ItemOk, ItemsText, RepeatText, AtomText;
    var text := AtomText(last) + RepeatText(last.repeat);
    LastOfConcat(ItemsText(items[..n]), text);
  }

  lemma OneItem(item: Item)
    ensures ItemsText([item]) == AtomText(item) + RepeatText(item.repeat)
    ensures ItemsText([]) == ""
  {
    assert [item][1..] == [];
  }

  lemma LastOfConcat(a: string, b: string)
    requires b != ""
    ensures (a + b)[|a + b| - 1] == b[|b| - 1]
  {
  }

  /** Whether an anchor is missing shows in the last character. */
  lemma AnchorNeeded(re: Regex)
    requires ItemsOk(re.items)
    ensures var text := ItemsText(re.items);
            EndsInEscapedDollar(re) <==> !re.dollar && text != "" && text[|text| - 1] == '$'
  {
    OneItem(Item(true, '$', Once));
    if re.items != [] {
      LastCharacter(re.items);
    }
  }

  lemma TextParts(re: Regex)
    ensures Text(re) == (if re.caret then "^" else "") + (ItemsText(re.items) + if re.dollar then "$" else "")
  {
  }

  /** The full pattern is the text of the full regex. */
  lemma FullPatternText(re: Regex, regex: CString)
    requires ItemsOk(re.items) && Text(re) == regex
    ensures FullPattern(regex) == Text(FullRegex(re))
  {
    CaretFirst(re, regex);
    assert regex != "" && regex[0] == '^' <==> re.caret;
    TextParts(re);
    TextParts(FullRegex(re));
    AnchorNeeded(re);
    assert FullRegex(re).items == re.items && FullRegex(re).dollar == !EndsInEscapedDollar(re) && FullRegex(re).caret;
    hide *;
    FullPatternOf(re.caret, ItemsText(re.items), re.dollar, regex);
  }

  /** Building the full pattern from the three parts of a regex text. */
  lemma FullPatternOf(caret: bool, text: string, dollar: bool, regex: string)
    requires regex == (if caret then "^" else "") + (text + if dollar then "$" else "")
    requires regex != "" && regex[0] == '^' <==> caret
    ensures FullPattern(regex)
            == "^" + (text + if dollar || text == "" || text[|text| - 1] != '$' then "$" else "")
  {
    var tail := text + if dollar then "$" else "";
    if tail != "" {
      LastOfConcat(if caret then "^" else "", tail);
      if dollar {
        LastOfConcat(text, "$");
      }
    }
  }

  // ---------- what a full match means ----------

  lemma AnchoredIsWhole(items: seq<Item>, s: string)
    ensures SomewhereMatches(Regex(true, items, true), s) <==> InLanguage(items, s)
    ensures SomewhereMatches(Regex(true, items, false), s)
            <==> exists k :: 0 <= k <= |s| && InLanguage(items, s[0..k])
  {
    assert s[0..|s|] == s;
  }

  /** A character that an atom matches. */
  function Sample(item: Item): char {
    if !item.escaped then item.c
    else match item.c
      case 'd' => '0'
      case 'D' => 'a'
      case 'f' => '\U{c}'
      case 'n' => '\n'
      case 'r' => '\r'
      case 's' => ' '
      case 'S' => 'a'
      case 't' => '\t'
      case 'v' => '\U{b}'
      case 'w' => 'a'
      case 'W' => ' '
      case _ => item.c
  }

  lemma SampleMatches(item: Item)
    requires ItemOk(item)
    ensures AtomMatches(item, Sample(item)) && Sample(item) != NUL
    ensures InItem(item, [Sample(item)])
  {
    if item.escaped && item.c in "dDfnrsStvwW" {
      SpecialAtoms();
    } else if item.escaped {
      hide IsAsciiWhiteSpace;
      assert IsInSet(item.c, "dDfnrsStvwW") <==> false;
    }
  }

  lemma SpecialAtoms()
    ensures AtomMatchesChar(true, 's', ' ') && AtomMatchesChar(true, 'S', 'a')
    ensures AtomMatchesChar(true, 'w', 'a') && AtomMatchesChar(true, 'W', ' ')
    ensures AtomMatchesChar(true, 'd', '0') && AtomMatchesChar(true, 'D', 'a')
  {
    assert " \U{c}\n\r\t\U{b}"[0] == ' ';
  }

  function SampleText(items: seq<Item>): string {
    if items == [] then "" else [Sample(items[0])] + SampleText(items[1..])
  }

  /** No language is empty. */
  lemma {:induction false} SampleIsInLanguage(items: seq<Item>)
    requires ItemsOk(items)
    ensures InLanguage(items, SampleText(items)) && NUL !in SampleText(items)
    ensures |SampleText(items)| == |items|
  {
    if items != [] {
      SampleMatches(items[0]);
      SampleIsInLanguage(items[1..]);
      var t := SampleText(items);
      hide ItemOk, InItem, Sample;
      assert t[..1] == [Sample(items[0])] && t[1..] == SampleText(items[1..]);
    }
  }

  /** Texts of items that end in an escaped '$' end in '$'. */
  lemma {:induction false} EscapedDollarIsLast(items: seq<Item>, t: string)
    requires items != [] && items[|items| - 1] == Item(true, '$', Once) && InLanguage(items, t)
    ensures t != "" && t[|t| - 1] == '$'
    decreases |items|
  {
    var k :| 0 <= k <= |t| && InItem(items[0], t[..k]) && InLanguage(items[1..], t[k..]);
    if |items| == 1 {
      assert t[k..] == "" && |t[..k]| == 1;
      assert AtomMatches(items[0], t[..k][0]);
    } else {
      EscapedDollarIsLast(items[1..], t[k..]);
    }
  }

  /** FullMatch tests the whole string exactly for the patterns that do not end in
      an escaped '$'; for those that do, a matching prefix is enough. */
  lemma FullMatchIsWhole(re: Regex)
    requires ItemsOk(re.items) && |re.items| + 1 < SIZE_MAX
    ensures (forall s: CString :: SomewhereMatches(FullRegex(re), s) <==> InLanguage(re.items, s))
            <==> !EndsInEscapedDollar(re)
  {
    hide SomewhereMatches, InLanguage, ItemOk;
    if EndsInEscapedDollar(re) {
      var w := SampleText(re.items);
      SampleIsInLanguage(re.items);
      var s: CString := w + "x";
      AnchoredIsWhole(re.items, s);
      assert s[0..|w|] == w;
      if InLanguage(re.items, s) {
        EscapedDollarIsLast(re.items, s);
      }
      assert SomewhereMatches(FullRegex(re), s) && !InLanguage(re.items, s);
    } else {
      forall s: CString
        ensures SomewhereMatches(FullRegex(re), s) <==> InLanguage(re.items, s)
      {
        AnchoredIsWhole(re.items, s);
      }
    }
  }

  /** The pattern \\$ with the string $5: a full match is reported, though only the
      first character is in the language. */
  lemma EscapedDollarMatchesMore()
    ensures var re := Regex(false, [Item(true, '$', Once)], false);
            && ItemsOk(re.items) && Text(re) == "\\$"
            && SomewhereMatches(FullRegex(re), "$5") && !InLanguage(re.items, "$5")
  {
    var item := Item(true, '$', Once);
    var re := Regex(false, [item], false);
    OneItem(item);
    OneEscapedDollar(item);
    assert "$5"[0..1] == "$";
    if InLanguage(re.items, "$5") {
      EscapedDollarIsLast(re.items, "$5");
    }
  }

  lemma OneEscapedDollar(item: Item)
    requires item == Item(true, '$', Once)
    ensures ItemOk(item) && InLanguage([item], "$")
  {
    assert "$"[..1] == "$" && "$"[1..] == "" && [item][1..] == [];
  }

  // ---------- the class ----------

  class RE {
    var pattern: Option<CString>
    var fullPattern: Option<CString>
    var isValid: bool
    ghost var re: Regex

    /** A valid RE has a regex `re`; its two patterns are the texts of that regex and
        of the anchored one. */
    ghost predicate Valid()
      reads this
    {
      isValid ==>
        && ItemsOk(re.items)
        && pattern.Some? && pattern.value == Text(re)
        && fullPattern.Some? && fullPattern.value == Text(FullRegex(re))
    }

    /** The buffer handed to malloc must have a size. */
    constructor (regex: Option<CString>)
      requires regex.Some? ==> |regex.value| + 3 <= SIZE_MAX
      ensures Valid() && pattern == regex
      ensures isValid <==> regex.Some? && IsRegex(regex.value)
    {
      pattern := regex;
      fullPattern := None;
      var ok := ValidateRegex(regex);
      isValid := ok;
      new;
      hide Text, ItemOk, FullPattern;
      if !isValid {
        // An invalid regex keeps a null full pattern.
        return;
      }
      ghost var parsed: Regex :| ItemsOk(parsed.items) && Text(parsed) == regex.value;
      re := parsed;
      FullPatternText(re, regex.value);
      var full := BuildFullPattern(regex.value);
      fullPattern := Some(full);
    }

    static method BuildFullPattern(regex: CString) returns (full: CString)
      requires |regex| + 3 <= SIZE_MAX
      ensures full == FullPattern(regex)
    {
      PatternParts(regex);
      hide FullPattern;
      var len := |regex|;
      var buffer := new char[len + 3];
      var n := 0;
      if At(regex, 0) != '^' {
        buffer[n] := '^';  // anchors the front
        n := n + 1;
      }
      ghost var start := buffer[..n];
      assert start == FrontAnchor(regex);
      hide FrontAnchor;
      var i := 0;
      while i < len
        invariant 0 <= i <= len && n == |start| + i <= len + 1
        invariant buffer[..n] == start + regex[..i]
      {
        buffer[n] := regex[i];
        n, i := n + 1, i + 1;
      }
      ghost var copied := start + regex;
      assert buffer[..n] == copied by {
        assert regex[..i] == regex;
      }
      if len == 0 || regex[len - 1] != '$' {
        buffer[n] := '$';  // anchors the end
        n := n + 1;
      }
      assert buffer[..n] == copied + EndAnchor(regex);
      buffer[n] := NUL;
      full := buffer[..n];
    }

    method FullMatch(str: Option<CString>) returns (b: bool)
      requires Valid()
      ensures b <==> isValid && str.Some? && SomewhereMatches(FullRegex(re), str.value)
    {
      if !isValid {
        return false;
      }
      b := MatchRegexAnywhere(fullPattern, str, FullRegex(re));
    }

    method PartialMatch(str: Option<CString>) returns (b: bool)
      requires Valid()
      ensures b <==> isValid && str.Some? && SomewhereMatches(re, str.value)
    {
      if !isValid {
        return false;
      }
      b := MatchRegexAnywhere(pattern, str, re);
    }
  }
}
