/** The backtracking matcher against the language of a regex. */
module RegexMatch {
  import opened CStrings
  import opened Options
  import opened RegexSyntax

  // ---------- the language ----------

  predicate AtomMatches(item: Item, ch: char) { AtomMatchesChar(item.escaped, item.c, ch) }

  predicate AtomMatchesAll(item: Item, t: string) {
    forall i | 0 <= i < |t| :: AtomMatches(item, t[i])
  }

  predicate CountOk(r: Repeat, n: nat) {
    match r
    case Once => n == 1
    case Optional => n <= 1
    case Star => true
    case Plus => n >= 1
  }

  ghost predicate InItem(item: Item, t: string) { CountOk(item.repeat, |t|) && AtomMatchesAll(item, t) }

  /** `t` is a concatenation of one string for each item. */
  ghost predicate InLanguage(items: seq<Item>, t: string) {
    if items == [] then t == ""
    else exists k :: 0 <= k <= |t| && InItem(items[0], t[..k]) && InLanguage(items[1..], t[k..])
  }

  /** A prefix of `s`, all of it under '$', is in the language. */
  ghost predicate HeadMatches(items: seq<Item>, dollar: bool, s: string) {
    exists k :: 0 <= k <= |s| && InLanguage(items, s[..k]) && (dollar ==> k == |s|)
  }

  /** Some substring of `s` that respects '^' and '$' is in the language. */
  ghost predicate SomewhereMatches(re: Regex, s: string) {
    exists i, k :: 0 <= i <= k <= |s| && InLanguage(re.items, s[i..k])
                   && (re.caret ==> i == 0) && (re.dollar ==> k == |s|)
  }

  // ---------- the documented meaning ----------

  /** One character that the atom matches. */
  predicate OneAtom(escaped: bool, c: char, t: string) { |t| == 1 && AtomMatchesChar(escaped, c, t[0]) }

  lemma OneItemIsAlone(item: Item, t: string)
    ensures InLanguage([item], t) <==> InItem(item, t)
  {
    hide InItem;
    assert [item][1..] == [];
    if InItem(item, t) {
      assert t[..|t|] == t && t[|t|..] == "";
    }
    if InLanguage([item], t) {
      var k :| 0 <= k <= |t| && InItem(item, t[..k]) && InLanguage([], t[k..]);
      assert t[..k] == t;
    }
  }

  /** A bare atom matches one character; with '?' also none. */
  lemma AtomAloneOrOptional(escaped: bool, c: char, r: Repeat, t: string)
    ensures RepeatText(r) == "" ==> (InLanguage([Item(escaped, c, r)], t) <==> OneAtom(escaped, c, t))
    ensures RepeatText(r) == "?" ==> (InLanguage([Item(escaped, c, r)], t) <==> t == "" || OneAtom(escaped, c, t))
  {
    OneItemIsAlone(Item(escaped, c, r), t);
    hide InLanguage, AtomMatchesChar;
  }

  lemma AllMatchByFront(item: Item, t: string)
    requires t != ""
    ensures AtomMatchesAll(item, t) <==> AtomMatches(item, t[0]) && AtomMatchesAll(item, t[1..])
  {
    hide AtomMatches;
    assert t == [t[0]] + t[1..];
  }

  /** With '*' an atom matches nothing, or what it matches with '+'; with '+' one
      character and then what it matches with '*'. */
  lemma StarAndPlus(escaped: bool, c: char, star: Repeat, plus: Repeat, t: string)
    requires RepeatText(star) == "*" && RepeatText(plus) == "+"
    ensures InLanguage([Item(escaped, c, star)], t) <==> t == "" || InLanguage([Item(escaped, c, plus)], t)
    ensures InLanguage([Item(escaped, c, plus)], t)
            <==> t != "" && AtomMatchesChar(escaped, c, t[0]) && InLanguage([Item(escaped, c, star)], t[1..])
  {
    var s, p := Item(escaped, c, star), Item(escaped, c, plus);
    OneItemIsAlone(s, t);
    OneItemIsAlone(p, t);
    assert AtomMatchesAll(s, t) <==> AtomMatchesAll(p, t);
    if t != "" {
      OneItemIsAlone(s, t[1..]);
      AllMatchByFront(p, t);
      assert AtomMatchesAll(s, t[1..]) <==> AtomMatchesAll(p, t[1..]);
    }
    hide InLanguage, AtomMatchesChar, AtomMatchesAll;
  }

  ghost predicate InARow(a: seq<Item>, b: seq<Item>, x: string, y: string) {
    InLanguage(a, x) && InLanguage(b, y)
  }

  /** Items one after the other match what they match one after the other. */
  lemma ItemsInARow(a: seq<Item>, b: seq<Item>, t: string)
    ensures InLanguage(a + b, t) <==> exists x, y :: InARow(a, b, x, y) && t == x + y
  {
    hide InLanguage;
    if x, y :| InARow(a, b, x, y) && t == x + y {
      RowMatches(a, b, x, y);
    }
    if InLanguage(a + b, t) {
      var x, y := MatchInARow(a, b, t);
    }
  }

  lemma {:induction false} RowMatches(a: seq<Item>, b: seq<Item>, x: string, y: string)
    requires InARow(a, b, x, y)
    ensures InLanguage(a + b, x + y)
  {
    hide InItem;
    if a == [] {
      assert a + b == b && x + y == y;
    } else {
      var k :| 0 <= k <= |x| && InItem(a[0], x[..k]) && InLanguage(a[1..], x[k..]);
      RowMatches(a[1..], b, x[k..], y);
      assert (a + b)[1..] == a[1..] + b && (x + y)[..k] == x[..k] && (x + y)[k..] == x[k..] + y;
    }
  }

  lemma {:induction false} MatchInARow(a: seq<Item>, b: seq<Item>, t: string) returns (x: string, y: string)
    requires InLanguage(a + b, t)
    ensures InARow(a, b, x, y) && t == x + y
  {
    hide InItem;
    if a == [] {
      assert a + b == b;
      x, y := "", t;
    } else {
      assert (a + b)[1..] == a[1..] + b && (a + b)[0] == a[0];
      var k :| 0 <= k <= |t| && InItem(a[0], t[..k]) && InLanguage(a[1..] + b, t[k..]);
      x, y := MatchInARow(a[1..], b, t[k..]);
      var front := t[..k] + x;
      assert front[..k] == t[..k] && front[k..] == x;
      x := front;
    }
  }

  /** The string is made of three parts, and the middle one is in the language. */
  ghost predicate HasPart(items: seq<Item>, s: string, x: string, t: string, z: string) {
    s == x + t + z && InLanguage(items, t)
  }

  /** '^' stands for the beginning of the string and '$' for its end; without them
      anything may stand in front or behind. */
  lemma AnchorsMeanWhatIsDocumented(items: seq<Item>, s: string)
    ensures SomewhereMatches(Regex(true, items, true), s) <==> InLanguage(items, s)
    ensures SomewhereMatches(Regex(true, items, false), s) <==> exists t, z :: HasPart(items, s, "", t, z)
    ensures SomewhereMatches(Regex(false, items, true), s) <==> exists x, t :: HasPart(items, s, x, t, "")
    ensures SomewhereMatches(Regex(false, items, false), s) <==> exists x, t, z :: HasPart(items, s, x, t, z)
  {
    hide InLanguage;
    forall caret, dollar
      ensures SomewhereMatches(Regex(caret, items, dollar), s)
              <==> exists x, t, z :: HasPart(items, s, x, t, z) && (caret ==> x == "") && (dollar ==> z == "")
    {
      PartsDecide(Regex(caret, items, dollar), s);
    }
    hide SomewhereMatches;
    assert "" + s + "" == s && (HasPart(items, s, "", s, "") <==> InLanguage(items, s));
    assert forall t | HasPart(items, s, "", t, "") :: t == s;
  }

  lemma PartsDecide(re: Regex, s: string)
    ensures SomewhereMatches(re, s)
            <==> exists x, t, z :: HasPart(re.items, s, x, t, z) && (re.caret ==> x == "") && (re.dollar ==> z == "")
  {
    hide InLanguage;
    if x, t, z :| HasPart(re.items, s, x, t, z) && (re.caret ==> x == "") && (re.dollar ==> z == "") {
      assert s[|x|..|x| + |t|] == t;
    }
    if SomewhereMatches(re, s) {
      var i, k :| 0 <= i <= k <= |s| && InLanguage(re.items, s[i..k])
                  && (re.caret ==> i == 0) && (re.dollar ==> k == |s|);
      assert HasPart(re.items, s, s[..i], s[i..k], s[k..]);
    }
  }

  /** The first item takes `n` characters and the rest matches what follows. */
  ghost predicate Splits(items: seq<Item>, dollar: bool, s: string, n: int)
    requires items != []
  {
    0 <= n <= |s| && InItem(items[0], s[..n]) && HeadMatches(items[1..], dollar, s[n..])
  }

  lemma HeadUnfolds(items: seq<Item>, dollar: bool, s: string)
    requires items != []
    ensures HeadMatches(items, dollar, s) <==> exists n :: Splits(items, dollar, s, n)
  {
    if HeadMatches(items, dollar, s) {
      var k :| 0 <= k <= |s| && InLanguage(items, s[..k]) && (dollar ==> k == |s|);
      var n :| 0 <= n <= |s[..k]| && InItem(items[0], s[..k][..n]) && InLanguage(items[1..], s[..k][n..]);
      assert s[..k][..n] == s[..n] && s[..k][n..] == s[n..][..k - n];
      assert Splits(items, dollar, s, n);
    }
    if exists n :: Splits(items, dollar, s, n) {
      var n :| Splits(items, dollar, s, n);
      var j :| 0 <= j <= |s[n..]| && InLanguage(items[1..], s[n..][..j]) && (dollar ==> j == |s[n..]|);
      var k := n + j;
      assert s[..k][..n] == s[..n] && s[..k][n..] == s[n..][..j];
      assert InLanguage(items, s[..k]);
    }
  }

  lemma OneStep(items: seq<Item>, dollar: bool, s: string)
    requires items != [] && items[0].repeat == Once
    ensures HeadMatches(items, dollar, s)
            <==> s != "" && AtomMatches(items[0], s[0]) && HeadMatches(items[1..], dollar, s[1..])
  {
    HeadUnfolds(items, dollar, s);
    hide HeadMatches;
    assert (exists n :: Splits(items, dollar, s, n)) <==> Splits(items, dollar, s, 1);
  }

  lemma EmptyItemsMatch(s: string)
    ensures HeadMatches([], false, s)
    ensures HeadMatches([], true, s) <==> s == ""
  {
    assert s[..0] == "";
  }

  // ---------- the matcher ----------

  /** Text that starts with an atom and its repeat. */
  lemma FirstAtom(regex: CString, items: seq<Item>, dollar: bool)
    requires items != [] && ItemsOk(items) && regex == TailText(items, dollar)
    ensures var n := |AtomText(items[0])|;
            && n <= |regex|
            && (items[0].escaped <==> regex[0] == '\\')
            && regex[n - 1] == items[0].c && regex[0] != '$'
            && (IsRepeat(At(regex, n)) <==> items[0].repeat != Once)
            && (items[0].repeat == Once ==> regex[n..] == TailText(items[1..], dollar))
            && (items[0].repeat != Once ==> n < |regex| && RepeatText(items[0].repeat) == [regex[n]]
                                            && regex[n + 1..] == TailText(items[1..], dollar))
  {
    hide IsInSet, IsRepeat, IsValidEscape, Reads, ItemsText;
    var item, rest := items[0], items[1..];
    var n := |AtomText(item)|;
    assert items == [item] + rest;
    ReadsTail(regex, 0, items, dollar);
    ReadsFirst(regex, 0, Once, items, dollar);
    ReadsAtom(regex, 0, item, rest, dollar);
    ReadsFirst(regex, n, item.repeat, rest, dollar);
    CharFacts(At(regex, n));
    TailStart(rest, dollar);
    if item.repeat == Once {
      ReadsTail(regex, n, rest, dollar);
    } else {
      ReadsRepeat(regex, n, item.repeat, rest, dollar);
      ReadsTail(regex, n + 1, rest, dollar);
    }
  }

  lemma ReadsTail(s: CString, i: nat, items: seq<Item>, dollar: bool)
    requires i <= |s|
    ensures Reads(s, i, Once, items, dollar) <==> ItemsOk(items) && s[i..] == TailText(items, dollar)
    ensures s[i..] != "" ==> At(s, i) == s[i..][0]
  {
    assert RepeatText(Once) + TailText(items, dollar) == TailText(items, dollar);
  }

  lemma TailStart(items: seq<Item>, dollar: bool)
    requires ItemsOk(items)
    ensures var tail := TailText(items, dollar);
            && (tail == "" <==> items == [] && !dollar)
            && (tail != "" ==> !IsRepeat(tail[0]) && tail[0] != NUL)
            && (tail != "" && tail[0] == '$' ==> items == [])
  {
    if items != [] {
      assert TailText(items, dollar)[0] == AtomText(items[0])[0];
    }
  }

  method MatchRepetitionAndRegexAtHead(escaped: bool, c: char, repeat: char, regex: CString, str: CString,
                                       ghost items: seq<Item>, ghost dollar: bool)
      returns (b: bool)
    requires items != [] && ItemsOk(items)
    requires items[0].escaped == escaped && items[0].c == c && RepeatText(items[0].repeat) == [repeat]
    requires regex == TailText(items[1..], dollar)
    ensures b <==> HeadMatches(items, dollar, str)
    decreases |regex|, 1
  {
    hide AtomMatchesChar, InLanguage, HeadMatches, ItemOk, TailText;
    HeadUnfolds(items, dollar, str);
    var minCount := if repeat == '+' then 1 else 0;
    var maxCount := if repeat == '?' then 1 else SIZE_MAX - 1;
    var i := 0;
    while i <= maxCount
      invariant 0 <= i <= |str| && i <= maxCount + 1
      invariant AtomMatchesAll(items[0], str[..i])
      invariant forall n | 0 <= n < i :: !Splits(items, dollar, str, n)
      decreases maxCount + 1 - i
    {
      // The atom matches each of the first i characters of str.
      if i >= minCount {
        var tail := MatchRegexAtHead(regex, str[i..], items[1..], dollar);
        if tail {
          assert Splits(items, dollar, str, i);
          return true;
        }
      }
      assert !Splits(items, dollar, str, i);
      if At(str, i) == NUL || !AtomMatchesChar(escaped, c, str[i]) {
        forall n | i < n <= |str|
          ensures !Splits(items, dollar, str, n)
        {
          assert !AtomMatches(items[0], str[..n][i]);
        }
        return false;
      }
      i := i + 1;
    }
    return false;
  }

  method MatchRegexAtHead(regex: CString, str: CString, ghost items: seq<Item>, ghost dollar: bool) returns (b: bool)
    requires ItemsOk(items) && regex == TailText(items, dollar)
    ensures b <==> HeadMatches(items, dollar, str)
    decreases |regex|, 0
  {
    hide AtomMatchesChar, InLanguage, HeadMatches, ItemOk;
    TailStart(items, dollar);
    EmptyItemsMatch(str);
    if At(regex, 0) == NUL {  // nothing is left to match
      return true;
    }
    if regex[0] == '$' {
      return At(str, 0) == NUL;
    }
    FirstAtom(regex, items, dollar);
    var escaped := regex[0] == '\\';
    var rest := if escaped then regex[1..] else regex;
    if IsRepeat(At(rest, 1)) {
      b := MatchRepetitionAndRegexAtHead(escaped, rest[0], rest[1], rest[2..], str, items, dollar);
    } else {
      OneStep(items, dollar, str);
      if At(str, 0) == NUL || !AtomMatchesChar(escaped, rest[0], str[0]) {
        b := false;
      } else {
        b := MatchRegexAtHead(rest[1..], str[1..], items[1..], dollar);
      }
    }
  }

  lemma SubstringIsHead(re: Regex, s: string)
    ensures SomewhereMatches(re, s)
            <==> exists i :: 0 <= i <= |s| && (re.caret ==> i == 0) && HeadMatches(re.items, re.dollar, s[i..])
  {
    if SomewhereMatches(re, s) {
      var i, k :| 0 <= i <= k <= |s| && InLanguage(re.items, s[i..k])
                  && (re.caret ==> i == 0) && (re.dollar ==> k == |s|);
      assert s[i..][..k - i] == s[i..k];
      assert HeadMatches(re.items, re.dollar, s[i..]);
    }
    forall i | 0 <= i <= |s| && (re.caret ==> i == 0) && HeadMatches(re.items, re.dollar, s[i..])
      ensures SomewhereMatches(re, s)
    {
      var n :| 0 <= n <= |s[i..]| && InLanguage(re.items, s[i..][..n]) && (re.dollar ==> n == |s[i..]|);
      var k := i + n;
      assert s[i..][..n] == s[i..k];
    }
  }

  /** A match can be anywhere in str, unless '^' holds it to the start. */
  method MatchRegexAnywhere(regex: Option<CString>, str: Option<CString>, ghost re: Regex) returns (b: bool)
    requires regex.Some? ==> ItemsOk(re.items) && Text(re) == regex.value
    ensures b <==> regex.Some? && str.Some? && SomewhereMatches(re, str.value)
  {
    if regex.None? || str.None? {
      return false;
    }
    var r, s := regex.value, str.value;
    SubstringIsHead(re, s);
    CaretFirst(re, r);
    hide SomewhereMatches, HeadMatches, TailText, ItemOk;
    if At(r, 0) == '^' {
      assert s[0..] == s;
      b := MatchRegexAtHead(r[1..], s, re.items, re.dollar);
      return;
    }
    var i := 0;
    while true
      invariant 0 <= i <= |s|
      invariant forall j | 0 <= j < i :: !HeadMatches(re.items, re.dollar, s[j..])
      decreases |s| - i
    {
      b := MatchRegexAtHead(r, s[i..], re.items, re.dollar);
      if b {
        return;
      }
      if At(s, i) == NUL {
        return false;
      }
      i := i + 1;
    }
  }

  lemma CaretFirst(re: Regex, r: CString)
    requires ItemsOk(re.items) && Text(re) == r
    ensures At(r, 0) == '^' <==> re.caret
    ensures if re.caret then r[1..] == TailText(re.items, re.dollar) else r == TailText(re.items, re.dollar)
  {
    TailStart(re.items, re.dollar);
    if !re.caret && re.items != [] {
      assert r[0] == AtomText(re.items[0])[0];
    }
  }
}
