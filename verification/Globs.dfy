/** Filters: lists of globs that select tests by name. */
module Globs {
  import opened CStrings
  import opened Sequences

  // ---------- what a glob means ----------

  /** What one character of a glob may stand for. */
  predicate Fits(c: char, piece: string) {
    match c
    case '?' => |piece| == 1
    case '*' => true
    case _ => piece == [c]
  }

  /** The string cuts into one fitting piece for each character of the glob. */
  ghost predicate IsCut(glob: string, pieces: seq<string>, s: string) {
    && |pieces| == |glob| && Concat(pieces) == s
    && forall k | 0 <= k < |glob| :: Fits(glob[k], pieces[k])
  }

  ghost predicate GlobMatches(glob: string, s: string) {
    exists pieces: seq<string> :: IsCut(glob, pieces, s)
  }

  lemma EmptyGlob(s: string)
    ensures GlobMatches("", s) <==> s == ""
  {
    assert s == "" ==> IsCut("", [], s);
  }

  lemma FirstPiece(glob: string, s: string, n: nat)
    requires glob != "" && n <= |s|
    requires Fits(glob[0], s[..n]) && GlobMatches(glob[1..], s[n..])
    ensures GlobMatches(glob, s)
  {
    var rest :| IsCut(glob[1..], rest, s[n..]);
    var pieces := [s[..n]] + rest;
    assert pieces[1..] == rest;
    forall k | 0 <= k < |glob|
      ensures Fits(glob[k], pieces[k])
    {
      assert k > 0 ==> glob[k] == glob[1..][k - 1];
    }
    assert IsCut(glob, pieces, s);
  }

  lemma SplitFirst(glob: string, s: string) returns (n: nat)
    requires glob != "" && GlobMatches(glob, s)
    ensures n <= |s| && Fits(glob[0], s[..n]) && GlobMatches(glob[1..], s[n..])
  {
    var pieces :| IsCut(glob, pieces, s);
    n := |pieces[0]|;
    assert s[..n] == pieces[0] && s[n..] == Concat(pieces[1..]);
    assert IsCut(glob[1..], pieces[1..], s[n..]);
  }

  /** A glob that starts with any character but '*'. */
  lemma OneCharacter(glob: string, s: string)
    requires glob != "" && glob[0] != '*'
    ensures GlobMatches(glob, s) <==> s != "" && (glob[0] == '?' || glob[0] == s[0]) && GlobMatches(glob[1..], s[1..])
  {
    hide GlobMatches;
    if GlobMatches(glob, s) {
      var n := SplitFirst(glob, s);
      assert n == 1 && s[..1] == [s[0]];
    }
    if s != "" && (glob[0] == '?' || glob[0] == s[0]) && GlobMatches(glob[1..], s[1..]) {
      assert s[..1] == [s[0]];
      FirstPiece(glob, s, 1);
    }
  }

  /** '*' takes one character more or gives way to the rest of the glob. */
  lemma Star(glob: string, s: string)
    requires glob != "" && glob[0] == '*'
    ensures GlobMatches(glob, s) <==> (s != "" && GlobMatches(glob, s[1..])) || GlobMatches(glob[1..], s)
  {
    hide GlobMatches;
    assert s[0..] == s;
    if GlobMatches(glob, s) {
      var n := SplitFirst(glob, s);
      if n > 0 {
        assert s[1..][n - 1..] == s[n..];
        FirstPiece(glob, s[1..], n - 1);
      }
    }
    if s != "" && GlobMatches(glob, s[1..]) {
      var n := SplitFirst(glob, s[1..]);
      assert s[1..][n..] == s[n + 1..];
      FirstPiece(glob, s, n + 1);
    }
    if GlobMatches(glob[1..], s) {
      FirstPiece(glob, s, 0);
    }
  }

  // ---------- one pattern ----------

  /** The pattern at `i` runs to the next ':' or to the end of the filter. */
  function PatternEnd(filter: string, i: nat): (end: nat)
    requires i <= |filter|
    ensures i <= end <= |filter| && ':' !in filter[i..end]
    ensures end == |filter| || filter[end] == ':'
    decreases |filter| - i
  {
    if i == |filter| || filter[i] == ':' then i
    else
      var end := PatternEnd(filter, i + 1);
      assert filter[i..end] == [filter[i]] + filter[i + 1..end];
      end
  }

  predicate PatternMatchesString(pattern: CString, i: nat, str: CString, j: nat)
    requires i <= |pattern| && j <= |str|
    decreases |pattern| - i, |str| - j
  {
    match At(pattern, i)
    case '\0' => At(str, j) == NUL
    case ':' => At(str, j) == NUL
    case '?' => At(str, j) != NUL && PatternMatchesString(pattern, i + 1, str, j + 1)
    case '*' =>
      || (At(str, j) != NUL && PatternMatchesString(pattern, i, str, j + 1))
      || PatternMatchesString(pattern, i + 1, str, j)
    case c => c == At(str, j) && PatternMatchesString(pattern, i + 1, str, j + 1)
  }

  lemma {:induction false} PatternIsGlob(pattern: CString, i: nat, str: CString, j: nat)
    requires i <= |pattern| && j <= |str|
    ensures PatternMatchesString(pattern, i, str, j) <==> GlobMatches(pattern[i..PatternEnd(pattern, i)], str[j..])
    decreases |pattern| - i, |str| - j
  {
    hide GlobMatches;
    var glob := pattern[i..PatternEnd(pattern, i)];
    if glob == "" {
      EmptyGlob(str[j..]);
    } else {
      assert glob[0] == pattern[i] && glob[1..] == pattern[i + 1..PatternEnd(pattern, i + 1)];
      if j < |str| {
        assert str[j..][0] == str[j] && str[j..][1..] == str[j + 1..];
        PatternIsGlob(pattern, i + 1, str, j + 1);
      }
      if glob[0] == '*' {
        Star(glob, str[j..]);
        PatternIsGlob(pattern, i + 1, str, j);
        if j < |str| {
          PatternIsGlob(pattern, i, str, j + 1);
        }
      } else {
        OneCharacter(glob, str[j..]);
      }
    }
  }

  // ---------- a list of patterns ----------

  /** `glob` stands between two separators, or between one and an end of the filter. */
  ghost predicate IsPattern(filter: string, i: nat, glob: string) {
    && i + |glob| <= |filter| && filter[i..i + |glob|] == glob && ':' !in glob
    && (i == 0 || filter[i - 1] == ':')
    && (i + |glob| == |filter| || filter[i + |glob|] == ':')
  }

  /** Some pattern of the filter matches the name. */
  ghost predicate Selects(filter: string, name: string) {
    exists i: nat, glob: string :: IsPattern(filter, i, glob) && GlobMatches(glob, name)
  }

  lemma Inside(s: string, i: nat, j: nat, k: nat)
    requires i <= k < j <= |s|
    ensures s[k] in s[i..j]
  {
    assert s[i..j][k - i] == s[k];
  }

  lemma PatternAt(filter: string, i: nat, glob: string)
    requires i <= |filter| && (i == 0 || filter[i - 1] == ':')
    ensures IsPattern(filter, i, glob) <==> glob == filter[i..PatternEnd(filter, i)]
  {
    var end, e := PatternEnd(filter, i), i + |glob|;
    if i <= end < e <= |filter| {
      Inside(filter, i, e, end);
    }
    if e < end {
      Inside(filter, i, end, e);
    }
  }

  /** Index of the next `c` from `i` on, or the length of the string. */
  method StrChr(s: string, i: nat, c: char) returns (k: nat)
    requires i <= |s|
    ensures i <= k <= |s| && c !in s[i..k]
    ensures k == |s| || s[k] == c
  {
    k := i;
    while k < |s| && s[k] != c
      invariant i <= k <= |s| && c !in s[i..k]
    {
      k := k + 1;
    }
  }

  method MatchesFilter(name: CString, filter: CString) returns (b: bool)
    ensures b <==> Selects(filter, name)
  {
    hide GlobMatches, PatternMatchesString;
    var curPattern := 0;
    while true
      invariant 0 <= curPattern <= |filter| && (curPattern == 0 || filter[curPattern - 1] == ':')
      invariant forall i: nat, glob | IsPattern(filter, i, glob) && i < curPattern :: !GlobMatches(glob, name)
      decreases |filter| - curPattern
    {
      PatternIsGlob(filter, curPattern, name, 0);
      PatternAt(filter, curPattern, filter[curPattern..PatternEnd(filter, curPattern)]);
      assert name[0..] == name;
      if PatternMatchesString(filter, curPattern, name, 0) {
        return true;
      }
      var next := StrChr(filter, curPattern, ':');
      forall i: nat, glob | IsPattern(filter, i, glob) && i <= next
        ensures !GlobMatches(glob, name)
      {
        if i == curPattern {
          PatternAt(filter, i, glob);
        } else if i > curPattern {
          Inside(filter, curPattern, next, i - 1);
        }
      }
      if next == |filter| {
        return false;
      }
      curPattern := next + 1;
    }
  }

  // ---------- the user's filter ----------

  const UNIVERSAL_FILTER: CString := "*"
  const DISABLE_TEST_FILTER: CString := "DISABLED_*:*/DISABLED_*"
  const DEATH_TEST_SUITE_FILTER: CString := "*DeathTest:*DeathTest/*"

  /** Two patterns with ':' between them. */
  lemma TwoPatterns(a: string, b: string, s: string)
    requires ':' !in a && ':' !in b
    ensures Selects(a + ":" + b, s) <==> GlobMatches(a, s) || GlobMatches(b, s)
  {
    hide GlobMatches;
    var filter := a + ":" + b;
    assert IsPattern(filter, 0, a);
    assert IsPattern(filter, |a| + 1, b);
    forall i: nat, glob | IsPattern(filter, i, glob)
      ensures glob == a || glob == b
    {
      PatternAt(filter, i, glob);
      PatternAt(filter, 0, a);
      PatternAt(filter, |a| + 1, b);
      assert i == 0 || i == |a| + 1;
    }
  }

  lemma OnePattern(a: string, s: string)
    requires ':' !in a
    ensures Selects(a, s) <==> GlobMatches(a, s)
  {
    hide GlobMatches;
    assert IsPattern(a, 0, a);
    forall i: nat, glob | IsPattern(a, i, glob)
      ensures glob == a
    {
      PatternAt(a, i, glob);
      PatternAt(a, 0, a);
    }
  }

  /** A list of patterns is its first pattern or the rest of the list. */
  lemma PatternInFront(a: string, list: string, s: string)
    requires ':' !in a
    ensures Selects(a + ":" + list, s) <==> GlobMatches(a, s) || Selects(list, s)
  {
    hide GlobMatches;
    var filter, n := a + ":" + list, |a| + 1;
    assert IsPattern(filter, 0, a);
    forall i: nat, glob: string | n <= i
      ensures IsPattern(filter, i, glob) <==> IsPattern(list, i - n, glob)
    {
      if i + |glob| <= |filter| {
        assert filter[i..i + |glob|] == list[i - n..i - n + |glob|];
      }
    }
    forall i: nat, glob | i < n && IsPattern(filter, i, glob)
      ensures glob == a
    {
      PatternAt(filter, i, glob);
      PatternAt(filter, 0, a);
    }
    forall i: nat, glob: string | IsPattern(list, i, glob)
      ensures IsPattern(filter, i + n, glob)
    {
      assert IsPattern(filter, i + n, glob) <==> IsPattern(list, i + n - n, glob);
    }
  }

  /** Characters that stand for themselves must come first. */
  lemma {:induction false} Literally(word: string, glob: string, s: string)
    requires '*' !in word && '?' !in word
    ensures GlobMatches(word + glob, s) <==> word <= s && GlobMatches(glob, s[|word|..])
  {
    hide GlobMatches;
    if word == "" {
      assert word + glob == glob && s[0..] == s;
    } else {
      assert (word + glob)[1..] == word[1..] + glob;
      OneCharacter(word + glob, s);
      if s != "" {
        Literally(word[1..], glob, s[1..]);
        assert word == [word[0]] + word[1..] && s == [s[0]] + s[1..];
        assert |word| <= |s| ==> s[1..][|word| - 1..] == s[|word|..];
      }
    }
  }

  /** After '*' the rest may match anywhere. */
  lemma {:induction false} Anywhere(glob: string, s: string)
    ensures GlobMatches("*" + glob, s) <==> exists k {:trigger s[k..]} :: 0 <= k <= |s| && GlobMatches(glob, s[k..])
  {
    hide GlobMatches;
    Star("*" + glob, s);
    assert ("*" + glob)[1..] == glob && s[0..] == s;
    if s != "" {
      Anywhere(glob, s[1..]);
      assert forall k | 0 <= k < |s| :: s[1..][k..] == s[k + 1..];
      assert forall k | 0 < k <= |s| :: s[k..] == s[1..][k - 1..];
    }
  }

  /** The word stands somewhere in the string. */
  ghost predicate Contains(s: string, word: string) {
    exists k {:trigger s[k..]} :: 0 <= k <= |s| && word <= s[k..]
  }

  /** The string ends in the word. */
  predicate EndsIn(s: string, word: string) {
    |s| >= |word| && s[|s| - |word|..] == word
  }

  /** What the usual shapes of patterns mean for a word without wildcards. */
  lemma WordGlobs(word: string, s: string)
    requires '*' !in word && '?' !in word
    ensures GlobMatches(word + "*", s) <==> word <= s
    ensures GlobMatches("*" + word, s) <==> EndsIn(s, word)
    ensures GlobMatches("*" + (word + "*"), s) <==> Contains(s, word)
  {
    hide GlobMatches;
    assert word + "" == word && "*" + "" == "*";
    forall t: string
      ensures GlobMatches(word + "*", t) <==> word <= t
      ensures GlobMatches(word, t) <==> t == word
    {
      Literally(word, "*", t);
      Literally(word, "", t);
      if word <= t {
        var rest := t[|word|..];
        EmptyGlob(rest);
        Anywhere("", rest);
        EmptyGlob(rest[|rest|..]);
      }
    }
    Anywhere(word, s);
    Anywhere(word + "*", s);
    assert forall k | 0 <= k <= |s| && s[k..] == word :: k == |s| - |word|;
  }

  /** A name is disabled when it starts with the word, or has it after a slash. */
  lemma DisabledNames(s: string)
    ensures Selects(DISABLE_TEST_FILTER, s) <==> "DISABLED_" <= s || Contains(s, "/DISABLED_")
  {
    hide GlobMatches, Selects, Contains;
    assert DISABLE_TEST_FILTER == ("DISABLED_" + "*") + ":" + ("*" + ("/DISABLED_" + "*"));
    TwoPatterns("DISABLED_" + "*", "*" + ("/DISABLED_" + "*"), s);
    WordGlobs("DISABLED_", s);
    WordGlobs("/DISABLED_", s);
  }

  /** A death test suite's name ends in the word, or has it before a slash. */
  lemma DeathTestNames(s: string)
    ensures Selects(DEATH_TEST_SUITE_FILTER, s) <==> EndsIn(s, "DeathTest") || Contains(s, "DeathTest/")
  {
    hide GlobMatches, Selects, Contains, EndsIn;
    assert DEATH_TEST_SUITE_FILTER == ("*" + "DeathTest") + ":" + ("*" + ("DeathTest/" + "*"));
    TwoPatterns("*" + "DeathTest", "*" + ("DeathTest/" + "*"), s);
    WordGlobs("DeathTest", s);
    WordGlobs("DeathTest/", s);
  }

  /** The first '-' ends the positive patterns, and patterns that exclude follow it.
      Nothing before a '-' means everything. */
  ghost predicate Chosen(filter: string, fullName: string) {
    if '-' !in filter then Selects(filter, fullName)
    else
      exists d {:trigger filter[..d]} | 0 <= d < |filter| && filter[d] == '-' && '-' !in filter[..d] ::
        && (d == 0 || Selects(filter[..d], fullName))
        && !Selects(filter[d + 1..], fullName)
  }

  lemma UniversalMatchesAll(name: string)
    ensures Selects(UNIVERSAL_FILTER, name)
  {
    assert Concat([name]) == name;
    assert IsCut("*", [name], name);
    assert IsPattern("*", 0, "*");
  }

  lemma EmptyFilter(name: string)
    ensures Selects("", name) <==> name == ""
  {
    hide GlobMatches;
    EmptyGlob(name);
    assert IsPattern("", 0, "");
  }

  lemma NoDash(filter: string, fullName: string)
    ensures '-' !in filter ==> (Chosen(filter, fullName) <==> Selects(filter, fullName))
  {
  }

  lemma OneDash(filter: string, dash: nat, d: nat)
    requires dash < |filter| && filter[dash] == '-' && '-' !in filter[..dash]
    requires d < |filter| && filter[d] == '-'
    ensures '-' !in filter[..d] ==> d == dash
  {
    assert filter[0..d] == filter[..d];
    if dash < d {
      Inside(filter, 0, d, dash);
    }
  }

  /** Only one '-' is the first. */
  lemma FirstDash(filter: string, dash: nat, fullName: string)
    requires dash < |filter| && filter[dash] == '-' && '-' !in filter[..dash]
    ensures Chosen(filter, fullName) <==> (dash == 0 || Selects(filter[..dash], fullName))
                                          && !Selects(filter[dash + 1..], fullName)
  {
    hide Selects;
    forall d | 0 <= d < |filter| && filter[d] == '-'
      ensures '-' !in filter[..d] ==> d == dash
    {
      OneDash(filter, dash, d);
    }
  }

  /** The filter in its two parts. */
  lemma TwoParts(positive: string, negative: string, fullName: string)
    requires '-' !in positive
    ensures Chosen(positive + "-" + negative, fullName)
            <==> (positive == "" || Selects(positive, fullName)) && !Selects(negative, fullName)
  {
    var filter, dash := positive + "-" + negative, |positive|;
    hide Selects, Chosen;
    assert filter[..dash] == positive && filter[dash + 1..] == negative;
    FirstDash(filter, dash, fullName);
  }

  method FilterMatchesTest(filter: CString, testSuiteName: CString, testName: CString) returns (b: bool)
    requires |testSuiteName| + |testName| + 1 < SIZE_MAX
    ensures b <==> Chosen(filter, testSuiteName + "." + testName)
  {
    hide Selects, Chosen;
    var fullName: CString := testSuiteName + "." + testName;
    var dash := StrChr(filter, 0, '-');
    var positive: CString, negative: CString := filter, "";
    assert filter[0..dash] == filter[..dash];
    if dash < |filter| {
      positive := filter[..dash];
      negative := filter[dash + 1..];
      if positive == "" {
        positive := UNIVERSAL_FILTER;
      }
      FirstDash(filter, dash, fullName);
    }
    NoDash(filter, fullName);
    UniversalMatchesAll(fullName);
    EmptyFilter(fullName);
    b := MatchesFilter(fullName, positive);
    if b {
      var excluded := MatchesFilter(fullName, negative);
      b := !excluded;
    }
  }
}
