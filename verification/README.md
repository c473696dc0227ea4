# Proofs about syd and the googletest sources it carries

A Dafny 4.11 model of the parts of the repository where correctness is hard to see from the
code, with proofs. `dafny verify dfyconfig.toml` checks everything.

| files | what they model |
|---|---|
| BipartiteGraph, MatchMatrix, MaxBipartiteMatch, UnorderedMatcher | the augmenting-path search behind the unordered-elements matchers |
| EditDistance, OptimalEdits, EditTable | the edit script between two lists of lines |
| DiffTexts, Hunk, HunkShape, EditCursors, EditLines, ShownLines, ToldEdits, HunkFilling, Patches, UnifiedDiff | the unified diff that is printed from the script, which edits it tells, and its text read back as a patch |
| RegexSyntax, RegexMatch, RegexFull | the simple regular expressions used where POSIX ones are missing |
| Prerequisites, Traversal, Expectations, CallOrder, MockCalls, CallBooks, CallBounds, DeclaredLinks, MockRuns | mock expectations: prerequisites, sequences, bounds, retirement, and whole runs of calls that turn out as a simple book says |
| PrimeFacts, PrimeTables | the sample prime tables: trial division, the sieve, and the hybrid |
| Globs, Shards, Shuffles, TestSuites, UnitTests | which tests run, on which shard, and in which order |
| Utf8, WideStrings | the UTF-8 validator, and wide strings encoded as UTF-8 |
| StringLiterals | strings printed as C++ literals |
| SmallData, Ownership, LocalAddress | the small-buffer array `sdo`, its blocks over whole runs, and the query for a socket's address |
| Arithmetic, CStrings, Decimals, Hexadecimal, MachineWords, Options, Sequences, Sets | shared facts and types |

Code that changes state step by step is modelled by classes and methods with loops; each method
is proved against a statement that does not mention its body, or against a function whose
properties are proved as lemmas.

What the proofs found out about the code:

* `CalculateOptimalEdits` is documented as returning optimal edits. A tie between adding and
  removing falls through to replacing, so it does not always. `OptimalIffFreeRoute` says exactly
  for which inputs it does, and `NotAlwaysOptimal` gives an input where it does not.
* `CreateUnifiedDiff` with a context of zero returns an empty diff for every pair of inputs. With
  any other context its text is a patch if and only if no line that it shows holds a NUL, where
  the stream cuts the line, or a newline; `NulAndNewlineBreakTheText` gives inputs.
* `RE::FullMatch` is documented to match the entire string. For a pattern whose last character is
  an escaped dollar sign it does not, because that character is taken for an anchor
  (`FullMatchIsWhole`, and `EscapedDollarMatchesMore` for an input).
* `GetNextPrime(-1)` is -1 for the on-the-fly table and 2 for a table that holds 2. From 0 on
  all tables agree.
* `CodePointToUtf8` is documented to report code points above U+10FFFF. It does so only above
  0x1FFFFF (`MessageIffBeyondLimit`) and encodes the ones between as four bytes that are not valid
  UTF-8 (`WhenOutputIsText`). A code point of zero is encoded as nothing.
* `GetTestSuite(int) const` is documented like the accessor that the run uses, but takes the
  suite at the index it was given and not at the shuffled one (`AccessorsAgreeIffUnshuffled`).
* A string printed by `PrintCharsAsStringTo` reads back as itself unless a zero stands before an
  octal digit; `ReadBack` says what it reads as otherwise.
* `sdo::reserve` records the new capacity before it asks for memory. When the request fails the
  object claims a block that it does not have (`GrowWithoutMemory`); nothing else can bring
  ownership out of order.
* `connected_socket::local_address` runs into the assertion of `address::resize` exactly when the
  kernel reports a length from 1 to 15, as it does for an unnamed Unix socket
  (`UnnamedUnixSocket`).

## Model

| member | source | states |
|---|---|---|
| MaxBipartiteMatch.MaxBipartiteMatchState.Compute | src/thirdparty/googletest/googlemock/src/gmock-matchers.cc:130-161 | for every matrix the result is a matching with at least as many pairs as any other, listed by increasing left node without repetition; no left node is already used when its turn comes, so the check inside the loop never fires |
| MaxBipartiteMatch.MaxBipartiteMatchState.TryAugment | src/thirdparty/googletest/googlemock/src/gmock-matchers.cc:182-206 | ends; on success the links are as `Augmented` says, on failure both arrays are as before and the newly seen right nodes are a dead end; nodes are only ever added to `seen` |
| MaxBipartiteMatch.AugmentedAtTop | src/thirdparty/googletest/googlemock/src/gmock-matchers.cc:145-153 | a success at the top level restores the mutual links, adds exactly one matched left node, the one tried, and a cover of the same size is kept by adding it |
| MaxBipartiteMatch.DeadEndAtTop | src/thirdparty/googletest/googlemock/src/gmock-matchers.cc:145-153 | a failure lets the newly seen right nodes replace their mates in the cover, so one attempt for each left node is enough |
| MaxBipartiteMatch.LinkThrough | src/thirdparty/googletest/googlemock/src/gmock-matchers.cc:188-204 | while the recursion unwinds one stale link is left; taking over the node whose old mate found another repairs it |
| MaxBipartiteMatch.LinkToSink | src/thirdparty/googletest/googlemock/src/gmock-matchers.cc:188-204 | taking an unused right node augments |
| MaxBipartiteMatch.ExploreFurther | src/thirdparty/googletest/googlemock/src/gmock-matchers.cc:188-204 | a failed recursive call extends what the search has ruled out; seen nodes stay closed under the neighbours of their mates |
| MaxBipartiteMatch.OneMoreTried | src/thirdparty/googletest/googlemock/src/gmock-matchers.cc:130-153 | one more left node tried: all edges of the nodes tried so far are covered by as many nodes as there are pairs |
| MaxBipartiteMatch.FinishedIsMaximum | src/thirdparty/googletest/googlemock/src/gmock-matchers.cc:130-161 | a cover no larger than the matching proves the matching maximum |
| BipartiteGraph.WeakDuality | src/thirdparty/googletest/googlemock/src/gmock-matchers.cc:60-121 | no matching has more pairs than any vertex cover has nodes |
| BipartiteGraph.ReplaceMates | src/thirdparty/googletest/googlemock/src/gmock-matchers.cc:182-206 | in a cover as small as a matching, right nodes can replace their mates without changing the size |
| UnorderedMatcher.FindMaxBipartiteMatching | src/thirdparty/googletest/googlemock/include/gmock/gmock-matchers.h:2889-2892 | returns a maximum matching without repeated pairs |
| UnorderedMatcher.FindPairing | src/thirdparty/googletest/googlemock/src/gmock-matchers.cc:420-459 | true exactly when some matching uses all matchers (Superset), when some matching uses all elements (Subset), and when some single matching does both (ExactMatch), each flag stated by itself |
| UnorderedMatcher.VerifyMatchMatrix | src/thirdparty/googletest/googlemock/src/gmock-matchers.cc:370-418 | true exactly when every matcher has an edge (Superset), every element has one (Subset), or all have one (ExactMatch), each flag stated by itself |
| UnorderedMatcher.WhatFlagsAsk | src/thirdparty/googletest/googlemock/include/gmock/gmock-matchers.h:2894-2900 | what the pairing of a flag is, without the flags' own tests: Superset leaves no matcher unused, Subset no element, ExactMatch neither |
| UnorderedMatcher.IsolatedMeansNoPairing | src/thirdparty/googletest/googlemock/src/gmock-matchers.cc:370-459 | what `VerifyMatchMatrix` rejects, `FindPairing` with the same flags rejects too |
| UnorderedMatcher.MaximumDecides | src/thirdparty/googletest/googlemock/src/gmock-matchers.cc:420-447 | comparing the size of a maximum matching with the two node counts decides whether the assignment exists |
| UnorderedMatcher.ExactNeedsEqualSizes | src/thirdparty/googletest/googlemock/include/gmock/gmock-matchers.h:2990-3002 | ExactMatch with different counts has no assignment, so the early exit is right |
| UnorderedMatcher.MatchAndExplain | src/thirdparty/googletest/googlemock/include/gmock/gmock-matchers.h:2980-3007 | the shortcuts together accept exactly the matrices with a matching that uses all matchers (Superset), all elements (Subset), or all of both (ExactMatch) |
| MatchMatrices.MatchMatrix.constructor | src/thirdparty/googletest/googlemock/include/gmock/gmock-matchers.h:2848-2852 | a new matrix has no edges |
| MatchMatrices.MatchMatrix.NextGraph | src/thirdparty/googletest/googlemock/src/gmock-matchers.cc:247-259 | adds one to the matrix read as a binary number; false says that it wrapped from all edges to none |
| MatchMatrices.NumberIsOneToOne | src/thirdparty/googletest/googlemock/include/gmock/gmock-matchers.h:2842-2845 | matrices of one shape have distinct numbers below 2^size |
| MatchMatrices.MatchMatrix.AllGraphs | src/thirdparty/googletest/googlemock/include/gmock/gmock-matchers.h:2842-2845 | repeating NextGraph from the empty matrix visits every configuration exactly once, in the order of the numbers, and ends at the empty one |
| MatchMatrices.MatchMatrix.SetEdge | src/thirdparty/googletest/googlemock/include/gmock/gmock-matchers.h:2858-2860 | writes one edge and no other |
| MatchMatrices.DistinctCells | src/thirdparty/googletest/googlemock/include/gmock/gmock-matchers.h:2873-2875 | the flattened index gives distinct cells distinct places |
| EditTable.FillTable | src/thirdparty/googletest/googletest/src/gtest.cc:1101-1142 | every cell of both tables holds the cost and the move of its two prefixes |
| EditTable.CalculateOptimalEdits | src/thirdparty/googletest/googletest/src/gtest.cc:1099-1154 | the script read backwards from the tables is the path of the whole inputs, and it is a script from left to right |
| OptimalEdits.PathIsScript | src/thirdparty/googletest/googletest/src/gtest.cc:1144-1153 | the path consumes both inputs exactly, matches only equal items, and weighs what the last cell says |
| EditDistance.ScriptRewrites | src/thirdparty/googletest/googletest/include/gtest/internal/gtest-internal.h:152-156 | carrying out a script on its left input gives its right input |
| OptimalEdits.WeightBounds | src/thirdparty/googletest/googletest/src/gtest.cc:1106-1142 | the cost is at most that of replacing along the diagonal and adding or removing the rest, and at least the difference of the lengths |
| OptimalEdits.ZeroWeight | src/thirdparty/googletest/googletest/src/gtest.cc:1106-1142 | the cost is zero exactly when the inputs are equal |
| EditDistance.NoScriptIsLighter | src/thirdparty/googletest/googletest/include/gtest/internal/gtest-internal.h:152-156 | no script weighs less than the recursively defined distance |
| EditDistance.SomeScriptAttains | src/thirdparty/googletest/googletest/include/gtest/internal/gtest-internal.h:152-156 | some script weighs exactly that |
| EditDistance.WeightIsChanges | src/thirdparty/googletest/googletest/src/gtest.cc:1134-1139 | a weight is the number of changes and a hundred-thousandth for each replace |
| EditDistance.FewestChanges | src/thirdparty/googletest/googletest/include/gtest/internal/gtest-internal.h:152-156 | what optimal means when one side has fewer than 100000 items: no script makes fewer changes, and none with as few has fewer replaces |
| OptimalEdits.OptimalIffFreeRoute | src/thirdparty/googletest/googletest/include/gtest/internal/gtest-internal.h:152-156 | for any two inputs the edits are optimal if and only if some lightest route through the table passes no cell that replaces where adding or removing would have been cheaper |
| OptimalEdits.CellIsDistance | src/thirdparty/googletest/googletest/src/gtest.cc:1106-1142 | the last cell holds the least cost of any script exactly when there is such a route |
| OptimalEdits.RefusalOnPathCosts | src/thirdparty/googletest/googletest/src/gtest.cc:1126-1140 | a path that passes such a cell itself always costs more than needed (a tie between adding and removing falls through to replacing) |
| OptimalEdits.RefusalOffTheRoute | src/thirdparty/googletest/googletest/src/gtest.cc:1126-1140 | elsewhere such a cell may do no harm: 0 1 against 1 0 0 has one, and its edits are optimal |
| OptimalEdits.OptimalIffNoRefusal | src/thirdparty/googletest/googletest/src/gtest.cc:1106-1142 | no cell at all is of that kind if and only if the edits are optimal for all prefixes of the two inputs |
| OptimalEdits.NotAlwaysOptimal | src/thirdparty/googletest/googletest/include/gtest/internal/gtest-internal.h:152-156 | the documented promise fails for 1 2 1 against 2 1 2, where the last cell replaces |
| OptimalEdits.TableIsDistance | src/thirdparty/googletest/googletest/src/gtest.cc:1106-1142 | without such a cell the cost is the distance |
| EditTable.InternalStrings.GetId | src/thirdparty/googletest/googletest/src/gtest.cc:1161-1166 | equal strings get equal ids, distinct strings distinct ids, and no id changes |
| EditTable.PathSeesOnlyEquality | src/thirdparty/googletest/googletest/src/gtest.cc:1175-1189 | the path depends only on which items are equal, so interning changes no edit |
| EditTable.CalculateOptimalLineEdits | src/thirdparty/googletest/googletest/src/gtest.cc:1175-1189 | the edits of the ids are the edits of the lines |
| Hunks.Hunk.PushLine | src/thirdparty/googletest/googletest/src/gtest.cc:1206-1222 | a pushed line joins the left side, the right side or both, in order, and the hunk's lines stay a rearrangement of the pushed ones whatever the regrouping does; the counts follow |
| Hunks.Hunk.FlushEdits | src/thirdparty/googletest/googletest/src/gtest.cc:1237-1240 | removed lines go before added ones, and the lines stay the same on each side |
| Hunks.PushedSides | src/thirdparty/googletest/googletest/src/gtest.cc:1206-1222 | what one more pending line does to the two sides |
| Hunks.Hunk.EditsAreShown | src/thirdparty/googletest/googletest/src/gtest.cc:1234-1234 | the hunk has edits exactly when it shows a line that is not common |
| Hunks.Hunk.LinesAreGrouped | src/thirdparty/googletest/googletest/src/gtest.cc:1193-1196 | nowhere in a hunk does a removed line stand directly behind an added one |
| Hunks.Hunk.RangesCountLines | src/thirdparty/googletest/googletest/src/gtest.cc:1246-1258 | the numbers in the header count the lines shown of each file; a file has no range exactly when no line is its own |
| Hunks.Hunk.PrintHeader | src/thirdparty/googletest/googletest/src/gtest.cc:1246-1258 | the characters written are the header of the ranges, which `DiffTexts.HeaderIsReadBack` reads |
| Hunks.Hunk.PrintTo | src/thirdparty/googletest/googletest/src/gtest.cc:1224-1232 | the characters written are the text of the hunk, each line up to its first NUL |
| DiffTexts.HeaderIsReadBack | src/thirdparty/googletest/googletest/src/gtest.cc:1242-1258 | the header determines the ranges, digit by digit, also when one of them is left out |
| DiffTexts.ReadsBackIffPrintable | src/thirdparty/googletest/googletest/src/gtest.cc:1224-1232 | a reader of the text gets exactly the printed hunks back if and only if no line holds a NUL or a newline |
| DiffTexts.FirstHeadersAreRead | src/thirdparty/googletest/googletest/src/gtest.cc:1224-1258 | whatever such a line does to the text, the hunks before it are read back, and the header above it |
| Patches.HunkAppliedAt | src/thirdparty/googletest/googletest/src/gtest.cc:1242-1258 | a hunk that can be applied shows what the two files hold at the positions of its header |
| Patches.TextPatchesIffPrintable | src/thirdparty/googletest/googletest/src/gtest.cc:1224-1258 | hunks that are a patch are one as text if and only if no line holds a NUL or a newline: no misreading makes up for one |
| UnifiedDiff.CreateUnifiedDiff | src/thirdparty/googletest/googletest/src/gtest.cc:1274-1335 | with context the hunks tell the edits of the script that `CalculateOptimalEdits` returns (`Told`): each shows the lines of a run of its edits, in order, and an edit belongs to a run exactly when a change is at most `context` edits away; so the removed and added lines number the script's, and the text is empty exactly for equal inputs. The text, read as a patch, turns left into right if and only if the inputs are equal (without context), or no line that the diff shows holds a NUL or a newline (with context); the hunks before printing are a patch whenever there is context; every hunk is cut as the context asks (`CutsFiles`), puts the removes of a change before its adds, and leaves out the range of a file exactly when it shows no line of that file alone (`WellFormed`) |
| ToldEdits.EveryChangeIsTold | src/thirdparty/googletest/googletest/src/gtest.cc:1281-1333 | a diff that tells a script shows as many removed lines as the script removes or replaces, and as many added ones as it adds or replaces |
| ToldEdits.GapsMatch | src/thirdparty/googletest/googletest/src/gtest.cc:1282-1287 | the edits that such a diff leaves out, before, between and behind its hunks, are matches |
| ToldEdits.TellsCounts | src/thirdparty/googletest/googletest/src/gtest.cc:1313-1324 | in each hunk the common lines number the matches of its run, the removed and added ones its removes, adds and replaces |
| EditLines.LinesAreCounted | src/thirdparty/googletest/googletest/src/gtest.cc:1313-1324 | so do the lines that the edits of a run show one by one |
| EditLines.OneGroupedBody | src/thirdparty/googletest/googletest/src/gtest.cc:1206-1222 | the lines of a run determine the hunk's body: there is only one way to put the removes of a change before its adds that keeps the order on each side |
| UnifiedDiff.HunkTells | src/thirdparty/googletest/googletest/src/gtest.cc:1281-1333 | a hunk tells the run of edits from its leading context to where the filling stopped: its lines are those of the run, and its ranges count what the run walks over |
| UnifiedDiff.EmptyIffEqual | src/thirdparty/googletest/googletest/src/gtest.cc:1277-1335 | with context nothing is printed exactly for equal inputs |
| UnifiedDiff.PrintableFiles | src/thirdparty/googletest/googletest/include/gtest/internal/gtest-internal.h:166-169 | files without a NUL or a newline inside a line meet that condition for every context |
| UnifiedDiff.NulAndNewlineBreakTheText | src/thirdparty/googletest/googletest/src/gtest.cc:1293-1319 | files of one line each that differ only behind a NUL, or only behind a newline, fail it for every context |
| UnifiedDiff.NoContextLosesEdits | src/thirdparty/googletest/googletest/src/gtest.cc:1298-1330 | without context the empty diff is a patch only between equal inputs |
| UnifiedDiff.HunkAdded | src/thirdparty/googletest/googletest/src/gtest.cc:1281-1333 | one more hunk extends the patch: the hunks are in order, do not overlap, and between them the files agree |
| UnifiedDiff.HunkWritten | src/thirdparty/googletest/googletest/src/gtest.cc:1281-1333 | one more hunk shows all its edits and skips only edits that are not shown, so its lines can be printed exactly when those of its edits can |
| HunkFilling.FillHunk | src/thirdparty/googletest/googletest/src/gtest.cc:1298-1325 | from a change on, edits are pushed until the matches behind them are as many as the context and no change is near; the last `context` of those matches are kept; every edit pushed has a change at most `context` edits away |
| HunkFilling.StartHunk | src/thirdparty/googletest/googletest/src/gtest.cc:1289-1294 | a hunk opens with up to `context` lines of common prefix, at the positions its header will show |
| ShownLines.NextIsShown | src/thirdparty/googletest/googletest/src/gtest.cc:1298-1312 | why: the edit is a change, or the last change is close behind it, or the next one is close ahead |
| ShownLines.LinesOfEdits | src/thirdparty/googletest/googletest/src/gtest.cc:1316-1324 | the lines that a run of edits walks over are printable exactly when the edits are |
| UnifiedDiff.SkipMatches | src/thirdparty/googletest/googletest/src/gtest.cc:1282-1287 | matches before a change are passed over, and both files advance alike |
| RegexSyntax.ValidateRegex | src/thirdparty/googletest/googletest/src/gtest-port.cc:827-878 | true exactly for the texts of well-formed regexes |
| RegexSyntax.AcceptableIffRegex | src/thirdparty/googletest/googletest/src/gtest-port.cc:827-878 | scanning character by character and being the text of a syntax tree are the same |
| RegexSyntax.AtomsMeanWhatIsDocumented | src/thirdparty/googletest/googletest/docs/advanced.md:769-782 | every atom that the validator lets through matches what the table of the documentation says |
| RegexSyntax.AtomsByCodes | src/thirdparty/googletest/googletest/src/gtest-port.cc:791-793 | the escapes are a backslash before a punctuation character or one of eleven letters; all characters but NUL and thirteen others stand for themselves |
| RegexSyntax.PunctuationIsComplete | src/thirdparty/googletest/googletest/src/gtest-port.cc:781-783 | the punctuation list holds every printing ASCII character but letters, digits and the blank |
| RegexSyntax.WhiteSpaceIsComplete | src/thirdparty/googletest/googletest/src/gtest-port.cc:785-785 | the white space list is the codes 9 to 13 and the blank |
| RegexMatch.MatchRepetitionAndRegexAtHead | src/thirdparty/googletest/googletest/src/gtest-port.cc:887-909 | true exactly when a permitted number of repetitions and the rest of the regex match a prefix, stopping where the atom stops matching |
| RegexMatch.MatchRegexAtHead | src/thirdparty/googletest/googletest/src/gtest-port.cc:914-940 | ends, stays in bounds, and is true exactly when a prefix (all of the string under '$') is in the language of the regex |
| RegexMatch.HeadUnfolds | src/thirdparty/googletest/googletest/src/gtest-port.cc:887-940 | a prefix matches exactly when it splits into one for the first item and one for the rest |
| RegexMatch.MatchRegexAnywhere | src/thirdparty/googletest/googletest/src/gtest-port.cc:950-962 | true exactly when some substring that respects '^' and '$' is in the language; false for null arguments |
| RegexMatch.AtomAloneOrOptional | src/thirdparty/googletest/googletest/docs/advanced.md:783-783 | an item without a repeat matches one character of its atom; one whose text ends in '?' also matches nothing |
| RegexMatch.StarAndPlus | src/thirdparty/googletest/googletest/docs/advanced.md:784-785 | with '*' an item matches nothing or what it matches with '+'; with '+' one character of its atom and then what it matches with '*' |
| RegexMatch.ItemsInARow | src/thirdparty/googletest/googletest/docs/advanced.md:788-788 | items written one after the other match what they match one after the other |
| RegexMatch.AnchorsMeanWhatIsDocumented | src/thirdparty/googletest/googletest/docs/advanced.md:786-787 | '^' ties the match to the beginning of the string, '$' to its end; without them anything may stand in front or behind |
| RegexFull.RE.constructor | src/thirdparty/googletest/googletest/src/gtest-port.cc:983-1014 | the object is valid exactly for well-formed regexes and holds the regex and its full pattern |
| RegexFull.RE.BuildFullPattern | src/thirdparty/googletest/googletest/src/gtest-port.cc:995-1014 | the buffer of length plus three holds the pattern with the missing anchors added |
| RegexFull.FullPatternText | src/thirdparty/googletest/googletest/src/gtest-port.cc:995-1014 | that pattern is the text of the anchored regex, or of one without '$' when the text ends in an escaped '$' |
| RegexFull.RE.FullMatch | src/thirdparty/googletest/googletest/src/gtest-port.cc:972-974 | matches with the full pattern; false for an invalid regex |
| RegexFull.RE.PartialMatch | src/thirdparty/googletest/googletest/src/gtest-port.cc:978-980 | true exactly when some substring is in the language |
| RegexFull.FullMatchIsWhole | src/thirdparty/googletest/googletest/src/gtest-port.cc:971-1014 | FullMatch tests the entire string, as promised, if and only if the pattern does not end in an escaped '$' |
| RegexFull.EscapedDollarIsLast | src/thirdparty/googletest/googletest/src/gtest-port.cc:1010-1011 | a string in the language of such a pattern ends in '$' |
| RegexFull.EscapedDollarMatchesMore | src/thirdparty/googletest/googletest/src/gtest-port.cc:1005-1013 | the pattern of an escaped '$' alone and the string $5: reported as a full match, and not in the language |
| Expectations.Expectation.RetireAllPreRequisites | src/thirdparty/googletest/googlemock/src/gmock-spec-builders.cc:108-131 | ends; retires exactly the transitive prerequisites besides what was retired, and keeps the retired set closed under prerequisites; the early exit relies on that closure |
| Traversal.ExpandingVisits | src/thirdparty/googletest/googlemock/src/gmock-spec-builders.cc:108-131 | inside the loops a retired node with an unretired prerequisite is on the stack or is the node being expanded |
| Expectations.Expectation.AllPrerequisitesAreSatisfied | src/thirdparty/googletest/googlemock/src/gmock-spec-builders.cc:135-152 | ends on every acyclic graph although nodes are pushed repeatedly; true exactly when every transitive prerequisite is satisfied |
| Traversal.LighterAfter | src/thirdparty/googletest/googlemock/src/gmock-spec-builders.cc:135-152 | the measure that proves it: a node weighs more than all its prerequisites together |
| Expectations.Expectation.FindUnsatisfiedPrerequisites | src/thirdparty/googletest/googlemock/src/gmock-spec-builders.cc:155-182 | finds exactly the unsatisfied prerequisites below satisfied expectations that have not been called |
| Traversal.SearchMissesNone | src/thirdparty/googletest/googlemock/src/gmock-spec-builders.cc:155-182 | when every satisfied expectation that was called has nothing unsatisfied below it, the report is empty exactly when all prerequisites are satisfied |
| CallOrder.ReportIsComplete | src/thirdparty/googletest/googlemock/src/gmock-spec-builders.cc:155-182 | and that is so wherever the invariants of a run hold |
| MockCalls.Sequence.AddExpectation | src/thirdparty/googletest/googlemock/src/gmock-spec-builders.cc:857-865 | the last member becomes a prerequisite of the new one, which becomes the last; adding the last one again changes nothing |
| MockCalls.Mocks.ExpectCall | src/thirdparty/googletest/googlemock/include/gmock/gmock-spec-builders.h:946-985 | a new expectation is active, has no calls yet, and has the last members of its sequences and the After set as prerequisites; every sequence stays chained, the graph acyclic, and the invariants of the run hold |
| MockCalls.Mocks.FindMatchingExpectation | src/thirdparty/googletest/googlemock/include/gmock/gmock-spec-builders.h:1726-1742 | the newest matching expectation that is active and has all prerequisites satisfied, or none |
| MockCalls.Mocks.GetActionForArguments | src/thirdparty/googletest/googlemock/include/gmock/gmock-spec-builders.h:1197-1223 | a call within the cardinality retires exactly the transitive prerequisites, and the expectation itself if it asks for that and is saturated; beyond it the call is only counted; prerequisites stay as they are |
| MockCalls.Mocks.HandleCall | src/thirdparty/googletest/googlemock/include/gmock/gmock-spec-builders.h:1692-1714 | one call of a mock function: the newest expectation that can take it does, with the effects above; without one nothing changes; no prerequisite of any expectation changes, so sequences stay chained |
| CallOrder.Accepted | src/thirdparty/googletest/googlemock/include/gmock/gmock-spec-builders.h:1213-1218 | an accepted call keeps the invariants: nothing below an expectation that has been called is active or unsatisfied, and no call comes after one that needed it first |
| CallOrder.Exceeded | src/thirdparty/googletest/googlemock/include/gmock/gmock-spec-builders.h:1203-1211 | an excessive call keeps them too |
| CallOrder.Declared | src/thirdparty/googletest/googlemock/include/gmock/gmock-spec-builders.h:946-985 | so does a new expectation |
| CallOrder.SequenceIsInOrder | src/thirdparty/googletest/googlemock/src/gmock-spec-builders.cc:857-865 | where the invariants hold, the calls accepted by the members of a sequence come in the order of the sequence |
| MockRuns.Run | src/thirdparty/googletest/googlemock/include/gmock/gmock-spec-builders.h:1692-1714 | for every list of declarations and calls, over any number of sequences: the reply to every call, and how often each expectation was called and whether it is retired, are those of the book `CallBooks.Replay`, which knows the numbers of the declarations only; the calls are accepted in the order that After and the sequences ask for, also across several steps; and the replies keep to the bounds of each expectation (`AllInBounds`, `InTurn`) |
| MockRuns.Step | src/thirdparty/googletest/googlemock/include/gmock/gmock-spec-builders.h:1692-1714 | one event, a declaration or a call, does to the objects what it does to the book |
| CallBooks.ReplayIsInOrder | src/thirdparty/googletest/googlemock/include/gmock/gmock-spec-builders.h:946-985 | the book keeps the promise of After and InSequence: whoever must follow another accepts calls only after all that the other accepts, and has retired it by then |
| CallBooks.NewestIs | src/thirdparty/googletest/googlemock/include/gmock/gmock-spec-builders.h:1726-1742 | the taker of a call is the last matching candidate that is not retired and whose prerequisites are satisfied; behind it no other can take the call |
| CallBounds.ReplayIsInBounds | src/thirdparty/googletest/googlemock/src/gmock-cardinalities.cc:76-82 | for every list of events and every expectation: at most `max` calls are accepted, a call is accepted while fewer than `max` were and excessive once `max` were, the calls counted are both together, and the expectation is retired exactly when it asked for it and its `max`-th call was accepted, or when one that must follow it accepted a call |
| CallBounds.SatisfiedMeansEnough | src/thirdparty/googletest/googlemock/src/gmock-cardinalities.cc:76-78 | an expectation counts as satisfied exactly when it accepted at least `min` calls and had no excessive one |
| CallBounds.BoundsAfterAccepted | src/thirdparty/googletest/googlemock/include/gmock/gmock-spec-builders.h:1213-1219 | an accepted call keeps the bounds of all expectations: its taker was below its own, and those that it retires have to be |
| DeclaredLinks.PrerequisitesAreDeclared | src/thirdparty/googletest/googlemock/src/gmock-spec-builders.cc:857-865 | an expectation has another among its transitive prerequisites if and only if a chain of After clauses and shared sequences leads from its declaration to the other's |
| DeclaredLinks.OnlyFollowStill | src/thirdparty/googletest/googlemock/include/gmock/gmock-spec-builders.h:946-985 | a new expectation has only what its clauses name, and the last members of its sequences, as immediate prerequisites |
| MockRuns.HandlersAreTakers | src/thirdparty/googletest/googlemock/include/gmock/gmock-spec-builders.h:1726-1742 | the walk over the prerequisites finds an expectation able to handle a call exactly when the book lets it take the call |
| MockRuns.Declare | src/thirdparty/googletest/googlemock/include/gmock/gmock-spec-builders.h:946-985 | a declaration at any point of a run: the prerequisites are what the declarations name and nothing else, nobody's calls change, and no call is logged |
| MockRuns.MakeCall | src/thirdparty/googletest/googlemock/include/gmock/gmock-spec-builders.h:1692-1714 | a call at any point of a run: its handler, the excess flag, the counts, the retirements and the log are those of the book; the handler is the newest candidate that can take the call |
| MockRuns.AcceptedInOrder | src/thirdparty/googletest/googlemock/include/gmock/gmock-spec-builders.h:1213-1218 | hence between any two events the calls accepted so far are in the declared order |
| MockRuns.ReportsAreComplete | src/thirdparty/googletest/googlemock/src/gmock-spec-builders.cc:155-182 | and the report of unsatisfied prerequisites is empty exactly when there are none |
| PrimeTables.OnTheFlyPrimeTable.IsPrime | src/thirdparty/googletest/googletest/samples/prime_tables.h:57-66 | true exactly for primes |
| PrimeTables.OnTheFlyPrimeTable.GetNextPrime | src/thirdparty/googletest/googletest/samples/prime_tables.h:68-74 | ends with the smallest prime above p for every p from 0 on; -1 for every negative p, although the interface promises 2 |
| PrimeTables.IsPrime | src/thirdparty/googletest/googletest/samples/sample1.cc:45-66 | trial division by odd numbers, with the bound found by a division, is true exactly for primes |
| PrimeTables.PreCalculatedPrimeTable.constructor | src/thirdparty/googletest/googletest/samples/prime_tables.h:82-85 | the table holds true exactly at the primes |
| PrimeTables.PreCalculatedPrimeTable.CalculatePrimesUpTo | src/thirdparty/googletest/googletest/samples/prime_tables.h:101-117 | although only 2 and odd numbers up to the square root are sieved, the table ends with exactly the primes |
| PrimeTables.PreCalculatedPrimeTable.Mark | src/thirdparty/googletest/googletest/samples/prime_tables.h:107-115 | clearing multiples from the square on is enough for one pass |
| PrimeTables.PassComposite | src/thirdparty/googletest/googletest/samples/prime_tables.h:107-108 | a number that is already crossed out needs no pass |
| PrimeTables.PassEven | src/thirdparty/googletest/googletest/samples/prime_tables.h:106-107 | even numbers above 2 need no pass |
| PrimeTables.SurvivorsArePrime | src/thirdparty/googletest/googletest/samples/prime_tables.h:106-107 | what survives up to the square root is prime |
| PrimeTables.PreCalculatedPrimeTable.IsPrime | src/thirdparty/googletest/googletest/samples/prime_tables.h:88-90 | inside the table true exactly for primes, outside it false |
| PrimeTables.PreCalculatedPrimeTable.GetNextPrime | src/thirdparty/googletest/googletest/samples/prime_tables.h:92-98 | the smallest prime above p, or -1 exactly when the table holds none |
| PrimeTables.HybridPrimeTable.constructor | src/thirdparty/googletest/googletest/samples/sample8_unittest.cc:50-55 | a table of the asked size, or none |
| PrimeTables.HybridPrimeTable.IsPrime | src/thirdparty/googletest/googletest/samples/sample8_unittest.cc:61-66 | true exactly for primes, with and without a table |
| PrimeTables.HybridPrimeTable.GetNextPrime | src/thirdparty/googletest/googletest/samples/sample8_unittest.cc:68-74 | the same answers as the on-the-fly table for every p from 0 on and every table size; at -1 the two differ when the table holds 2 |
| PrimeFacts.LargerPrime | src/thirdparty/googletest/googletest/samples/prime_tables.h:68-74 | there is a prime above every number, so the search ends |
| PrimeFacts.SmallDivisor | src/thirdparty/googletest/googletest/samples/prime_tables.h:57-66 | a composite has a divisor no larger than its square root |
| Globs.PatternIsGlob | src/thirdparty/googletest/googletest/src/gtest.cc:547-562 | the recursive matcher is true exactly when the string cuts into one fitting piece for each character of the pattern, which ':' or the end ends |
| Globs.MatchesFilter | src/thirdparty/googletest/googletest/src/gtest.cc:564-583 | true exactly when some ':'-separated pattern of the filter matches |
| Globs.FilterMatchesTest | src/thirdparty/googletest/googletest/src/gtest.cc:587-613 | true exactly when the full name matches a positive pattern and no negative one; the first '-' divides them, and nothing before it means all tests |
| Globs.DisabledNames | src/thirdparty/googletest/googletest/src/gtest.cc:154-156 | the filter for disabled tests selects the names that start with DISABLED_ or have it after a slash |
| Globs.DeathTestNames | src/thirdparty/googletest/googletest/src/gtest.cc:158-161 | the filter for death tests selects the names that end in DeathTest or have it before a slash |
| Globs.Star | src/thirdparty/googletest/googletest/src/gtest.cc:555-557 | '*' takes one character more or gives way to the rest |
| Globs.OneCharacter | src/thirdparty/googletest/googletest/src/gtest.cc:551-561 | '?' takes any one character, any other pattern character only itself |
| Globs.OnePattern | src/thirdparty/googletest/googletest/src/gtest.cc:564-583 | a filter without ':' selects what its one pattern matches |
| Globs.PatternInFront | src/thirdparty/googletest/googletest/src/gtest.cc:564-583 | a pattern put in front of a filter adds the names that it matches |
| Globs.NoDash | src/thirdparty/googletest/googletest/src/gtest.cc:591-594 | a filter without a dash chooses what it selects |
| Globs.TwoParts | src/thirdparty/googletest/googletest/src/gtest.cc:595-607 | a filter with a dash chooses the names that its first part selects, all if it is empty, and its second does not |
| Shards.OnExactlyOneShard | src/thirdparty/googletest/googletest/src/gtest.cc:5560-5566 | every runnable test runs on exactly one shard |
| Shards.ShardsAreBalanced | src/thirdparty/googletest/googletest/src/gtest.cc:5560-5624 | the numbers of tests on two shards differ by at most one |
| Shards.ShardsRunEverything | src/thirdparty/googletest/googletest/src/gtest.cc:5560-5624 | together the shards run every runnable test |
| Shards.Unsharded | src/thirdparty/googletest/googletest/src/gtest.cc:5575-5624 | without sharding every runnable test runs |
| TestSuites.TestInfo.Filter | src/thirdparty/googletest/googletest/src/gtest.cc:5596-5620 | disabled, matching, in another shard and running: what the filter writes into one test |
| TestSuites.TestSuite.FilterTests | src/thirdparty/googletest/googletest/src/gtest.cc:5588-5622 | each test is numbered by the runnable tests before it; the suite is marked exactly when one of its tests runs |
| UnitTests.UnitTestImpl.FilterTests | src/thirdparty/googletest/googletest/src/gtest.cc:5575-5624 | the same for all suites; the result is the number of tests that run here |
| UnitTests.RunsOnItsShard | src/thirdparty/googletest/googletest/src/gtest.cc:5575-5624 | after filtering, a test runs exactly when the filter chooses suite.name, disabled tests are asked for or neither the suite nor the test has a disabled name, and the number of runnable tests before it falls to this shard |
| UnitTests.PlaceOf | src/thirdparty/googletest/googletest/src/gtest.cc:5588-5622 | a test's place among all tests is the tests of the suites before its own and those before it |
| TestSuites.RunnableMeans | src/thirdparty/googletest/googletest/src/gtest.cc:5594-5609 | runnable by names: chosen by the filter, and, unless disabled tests are asked for, with neither name disabled; the suite's name counts as much as the test's |
| Shuffles.Random.Generate | src/thirdparty/googletest/googletest/src/gtest.cc:337-352 | a number below the range, and the next state of the generator |
| Shuffles.StatesStayDistinct | src/thirdparty/googletest/googletest/src/gtest.cc:337-340 | distinct states of the generator never run together |
| Shuffles.DrawsAreRemainders | src/thirdparty/googletest/googletest/src/gtest-internal-inl.h:322-331 | the k-th choice of a shuffle is the remainder, by the number of places still open, of the generator's state after one step more than choices before it; and one step is used up for each |
| Shuffles.LastIsFixed | src/thirdparty/googletest/googletest/src/gtest-internal-inl.h:322-328 | the element that the first choice names comes to the last place of the range |
| Shuffles.ShuffleRange | src/thirdparty/googletest/googletest/src/gtest-internal-inl.h:311-331 | the vector is what the Fisher-Yates shuffle makes of it with the generator's draws, which it uses up |
| Shuffles.Shuffle | src/thirdparty/googletest/googletest/src/gtest-internal-inl.h:333-337 | the same for the whole vector |
| Shuffles.ShuffleRearranges | src/thirdparty/googletest/googletest/src/gtest-internal-inl.h:311-331 | a shuffle permutes its range and moves nothing outside |
| Shuffles.EveryArrangementIsReached | src/thirdparty/googletest/googletest/src/gtest-internal-inl.h:322-331 | every arrangement of the range is reached by some choices |
| Shuffles.ChoicesAreUnique | src/thirdparty/googletest/googletest/src/gtest-internal-inl.h:322-331 | and by only one list of choices, so a fair generator is fair to all of them |
| TestSuites.TestSuite.AddTestInfo | src/thirdparty/googletest/googletest/src/gtest.cc:2853-2856 | appends the test, and its index in order |
| TestSuites.TestSuite.ShuffleTests | src/thirdparty/googletest/googletest/src/gtest.cc:2905-2907 | the tests' order is the shuffle of what it was |
| TestSuites.TestSuite.UnshuffleTests | src/thirdparty/googletest/googletest/src/gtest.cc:2910-2914 | restores the order of registration whatever the order was |
| TestSuites.ShuffleKeepsOrder | src/thirdparty/googletest/googletest/src/gtest.cc:5742-5754 | a shuffle on one side of the last death test keeps the order a permutation and each group on its side |
| UnitTests.UnitTestImpl.constructor | src/thirdparty/googletest/googletest/src/gtest.cc:5093-5093 | no suites, and no death test |
| UnitTests.UnitTestImpl.GetTestSuite | src/thirdparty/googletest/googletest/src/gtest.cc:5264-5296 | a known name brings its suite and changes nothing; a new death test suite goes behind the others of its kind, any other suite to the end |
| UnitTests.UnitTestImpl.AddTestInfo | src/thirdparty/googletest/googletest/src/gtest-internal-inl.h:674-693 | the suite with that name, made if need be, gains the test, and no other suite does; the suites registered before stay, in the same order, with a new one at its place |
| UnitTests.UnitTestImpl.ShuffleTests | src/thirdparty/googletest/googletest/src/gtest.cc:5742-5754 | death test suites and other suites are shuffled each among themselves, then the tests of each suite, with one stream of random numbers; the invariants are kept |
| UnitTests.UnitTestImpl.UnshuffleTests | src/thirdparty/googletest/googletest/src/gtest.cc:5757-5764 | restores the order of registration of suites and tests from any order |
| UnitTests.UnitTestImpl.DeathTestsRunFirst | src/thirdparty/googletest/googletest/src/gtest.cc:5276-5284 | in every state reached by registering and shuffling, no death test suite runs after one that is not |
| UnitTests.UnitTestImpl.EverySuiteRunsOnce | src/thirdparty/googletest/googletest/src/gtest-internal-inl.h:605-608 | every suite stands in exactly one place of the run order |
| UnitTests.UnitTestImpl.AccessorsAgreeIffUnshuffled | src/thirdparty/googletest/googletest/src/gtest-internal-inl.h:591-608 | the accessor that reports use ignores the run order: it gives the same suites as the one that the run uses if and only if nothing is shuffled, though both are documented alike |
| Utf8.IsValidUTF8 | src/thirdparty/googletest/googletest/src/gtest-printers.cc:382-415 | true exactly for the concatenations of the UTF8-char sequences of section 4 of RFC 3629 |
| Utf8.CharByLead | src/thirdparty/googletest/googletest/src/gtest-printers.cc:388-412 | the nine alternatives of the grammar put together: the first byte decides the length and the range of the second |
| WideStrings.CodePointToUtf8 | src/thirdparty/googletest/googletest/src/gtest.cc:1828-1854 | up to its own limit the encoder writes the shortest form, whose bits are the code point; zero comes out empty; beyond the limit it writes a message |
| WideStrings.ScalarsAreEncoded | src/thirdparty/googletest/googletest/src/gtest.cc:1828-1854 | the encoding is a UTF8-char exactly for Unicode scalar values |
| WideStrings.WhenOutputIsText | src/thirdparty/googletest/googletest/src/gtest.cc:1825-1854 | the output is valid UTF-8 if and only if the code point is no surrogate and does not lie between U+10FFFF and the encoder's limit; the comment promises the message from U+110000 on |
| WideStrings.MessageIffBeyondLimit | src/thirdparty/googletest/googletest/src/gtest.cc:1822-1831 | the message comes exactly above the encoder's own limit, so the documented rule, beyond U+10FFFF, is kept exactly for the code points that do not lie between the two |
| WideStrings.CharsAreScalars | src/thirdparty/googletest/googletest/src/gtest-printers.cc:382-415 | every valid character stands for a scalar value |
| WideStrings.ValueIsOneToOne | src/thirdparty/googletest/googletest/src/gtest.cc:1792-1799 | and different characters stand for different ones |
| WideStrings.WideStringToUtf8 | src/thirdparty/googletest/googletest/src/gtest.cc:1895-1916 | the output is the encodings of the code points that the units spell, up to the limit or the first zero; a half of no pair stands for itself; when that is valid UTF-8 is stated with it |
| WideStrings.EncodedIsUtf8 | src/thirdparty/googletest/googletest/src/gtest.cc:1895-1916 | the output is valid UTF-8 if and only if no code point read is a surrogate or lies between U+10FFFF and the encoder's limit; one that is spoils the whole |
| WideStrings.TextInFront | src/thirdparty/googletest/googletest/src/gtest-printers.cc:382-415 | valid text in front of other bytes changes nothing about them |
| WideStrings.PairsAreSurrogates | src/thirdparty/googletest/googletest/src/gtest.cc:1860-1866 | a pair is a high surrogate followed by a low one, and only with 16-bit units |
| WideStrings.Utf16IsRead | src/thirdparty/googletest/googletest/src/gtest.cc:1863-1880 | units made by section 2.1 of RFC 2781 are read back as the code points they stand for |
| WideStrings.RoundTrip | src/thirdparty/googletest/googletest/src/gtest.cc:1895-1916 | scalar values other than zero, given as UTF-16 or UTF-32, come out as valid UTF-8 that decodes to them and to nothing else |
| StringLiterals.PrintCharsAsStringTo | src/thirdparty/googletest/googletest/src/gtest-printers.cc:267-289 | the output reads as adjacent C++ literals for every string, and as the original string if and only if no zero stands before an octal digit; a string from the blank to the tilde without '"' and '\' prints as itself between quotes; without a hexadecimal digit behind a hexadecimal escape there is one literal only; the format says whether some character is neither printable nor one of the control characters with a letter of its own |
| StringLiterals.PlainIsItself | src/thirdparty/googletest/googletest/src/gtest-printers.cc:134-139 | a string of plain characters comes out as itself, and wide ones with an L in front |
| StringLiterals.OneLiteral | src/thirdparty/googletest/googletest/src/gtest-printers.cc:276-281 | the literal is broken only between a hexadecimal escape and a hexadecimal digit |
| StringLiterals.UnnamedIsHex | src/thirdparty/googletest/googletest/src/gtest-printers.cc:146-191 | the characters printed as hexadecimal escapes, by their codes |
| StringLiterals.ReadBody | src/thirdparty/googletest/googletest/src/gtest-printers.cc:267-289 | what the printed text stands for: zeros swallow up to two octal digits behind them, everything else is kept |
| StringLiterals.WhenReadBackIsSame | src/thirdparty/googletest/googletest/src/gtest-printers.cc:146-152 | that is the original exactly when no zero stands before an octal digit; otherwise the text read is shorter |
| StringLiterals.ReadBreak | src/thirdparty/googletest/googletest/src/gtest-printers.cc:276-281 | closing and reopening the literal changes nothing |
| StringLiterals.HexStops | src/thirdparty/googletest/googletest/src/gtest-printers.cc:276-281 | and keeps a following character out of a hexadecimal escape |
| StringLiterals.ReadPiece | src/thirdparty/googletest/googletest/src/gtest-printers.cc:146-214 | one printed character other than zero is read as that character |
| SmallData.Sdo.constructor | src/syd/mem/mem_sdo.h:19-29 | empty, with the small capacity and no block |
| SmallData.Sdo.Reserve | src/syd/mem/mem_sdo.h:83-95 | within the capacity nothing changes; growing frees the block, asks for one of exactly the wanted size and keeps no byte; after a failed allocation the object is not in order any more, and only then |
| SmallData.Sdo.Resize | src/syd/mem/mem_sdo.h:70-78 | sets the size; bytes, block and memory stay while the capacity suffices |
| SmallData.Sdo.CopyFrom | src/syd/mem/mem_sdo.h:42-47 | delivers the other array's bytes, which it keeps, also when both are the same; reuses the block while it suffices |
| SmallData.Sdo.MoveFrom | src/syd/mem/mem_sdo.h:49-65 | delivers the other array's bytes and never allocates; blocks change hands, small bytes are copied, and of small bytes under an exchanged pointer only those it covers move along |
| SmallData.Sdo.Destroy | src/syd/mem/mem_sdo.h:35-40 | frees the block if there is one |
| SmallData.Sdo.Put | src/syd/mem/mem_sdo.h:105-112 | a byte is written to the small buffer or the block, as the capacity says |
| Ownership.Arrays.Construct | src/syd/mem/mem_sdo.h:29-29 | every block keeps exactly one owner; a failed allocation leaves nothing behind |
| Ownership.Arrays.CopyConstruct | src/syd/mem/mem_sdo.h:31-31 | the same, with the other array's bytes |
| Ownership.Arrays.MoveConstruct | src/syd/mem/mem_sdo.h:33-33 | the same, without allocating |
| Ownership.Arrays.CopyAssign | src/syd/mem/mem_sdo.h:42-47 | ownership stays in order if and only if no allocation was needed or it succeeded |
| Ownership.Arrays.MoveAssign | src/syd/mem/mem_sdo.h:49-65 | ownership always stays in order, and memory is not touched |
| Ownership.Arrays.Resize | src/syd/mem/mem_sdo.h:70-78 | ownership stays in order if and only if no allocation was needed or it succeeded; within the capacity bytes, block, owners and memory stay, beyond it one allocation of exactly the size is made |
| Ownership.Arrays.Reserve | src/syd/mem/mem_sdo.h:83-95 | likewise; the size is kept, and within the capacity nothing changes |
| Ownership.Arrays.Destroy | src/syd/mem/mem_sdo.h:35-40 | the array leaves with its block |
| Ownership.Arrays.NothingLeaks | src/syd/mem/mem_sdo.h:35-40 | when every array is gone every block has been freed |
| Ownership.Swapped | src/syd/mem/mem_sdo.h:60-62 | exchanging pointers keeps one owner for each block |
| Ownership.GrowWithoutMemory | src/syd/mem/mem_sdo.h:83-95 | a run that gets no memory: the array says a capacity beyond its small buffer and has no block |
| LocalAddress.Socket.LocalAddress | src/syd/net/connected_socket.cpp:96-117 | for every behaviour of the kernel the loop ends; unless memory runs out, the last query is the first that fails or whose answer fits the buffer that the answer before it asked for, and the result is exactly that answer, empty after an error; the size assertion fails exactly for a length from 1 to 15 |
| LocalAddress.Socket.Pass | src/syd/net/connected_socket.cpp:103-113 | one pass: what one query does to the buffer, the flag and the outcome |
| LocalAddress.Socket.AtMostTwoQueries | src/syd/net/connected_socket.cpp:96-117 | with a fixed address there is one query, or two when the address does not fit the small buffer |
| LocalAddress.Socket.FixedAddressByLength | src/syd/net/connected_socket.cpp:96-117 | a fixed address by its length alone: up to 32 bytes are returned after one query, more after two if memory allows, and 1 to 15 bytes fail the assertion |
| LocalAddress.InternetSocket | src/syd/net/connected_socket.cpp:96-117 | the query for a socket with an IPv4 address of 16 bytes or an IPv6 address of 28 returns it after one kernel call |
| LocalAddress.UnnamedUnixSocket | src/syd/net/connected_socket.cpp:96-117 | the query for an unnamed Unix socket, whose address is two bytes long, ends in the size assertion |
| LocalAddress.Socket.GetSockName | src/syd/net/connected_socket.cpp:104-104 | the kernel call: as many bytes as fit are written, and the full length is reported |

## Left out

- EditTable.FillTable: costs are exact reals, so the rounding of sums of 1.00001 in double is not modelled.
- Hunks.Hunk.PrintTo: the stream is the string it collects, and its characters are those of the lines; encodings are not modelled.
- UnifiedDiff.CreateUnifiedDiff: nothing is said about the diff being as short as possible, which it need not be.
- Patches.Patched: a patch tool is modelled that finds hunks by their headers and accepts no fuzz; one omitted range follows from the other.
- UnorderedMatcher.FindPairing: what is written to the listener is left out, as in `VerifyMatchMatrix`.
- MatchMatrices.MatchMatrix.NextGraph: cells hold true or false rather than a char; `Randomize` and `DebugString` are left out.
- RegexMatch.MatchRegexAtHead: the syntax tree of the regex is a ghost argument, since the source calls the result undefined for other text.
- Expectations.Expectation.AllPrerequisitesAreSatisfied: the members of a prerequisite set are visited in any order, where the source follows the order of std::set.
- MockCalls.Mocks.ExpectCall: only new expectations join sequences, and prerequisites are declared before; this is what makes the graph acyclic. Actions, argument matchers (given as the set of matching expectations), Times clauses other than a range, user-defined cardinalities, clause order checks, implicit sequences and report texts are left out, and so are mutexes and threads.
- MockRuns.Run: a number that names no earlier declaration and no sequence is skipped, as a program cannot name one; which expectations match a call is given with the call.
- PrimeTables.OnTheFlyPrimeTable.GetNextPrime: integers are unbounded, so neither the overflow of i*i nor the wrap-around that would end the search is modelled.
- PrimeTables.PreCalculatedPrimeTable.constructor: the maximum is at least 1, as the source writes the cells 0 and 1.
- PrimeTables.PreCalculatedPrimeTable.GetNextPrime: p is at least -1, since below that the source reads before the start of the table.
- Globs.FilterMatchesTest: names and filters are strings without NUL whose joint length a size_t holds; the flag's value is an argument.
- Shuffles.Random.Generate: a range that fails the source's fatal checks is excluded; the quality of the random numbers is not discussed.
- UnitTests.UnitTestImpl.GetTestSuite: suites are registered only while nothing is shuffled, as the source asks of its callers; type parameters and set-up functions are left out.
- UnitTests.UnitTestImpl.FilterTests: the environment variables are an argument, already checked to name a shard below their total.
- WideStrings.CodePointToUtf8: masks and shifts are written as remainders and quotients by powers of two.
- WideStrings.WideStringToUtf8: the length of the string fits an int.
- StringLiterals.PrintCharsAsStringTo: the reader knows no trigraphs and no universal character names, which the printer does not write on purpose; printing of arrays and containers around it is left out.
- SmallData.Sdo.Reserve: an exception is a returned flag; the pointer takes 8 bytes, and what those bytes are is not modelled.
- LocalAddress.Socket.GetSockName: the kernel is any sequence of answers shorter than 2^32 bytes, or errors.
- Other socket calls, address printing and resolving, the echo server, reports, XML and JSON output, death tests, flag parsing, timing and the Python tools are left out: foreign calls, or text for people.
