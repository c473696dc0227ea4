/** The registry of test suites: registration, selection and run order. */
module UnitTests {
  import opened CStrings
  import opened Globs
  import opened MachineWords
  import opened Shards
  import opened Shuffles
  import opened TestSuites

  /** The runnable flags of all tests, suite by suite. */
  ghost function AllRunnables(suites: seq<TestSuite>, flags: Flags): seq<bool>
    reads suites`testInfoList
  {
    if suites == [] then []
    else
      var m := |suites| - 1;
      AllRunnables(suites[..m], flags) + Runnables(suites[m].name, suites[m].testInfoList, flags)
  }

  /** The generator's state once it has shuffled the tests of these suites. */
  ghost function StateAfterSuites(state: nat, suites: seq<TestSuite>): nat
    reads suites`testInfoList
  {
    if suites == [] then state
    else
      var m := |suites| - 1;
      StateAfter(StateAfterSuites(state, suites[..m]), |suites[m].testInfoList|)
  }

  /** What the shuffle makes of the order `v` of the tests of suite `k`. */
  ghost function TestsShuffled(suites: seq<TestSuite>, v: seq<int>, k: nat, seed: nat): seq<int>
    requires k < |suites|
    reads suites`testInfoList
  {
    var n := |suites[k].testInfoList|;
    if n == |v| then Shuffled(v, 0, n, Draws(StateAfterSuites(seed, suites[..k]), n)) else v
  }

  lemma ItsTestsShuffled(suites: seq<TestSuite>, v: seq<int>, k: nat, seed: nat)
    requires k < |suites| && suites[k].Valid() && v == suites[k].testIndices.items
    ensures |v| == |suites[k].testInfoList|
    ensures TestsShuffled(suites, v, k, seed)
         == Shuffled(v, 0, |v|, Draws(StateAfterSuites(seed, suites[..k]), |v|))
  {
  }

  lemma StatesOfSuites(seed: nat, suites: seq<TestSuite>, i: nat)
    requires i <= |suites|
    ensures i == 0 ==> StateAfterSuites(seed, suites[..i]) == seed
    ensures i < |suites| ==>
              StateAfterSuites(seed, suites[..i + 1])
              == StateAfter(StateAfterSuites(seed, suites[..i]), |suites[i].testInfoList|)
  {
    assert i < |suites| ==> suites[..i + 1][..i] == suites[..i];
  }

  ghost predicate SuitesApart(suites: seq<TestSuite>) {
    forall i, j | 0 <= i < j < |suites| ::
      suites[i] != suites[j] && suites[i].name != suites[j].name && suites[i].testIndices != suites[j].testIndices
  }

  ghost predicate TestsApart(suites: seq<TestSuite>)
    reads suites`testInfoList
  {
    forall i, j | 0 <= i < j < |suites| :: forall t | t in suites[i].testInfoList :: t !in suites[j].testInfoList
  }

  /** The death test suites are the first ones, up to and including `last`. */
  ghost predicate DeathTestsLead(suites: seq<TestSuite>, last: int) {
    && -1 <= last < |suites|
    && forall k | 0 <= k < |suites| :: IsDeathTest(suites[k].name) <==> k <= last
  }

  /** Where the tests of suite `i` stand among all tests. */
  lemma {:induction false} Position(suites: seq<TestSuite>, flags: Flags, i: nat)
    requires i < |suites|
    ensures AllRunnables(suites[..i], flags) + Runnables(suites[i].name, suites[i].testInfoList, flags)
         <= AllRunnables(suites, flags)
  {
    hide Runnables;
    var m := |suites| - 1;
    if i < m {
      Position(suites[..m], flags, i);
      assert suites[..m][..i] == suites[..i];
    }
  }

  /** The place of a test among all tests. */
  lemma PlaceOf(suites: seq<TestSuite>, flags: Flags, i: nat, j: nat) returns (k: nat)
    requires i < |suites| && j < |suites[i].testInfoList|
    ensures k == |AllRunnables(suites[..i], flags)| + j < |AllRunnables(suites, flags)|
    ensures AllRunnables(suites, flags)[k] == IsRunnable(flags, suites[i].name, suites[i].testInfoList[j].name)
    ensures AllRunnables(suites, flags)[..k]
         == AllRunnables(suites[..i], flags) + Runnables(suites[i].name, suites[i].testInfoList, flags)[..j]
  {
    hide AllRunnables, IsRunnable;
    var before, all := AllRunnables(suites[..i], flags), AllRunnables(suites, flags);
    var here := Runnables(suites[i].name, suites[i].testInfoList, flags);
    k := |before| + j;
    Position(suites, flags, i);
    assert all[..k] == before + here[..j] by {
      assert all[..|before + here|] == before + here;
    }
    assert all[k] == (before + here)[k] == here[j];
  }

  /** After filtering, a test runs in this process just when the filter chooses it, it is
      not disabled, and its shard is this one. */
  lemma RunsOnItsShard(suites: seq<TestSuite>, flags: Flags, sharding: Sharding, i: nat, j: nat) returns (k: nat)
    requires ShardingOk(sharding) && i < |suites| && j < |suites[i].testInfoList|
    requires suites[i].Decided(flags, sharding, AllRunnables(suites[..i], flags))
    ensures k == |AllRunnables(suites[..i], flags)| + j < |AllRunnables(suites, flags)|
    ensures suites[i].testInfoList[j].shouldRun <==> Runs(AllRunnables(suites, flags), sharding, k)
    ensures var suite, test := suites[i].name, suites[i].testInfoList[j].name;
            AllRunnables(suites, flags)[k]
            <==> && Chosen(flags.filter, suite + "." + test)
                 && (flags.alsoRunDisabledTests || (!SaysDisabled(suite) && !SaysDisabled(test)))
    ensures var suite, test := suites[i].name, suites[i].testInfoList[j].name;
            suites[i].testInfoList[j].shouldRun
            <==> && Chosen(flags.filter, suite + "." + test)
                 && (flags.alsoRunDisabledTests || (!SaysDisabled(suite) && !SaysDisabled(test)))
                 && (sharding.Honor? ==> Count(AllRunnables(suites, flags)[..k]) % sharding.total == sharding.index)
  {
    hide AllRunnables, Count, IsRunnable, IsDisabled, Selects, Chosen, SaysDisabled;
    RunnableMeans(flags, suites[i].name, suites[i].testInfoList[j].name);
    k := PlaceOf(suites, flags, i, j);
    assert suites[i].FilteredAt(j, flags, sharding, AllRunnables(suites[..i], flags));
  }

  ghost function TestsOf(suites: seq<TestSuite>): set<TestInfo>
    reads suites`testInfoList
  {
    set s, t | s in suites && t in s.testInfoList :: t
  }

  ghost function IndexVectors(suites: seq<TestSuite>): (vs: set<Vector<int>>)
    ensures forall i | 0 <= i < |suites| :: suites[i].testIndices in vs
  {
    set s | s in suites :: s.testIndices
  }

  lemma LeadInRange(suites: seq<TestSuite>, last: int)
    requires DeathTestsLead(suites, last)
    ensures -1 <= last < |suites|
  {
  }

  /** The suite stands behind the death tests if it is one, else at the end. */
  ghost predicate IsInserted(before: seq<TestSuite>, suite: TestSuite, last: int, after: seq<TestSuite>) {
    var p := if IsDeathTest(suite.name) then last + 1 else |before|;
    0 <= p <= |before| && after == before[..p] + [suite] + before[p..]
  }

  lemma InsertedIs(before: seq<TestSuite>, suite: TestSuite, last: int, after: seq<TestSuite>)
    requires -1 <= last < |before|
    requires after == if IsDeathTest(suite.name) then before[..last + 1] + [suite] + before[last + 1..]
                      else before + [suite]
    ensures IsInserted(before, suite, last, after)
    ensures |after| == |before| + 1
    ensures forall s :: s in after <==> s in before || s == suite
  {
    hide Selects;
  }

  lemma Inserted(before: seq<TestSuite>, suite: TestSuite, last: int, after: seq<TestSuite>)
    requires SuitesApart(before) && TestsApart(before) && DeathTestsLead(before, last)
    requires IsInserted(before, suite, last, after) && suite.testInfoList == []
    requires forall s | s in before :: s != suite && s.name != suite.name && s.testIndices != suite.testIndices
    ensures SuitesApart(after) && TestsApart(after)
    ensures DeathTestsLead(after, if IsDeathTest(suite.name) then last + 1 else last)
  {
    hide Selects;
    var p := if IsDeathTest(suite.name) then last + 1 else |before|;
    assert forall k | 0 <= k < p :: after[k] == before[k];
    assert after[p] == suite;
    assert forall k | p < k < |after| :: after[k] == before[k - 1];
  }

  lemma DeathTestIs(suite: string)
    ensures IsDeathTest(suite) <==> Selects(DEATH_TEST_SUITE_FILTER, suite)
  {
  }

  /** What is known of suite `i` next to the others. */
  lemma Separate(suites: seq<TestSuite>, i: nat, testInfo: TestInfo)
    requires SuitesApart(suites) && TestsApart(suites) && i < |suites|
    requires forall k | 0 <= k < |suites| :: testInfo !in suites[k].testInfoList
    ensures forall k | 0 <= k < |suites| && k != i ::
              && suites[k] != suites[i] && suites[k].testIndices != suites[i].testIndices
              && suites[k].name != suites[i].name
    ensures forall k | 0 <= k < |suites| && k != i ::
              forall t | t in suites[k].testInfoList :: t !in suites[i].testInfoList + [testInfo]
    ensures TestsApart(suites[..i] + suites[i + 1..]) && suites[i] !in suites[..i] + suites[i + 1..]
  {
  }

  lemma Together(suites: seq<TestSuite>, i: nat)
    requires i < |suites| && TestsApart(suites[..i] + suites[i + 1..])
    requires forall k | 0 <= k < |suites| && k != i ::
               forall t | t in suites[k].testInfoList :: t !in suites[i].testInfoList
    ensures TestsApart(suites)
  {
    var others := suites[..i] + suites[i + 1..];
    assert forall k | 0 <= k < i :: others[k] == suites[k];
    assert forall k | i < k < |suites| :: others[k - 1] == suites[k];
  }

  class UnitTestImpl {
    var testSuites: seq<TestSuite>
    const testSuiteIndices: Vector<int>
    var lastDeathTestSuite: int
    const random: Random

    /** What shuffling leaves alone. */
    ghost predicate Registered()
      reads this`testSuites, this`lastDeathTestSuite, testSuites`testInfoList
    {
      && |testSuites| < MAX_RANGE
      && SuitesApart(testSuites) && TestsApart(testSuites)
      && DeathTestsLead(testSuites, lastDeathTestSuite)
      && forall i | 0 <= i < |testSuites| :: testSuites[i].testIndices != testSuiteIndices
    }

    ghost predicate Valid()
      reads this`testSuites, this`lastDeathTestSuite, testSuiteIndices
      reads testSuites`testInfoList, IndexVectors(testSuites)
    {
      && Registered()
      && IsOrder(testSuiteIndices.items, |testSuites|)
      && IsSplit(testSuiteIndices.items, lastDeathTestSuite + 1)
      && forall i | 0 <= i < |testSuites| :: testSuites[i].Valid()
    }

    lemma Facts()
      requires Registered()
      ensures |testSuites| < MAX_RANGE && -1 <= lastDeathTestSuite < |testSuites|
      ensures SuitesApart(testSuites) && TestsApart(testSuites) && DeathTestsLead(testSuites, lastDeathTestSuite)
      ensures forall i | 0 <= i < |testSuites| :: testSuites[i].testIndices != testSuiteIndices
      ensures forall i, j | 0 <= i < j < |testSuites| :: testSuites[i].testIndices != testSuites[j].testIndices
    {
    }

    lemma Parts()
      requires Valid()
      ensures Registered()
      ensures IsOrder(testSuiteIndices.items, |testSuites|) && IsSplit(testSuiteIndices.items, lastDeathTestSuite + 1)
      ensures |testSuiteIndices.items| == |testSuites|
      ensures forall i | 0 <= i < |testSuites| :: testSuites[i].Valid()
    {
    }

    lemma Whole()
      requires Registered()
      requires IsOrder(testSuiteIndices.items, |testSuites|) && IsSplit(testSuiteIndices.items, lastDeathTestSuite + 1)
      requires forall i | 0 <= i < |testSuites| :: testSuites[i].Valid()
      ensures Valid()
    {
    }

    /** The order of registration. */
    ghost predicate Unshuffled()
      reads this`testSuites, testSuiteIndices, testSuites`testInfoList, IndexVectors(testSuites)
    {
      && IsIdentity(testSuiteIndices.items)
      && forall i | 0 <= i < |testSuites| :: testSuites[i].Unshuffled()
    }

    constructor (seed: nat)
      requires seed < UINT32
      ensures Valid() && Unshuffled() && testSuites == []
      ensures fresh(testSuiteIndices) && fresh(random) && random.state == seed
    {
      testSuites := [];
      testSuiteIndices := new Vector();
      lastDeathTestSuite := -1;
      random := new Random(seed);
    }

    /** The suite that runs in place `k`. */
    ghost function SuiteAt(k: nat): TestSuite
      requires Valid() && k < |testSuites|
      reads this`testSuites, this`lastDeathTestSuite, testSuiteIndices
      reads testSuites`testInfoList, IndexVectors(testSuites)
    {
      testSuites[testSuiteIndices.items[k]]
    }

    /** In every state that registration and shuffling reach, death tests run first. */
    lemma DeathTestsRunFirst(a: nat, b: nat)
      requires Valid() && a <= b < |testSuites|
      ensures IsDeathTest(SuiteAt(b).name) ==> IsDeathTest(SuiteAt(a).name)
    {
      hide Selects;
      var order, m := testSuiteIndices.items, lastDeathTestSuite + 1;
      assert order[a] < m <==> a < m;
      assert order[b] < m <==> b < m;
    }

    /** Every suite runs, and it runs once. */
    lemma EverySuiteRunsOnce(i: nat) returns (k: nat)
      requires Valid() && i < |testSuites|
      ensures k < |testSuites| && SuiteAt(k) == testSuites[i]
      ensures forall other | 0 <= other < |testSuites| && SuiteAt(other) == testSuites[i] :: other == k
    {
      hide Selects, TestsApart, DeathTestsLead, IsSplit;
      k := OrderIsOnto(testSuiteIndices.items, |testSuites|, i);
    }

    /** `GetElementOr` on the run order. */
    function IndexAt(i: int): int
      reads testSuiteIndices
    {
      if i < 0 || i >= |testSuiteIndices.items| then -1 else testSuiteIndices.items[i]
    }

    /** The accessor that the run uses. */
    function GetMutableSuiteCase(i: int): (suite: TestSuite?)
      requires Valid()
      reads this`testSuites, this`lastDeathTestSuite, testSuiteIndices
      reads testSuites`testInfoList, IndexVectors(testSuites)
      ensures suite == if 0 <= i < |testSuites| then SuiteAt(i) else null
    {
      var index := IndexAt(i);
      if index < 0 then null else testSuites[index]
    }

    /** The accessor that the reports use; it looks up `index` and then takes `i`. */
    function GetConstTestSuite(i: int): (suite: TestSuite?)
      requires Valid()
      reads this`testSuites, this`lastDeathTestSuite, testSuiteIndices
      reads testSuites`testInfoList, IndexVectors(testSuites)
      ensures suite == if 0 <= i < |testSuites| then testSuites[i] else null
    {
      var index := IndexAt(i);
      if index < 0 then null else testSuites[i]
    }

    /** The two accessors give the same suites if and only if nothing is shuffled. */
    lemma AccessorsAgreeIffUnshuffled()
      requires Valid()
      ensures (forall i :: GetConstTestSuite(i) == GetMutableSuiteCase(i)) <==> IsIdentity(testSuiteIndices.items)
    {
      hide Selects, TestsApart, DeathTestsLead, IsSplit;
      if forall i :: GetConstTestSuite(i) == GetMutableSuiteCase(i) {
        forall k | 0 <= k < |testSuites|
          ensures testSuiteIndices.items[k] == k
        {
          assert GetConstTestSuite(k) == GetMutableSuiteCase(k);
        }
      }
    }

    /** A name that is already known brings its suite and changes nothing. A new suite goes
        behind the death tests or to the end. */
    method GetTestSuite(name: CString) returns (suite: TestSuite)
      requires Valid() && Unshuffled() && |testSuites| + 1 < MAX_RANGE
      modifies this`testSuites, this`lastDeathTestSuite, testSuiteIndices
      ensures Valid() && Unshuffled()
      ensures suite in testSuites && suite.name == name
      ensures forall s :: s in testSuites <==> s in old(testSuites) || s == suite
      ensures suite in old(testSuites) ==> testSuites == old(testSuites)
      ensures suite !in old(testSuites) ==>
                && fresh(suite) && fresh(suite.testIndices) && suite.testInfoList == []
                && (forall s | s in old(testSuites) :: s.name != name)
                && IsInserted(old(testSuites), suite, old(lastDeathTestSuite), testSuites)
    {
      hide *;
      Parts();
      Facts();
      var i := |testSuites|;
      while i > 0
        invariant 0 <= i <= |testSuites|
        invariant forall k | i <= k < |testSuites| :: testSuites[k].name != name
      {
        i := i - 1;
        if testSuites[i].name == name {
          return testSuites[i];
        }
      }
      ghost var before, last := testSuites, lastDeathTestSuite;
      InOrder();
      suite := new TestSuite(name);
      var isDeathTest := MatchesFilter(name, DEATH_TEST_SUITE_FILTER);
      if isDeathTest {
        lastDeathTestSuite := lastDeathTestSuite + 1;
        testSuites := testSuites[..lastDeathTestSuite] + [suite] + testSuites[lastDeathTestSuite..];
      } else {
        testSuites := testSuites + [suite];
      }
      DeathTestIs(name);
      testSuiteIndices.items := testSuiteIndices.items + [|testSuiteIndices.items|];
      IdentityIsOrder(testSuiteIndices.items, lastDeathTestSuite + 1);
      Enrolled(before, suite, last);
      Whole();
      NothingShuffled();
    }

    lemma InOrder()
      requires Unshuffled()
      ensures forall k | 0 <= k < |testSuiteIndices.items| :: testSuiteIndices.items[k] == k
      ensures forall k | 0 <= k < |testSuites| :: testSuites[k].Unshuffled()
    {
    }

    /** The new suite joins the registry. */
    lemma Enrolled(before: seq<TestSuite>, suite: TestSuite, last: int)
      requires SuitesApart(before) && TestsApart(before) && DeathTestsLead(before, last)
      requires |before| + 1 < MAX_RANGE && suite.testInfoList == [] && suite.testIndices != testSuiteIndices
      requires forall s | s in before :: s != suite && s.name != suite.name && s.testIndices != suite.testIndices
      requires forall k | 0 <= k < |before| :: before[k].testIndices != testSuiteIndices
      requires forall k | 0 <= k < |before| :: before[k].Valid() && before[k].Unshuffled()
      requires suite.Valid() && suite.Unshuffled()
      requires lastDeathTestSuite == if IsDeathTest(suite.name) then last + 1 else last
      requires testSuites == if IsDeathTest(suite.name) then before[..last + 1] + [suite] + before[last + 1..]
                             else before + [suite]
      ensures IsInserted(before, suite, last, testSuites)
      ensures Registered()
      ensures forall k | 0 <= k < |testSuites| :: testSuites[k].Valid() && testSuites[k].Unshuffled()
    {
      hide *;
      LeadInRange(before, last);
      InsertedIs(before, suite, last, testSuites);
      Inserted(before, suite, last, testSuites);
      Again();
    }

    lemma Again()
      requires |testSuites| < MAX_RANGE
      requires SuitesApart(testSuites) && TestsApart(testSuites) && DeathTestsLead(testSuites, lastDeathTestSuite)
      requires forall i | 0 <= i < |testSuites| :: testSuites[i].testIndices != testSuiteIndices
      ensures Registered()
    {
    }

    method AddTestInfo(testSuiteName: CString, testInfo: TestInfo)
      requires Valid() && Unshuffled() && |testSuites| + 1 < MAX_RANGE
      requires forall s | s in testSuites :: testInfo !in s.testInfoList && |s.testInfoList| + 1 < MAX_RANGE
      requires |testSuiteName| + |testInfo.name| + 1 < SIZE_MAX
      modifies this`testSuites, this`lastDeathTestSuite, testSuiteIndices
      modifies testSuites`testInfoList, IndexVectors(testSuites)
      ensures Valid() && Unshuffled()
      ensures forall s | s in old(testSuites) :: s in testSuites
      ensures exists s | s in testSuites :: && s.name == testSuiteName
                && if s in old(testSuites) then testSuites == old(testSuites)
                   else IsInserted(old(testSuites), s, old(lastDeathTestSuite), testSuites)
      ensures forall s | s in testSuites ::
                s.testInfoList == (if s in old(testSuites) then old(s.testInfoList) else [])
                                  + if s.name == testSuiteName then [testInfo] else []
    {
      hide *;
      var suite := GetTestSuite(testSuiteName);
      AddTo(suite, testInfo);
    }

    /** The second half of the above: one suite grows, and the registry stays in order. */
    method AddTo(suite: TestSuite, testInfo: TestInfo)
      requires Valid() && Unshuffled() && suite in testSuites && |suite.testInfoList| + 1 < MAX_RANGE
      requires forall s | s in testSuites :: testInfo !in s.testInfoList
      requires |suite.name| + |testInfo.name| + 1 < SIZE_MAX
      modifies suite`testInfoList, suite.testIndices
      ensures Valid() && Unshuffled()
      ensures suite.testInfoList == old(suite.testInfoList) + [testInfo]
      ensures forall s | s in testSuites && s.name == suite.name :: s == suite
    {
      hide *;
      ghost var i :| 0 <= i < |testSuites| && testSuites[i] == suite;
      Parts();
      Facts();
      InOrder();
      Separate(testSuites, i, testInfo);
      suite.AddTestInfo(testInfo);
      Together(testSuites, i);
      Again();
      Whole();
      IdentityIsOrder(testSuiteIndices.items, 0);
      NothingShuffled();
    }

    /** Shuffles the death test suites, the other suites, and then the tests of each suite. */
    method ShuffleTests()
      requires Valid()
      modifies random, testSuiteIndices, IndexVectors(testSuites)
      ensures Valid()
      ensures testSuiteIndices.items
           == ShuffledInGroups(old(testSuiteIndices.items), lastDeathTestSuite + 1, old(random.state))
      ensures var seed := StateAfterGroups(old(random.state), lastDeathTestSuite + 1, |testSuites|);
              forall k | 0 <= k < |testSuites| ::
                testSuites[k].testIndices.items
                == TestsShuffled(testSuites, old(testSuites[k].testIndices.items), k, seed)
    {
      hide *;
      Parts();
      Facts();
      var m := lastDeathTestSuite + 1;
      ghost var seed, before := random.state, testSuiteIndices.items;
      ShuffleKeepsOrder(before, 0, m, Draws(seed, m), m);
      ShuffleRange(random, 0, m, testSuiteIndices);
      ShuffleKeepsOrder(testSuiteIndices.items, m, |testSuites| - m, Draws(random.state, |testSuites| - m), m);
      ShuffleRange(random, m, |testSuites|, testSuiteIndices);
      InGroups(before, m, seed);
      ShuffleEachSuite();
      Whole();
    }

    /** The loop at the end of the shuffle. */
    method ShuffleEachSuite()
      requires Registered()
      requires forall k | 0 <= k < |testSuites| :: testSuites[k].Valid()
      modifies random, IndexVectors(testSuites)
      ensures forall k | 0 <= k < |testSuites| :: testSuites[k].Valid()
      ensures testSuiteIndices.items == old(testSuiteIndices.items)
      ensures forall k | 0 <= k < |testSuites| ::
                testSuites[k].testIndices.items
                == TestsShuffled(testSuites, old(testSuites[k].testIndices.items), k, old(random.state))
    {
      hide *;
      Facts();
      var i := 0;
      StatesOfSuites(random.state, testSuites, 0);
      while i < |testSuites|
        modifies random, IndexVectors(testSuites)
        invariant 0 <= i <= |testSuites|
        invariant testSuiteIndices.items == old(testSuiteIndices.items)
        invariant random.state == StateAfterSuites(old(random.state), testSuites[..i])
        invariant forall k | 0 <= k < |testSuites| :: testSuites[k].Valid()
        invariant forall k | i <= k < |testSuites| ::
                    testSuites[k].testIndices.items == old(testSuites[k].testIndices.items)
        invariant forall k | 0 <= k < i ::
                    testSuites[k].testIndices.items
                    == TestsShuffled(testSuites, old(testSuites[k].testIndices.items), k, old(random.state))
      {
        StatesOfSuites(old(random.state), testSuites, i);
        ItsTestsShuffled(testSuites, testSuites[i].testIndices.items, i, old(random.state));
        testSuites[i].ShuffleTests(random);
        i := i + 1;
      }
    }

    /** Restores the order of registration. */
    method UnshuffleTests()
      requires Valid()
      modifies testSuiteIndices, IndexVectors(testSuites)
      ensures Valid() && Unshuffled()
    {
      hide *;
      Parts();
      Facts();
      var i := 0;
      while i < |testSuites|
        invariant 0 <= i <= |testSuites| == |testSuiteIndices.items|
        invariant forall k | 0 <= k < i :: testSuites[k].Unshuffled()
        invariant forall k | 0 <= k < i :: testSuiteIndices.items[k] == k
        invariant forall k | 0 <= k < |testSuites| :: testSuites[k].Valid()
      {
        testSuites[i].UnshuffleTests();
        testSuiteIndices.items := testSuiteIndices.items[i := i];
        i := i + 1;
      }
      IdentityIsOrder(testSuiteIndices.items, lastDeathTestSuite + 1);
      Whole();
      NothingShuffled();
    }

    /** Decides which tests run in this process, and counts them. */
    method FilterTests(flags: Flags, sharding: Sharding) returns (numSelectedTests: nat)
      requires Valid() && ShardingOk(sharding)
      modifies testSuites`shouldRun, TestsOf(testSuites)
      ensures Valid()
      ensures numSelectedTests == Size(AllRunnables(testSuites, flags), sharding)
      ensures forall i | 0 <= i < |testSuites| ::
                testSuites[i].Decided(flags, sharding, AllRunnables(testSuites[..i], flags))
    {
      hide *;
      Parts();
      NoTests(sharding);
      var numRunnableTests := 0;
      numSelectedTests := 0;
      ghost var before := Prefixes(flags);
      var i := 0;
      while i < |testSuites|
        modifies testSuites`shouldRun, TestsOf(testSuites)
        invariant 0 <= i <= |testSuites| && Registered()
        invariant forall k | 0 <= k < |testSuites| :: testSuites[k].Valid()
        invariant TestsOf(testSuites) == old(TestsOf(testSuites))
        invariant ArePrefixes(flags, before)
        invariant IsTally(before[i], sharding, numRunnableTests, numSelectedTests)
        invariant forall k | 0 <= k < i :: testSuites[k].Decided(flags, sharding, before[k])
      {
        NextSuite(i, flags, before);
        numRunnableTests, numSelectedTests :=
          testSuites[i].FilterTests(flags, sharding, before[i], numRunnableTests, numSelectedTests);
        i := i + 1;
      }
      WholeList(flags, before);
      TallyIs(AllRunnables(testSuites, flags), sharding, numRunnableTests, numSelectedTests);
      Whole();
    }

    /** The runnable flags ahead of each suite. */
    ghost predicate ArePrefixes(flags: Flags, before: seq<seq<bool>>)
      reads this`testSuites, testSuites`testInfoList
    {
      && |before| == |testSuites| + 1
      && forall k | 0 <= k < |before| :: before[k] == AllRunnables(testSuites[..k], flags)
    }

    lemma Prefixes(flags: Flags) returns (before: seq<seq<bool>>)
      ensures ArePrefixes(flags, before) && |before| == |testSuites| + 1 && before[0] == []
    {
      before := seq(|testSuites| + 1, k requires 0 <= k <= |testSuites| reads this, testSuites`testInfoList =>
                                        AllRunnables(testSuites[..k], flags));
    }

    lemma WholeList(flags: Flags, before: seq<seq<bool>>)
      requires ArePrefixes(flags, before)
      ensures |before| == |testSuites| + 1 && before[|testSuites|] == AllRunnables(testSuites, flags)
      ensures forall k | 0 <= k < |before| :: before[k] == AllRunnables(testSuites[..k], flags)
    {
      assert testSuites[..|testSuites|] == testSuites;
    }

    /** The next suite shares no test with those before it. */
    lemma NextSuite(i: nat, flags: Flags, before: seq<seq<bool>>)
      requires Registered() && i < |testSuites| && ArePrefixes(flags, before)
      ensures |before| == |testSuites| + 1
      ensures before[i + 1] == before[i] + Runnables(testSuites[i].name, testSuites[i].testInfoList, flags)
      ensures forall t | t in testSuites[i].testInfoList :: t in TestsOf(testSuites)
      ensures forall k | 0 <= k < i :: testSuites[k] != testSuites[i]
      ensures forall k, m, n | 0 <= k < i
                               && 0 <= m < |testSuites[k].testInfoList| && 0 <= n < |testSuites[i].testInfoList| ::
                testSuites[k].testInfoList[m] != testSuites[i].testInfoList[n]
    {
      hide DeathTestsLead, IsOrder, IsSplit, Runnables;
      assert testSuites[..i + 1][..i] == testSuites[..i];
      forall k, m, n | 0 <= k < i && 0 <= m < |testSuites[k].testInfoList| && 0 <= n < |testSuites[i].testInfoList|
        ensures testSuites[k].testInfoList[m] != testSuites[i].testInfoList[n]
      {
        var t := testSuites[k].testInfoList[m];
        assert t in testSuites[k].testInfoList;
      }
    }

    lemma NothingShuffled()
      requires IsIdentity(testSuiteIndices.items)
      requires forall k | 0 <= k < |testSuites| :: testSuites[k].Unshuffled()
      ensures Unshuffled()
    {
    }
  }

  /** The death tests, below `m`, and the other tests are shuffled each on their own. */
  ghost function ShuffledInGroups(v: seq<int>, m: nat, seed: nat): (w: seq<int>)
    requires m <= |v|
    ensures |w| == |v|
  {
    Shuffled(Shuffled(v, 0, m, Draws(seed, m)), m, |v| - m, Draws(StateAfter(seed, m), |v| - m))
  }

  ghost function StateAfterGroups(seed: nat, m: nat, n: nat): nat
    requires m <= n
  {
    StateAfter(StateAfter(seed, m), n - m)
  }

  lemma InGroups(v: seq<int>, m: nat, seed: nat)
    requires m <= |v|
    ensures ShuffledInGroups(v, m, seed)
         == Shuffled(Shuffled(v, 0, m, Draws(seed, m)), m, |v| - m, Draws(StateAfter(seed, m), |v| - m))
    ensures StateAfterGroups(seed, m, |v|) == StateAfter(StateAfter(seed, m), |v| - m)
  {
  }

  lemma IdentityIsOrder(v: seq<int>, m: nat)
    requires forall k | 0 <= k < |v| :: v[k] == k
    ensures IsIdentity(v) && IsOrder(v, |v|) && IsSplit(v, m)
  {
  }
}
