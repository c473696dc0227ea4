/** Tests and suites, and which of their tests run. */
module TestSuites {
  import opened CStrings
  import opened Globs
  import opened Sets
  import opened Shards
  import opened Shuffles

  // ---------- orders ----------

  /** An arrangement of 0, ..., n - 1. */
  ghost predicate IsOrder(v: seq<int>, n: nat) {
    && |v| == n
    && (forall k | 0 <= k < n :: 0 <= v[k] < n)
    && (forall i, j | 0 <= i < j < n :: v[i] != v[j])
  }

  /** The indices below `m` stand in the first `m` places. */
  ghost predicate IsSplit(v: seq<int>, m: nat) {
    forall k | 0 <= k < |v| :: v[k] < m <==> k < m
  }

  ghost predicate IsIdentity(v: seq<int>) {
    forall k | 0 <= k < |v| :: v[k] == k
  }

  lemma ExchangeKeepsOrder(v: seq<int>, i: nat, j: nat, m: nat)
    requires i < |v| && j < |v| && IsOrder(v, |v|) && IsSplit(v, m) && (i < m <==> j < m)
    ensures IsOrder(Exchange(v, i, j), |v|) && IsSplit(Exchange(v, i, j), m)
  {
  }

  /** A shuffle on one side of `m` keeps the order an order and each side on its side. */
  lemma {:induction false} ShuffleKeepsOrder(v: seq<int>, begin: nat, width: nat, choices: seq<nat>, m: nat)
    requires begin + width <= |v| && AreChoices(choices, width)
    requires IsOrder(v, |v|) && IsSplit(v, m) && (begin + width <= m || m <= begin)
    ensures IsOrder(Shuffled(v, begin, width, choices), |v|) && IsSplit(Shuffled(v, begin, width, choices), m)
    decreases width
  {
    if width >= 2 {
      hide Exchange, IsOrder, IsSplit;
      ExchangeKeepsOrder(v, begin + choices[0], begin + width - 1, m);
      ShuffleKeepsOrder(Exchange(v, begin + choices[0], begin + width - 1), begin, width - 1, choices[1..], m);
    }
  }

  /** Every index stands somewhere. */
  lemma OrderIsOnto(v: seq<int>, n: nat, x: nat) returns (k: nat)
    requires IsOrder(v, n) && x < n
    ensures k < n && v[k] == x
  {
    var indices := DistinctMembers(v);
    SubsetSize(indices, Below(n));
    assert x in v;
    k :| k < n && v[k] == x;
  }

  // ---------- tests and suites ----------

  datatype Flags = Flags(filter: CString, alsoRunDisabledTests: bool)

  ghost predicate IsDisabled(suite: string, test: string) {
    Selects(DISABLE_TEST_FILTER, suite) || Selects(DISABLE_TEST_FILTER, test)
  }

  ghost predicate IsRunnable(flags: Flags, suite: string, test: string) {
    && (flags.alsoRunDisabledTests || !IsDisabled(suite, test))
    && Chosen(flags.filter, suite + "." + test)
  }

  /** The name says so itself. */
  ghost predicate SaysDisabled(name: string) { "DISABLED_" <= name || Contains(name, "/DISABLED_") }

  /** The filter chooses the full name, and neither name is a disabled one, unless such
      tests are asked for. */
  lemma RunnableMeans(flags: Flags, suite: string, test: string)
    ensures IsRunnable(flags, suite, test)
            <==> && Chosen(flags.filter, suite + "." + test)
                 && (flags.alsoRunDisabledTests || (!SaysDisabled(suite) && !SaysDisabled(test)))
    ensures IsDisabled(suite, test) <==> SaysDisabled(suite) || SaysDisabled(test)
  {
    hide Selects, Chosen, Contains;
    DisabledNames(suite);
    DisabledNames(test);
  }

  ghost predicate IsDeathTest(suite: string) { Selects(DEATH_TEST_SUITE_FILTER, suite) }

  class TestInfo {
    const name: CString
    var isDisabled: bool
    var matchesFilter: bool
    var isInAnotherShard: bool
    var shouldRun: bool

    constructor (name: CString)
      ensures this.name == name
    {
      this.name := name;
      isDisabled, matchesFilter, isInAnotherShard, shouldRun := false, false, false, false;
    }

    /** What the filter leaves on the test that has `id` runnable tests before it. */
    ghost predicate Filtered(suite: string, flags: Flags, sharding: Sharding, id: nat)
      requires ShardingOk(sharding)
      reads this
    {
      && isDisabled == IsDisabled(suite, name)
      && matchesFilter == Chosen(flags.filter, suite + "." + name)
      && isInAnotherShard == (sharding.Honor? && !ShouldRunTestOnShard(sharding.total, sharding.index, id))
      && shouldRun == (IsRunnable(flags, suite, name) && !isInAnotherShard)
    }

    /** Decides whether this test runs here. */
    method Filter(suite: CString, flags: Flags, sharding: Sharding, id: nat) returns (isRunnable: bool)
      requires ShardingOk(sharding) && |suite| + |name| + 1 < SIZE_MAX
      modifies this
      ensures Filtered(suite, flags, sharding, id)
      ensures shouldRun
              == (isRunnable && (sharding.Honor? ==> ShouldRunTestOnShard(sharding.total, sharding.index, id)))
      ensures isRunnable == IsRunnable(flags, suite, name)
    {
      hide Selects, Chosen;
      isDisabled := MatchesFilter(suite, DISABLE_TEST_FILTER);
      if !isDisabled {
        isDisabled := MatchesFilter(name, DISABLE_TEST_FILTER);
      }
      matchesFilter := FilterMatchesTest(flags.filter, suite, name);
      isRunnable := (flags.alsoRunDisabledTests || !isDisabled) && matchesFilter;
      isInAnotherShard := sharding.Honor? && !ShouldRunTestOnShard(sharding.total, sharding.index, id);
      shouldRun := isRunnable && !isInAnotherShard;
    }
  }

  /** Which tests of a list are runnable. */
  ghost function Runnables(suite: string, infos: seq<TestInfo>, flags: Flags): (r: seq<bool>)
    ensures |r| == |infos|
    ensures forall j | 0 <= j < |infos| :: r[j] == IsRunnable(flags, suite, infos[j].name)
  {
    if infos == [] then []
    else
      var m := |infos| - 1;
      Runnables(suite, infos[..m], flags) + [IsRunnable(flags, suite, infos[m].name)]
  }

  class TestSuite {
    const name: CString
    var testInfoList: seq<TestInfo>
    const testIndices: Vector<int>
    var shouldRun: bool

    constructor (name: CString)
      ensures this.name == name && testInfoList == [] && fresh(testIndices) && testIndices.items == []
      ensures Valid() && Unshuffled()
    {
      this.name := name;
      testInfoList, shouldRun := [], false;
      testIndices := new Vector();
    }

    ghost predicate Valid()
      reads this`testInfoList, testIndices
    {
      && IsOrder(testIndices.items, |testInfoList|)
      && (forall i, j | 0 <= i < j < |testInfoList| :: testInfoList[i] != testInfoList[j])
      && (forall i | 0 <= i < |testInfoList| :: |name| + |testInfoList[i].name| + 1 < SIZE_MAX)
      && |testInfoList| < MAX_RANGE
    }

    ghost predicate Unshuffled()
      reads testIndices
    {
      IsIdentity(testIndices.items)
    }

    method AddTestInfo(testInfo: TestInfo)
      requires Valid() && Unshuffled() && testInfo !in testInfoList && |testInfoList| + 1 < MAX_RANGE
      requires |name| + |testInfo.name| + 1 < SIZE_MAX
      modifies this`testInfoList, testIndices
      ensures Valid() && Unshuffled()
      ensures testInfoList == old(testInfoList) + [testInfo]
    {
      testInfoList := testInfoList + [testInfo];
      testIndices.items := testIndices.items + [|testIndices.items|];
    }

    method ShuffleTests(random: Random)
      requires Valid()
      modifies random, testIndices
      ensures Valid()
      ensures testIndices.items
           == Shuffled(old(testIndices.items), 0, |testInfoList|, Draws(old(random.state), |testInfoList|))
      ensures random.state == StateAfter(old(random.state), |testInfoList|)
    {
      ghost var n := |testInfoList|;
      ShuffleKeepsOrder(testIndices.items, 0, n, Draws(random.state, n), n);
      Shuffle(random, testIndices);
    }

    method UnshuffleTests()
      requires Valid()
      modifies testIndices
      ensures Valid() && Unshuffled()
    {
      var i := 0;
      while i < |testIndices.items|
        invariant 0 <= i <= |testIndices.items| == |testInfoList|
        invariant forall k | 0 <= k < i :: testIndices.items[k] == k
      {
        testIndices.items := testIndices.items[i := i];
        i := i + 1;
      }
    }

    /** Test `k` has been decided, with the runnable tests before it as its number. */
    ghost predicate FilteredAt(k: nat, flags: Flags, sharding: Sharding, before: seq<bool>)
      requires k < |testInfoList| && ShardingOk(sharding)
      reads this`testInfoList, testInfoList[k]
    {
      testInfoList[k].Filtered(name, flags, sharding, Count(before + Runnables(name, testInfoList, flags)[..k]))
    }

    ghost predicate RunsAt(k: nat)
      requires k < |testInfoList|
      reads this`testInfoList, testInfoList[k]
    {
      testInfoList[k].shouldRun
    }

    ghost predicate FilteredBelow(j: nat, flags: Flags, sharding: Sharding, before: seq<bool>)
      requires j <= |testInfoList| && ShardingOk(sharding)
      reads this`testInfoList, testInfoList[..j]
    {
      forall k {:trigger FilteredAt(k, flags, sharding, before)} | 0 <= k < j ::
        assert testInfoList[k] == testInfoList[..j][k];
        FilteredAt(k, flags, sharding, before)
    }

    /** One of the first `j` tests runs. */
    ghost predicate AnyRuns(j: nat)
      requires j <= |testInfoList|
      reads this`testInfoList, testInfoList[..j]
    {
      exists k {:trigger RunsAt(k)} | 0 <= k < j ::
        assert testInfoList[k] == testInfoList[..j][k];
        RunsAt(k)
    }

    /** Every test has been decided, and the suite runs just when one of them does. */
    ghost predicate Decided(flags: Flags, sharding: Sharding, before: seq<bool>)
      requires ShardingOk(sharding)
      reads this`testInfoList, this`shouldRun, testInfoList
    {
      && FilteredBelow(|testInfoList|, flags, sharding, before)
      && (shouldRun <==> AnyRuns(|testInfoList|))
    }

    lemma NextFiltered(j: nat, flags: Flags, sharding: Sharding, before: seq<bool>)
      requires j < |testInfoList| && ShardingOk(sharding) && FilteredBelow(j, flags, sharding, before)
      requires FilteredAt(j, flags, sharding, before)
      ensures FilteredBelow(j + 1, flags, sharding, before)
      ensures AnyRuns(j + 1) <==> AnyRuns(j) || RunsAt(j)
    {
      hide FilteredAt, RunsAt;
    }

    lemma NoneFiltered(flags: Flags, sharding: Sharding, before: seq<bool>)
      requires ShardingOk(sharding)
      ensures FilteredBelow(0, flags, sharding, before) && !AnyRuns(0)
    {
    }

    lemma DecidedAt(k: nat, flags: Flags, sharding: Sharding, before: seq<bool>)
      requires k < |testInfoList| && ShardingOk(sharding)
      requires testInfoList[k].Filtered(name, flags, sharding,
                                        Count(before + Runnables(name, testInfoList, flags)[..k]))
      ensures FilteredAt(k, flags, sharding, before)
      ensures RunsAt(k) <==> testInfoList[k].shouldRun
    {
    }

    /** Decides for each test of the suite whether it runs here. */
    method FilterTests(flags: Flags, sharding: Sharding, ghost before: seq<bool>, numRunnable: nat, numSelected: nat)
        returns (newRunnable: nat, newSelected: nat)
      requires Valid() && ShardingOk(sharding)
      requires IsTally(before, sharding, numRunnable, numSelected)
      modifies this`shouldRun, testInfoList
      ensures Valid()
      ensures IsTally(before + Runnables(name, testInfoList, flags), sharding, newRunnable, newSelected)
      ensures Decided(flags, sharding, before)
    {
      hide *;
      shouldRun := false;
      newRunnable, newSelected := numRunnable, numSelected;
      ghost var all := Runnables(name, testInfoList, flags);
      assert before + all[..0] == before;
      NoneFiltered(flags, sharding, before);
      var j := 0;
      while j < |testInfoList|
        modifies this`shouldRun, testInfoList
        invariant 0 <= j <= |testInfoList| && Valid()
        invariant IsTally(before + all[..j], sharding, newRunnable, newSelected)
        invariant FilteredBelow(j, flags, sharding, before)
        invariant shouldRun <==> AnyRuns(j)
      {
        var testInfo := testInfoList[j];
        OthersDiffer(j);
        TallyIs(before + all[..j], sharding, newRunnable, newSelected);
        var isRunnable := testInfo.Filter(name, flags, sharding, newRunnable);
        TallyNext(before + all[..j], isRunnable, sharding, newRunnable, newSelected);
        assert before + all[..j + 1] == before + all[..j] + [isRunnable];
        newSelected := newSelected + if testInfo.shouldRun then 1 else 0;
        newRunnable := newRunnable + if isRunnable then 1 else 0;
        shouldRun := shouldRun || testInfo.shouldRun;
        DecidedAt(j, flags, sharding, before);
        NextFiltered(j, flags, sharding, before);
        j := j + 1;
      }
      assert all[..j] == all;
      AllDecided(flags, sharding, before);
    }

    lemma AllDecided(flags: Flags, sharding: Sharding, before: seq<bool>)
      requires ShardingOk(sharding) && FilteredBelow(|testInfoList|, flags, sharding, before)
      requires shouldRun <==> AnyRuns(|testInfoList|)
      ensures Decided(flags, sharding, before)
    {
      hide FilteredBelow, AnyRuns;
    }

    lemma OthersDiffer(j: nat)
      requires Valid() && j < |testInfoList|
      ensures |name| + |testInfoList[j].name| + 1 < SIZE_MAX
      ensures testInfoList[j] !in testInfoList[..j]
    {
    }
  }

  /** The tests so far that are runnable, and those that run here. */
  ghost predicate IsTally(tests: seq<bool>, sharding: Sharding, numRunnable: nat, numSelected: nat)
    requires ShardingOk(sharding)
  {
    numRunnable == Count(tests) && numSelected == Size(tests, sharding)
  }

  lemma NoTests(sharding: Sharding)
    requires ShardingOk(sharding)
    ensures IsTally([], sharding, 0, 0)
  {
  }

  lemma TallyIs(tests: seq<bool>, sharding: Sharding, numRunnable: nat, numSelected: nat)
    requires ShardingOk(sharding) && IsTally(tests, sharding, numRunnable, numSelected)
    ensures numRunnable == Count(tests) && numSelected == Size(tests, sharding)
  {
  }

  lemma TallyNext(tests: seq<bool>, b: bool, sharding: Sharding, numRunnable: nat, numSelected: nat)
    requires ShardingOk(sharding) && IsTally(tests, sharding, numRunnable, numSelected)
    ensures var here := sharding.Honor? ==> ShouldRunTestOnShard(sharding.total, sharding.index, numRunnable);
            IsTally(tests + [b], sharding, numRunnable + if b then 1 else 0, numSelected + if b && here then 1 else 0)
  {
    OneMore(tests, b, sharding);
    RunsNext(tests, b, sharding);
  }

  lemma RunsNext(before: seq<bool>, b: bool, sharding: Sharding)
    requires ShardingOk(sharding)
    ensures Runs(before + [b], sharding, |before|)
       <==> b && (sharding.Honor? ==> ShouldRunTestOnShard(sharding.total, sharding.index, Count(before)))
  {
    assert (before + [b])[..|before|] == before;
  }
}
