/**
 Tests and test cases: registration, the flags that FilterTests writes, shuffling inside a test
 case, and running the tests that are to run.
 */
module TestCases {
  import opened Common
  import opened Sharding
  import opened Shuffling
  import TestFilter

  /** What decides which tests are runnable: two flags and the filter for names of disabled tests. */
  datatype Criteria = Criteria(filter: string, alsoRunDisabled: bool, disabledNames: string)

  predicate Disabled(caseName: string, testName: string, c: Criteria) {
    TestFilter.MatchesFilter(caseName, c.disabledNames) || TestFilter.MatchesFilter(testName, c.disabledNames)
  }

  predicate Runnable(caseName: string, testName: string, c: Criteria) {
    (c.alsoRunDisabled || !Disabled(caseName, testName, c))
    && TestFilter.FilterMatchesTest(caseName, testName, c.filter)
  }

  /** By the names: the test passes the flag, and disabled tests are asked for or it is none. */
  ghost predicate Asked(caseName: string, testName: string, filter: string, alsoRunDisabled: bool) {
    && TestFilter.PassesFlag(caseName + "." + testName, filter)
    && (alsoRunDisabled || !(TestFilter.NamedDisabled(caseName) || TestFilter.NamedDisabled(testName)))
  }

  lemma RunnableIff(caseName: string, testName: string, c: Criteria)
    requires c.disabledNames == TestFilter.DISABLE_TEST_FILTER
    ensures Runnable(caseName, testName, c) <==> Asked(caseName, testName, c.filter, c.alsoRunDisabled)
  {
    TestFilter.PassesFlagIff(caseName, testName, c.filter);
    TestFilter.DisabledIff(caseName);
    TestFilter.DisabledIff(testName);
  }

  class TestInfo {
    const testCaseName: string
    const name: string
    var isDisabled: bool
    var matchesFilter: bool
    var shouldRun: bool

    constructor (testCaseName: string, name: string)
      ensures this.testCaseName == testCaseName && this.name == name
      ensures !isDisabled && !matchesFilter && !shouldRun
    {
      this.testCaseName, this.name := testCaseName, name;
      isDisabled, matchesFilter, shouldRun := false, false, false;
    }

    predicate Judged(c: Criteria)
      reads `isDisabled, `matchesFilter
    {
      && isDisabled == Disabled(testCaseName, name, c)
      && matchesFilter == TestFilter.FilterMatchesTest(testCaseName, name, c.filter)
    }

    /** The body of the inner loop of FilterTests, for the test that would get number testId. */
    method Judge(caseName: string, p: Protocol, c: Criteria, testId: nat) returns (isRunnable: bool)
      requires Legal(p) && caseName == testCaseName
      modifies `isDisabled, `matchesFilter, `shouldRun
      ensures Judged(c) && isRunnable == Runnable(testCaseName, name, c)
      ensures shouldRun == (isRunnable && OnShard(p, testId))
      ensures c.disabledNames == TestFilter.DISABLE_TEST_FILTER ==>
                (isDisabled <==> TestFilter.NamedDisabled(testCaseName) || TestFilter.NamedDisabled(name))
      ensures matchesFilter <==> TestFilter.PassesFlag(testCaseName + "." + name, c.filter)
    {
      TestFilter.PassesFlagIff(testCaseName, name, c.filter);
      TestFilter.DisabledIff(testCaseName);
      TestFilter.DisabledIff(name);
      isDisabled := Disabled(caseName, name, c);
      matchesFilter := TestFilter.FilterMatchesTest(caseName, name, c.filter);
      isRunnable := (c.alsoRunDisabled || !isDisabled) && matchesFilter;
      shouldRun := isRunnable && OnShard(p, testId);
    }
  }

  // ---- Flags of lists of tests ----

  function Chosen(tests: seq<TestInfo>): (r: seq<bool>)
    reads tests`shouldRun
    ensures |r| == |tests|
  {
    if tests == [] then [] else [tests[0].shouldRun] + Chosen(tests[1..])
  }

  function Runnables(tests: seq<TestInfo>, c: Criteria): (r: seq<bool>)
    ensures |r| == |tests|
  {
    if tests == [] then []
    else [Runnable(tests[0].testCaseName, tests[0].name, c)] + Runnables(tests[1..], c)
  }

  lemma {:induction false} FlagAt(tests: seq<TestInfo>, c: Criteria, k: nat)
    requires k < |tests|
    ensures Chosen(tests)[k] == tests[k].shouldRun
    ensures Runnables(tests, c)[k] == Runnable(tests[k].testCaseName, tests[k].name, c)
  {
    if k == 0 {
    } else {
      FlagAt(tests[1..], c, k - 1);
    }
  }

  /** The tests that are to run, in their order. */
  function Running(tests: seq<TestInfo>): seq<TestInfo>
    reads tests`shouldRun
  {
    if tests == [] then []
    else if tests[0].shouldRun then [tests[0]] + Running(tests[1..])
    else Running(tests[1..])
  }

  lemma {:induction false} ChosenAppend(a: seq<TestInfo>, b: seq<TestInfo>)
    ensures Chosen(a + b) == Chosen(a) + Chosen(b)
  {
    if a == [] {
      assert a + b == b;
    } else {
      assert a + b == [a[0]] + (a[1..] + b);
      ChosenAppend(a[1..], b);
    }
  }

  lemma {:induction false} RunnablesAppend(a: seq<TestInfo>, b: seq<TestInfo>, c: Criteria)
    ensures Runnables(a + b, c) == Runnables(a, c) + Runnables(b, c)
  {
    if a == [] {
      assert a + b == b;
    } else {
      assert a + b == [a[0]] + (a[1..] + b);
      RunnablesAppend(a[1..], b, c);
    }
  }

  lemma {:induction false} RunningAppend(a: seq<TestInfo>, b: seq<TestInfo>)
    ensures Running(a + b) == Running(a) + Running(b)
  {
    if a == [] {
      assert a + b == b;
    } else {
      assert a + b == [a[0]] + (a[1..] + b);
      RunningAppend(a[1..], b);
    }
  }

  lemma RunningUpTo(tests: seq<TestInfo>, i: nat)
    requires i < |tests|
    ensures Running(tests[..i + 1]) == Running(tests[..i]) + (if tests[i].shouldRun then [tests[i]] else [])
  {
    assert tests[..i + 1] == tests[..i] + [tests[i]];
    RunningAppend(tests[..i], [tests[i]]);
    RunningOne(tests[i]);
  }

  lemma {:induction false} CountRunning(tests: seq<TestInfo>)
    ensures |Running(tests)| == Count(Chosen(tests))
  {
    if tests == [] {
    } else {
      assert Chosen(tests)[1..] == Chosen(tests[1..]);
      CountRunning(tests[1..]);
    }
  }

  /** A test runs as often as it is listed if it is to run, and not at all otherwise. */
  lemma {:induction false} RunningTimes(tests: seq<TestInfo>, t: TestInfo)
    ensures multiset(Running(tests))[t] == if t.shouldRun then multiset(tests)[t] else 0
  {
    if tests == [] {
    } else {
      assert tests == [tests[0]] + tests[1..];
      RunningTimes(tests[1..], t);
    }
  }

  lemma RunningOne(t: TestInfo)
    ensures Running([t]) == if t.shouldRun then [t] else []
  {
    assert [t][1..] == [];
  }

  lemma RunningAround(front: seq<TestInfo>, t: TestInfo, back: seq<TestInfo>)
    ensures Running(front + ([t] + back)) == Running(front) + (Running([t]) + Running(back))
  {
    RunningAppend(front, [t] + back);
    RunningAppend([t], back);
  }

  lemma RunningWithout(tests: seq<TestInfo>, j: nat)
    requires j < |tests|
    ensures multiset(Running(tests)) == multiset(Running([tests[j]])) + multiset(Running(Without(tests, j)))
  {
    var front, t, back := tests[..j], tests[j], tests[j + 1..];
    SplitAround(tests, j);
    RunningAround(front, t, back);
    RunningAppend(front, back);
    MultisetAround(Running(front), Running([t]), Running(back));
  }

  /** What runs does not depend on the order. */
  lemma {:induction false} RunningMultiset(a: seq<TestInfo>, b: seq<TestInfo>)
    requires multiset(a) == multiset(b)
    ensures multiset(Running(a)) == multiset(Running(b))
    decreases |a|
  {
    if a == [] {
      assert |multiset(b)| == 0;
      assert b == [];
    } else {
      assert a[0] in multiset(b);
      var j :| 0 <= j < |b| && b[j] == a[0];
      WithoutMultiset(a, 0);
      WithoutMultiset(b, j);
      RunningWithout(a, 0);
      RunningWithout(b, j);
      RunningMultiset(Without(a, 0), Without(b, j));
    }
  }

  /** In a launch for one shard of several, a test runs exactly if it is runnable and the shard is its own. */
  lemma RunsOnItsShard(tests: seq<TestInfo>, c: Criteria, total: int, index: int, k: nat)
    requires 0 <= index < total && k < |tests|
    requires Filtered(tests, Launch(total, index), c, 0)
    ensures tests[k].shouldRun <==>
              && Runnable(tests[k].testCaseName, tests[k].name, c)
              && index == ShardOf(Runnables(tests, c), total, k)
  {
    FlagAt(tests, c, k);
    ExactlyOneShard(Runnables(tests, c), total, index, k);
  }

  // ---- Filtering ----

  /** Every test is judged, and those on the shard are to run when the first runnable one has number testId. */
  predicate Filtered(tests: seq<TestInfo>, p: Protocol, c: Criteria, testId: nat)
    requires Legal(p)
    reads tests`isDisabled, tests`matchesFilter, tests`shouldRun
  {
    Chosen(tests) == Selected(Runnables(tests, c), p, testId) && AllJudged(tests, c)
  }

  predicate AllJudged(tests: seq<TestInfo>, c: Criteria)
    reads tests`isDisabled, tests`matchesFilter
  {
    forall t :: t in tests ==> t.Judged(c)
  }

  lemma AllJudgedAppend(a: seq<TestInfo>, b: seq<TestInfo>, c: Criteria)
    requires AllJudged(a, c) && AllJudged(b, c)
    ensures AllJudged(a + b, c)
  {
  }

  lemma FilteredAppend(a: seq<TestInfo>, b: seq<TestInfo>, p: Protocol, c: Criteria, testId: nat)
    requires Legal(p) && Filtered(a, p, c, testId)
    requires Filtered(b, p, c, testId + Count(Runnables(a, c)))
    ensures Filtered(a + b, p, c, testId)
  {
    var ra, rb := Runnables(a, c), Runnables(b, c);
    SelectedAppend(ra, rb, p, testId);
    ChosenAppend(a, b);
    RunnablesAppend(a, b, c);
    AllJudgedAppend(a, b, c);
  }

  lemma CountsAppend(a: seq<TestInfo>, b: seq<TestInfo>, c: Criteria)
    ensures Count(Chosen(a + b)) == Count(Chosen(a)) + Count(Chosen(b))
    ensures Count(Runnables(a + b, c)) == Count(Runnables(a, c)) + Count(Runnables(b, c))
  {
    ChosenAppend(a, b);
    RunnablesAppend(a, b, c);
    CountAppend(Chosen(a), Chosen(b));
    CountAppend(Runnables(a, c), Runnables(b, c));
  }

  lemma FilteredOne(t: TestInfo, p: Protocol, c: Criteria, testId: nat)
    requires Legal(p) && t.Judged(c)
    requires t.shouldRun == (Runnable(t.testCaseName, t.name, c) && OnShard(p, testId))
    ensures Filtered([t], p, c, testId)
    ensures Count(Chosen([t])) == Bit(t.shouldRun)
    ensures Count(Runnables([t], c)) == Bit(Runnable(t.testCaseName, t.name, c))
  {
    var r := Runnable(t.testCaseName, t.name, c);
    assert Runnables([t], c) == [r] && Chosen([t]) == [t.shouldRun];
    SelectedOne(r, p, testId);
    CountOne(r);
    CountOne(t.shouldRun);
  }

  /** The inner loop of FilterTests at test t, behind the tests in done. */
  method FilterNext(ghost done: seq<TestInfo>, t: TestInfo, caseName: string,
                    p: Protocol, c: Criteria, ghost testId: nat, next: nat)
    returns (isRunnable: bool)
    requires Legal(p) && caseName == t.testCaseName && t !in done
    requires Filtered(done, p, c, testId) && next == testId + Count(Runnables(done, c))
    modifies t`isDisabled, t`matchesFilter, t`shouldRun
    ensures Filtered(done + [t], p, c, testId)
    ensures next + Bit(isRunnable) == testId + Count(Runnables(done + [t], c))
    ensures Count(Chosen(done + [t])) == old(Count(Chosen(done))) + Bit(t.shouldRun)
  {
    isRunnable := t.Judge(caseName, p, c, next);
    FilteredOne(t, p, c, next);
    FilteredAppend(done, [t], p, c, testId);
    CountsAppend(done, [t], c);
  }

  lemma NotBefore<T>(s: seq<T>, j: nat)
    requires j < |s| && Distinct(s)
    ensures s[j] !in s[..j] && s[..j + 1] == s[..j] + [s[j]]
  {
  }

  class TestCase {
    const name: string
    var tests: seq<TestInfo>
    var testIndices: seq<int>
    var shouldRun: bool

    constructor (name: string)
      ensures this.name == name && tests == [] && !shouldRun && Unshuffled() && Valid()
    {
      this.name := name;
      tests, testIndices, shouldRun := [], [], false;
      IotaSplits(0, 0);
    }

    ghost predicate Valid()
      reads `tests, `testIndices
    {
      Permuted() && OwnTests()
    }

    ghost predicate Permuted()
      reads `tests, `testIndices
    {
      BlockPermutation(testIndices, 0, |tests|)
    }

    /** The tests are different objects, and each has the name of this test case. */
    ghost predicate OwnTests()
      reads `tests
    {
      Distinct(tests) && forall t :: t in tests ==> t.testCaseName == name
    }

    ghost predicate Unshuffled()
      reads `tests, `testIndices
    {
      testIndices == Iota(0, |tests|)
    }

    /** What a run of this test case runs in its present order. */
    function RunNow(): seq<TestInfo>
      reads `shouldRun, `tests, `testIndices, tests`shouldRun
    {
      if shouldRun && Within(testIndices, |tests|) then Running(Visit(tests, testIndices)) else []
    }

    /** What a run of this test case in the order of registration runs. */
    function RunList(): seq<TestInfo>
      reads `shouldRun, `tests, tests`shouldRun
    {
      if shouldRun then Running(tests) else []
    }

    method AddTestInfo(test: TestInfo)
      requires Valid() && Unshuffled() && test !in tests && test.testCaseName == name
      modifies `tests, `testIndices
      ensures Valid() && Unshuffled() && tests == old(tests) + [test]
    {
      IotaAppend(|tests|);
      IotaSplits(0, |tests| + 1);
      tests := tests + [test];
      testIndices := testIndices + [|testIndices|];
    }

    method ShuffleTests(random: Random)
      requires Valid() && |tests| <= MAX_RANGE
      modifies `testIndices, random`state
      ensures Valid()
      ensures ShuffledFrom(old(testIndices), testIndices, old(random.state))
      ensures random.state == StateAfter(old(random.state), |tests|)
    {
      ghost var before := testIndices;
      testIndices := ShuffleRange(random, 0, |testIndices|, testIndices);
      assert testIndices[0..|testIndices|] == testIndices == testIndices[0..];
      assert before[0..|before|] == before == before[0..];
    }

    method UnshuffleTests()
      requires Valid()
      modifies `testIndices
      ensures Unshuffled() && Valid()
    {
      var i := 0;
      while i < |testIndices|
        invariant 0 <= i <= |testIndices| == |tests|
        invariant forall k :: 0 <= k < i ==> testIndices[k] == k
      {
        testIndices := testIndices[i := i];
        i := i + 1;
      }
      IotaByElements(testIndices);
      IotaSplits(0, |tests|);
    }

    /**
     FilterTests on one test case: judges and numbers its tests, the first runnable one with number
     testId. Returns the next number and how many tests it selected.
     */
    method FilterTests(p: Protocol, c: Criteria, testId: nat) returns (next: nat, selected: nat)
      requires OwnTests() && Legal(p)
      modifies `shouldRun, tests`isDisabled, tests`matchesFilter, tests`shouldRun
      ensures Filtered(tests, p, c, testId)
      ensures shouldRun <==> Running(tests) != []
      ensures next == testId + Count(Runnables(tests, c))
      ensures selected == Count(Chosen(tests))
    {
      next, selected, shouldRun := testId, 0, false;
      ghost var done: seq<TestInfo> := [];
      var j := 0;
      while j < |tests|
        invariant 0 <= j <= |tests| && done == tests[..j]
        invariant Filtered(done, p, c, testId)
        invariant next == testId + Count(Runnables(done, c))
        invariant selected == Count(Chosen(done))
        invariant shouldRun <==> selected > 0
      {
        NotBefore(tests, j);
        var t := tests[j];
        var isRunnable := FilterNext(done, t, name, p, c, testId, next);
        next := next + Bit(isRunnable);
        selected := selected + Bit(t.shouldRun);
        shouldRun := shouldRun || t.shouldRun;
        done := done + [t];
        j := j + 1;
      }
      assert done == tests;
      CountRunning(tests);
    }

    /** Runs the tests that are to run, in the order of the index vector, if the test case is to run. */
    method Run() returns (ran: seq<TestInfo>)
      requires Permuted()
      ensures Within(testIndices, |tests|)
      ensures ran == RunNow()
      ensures multiset(ran) == multiset(RunList())
      ensures Unshuffled() ==> ran == RunList()
    {
      VisitsAllBlockFirst(tests, testIndices, 0);
      if !shouldRun {
        return [];
      }
      ghost var order := Visit(tests, testIndices);
      ran := [];
      var i := 0;
      while i < |tests|
        invariant 0 <= i <= |tests| && ran == Running(order[..i])
      {
        var t := tests[testIndices[i]];
        RunningUpTo(order, i);
        if t.shouldRun {
          ran := ran + [t];
        }
        i := i + 1;
      }
      assert order[..i] == order;
      VisitUnshuffled(tests);
      RunningMultiset(order, tests);
    }
  }
}
