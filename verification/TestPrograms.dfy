/**
 A whole test program: the registrations and then a run. What it runs is said in terms of the tests
 registered, their names, the flags and the sharding variables.
 */
module TestPrograms {
  import opened Common
  import opened Sharding
  import opened Shuffling
  import opened RunOrders
  import opened TestCases
  import opened TestRegistry
  import TestFilter

  datatype Launch = Launch(flags: Flags, total: int, index: int, inSubprocess: bool) {
    /** What the source makes of the sharding variables. */
    function Sharding(): Protocol {
      ShouldShard(total, index, inSubprocess)
    }

    /** They contradict each other. */
    predicate Contradictory() {
      !inSubprocess && (total != -1 || index != -1) && !(0 <= index < total)
    }

    /** The test passes the flag, and is not disabled unless disabled tests are asked for. */
    ghost predicate Wants(t: TestInfo) {
      Asked(t.testCaseName, t.name, flags.filter, flags.alsoRunDisabled)
    }
  }

  /** How many of the first k tests the launch wants. */
  ghost function WantedBefore(order: seq<TestInfo>, l: Launch, k: nat): nat
    requires k <= |order|
  {
    if k == 0 then 0 else WantedBefore(order, l, k - 1) + if l.Wants(order[k - 1]) then 1 else 0
  }

  /** Test k in the order of a run is wanted, and its number among the wanted ones is on the shard. */
  ghost predicate MustRun(order: seq<TestInfo>, l: Launch, k: nat)
    requires k < |order|
  {
    l.Wants(order[k]) && OnShardOf(l.total, l.index, l.inSubprocess, WantedBefore(order, l, k))
  }

  /** The tests that must run. */
  ghost function MustSet(order: seq<TestInfo>, l: Launch): set<TestInfo> {
    set k | 0 <= k < |order| && MustRun(order, l, k) :: order[k]
  }

  lemma {:induction false} WantedCount(order: seq<TestInfo>, l: Launch, k: nat)
    requires k <= |order|
    ensures Count(Runnables(order, l.flags.Criteria())[..k]) == WantedBefore(order, l, k)
  {
    var c := l.flags.Criteria();
    var flags := Runnables(order, c);
    if k == 0 {
    } else {
      WantedCount(order, l, k - 1);
      FlagAt(order, c, k - 1);
      RunnableIff(order[k - 1].testCaseName, order[k - 1].name, c);
      assert flags[..k] == flags[..k - 1] + [flags[k - 1]];
      CountAppend(flags[..k - 1], [flags[k - 1]]);
      CountOne(flags[k - 1]);
    }
  }

  lemma {:induction false} DistinctTimes<T>(s: seq<T>, k: nat)
    requires Distinct(s) && k < |s|
    ensures multiset(s)[s[k]] == 1
  {
    assert s == s[..k] + ([s[k]] + s[k + 1..]);
    assert s[k] !in s[..k] && s[k] !in s[k + 1..];
    assert s[k] !in multiset(s[..k]) && s[k] !in multiset(s[k + 1..]);
  }

  lemma SameDistinct<T>(a: seq<T>, b: seq<T>)
    requires Distinct(a) && multiset(a) == multiset(b)
    ensures Distinct(b)
  {
    forall i, j | 0 <= i < j < |b|
      ensures b[i] != b[j]
    {
      assert b == b[..i] + ([b[i]] + b[i + 1..]) && b[j] == b[i + 1..][j - i - 1];
      if b[i] == b[j] {
        TwiceIn(b, i, j);
        assert b[i] in multiset(a);
        var k :| 0 <= k < |a| && a[k] == b[i];
        DistinctTimes(a, k);
      }
    }
  }

  lemma TwiceIn<T>(b: seq<T>, i: nat, j: nat)
    requires i < j < |b| && b[i] == b[j]
    ensures multiset(b)[b[i]] >= 2
  {
    var back := b[i + 1..];
    assert b == b[..i] + ([b[i]] + back) && back[j - i - 1] == b[i];
    assert b[i] in multiset(back);
  }

  /** After filtering, a test is to run exactly if it must. */
  lemma FlaggedIfMust(order: seq<TestInfo>, l: Launch, k: nat)
    requires !l.Sharding().Exit? && Legal(l.Sharding()) && Filtered(order, l.Sharding(), l.flags.Criteria(), 0)
    requires k < |order|
    ensures order[k].shouldRun <==> MustRun(order, l, k)
  {
    var c := l.flags.Criteria();
    FlaggedAt(order, c, l.Sharding(), k);
    RunnableIff(order[k].testCaseName, order[k].name, c);
    WantedCount(order, l, k);
    OnShardIff(l.total, l.index, l.inSubprocess, WantedBefore(order, l, k));
  }

  lemma FlaggedAt(order: seq<TestInfo>, c: Criteria, p: Protocol, k: nat)
    requires Legal(p) && Filtered(order, p, c, 0) && k < |order|
    ensures order[k].shouldRun <==>
              Runnable(order[k].testCaseName, order[k].name, c) && OnShard(p, Count(Runnables(order, c)[..k]))
  {
    FlagAt(order, c, k);
    SelectedIff(Runnables(order, c), p, 0, k);
  }

  lemma DueIsMust(order: seq<TestInfo>, l: Launch)
    requires !l.Sharding().Exit? && Legal(l.Sharding()) && Filtered(order, l.Sharding(), l.flags.Criteria(), 0)
    ensures DueOf(order) == MustSet(order, l)
  {
    forall t | t in DueOf(order)
      ensures t in MustSet(order, l)
    {
      var k :| 0 <= k < |order| && order[k] == t;
      FlaggedIfMust(order, l, k);
    }
    forall t | t in MustSet(order, l)
      ensures t in DueOf(order)
    {
      var k :| 0 <= k < |order| && MustRun(order, l, k) && order[k] == t;
      FlaggedIfMust(order, l, k);
    }
  }

  lemma {:induction false} KeepTimes<T>(s: seq<T>, due: set<T>, x: T)
    ensures multiset(Keep(s, due))[x] == if x in due then multiset(s)[x] else 0
  {
    if s == [] {
    } else {
      KeepTimes(s[1..], due, x);
      assert s == [s[0]] + s[1..];
    }
  }

  lemma MustOnce(order: seq<TestInfo>, l: Launch, j: nat, k: nat)
    requires Distinct(order) && j < |order| && k < |order| && order[j] == order[k]
    ensures j == k
  {
  }

  /** What one iteration has run: of the tests in order each that must run once, and no others. */
  ghost predicate RanAsMust(ran: seq<TestInfo>, order: seq<TestInfo>, l: Launch) {
    && (forall k :: 0 <= k < |order| ==> multiset(ran)[order[k]] == if MustRun(order, l, k) then 1 else 0)
    && (forall t :: t in ran ==> t in order)
  }

  lemma KeptAsMust(ran: seq<TestInfo>, order: seq<TestInfo>, l: Launch)
    requires Distinct(order) && multiset(ran) == multiset(Keep(order, MustSet(order, l)))
    ensures RanAsMust(ran, order, l)
  {
    var due := MustSet(order, l);
    forall k | 0 <= k < |order|
      ensures multiset(ran)[order[k]] == if MustRun(order, l, k) then 1 else 0
    {
      KeepTimes(order, due, order[k]);
      DistinctTimes(order, k);
      if order[k] in due {
        var j :| 0 <= j < |order| && MustRun(order, l, j) && order[j] == order[k];
        MustOnce(order, l, j, k);
      }
    }
    forall t | t in ran
      ensures t in order
    {
      assert t in multiset(Keep(order, due));
      KeepIn(order, due, t);
    }
  }

  /** The names of test cases in an order: those of death tests come first. */
  ghost predicate DeathsFirst(names: seq<string>) {
    forall i, j :: 0 <= i < j < |names| && TestFilter.NamedDeath(names[j]) ==> TestFilter.NamedDeath(names[i])
  }

  /** The test cases of all iterations, by name, and how many of them are of death tests. */
  function CaseNames(tests: seq<TestInfo>): seq<string> {
    RegisteredNames(tests, TestFilter.DEATH_TEST_CASE_FILTER)
  }

  function Deaths(tests: seq<TestInfo>): (d: nat)
    ensures d <= |CaseNames(tests)|
  {
    |FirstNames(tests, true, TestFilter.DEATH_TEST_CASE_FILTER)|
  }

  /** All tests, test case by test case. */
  function Registered(tests: seq<TestInfo>): seq<TestInfo> {
    InOrder(tests, TestFilter.DEATH_TEST_CASE_FILTER)
  }

  /** What an iteration with that seed does, in terms of the registrations and the launch. */
  ghost predicate IterationOf(it: Iteration, tests: seq<TestInfo>, l: Launch, seed: nat) {
    var names, d, due := CaseNames(tests), Deaths(tests), MustSet(Registered(tests), l);
    && RanAsMust(it.tests, Registered(tests), l)
    && DeathsFirst(NamesOf(it.cases))
    && if due == {} then it == Iteration([], [])
       else
         && NamesOf(it.cases) == Visit(names, CaseOrder(|names|, d, l.flags.shuffle, seed))
         && it.tests == TestOrder(ListsOf(tests, names), due, d, l.flags.shuffle, seed)
  }

  ghost predicate IterationsOf(its: seq<Iteration>, tests: seq<TestInfo>, l: Launch) {
    forall k :: 0 <= k < |its| ==> IterationOf(its[k], tests, l, l.flags.SeedOf(k))
  }

  /** The death test cases are in front in every order that keeps the first d in front. */
  lemma DeathsStayFirst(names: seq<string>, d: nat, order: seq<int>)
    requires Filed(names, d, TestFilter.DEATH_TEST_CASE_FILTER) && BlockPermutation(order, d, |names|) && Within(order, |names|)
    ensures DeathsFirst(Visit(names, order))
  {
    var visited := Visit(names, order);
    forall i | 0 <= i < |visited|
      ensures TestFilter.NamedDeath(visited[i]) <==> i < d
    {
      BlockMembers(order, d, |names|, i);
      TestFilter.DeathIff(visited[i]);
    }
  }

  lemma VisitNames(cases: seq<TestCase>, order: seq<int>)
    requires Within(order, |cases|)
    ensures NamesOf(Visit(cases, order)) == Visit(NamesOf(cases), order)
  {
  }

  lemma ExactIsIteration(it: Iteration, cases: seq<TestCase>, tests: seq<TestInfo>, l: Launch, seed: nat)
    requires NamesOf(cases) == CaseNames(tests) && Filed(NamesOf(cases), Deaths(tests), TestFilter.DEATH_TEST_CASE_FILTER)
    requires Distinct(Registered(tests))
    requires ExactIteration(it, cases, ListsOf(tests, CaseNames(tests)), MustSet(Registered(tests), l), Deaths(tests),
                            l.flags.shuffle, seed)
    ensures IterationOf(it, tests, l, seed)
  {
    var lists, due, d := ListsOf(tests, CaseNames(tests)), MustSet(Registered(tests), l), Deaths(tests);
    var order := CaseOrder(|cases|, d, l.flags.shuffle, seed);
    if due == {} {
      NothingKept(Registered(tests), due);
    } else {
      TestOrderMultiset(lists, due, d, l.flags.shuffle, seed);
      VisitNames(cases, order);
      DeathsStayFirst(NamesOf(cases), d, order);
    }
    KeptAsMust(it.tests, Registered(tests), l);
  }

  /**
   Registrations and a run on an empty registry. In every iteration each registered test runs exactly once
   if it passes the flag, is not disabled or disabled tests are asked for, and its number among those
   tests is on the shard; nothing else runs. The order is the one of the registrations, death tests first,
   or the one that the seed of the iteration gives.
   */
  method RunProgram(impl: UnitTestImpl, tests: seq<TestInfo>, l: Launch)
    returns (exited: bool, iterations: seq<Iteration>)
    requires impl.Valid() && impl.Unshuffled() && impl.testCases == []
    requires impl.deathFilter == TestFilter.DEATH_TEST_CASE_FILTER
    requires Distinct(tests) && |tests| <= MAX_RANGE
    modifies impl, impl.random, tests
    ensures exited <==> l.Contradictory()
    ensures multiset(Registered(tests)) == multiset(tests)
    ensures !exited ==> |iterations| == (if l.inSubprocess then 1 else l.flags.repeat) && IterationsOf(iterations, tests, l)
  {
    impl.RegisterTests(tests);
    ghost var order := Registered(tests);
    SmallEnough(impl, tests);
    SameElements(order, tests);
    SameDistinct(tests, order);
    NamesInOrder(tests, impl.deathFilter, impl.Block());
    HoldInOrder(impl.testCases, tests, impl.deathFilter);
    ShardingIff(l.total, l.index, l.inSubprocess);
    forall k | 0 <= k < |impl.testCases|
      ensures fresh(impl.testCases[k])
    {
      assert impl.testCases[k] in impl.testCases;
    }
    exited, iterations := RunRegistered(impl, tests, l);
  }

  /** The run behind the registrations. */
  method RunRegistered(impl: UnitTestImpl, ghost tests: seq<TestInfo>, l: Launch)
    returns (exited: bool, iterations: seq<Iteration>)
    requires impl.Valid() && impl.Unshuffled() && impl.Small() && impl.deathFilter == TestFilter.DEATH_TEST_CASE_FILTER
    requires Distinct(Registered(tests)) && NamesOf(impl.testCases) == CaseNames(tests) && impl.Block() == Deaths(tests)
    requires TestLists(impl.testCases) == ListsOf(tests, CaseNames(tests))
    modifies impl`testCaseIndices, impl.testCases`testIndices, impl.testCases`shouldRun, impl.random`state
    modifies AllTests(impl.testCases)`isDisabled, AllTests(impl.testCases)`matchesFilter, AllTests(impl.testCases)`shouldRun
    ensures exited <==> l.Sharding().Exit?
    ensures !exited ==> |iterations| == (if l.inSubprocess then 1 else l.flags.repeat) && IterationsOf(iterations, tests, l)
  {
    ghost var cases := impl.testCases;
    exited, iterations := impl.RunAllTests(l.flags, l.total, l.index, l.inSubprocess);
    if !exited {
      DueIsMust(Registered(tests), l);
      ExactAreIterations(iterations, cases, tests, l);
    }
  }

  lemma ExactAreIterations(its: seq<Iteration>, cases: seq<TestCase>, tests: seq<TestInfo>, l: Launch)
    requires NamesOf(cases) == CaseNames(tests) && Filed(NamesOf(cases), Deaths(tests), TestFilter.DEATH_TEST_CASE_FILTER)
    requires Distinct(Registered(tests))
    requires AllExact(its, cases, ListsOf(tests, CaseNames(tests)), MustSet(Registered(tests), l), Deaths(tests), l.flags)
    ensures IterationsOf(its, tests, l)
  {
    forall k | 0 <= k < |its|
      ensures IterationOf(its[k], tests, l, l.flags.SeedOf(k))
    {
      ExactIsIteration(its[k], cases, tests, l, l.flags.SeedOf(k));
    }
  }

  lemma SameElements<T>(a: seq<T>, b: seq<T>)
    requires multiset(a) == multiset(b)
    ensures forall k :: 0 <= k < |a| ==> a[k] in b
  {
    forall k | 0 <= k < |a|
      ensures a[k] in b
    {
      assert a[k] in multiset(b);
    }
  }

  lemma {:induction false} TestsOfCount(tests: seq<TestInfo>, name: string)
    ensures |TestsOf(tests, name)| <= |tests|
  {
    if tests == [] {
    } else {
      TestsOfCount(tests[..|tests| - 1], name);
    }
  }

  lemma {:induction false} FirstNamesCount(tests: seq<TestInfo>, filter: string)
    ensures |FirstNames(tests, true, filter)| + |FirstNames(tests, false, filter)| <= |tests|
  {
    if tests == [] {
    } else {
      FirstNamesCount(tests[..|tests| - 1], filter);
    }
  }

  lemma SmallEnough(impl: UnitTestImpl, tests: seq<TestInfo>)
    requires |tests| <= MAX_RANGE && NamesOf(impl.testCases) == RegisteredNames(tests, impl.deathFilter)
    requires forall tc :: tc in impl.testCases ==> tc.tests == TestsOf(tests, tc.name)
    ensures impl.Small()
  {
    FirstNamesCount(tests, impl.deathFilter);
    forall tc | tc in impl.testCases
      ensures |tc.tests| <= MAX_RANGE
    {
      TestsOfCount(tests, tc.name);
    }
  }
}
