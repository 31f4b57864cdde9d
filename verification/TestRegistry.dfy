/**
 The registry of test cases: registration with the death tests in front, filtering, shuffling and
 unshuffling through index vectors, and the iterations of a run.
 */
module TestRegistry {
  import opened Common
  import opened Sharding
  import opened Shuffling
  import opened TestCases
  import opened RunOrders
  import TestFilter

  // ---- Where a test case is filed ----

  /** The first d names, and no others, pass the filter for death test cases, and no name occurs twice. */
  predicate Filed(names: seq<string>, d: int, filter: string) {
    && 0 <= d <= |names|
    && (forall i :: 0 <= i < |names| ==> (TestFilter.MatchesFilter(names[i], filter) <==> i < d))
    && (forall i, j :: 0 <= i < j < |names| ==> names[i] != names[j])
  }

  /** The place for a new name: behind the death tests so far, or at the end. */
  function PlaceOf(name: string, d: nat, n: nat, filter: string): nat {
    if TestFilter.MatchesFilter(name, filter) then d else n
  }

  function Insert<T>(s: seq<T>, at: nat, x: T): (r: seq<T>)
    requires at <= |s|
    ensures |r| == |s| + 1
  {
    s[..at] + ([x] + s[at..])
  }

  lemma InsertAt<T>(s: seq<T>, at: nat, x: T)
    requires at <= |s|
    ensures var r := Insert(s, at, x);
            && |r| == |s| + 1 && r[at] == x
            && (forall i :: 0 <= i < at ==> r[i] == s[i])
            && (forall i :: at < i < |r| ==> r[i] == s[i - 1])
  {
  }

  /** Filing new names one by one keeps all death test cases in front of all others. */
  lemma FiledInsert(names: seq<string>, d: int, name: string, filter: string)
    requires Filed(names, d, filter) && name !in names
    ensures Filed(Insert(names, PlaceOf(name, d, |names|, filter), name),
                  if TestFilter.MatchesFilter(name, filter) then d + 1 else d, filter)
  {
    InsertAt(names, PlaceOf(name, d, |names|, filter), name);
  }

  function NamesOf(cases: seq<TestCase>): (r: seq<string>)
    ensures |r| == |cases| && forall i :: 0 <= i < |r| ==> r[i] == cases[i].name
  {
    seq(|cases|, i requires 0 <= i < |cases| => cases[i].name)
  }

  lemma InsertNames(cases: seq<TestCase>, at: nat, tc: TestCase)
    requires at <= |cases|
    ensures NamesOf(Insert(cases, at, tc)) == Insert(NamesOf(cases), at, tc.name)
  {
    InsertAt(cases, at, tc);
    InsertAt(NamesOf(cases), at, tc.name);
  }

  lemma InsertLast<T>(s: seq<T>, x: T)
    ensures Insert(s, |s|, x) == s + [x]
  {
    assert s[..|s|] == s && s[|s|..] == [];
  }

  lemma InsertMembers(cases: seq<TestCase>, at: nat, tc: TestCase)
    requires at <= |cases|
    ensures forall t :: t in Insert(cases, at, tc) ==> t == tc || t in cases
    ensures tc in Insert(cases, at, tc)
  {
    InsertAt(cases, at, tc);
  }

  lemma AddedKeeps(cases: seq<TestCase>, d: int, tc: TestCase, filter: string)
    requires Filed(NamesOf(cases), d, filter) && tc.name !in NamesOf(cases)
    ensures var r := Insert(cases, PlaceOf(tc.name, d, |cases|, filter), tc);
            var e := if TestFilter.MatchesFilter(tc.name, filter) then d + 1 else d;
            && Filed(NamesOf(r), e, filter) && BlockPermutation(Iota(0, |r|), e, |r|)
            && Iota(0, |cases|) + [|cases|] == Iota(0, |r|)
            && tc in r && forall t :: t in r ==> t == tc || t in cases
  {
    var at := PlaceOf(tc.name, d, |cases|, filter);
    FiledInsert(NamesOf(cases), d, tc.name, filter);
    InsertNames(cases, at, tc);
    InsertMembers(cases, at, tc);
    IotaAppend(|cases|);
    IotaSplits(if TestFilter.MatchesFilter(tc.name, filter) then d + 1 else d, |cases| + 1);
  }

  /** A run of every case exactly once, the first d of them before the others, and unshuffled in their order. */
  ghost predicate OneRun(trace: seq<TestCase>, cases: seq<TestCase>, d: int, shuffled: bool) {
    && |trace| == |cases| && 0 <= d <= |cases|
    && multiset(trace) == multiset(cases)
    && multiset(trace[..d]) == multiset(cases[..d])
    && multiset(trace[d..]) == multiset(cases[d..])
    && (!shuffled ==> trace == cases)
  }

  /** In such a run of a registry the death test cases come first. */
  lemma DeathTestsFirst(trace: seq<TestCase>, cases: seq<TestCase>, d: int, shuffled: bool, filter: string)
    requires OneRun(trace, cases, d, shuffled) && Filed(NamesOf(cases), d, filter)
    ensures forall i :: 0 <= i < |trace| ==> (TestFilter.MatchesFilter(trace[i].name, filter) <==> i < d)
  {
    forall i | 0 <= i < |trace|
      ensures TestFilter.MatchesFilter(trace[i].name, filter) <==> i < d
    {
      if i < d {
        assert trace[i] == trace[..d][i];
        assert trace[i] in multiset(trace[..d]);
        var j :| 0 <= j < d && cases[..d][j] == trace[i];
        assert NamesOf(cases)[j] == trace[i].name;
      } else {
        assert trace[i] == trace[d..][i - d];
        assert trace[i] in multiset(trace[d..]);
        var j :| 0 <= j < |cases| - d && cases[d..][j] == trace[i];
        assert NamesOf(cases)[d + j] == trace[i].name;
      }
    }
  }

  // ---- Runs of registrations ----

  /** The names of test cases in the order of their first tests, those of death tests or the others. */
  function FirstNames(tests: seq<TestInfo>, death: bool, filter: string): seq<string> {
    if tests == [] then []
    else
      var r, name := FirstNames(tests[..|tests| - 1], death, filter), tests[|tests| - 1].testCaseName;
      if TestFilter.MatchesFilter(name, filter) == death && name !in r then r + [name] else r
  }

  function RegisteredNames(tests: seq<TestInfo>, filter: string): seq<string> {
    FirstNames(tests, true, filter) + FirstNames(tests, false, filter)
  }

  /** The tests of one test case, in their order. */
  function TestsOf(tests: seq<TestInfo>, name: string): seq<TestInfo> {
    if tests == [] then []
    else
      TestsOf(tests[..|tests| - 1], name)
      + if tests[|tests| - 1].testCaseName == name then [tests[|tests| - 1]] else []
  }

  lemma {:induction false} TestsOfSubset(tests: seq<TestInfo>, name: string, t: TestInfo)
    requires t !in tests
    ensures t !in TestsOf(tests, name)
  {
    if tests == [] {
    } else {
      TestsOfSubset(tests[..|tests| - 1], name, t);
    }
  }

  predicate OfKind(names: seq<string>, death: bool, filter: string) {
    forall i :: 0 <= i < |names| ==> (TestFilter.MatchesFilter(names[i], filter) <==> death)
  }

  lemma {:induction false} FirstNamesSorted(tests: seq<TestInfo>, death: bool, filter: string)
    ensures var r := FirstNames(tests, death, filter);
            && OfKind(r, death, filter)
            && (forall t :: t in tests && (TestFilter.MatchesFilter(t.testCaseName, filter) <==> death) ==>
                  t.testCaseName in r)
  {
    if tests == [] {
    } else {
      FirstNamesSorted(tests[..|tests| - 1], death, filter);
      assert tests == tests[..|tests| - 1] + [tests[|tests| - 1]];
    }
  }

  lemma {:induction false} NoTestsNamed(tests: seq<TestInfo>, name: string)
    requires forall t :: t in tests ==> t.testCaseName != name
    ensures TestsOf(tests, name) == []
  {
    if tests == [] {
    } else {
      NoTestsNamed(tests[..|tests| - 1], name);
    }
  }

  lemma NoTestsOf(tests: seq<TestInfo>, name: string, filter: string)
    requires name !in RegisteredNames(tests, filter)
    ensures TestsOf(tests, name) == []
  {
    FirstNamesSorted(tests, true, filter);
    FirstNamesSorted(tests, false, filter);
    NoTestsNamed(tests, name);
  }

  /** The number of death test cases follows from the names. */
  lemma NamesInOrder(tests: seq<TestInfo>, filter: string, d: int)
    requires Filed(RegisteredNames(tests, filter), d, filter)
    ensures d == |FirstNames(tests, true, filter)|
  {
    var deaths, others := FirstNames(tests, true, filter), FirstNames(tests, false, filter);
    FirstNamesSorted(tests, true, filter);
    FirstNamesSorted(tests, false, filter);
    DeathAt(deaths, others, filter, Min(d, |deaths|));
  }

  lemma DeathAt(deaths: seq<string>, others: seq<string>, filter: string, i: nat)
    requires OfKind(deaths, true, filter) && OfKind(others, false, filter)
    ensures i < |deaths + others| ==> (TestFilter.MatchesFilter((deaths + others)[i], filter) <==> i < |deaths|)
  {
  }

  lemma InsertBetween<T>(a: seq<T>, b: seq<T>, x: T)
    ensures Insert(a + b, |a|, x) == (a + [x]) + b
    ensures Insert(a + b, |a + b|, x) == a + (b + [x])
  {
    assert (a + b)[..|a|] == a && (a + b)[|a|..] == b;
    Associative(a, [x], b);
    InsertLast(a + b, x);
    Associative(a, b, [x]);
  }

  lemma FirstNamesNext(tests: seq<TestInfo>, t: TestInfo, death: bool, filter: string)
    ensures var r, name := FirstNames(tests, death, filter), t.testCaseName;
            FirstNames(tests + [t], death, filter) ==
              if TestFilter.MatchesFilter(name, filter) == death && name !in r then r + [name] else r
  {
    assert (tests + [t])[..|tests|] == tests;
  }

  /** One more registration: a new name goes behind the names of its kind. */
  lemma RegisteredNext(tests: seq<TestInfo>, t: TestInfo, filter: string)
    ensures var names, d, name := RegisteredNames(tests, filter), |FirstNames(tests, true, filter)|, t.testCaseName;
            d <= |names| &&
            RegisteredNames(tests + [t], filter) ==
              if name in names then names else Insert(names, PlaceOf(name, d, |names|, filter), name)
  {
    var deaths, others := FirstNames(tests, true, filter), FirstNames(tests, false, filter);
    FirstNamesSorted(tests, true, filter);
    FirstNamesSorted(tests, false, filter);
    FirstNamesNext(tests, t, true, filter);
    FirstNamesNext(tests, t, false, filter);
    InsertBetween(deaths, others, t.testCaseName);
  }

  lemma TestsOfNext(tests: seq<TestInfo>, t: TestInfo, name: string)
    ensures TestsOf(tests + [t], name) == TestsOf(tests, name) + if t.testCaseName == name then [t] else []
  {
    assert (tests + [t])[..|tests|] == tests;
  }

  /** Different test cases of a registry have different names. */
  lemma OtherName(cases: seq<TestCase>, d: int, filter: string, a: TestCase, b: TestCase)
    requires Filed(NamesOf(cases), d, filter) && a in cases && b in cases && a != b
    ensures a.name != b.name
  {
    var i :| 0 <= i < |cases| && cases[i] == a;
    var j :| 0 <= j < |cases| && cases[j] == b;
    assert NamesOf(cases)[i] == a.name && NamesOf(cases)[j] == b.name;
  }

  // ---- The tests of a list of test cases ----

  function TestLists(cases: seq<TestCase>): (r: seq<seq<TestInfo>>)
    reads cases`tests
    ensures |r| == |cases| && forall i :: 0 <= i < |r| ==> r[i] == cases[i].tests
  {
    if cases == [] then [] else [cases[0].tests] + TestLists(cases[1..])
  }

  /** All tests in the order of registration, test case by test case. */
  function AllTests(cases: seq<TestCase>): seq<TestInfo>
    reads cases`tests
  {
    Flatten(TestLists(cases))
  }

  /** The lists of tests of test cases with these names. */
  function ListsOf(tests: seq<TestInfo>, names: seq<string>): (r: seq<seq<TestInfo>>)
    ensures |r| == |names| && forall i :: 0 <= i < |r| ==> r[i] == TestsOf(tests, names[i])
  {
    if names == [] then [] else [TestsOf(tests, names[0])] + ListsOf(tests, names[1..])
  }

  /** All tests in the order in which a run takes them: test case by test case, those of death tests first. */
  function InOrder(tests: seq<TestInfo>, filter: string): seq<TestInfo> {
    Flatten(ListsOf(tests, RegisteredNames(tests, filter)))
  }

  /** The tests of all other test cases. */
  function OthersThan(tests: seq<TestInfo>, names: seq<string>): seq<TestInfo> {
    if tests == [] then []
    else
      OthersThan(tests[..|tests| - 1], names)
      + if tests[|tests| - 1].testCaseName in names then [] else [tests[|tests| - 1]]
  }

  lemma {:induction false} OneName(tests: seq<TestInfo>, names: seq<string>)
    requires names != [] && names[0] !in names[1..]
    ensures multiset(OthersThan(tests, names[1..]))
            == multiset(OthersThan(tests, names)) + multiset(TestsOf(tests, names[0]))
  {
    if tests == [] {
    } else {
      OneName(tests[..|tests| - 1], names);
      assert names == [names[0]] + names[1..];
    }
  }

  lemma {:induction false} NoNames(tests: seq<TestInfo>)
    ensures OthersThan(tests, []) == tests
  {
    if tests == [] {
    } else {
      NoNames(tests[..|tests| - 1]);
    }
  }

  lemma {:induction false} AllNames(tests: seq<TestInfo>, names: seq<string>)
    requires forall i :: 0 <= i < |tests| ==> tests[i].testCaseName in names
    ensures OthersThan(tests, names) == []
  {
    if tests == [] {
    } else {
      AllNames(tests[..|tests| - 1], names);
    }
  }

  lemma {:induction false} ListsOfMultiset(tests: seq<TestInfo>, names: seq<string>)
    requires Distinct(names)
    ensures multiset(Flatten(ListsOf(tests, names))) + multiset(OthersThan(tests, names)) == multiset(tests)
  {
    if names == [] {
      NoNames(tests);
    } else {
      OneName(tests, names);
      ListsOfMultiset(tests, names[1..]);
    }
  }

  lemma {:induction false} FirstNamesDistinct(tests: seq<TestInfo>, death: bool, filter: string)
    ensures Distinct(FirstNames(tests, death, filter)) && |FirstNames(tests, death, filter)| <= |tests|
  {
    if tests == [] {
    } else {
      FirstNamesDistinct(tests[..|tests| - 1], death, filter);
    }
  }

  /** The registered names are different, and every test has one of them. */
  lemma RegisteredNamesDistinct(tests: seq<TestInfo>, filter: string)
    ensures Distinct(RegisteredNames(tests, filter))
    ensures forall t :: t in tests ==> t.testCaseName in RegisteredNames(tests, filter)
  {
    var deaths, others := FirstNames(tests, true, filter), FirstNames(tests, false, filter);
    FirstNamesSorted(tests, true, filter);
    FirstNamesSorted(tests, false, filter);
    FirstNamesDistinct(tests, true, filter);
    FirstNamesDistinct(tests, false, filter);
    forall i, j | 0 <= i < |deaths| && 0 <= j < |others|
      ensures deaths[i] != others[j]
    {
      assert TestFilter.MatchesFilter(deaths[i], filter) && !TestFilter.MatchesFilter(others[j], filter);
    }
  }

  /** No test is lost or taken twice. */
  lemma InOrderMultiset(tests: seq<TestInfo>, filter: string)
    ensures multiset(InOrder(tests, filter)) == multiset(tests)
  {
    var names := RegisteredNames(tests, filter);
    RegisteredNamesDistinct(tests, filter);
    AllNames(tests, names);
    ListsOfMultiset(tests, names);
  }

  lemma HoldInOrder(cases: seq<TestCase>, tests: seq<TestInfo>, filter: string)
    requires NamesOf(cases) == RegisteredNames(tests, filter)
    requires forall tc :: tc in cases ==> tc.tests == TestsOf(tests, tc.name)
    ensures TestLists(cases) == ListsOf(tests, NamesOf(cases)) && AllTests(cases) == InOrder(tests, filter)
  {
    var names := NamesOf(cases);
    assert forall i :: 0 <= i < |cases| ==> cases[i] in cases && names[i] == cases[i].name;
    assert TestLists(cases) == ListsOf(tests, names);
  }

  lemma {:induction false} InFlat<T>(lists: seq<seq<T>>, x: T)
    ensures x in Flatten(lists) ==> exists i :: 0 <= i < |lists| && x in lists[i]
  {
    if lists == [] {
    } else if x in lists[0] {
    } else if x in Flatten(lists[1..]) {
      InFlat(lists[1..], x);
      var i :| 0 <= i < |lists[1..]| && x in lists[1..][i];
      assert x in lists[i + 1];
    }
  }

  lemma {:induction false} InFlatAt<T>(lists: seq<seq<T>>, i: nat, x: T)
    requires i < |lists| && x in lists[i]
    ensures x in Flatten(lists)
  {
    if i == 0 {
    } else {
      InFlatAt(lists[1..], i - 1, x);
    }
  }

  lemma AllInFlat<T>(lists: seq<seq<T>>)
    ensures forall i, k :: 0 <= i < |lists| && 0 <= k < |lists[i]| ==> lists[i][k] in Flatten(lists)
  {
    forall i, k | 0 <= i < |lists| && 0 <= k < |lists[i]|
      ensures lists[i][k] in Flatten(lists)
    {
      InFlatAt(lists, i, lists[i][k]);
    }
  }

  /** The test cases hold these lists of tests. */
  predicate Hold(cases: seq<TestCase>, lists: seq<seq<TestInfo>>)
    reads cases`tests
  {
    |cases| == |lists| && forall i :: 0 <= i < |cases| ==> cases[i].tests == lists[i]
  }

  /** Every test belongs to the test case of its name, once, and the test cases have different names. */
  ghost predicate WellNamed(cases: seq<TestCase>, lists: seq<seq<TestInfo>>) {
    && |cases| == |lists|
    && (forall i :: 0 <= i < |lists| ==> Distinct(lists[i]))
    && (forall i, k :: 0 <= i < |lists| && 0 <= k < |lists[i]| ==> lists[i][k].testCaseName == cases[i].name)
    && (forall i, j :: 0 <= i < j < |cases| ==> cases[i].name != cases[j].name)
  }

  /** So a test of one list is not in the lists before it. */
  lemma NotBefore(cases: seq<TestCase>, lists: seq<seq<TestInfo>>, i: nat)
    requires WellNamed(cases, lists) && i < |lists|
    ensures var done := Flatten(lists[..i]); forall k :: 0 <= k < |done| ==> done[k] !in lists[i]
  {
    var done := Flatten(lists[..i]);
    forall k | 0 <= k < |done|
      ensures done[k] !in lists[i]
    {
      InFlat(lists[..i], done[k]);
      var j :| 0 <= j < i && done[k] in lists[..i][j];
      var m :| 0 <= m < |lists[j]| && lists[j][m] == done[k];
      assert done[k].testCaseName == cases[j].name;
    }
  }

  /** The flags of the first n test cases agree with those of their tests. */
  ghost predicate Agree(cases: seq<TestCase>, lists: seq<seq<TestInfo>>, n: int)
    requires 0 <= n <= |cases| == |lists|
    reads cases`shouldRun, (set i, j | 0 <= i < |lists| && 0 <= j < |lists[i]| :: lists[i][j])`shouldRun
  {
    forall k :: 0 <= k < n ==> (cases[k].shouldRun <==> Running(lists[k]) != [])
  }

  /** FilterTests behind the test cases that have all these tests. */
  ghost predicate Counted(all: seq<TestInfo>, p: Protocol, c: Criteria, numRunnable: nat, numSelected: nat)
    requires Legal(p)
    reads all
  {
    && Filtered(all, p, c, 0)
    && numRunnable == Count(Runnables(all, c)) && numSelected == Count(Chosen(all))
  }

  lemma CountedAppend(done: seq<TestInfo>, tests: seq<TestInfo>, p: Protocol, c: Criteria, numRunnable: nat, numSelected: nat)
    requires Legal(p) && Counted(done, p, c, numRunnable, numSelected) && Filtered(tests, p, c, numRunnable)
    ensures Counted(done + tests, p, c, numRunnable + Count(Runnables(tests, c)), numSelected + Count(Chosen(tests)))
  {
    FilteredAppend(done, tests, p, c, 0);
    CountsAppend(done, tests, c);
  }

  /** The body of the outer loop of FilterTests. */
  method FilterCase(ghost done: seq<TestInfo>, tc: TestCase, p: Protocol, c: Criteria,
                    numRunnable: nat, numSelected: nat)
    returns (runnable: nat, selected: nat)
    requires Legal(p) && Counted(done, p, c, numRunnable, numSelected)
    requires tc.OwnTests() && forall k :: 0 <= k < |done| ==> done[k] !in tc.tests
    modifies tc`shouldRun, tc.tests`isDisabled, tc.tests`matchesFilter, tc.tests`shouldRun
    ensures Counted(done + tc.tests, p, c, runnable, selected)
    ensures tc.shouldRun <==> Running(tc.tests) != []
  {
    var next, here := tc.FilterTests(p, c, numRunnable);
    CountedAppend(done, tc.tests, p, c, numRunnable, numSelected);
    return next, numSelected + here;
  }

  /** The same, behind the test cases before it. */
  method FilterNextCase(ghost cases: seq<TestCase>, ghost lists: seq<seq<TestInfo>>, ghost done: seq<TestInfo>,
                        ghost i: nat, tc: TestCase, p: Protocol, c: Criteria, numRunnable: nat, numSelected: nat)
    returns (runnable: nat, selected: nat)
    requires Legal(p) && i < |cases| == |lists| && tc == cases[i] && lists[i] == tc.tests && tc.OwnTests()
    requires forall k :: 0 <= k < i ==> cases[k] != tc
    requires forall j, k :: 0 <= j < i && 0 <= k < |lists[j]| ==> lists[j][k] !in tc.tests
    requires forall k :: 0 <= k < |done| ==> done[k] !in tc.tests
    requires Counted(done, p, c, numRunnable, numSelected) && Agree(cases, lists, i)
    modifies tc`shouldRun, tc.tests`isDisabled, tc.tests`matchesFilter, tc.tests`shouldRun
    ensures Counted(done + tc.tests, p, c, runnable, selected) && Agree(cases, lists, i + 1)
  {
    runnable, selected := FilterCase(done, tc, p, c, numRunnable, numSelected);
  }

  lemma OwnLists(cases: seq<TestCase>, lists: seq<seq<TestInfo>>, i: nat)
    requires Hold(cases, lists) && WellNamed(cases, lists) && i < |cases|
    ensures cases[i].OwnTests() && forall k :: 0 <= k < i ==> cases[k] != cases[i]
    ensures forall j, k :: 0 <= j < i && 0 <= k < |lists[j]| ==> lists[j][k] !in cases[i].tests
  {
  }

  method FilterCases(cases: seq<TestCase>, ghost lists: seq<seq<TestInfo>>, ghost all: seq<TestInfo>,
                     p: Protocol, c: Criteria)
    returns (numSelected: nat)
    requires Hold(cases, lists) && WellNamed(cases, lists) && Legal(p)
    requires all == Flatten(lists) && forall i, k :: 0 <= i < |lists| && 0 <= k < |lists[i]| ==> lists[i][k] in all
    modifies cases`shouldRun, all`isDisabled, all`matchesFilter, all`shouldRun
    ensures Filtered(all, p, c, 0) && Agree(cases, lists, |cases|)
    ensures numSelected == Count(Chosen(all))
  {
    var numRunnable := 0;
    numSelected := 0;
    var i := 0;
    while i < |cases|
      invariant 0 <= i <= |cases| && Hold(cases, lists)
      invariant Counted(Flatten(lists[..i]), p, c, numRunnable, numSelected) && Agree(cases, lists, i)
    {
      ghost var done := Flatten(lists[..i]);
      NotBefore(cases, lists, i);
      OwnLists(cases, lists, i);
      FlattenUpTo(lists, i);
      numRunnable, numSelected := FilterNextCase(cases, lists, done, i, cases[i], p, c, numRunnable, numSelected);
      i := i + 1;
    }
    assert lists[..i] == lists;
  }

  /** The test cases will run these lists of tests. */
  ghost predicate RunsNow(cases: seq<TestCase>, runs: seq<seq<TestInfo>>)
    reads cases`shouldRun, cases`tests, cases`testIndices
    reads (set i, j | 0 <= i < |cases| && 0 <= j < |cases[i].tests| :: cases[i].tests[j])`shouldRun
  {
    |cases| == |runs| && forall i :: 0 <= i < |cases| ==> cases[i].Permuted() && cases[i].RunNow() == runs[i]
  }

  /** The test cases have these tests, and the flags say that these are to run. */
  ghost predicate Flagged(cases: seq<TestCase>, lists: seq<seq<TestInfo>>, due: set<TestInfo>)
    reads cases`tests, cases`shouldRun
    reads (set i, j | 0 <= i < |lists| && 0 <= j < |lists[i]| :: lists[i][j])`shouldRun
  {
    && Hold(cases, lists)
    && (forall i :: 0 <= i < |lists| ==> (cases[i].shouldRun <==> Keep(lists[i], due) != []))
    && (forall i, j :: 0 <= i < |lists| && 0 <= j < |lists[i]| ==> (lists[i][j].shouldRun <==> lists[i][j] in due))
  }

  lemma {:induction false} RunningIsKeep(s: seq<TestInfo>, due: set<TestInfo>)
    requires forall i :: 0 <= i < |s| ==> (s[i].shouldRun <==> s[i] in due)
    ensures Running(s) == Keep(s, due)
  {
    if s == [] {
    } else {
      RunningIsKeep(s[1..], due);
    }
  }

  /** The tests of a list that are to run. */
  ghost function DueOf(all: seq<TestInfo>): set<TestInfo>
    reads all`shouldRun
  {
    set t | t in all && t.shouldRun
  }

  lemma FlaggedByAgree(cases: seq<TestCase>, lists: seq<seq<TestInfo>>)
    requires Hold(cases, lists) && Agree(cases, lists, |cases|)
    ensures Flagged(cases, lists, DueOf(Flatten(lists)))
    ensures Running(Flatten(lists)) == Keep(Flatten(lists), DueOf(Flatten(lists)))
  {
    var due := DueOf(Flatten(lists));
    AllInFlat(lists);
    RunningIsKeep(Flatten(lists), due);
    forall i | 0 <= i < |lists|
      ensures cases[i].shouldRun <==> Keep(lists[i], due) != []
    {
      RunningIsKeep(lists[i], due);
    }
  }

  /** A test case runs what is due of its tests in the order of its index vector. */
  lemma RunOfCase(tc: TestCase, list: seq<TestInfo>, due: set<TestInfo>)
    requires tc.tests == list && tc.Permuted() && (tc.shouldRun <==> Keep(list, due) != [])
    requires forall j :: 0 <= j < |list| ==> (list[j].shouldRun <==> list[j] in due)
    ensures Within(tc.testIndices, |list|) && tc.RunNow() == Keep(Visit(list, tc.testIndices), due)
  {
    VisitsAllBlockFirst(list, tc.testIndices, 0);
    var order := Visit(list, tc.testIndices);
    RunningIsKeep(order, due);
    KeepMultiset(order, list, due);
    if !tc.shouldRun {
      assert |multiset(Keep(order, due))| == 0;
    }
  }

  /** So with these index vectors the test cases run what the order of an iteration asks for. */
  lemma RunsOfCases(cases: seq<TestCase>, lists: seq<seq<TestInfo>>, due: set<TestInfo>, shuffle: bool, state: nat)
    requires Flagged(cases, lists, due)
    requires forall i :: 0 <= i < |cases| ==>
               cases[i].Permuted() && cases[i].testIndices == InnerOrder(lists, i, shuffle, state)
    ensures RunsNow(cases, Runs(lists, due, shuffle, state))
  {
    forall i | 0 <= i < |cases|
      ensures cases[i].RunNow() == Runs(lists, due, shuffle, state)[i]
    {
      RunOfCase(cases[i], lists[i], due);
    }
  }

  /** What one iteration visited and ran. */
  datatype Iteration = Iteration(cases: seq<TestCase>, tests: seq<TestInfo>)

  /** What one iteration does: all of the running tests, and no others, once each. */
  ghost predicate GoodIteration(it: Iteration, cases: seq<TestCase>, d: int, running: seq<TestInfo>, shuffle: bool) {
    && (if running == [] then it.cases == [] else OneRun(it.cases, cases, d, shuffle))
    && multiset(it.tests) == multiset(running)
    && (!shuffle ==> it.tests == running)
  }

  /**
   What one iteration does, to the order: nothing if no test is to run, and otherwise it visits and runs
   in the order of registration or in the one that the seed gives.
   */
  ghost predicate ExactIteration(it: Iteration, cases: seq<TestCase>, lists: seq<seq<TestInfo>>, due: set<TestInfo>,
                                 d: nat, shuffle: bool, seed: nat) {
    && d <= |cases| == |lists|
    && if due == {} then it == Iteration([], [])
       else it.cases == Visit(cases, CaseOrder(|cases|, d, shuffle, seed)) && it.tests == TestOrder(lists, due, d, shuffle, seed)
  }

  /** The iterations of a run, with their seeds. */
  ghost predicate AllExact(its: seq<Iteration>, cases: seq<TestCase>, lists: seq<seq<TestInfo>>, due: set<TestInfo>,
                           d: nat, flags: Flags) {
    forall k :: 0 <= k < |its| ==>
      ExactIteration(its[k], cases, lists, due, d, flags.shuffle, flags.SeedOf(k))
  }

  lemma AllExactNext(its: seq<Iteration>, it: Iteration, cases: seq<TestCase>, lists: seq<seq<TestInfo>>, due: set<TestInfo>,
                     d: nat, flags: Flags)
    requires AllExact(its, cases, lists, due, d, flags)
    requires ExactIteration(it, cases, lists, due, d, flags.shuffle, flags.SeedOf(|its|))
    ensures AllExact(its + [it], cases, lists, due, d, flags)
  {
  }

  /** So every test case is visited once, the first d before the others, and every test that is due runs once. */
  lemma ExactIsGood(it: Iteration, cases: seq<TestCase>, lists: seq<seq<TestInfo>>, due: set<TestInfo>,
                    d: nat, shuffle: bool, seed: nat)
    requires ExactIteration(it, cases, lists, due, d, shuffle, seed) && forall t :: t in due ==> t in Flatten(lists)
    ensures GoodIteration(it, cases, d, Keep(Flatten(lists), due), shuffle)
  {
    var all := Flatten(lists);
    if due == {} {
      NothingKept(all, due);
    } else {
      var t :| t in due;
      KeepIn(all, due, t);
      VisitsAllBlockFirst(cases, CaseOrder(|cases|, d, shuffle, seed), d);
      TestOrderMultiset(lists, due, d, shuffle, seed);
      if !shuffle {
        VisitUnshuffled(cases);
        TestOrderUnshuffled(lists, due, d, seed);
      }
    }
  }

  lemma {:induction false} NothingKept(s: seq<TestInfo>, due: set<TestInfo>)
    requires due == {}
    ensures Keep(s, due) == []
  {
    if s == [] {
    } else {
      NothingKept(s[1..], due);
    }
  }

  lemma AllExactIsGood(its: seq<Iteration>, cases: seq<TestCase>, lists: seq<seq<TestInfo>>, due: set<TestInfo>,
                       d: nat, flags: Flags)
    requires AllExact(its, cases, lists, due, d, flags) && forall t :: t in due ==> t in Flatten(lists)
    ensures AllGood(its, cases, d, Keep(Flatten(lists), due), flags.shuffle)
  {
    forall it | it in its
      ensures GoodIteration(it, cases, d, Keep(Flatten(lists), due), flags.shuffle)
    {
      var k :| 0 <= k < |its| && its[k] == it;
      ExactIsGood(it, cases, lists, due, d, flags.shuffle, flags.SeedOf(k));
    }
  }

  ghost predicate AllGood(its: seq<Iteration>, cases: seq<TestCase>, d: int, running: seq<TestInfo>, shuffle: bool) {
    forall it :: it in its ==> GoodIteration(it, cases, d, running, shuffle)
  }

  datatype Flags = Flags(filter: string, alsoRunDisabled: bool, shuffle: bool, seed: nat, repeat: nat) {
    function Criteria(): TestCases.Criteria {
      TestCases.Criteria(filter, alsoRunDisabled, TestFilter.DISABLE_TEST_FILTER)
    }

    /** The seed of the k-th iteration; without shuffling it is 0 and not used. */
    function SeedOf(k: nat): nat {
      if shuffle then SeedAt(seed, k) else 0
    }
  }

  /** The loop that runs the test cases through the index vector, when they will run these lists. */
  method RunEach(cases: seq<TestCase>, indices: seq<int>, ghost runs: seq<seq<TestInfo>>) returns (it: Iteration)
    requires Within(indices, |cases|) && RunsNow(cases, runs)
    ensures it.cases == Visit(cases, indices) && it.tests == Flatten(Visit(runs, indices))
  {
    ghost var order := Visit(runs, indices);
    var visited: seq<TestCase>, ran: seq<seq<TestInfo>> := [], [];
    var i := 0;
    while i < |indices|
      invariant 0 <= i <= |indices| && visited == Visit(cases, indices)[..i] && ran == order[..i]
    {
      var tc := cases[indices[i]];
      var tests := tc.Run();
      assert tests == order[i];
      visited, ran := visited + [tc], ran + [tests];
      i := i + 1;
    }
    assert order[..i] == order && Visit(cases, indices)[..i] == Visit(cases, indices);
    return Iteration(visited, Flatten(ran));
  }

  function IndicesOf(cases: seq<TestCase>): (r: seq<seq<int>>)
    reads cases`testIndices
    ensures |r| == |cases| && forall i :: 0 <= i < |r| ==> r[i] == cases[i].testIndices
  {
    if cases == [] then [] else [cases[0].testIndices] + IndicesOf(cases[1..])
  }

  /** Each of the index vectors is shuffled, one after the other. */
  predicate AllShuffled(befores: seq<seq<int>>, afters: seq<seq<int>>, state: nat) {
    && |afters| <= |befores|
    && forall i :: 0 <= i < |afters| ==> ShuffledFrom(befores[i], afters[i], StateAt(state, befores, i))
  }

  lemma AllShuffledNext(befores: seq<seq<int>>, now: seq<seq<int>>, state: nat, i: nat, after: seq<int>)
    requires i < |now| == |befores| && now[i..] == befores[i..] && AllShuffled(befores, now[..i], state)
    requires ShuffledFrom(now[i], after, StateAt(state, befores, i))
    ensures now[i := after][i + 1..] == befores[i + 1..]
    ensures AllShuffled(befores, now[i := after][..i + 1], state)
  {
    assert now[i] == now[i..][0] == befores[i];
    assert now[i := after][..i + 1] == now[..i] + [after];
    assert now[i := after][i + 1..] == now[i..][1..] && befores[i + 1..] == befores[i..][1..];
  }

  /** The index vectors of the test cases, all of which are valid. */
  ghost predicate HoldIndices(cases: seq<TestCase>, indices: seq<seq<int>>)
    reads cases`testIndices, cases`tests
  {
    |cases| == |indices| && forall i :: 0 <= i < |cases| ==> cases[i].Valid() && cases[i].testIndices == indices[i]
  }

  /** Shuffles the tests inside each test case. */
  method ShuffleInside(cases: seq<TestCase>, random: Random, ghost befores: seq<seq<int>>)
    returns (ghost afters: seq<seq<int>>)
    requires Distinct(cases) && HoldIndices(cases, befores)
    requires forall tc :: tc in cases ==> |tc.tests| <= MAX_RANGE
    modifies cases`testIndices, random`state
    ensures HoldIndices(cases, afters) && AllShuffled(befores, afters, old(random.state))
  {
    ghost var state := random.state;
    ghost var now := befores;
    var i := 0;
    assert now[..0] == [];
    while i < |cases|
      invariant 0 <= i <= |cases| && random.state == StateAt(state, befores, i)
      invariant HoldIndices(cases, now)
      invariant now[i..] == befores[i..] && AllShuffled(befores, now[..i], state)
    {
      var tc := cases[i];
      assert |tc.tests| == |now[i]| == |now[i..][0]| == |befores[i..][0]| == |befores[i]|;
      ghost var after := ShuffleCase(cases, random, now, i);
      AllShuffledNext(befores, now, state, i, after);
      now := now[i := after];
      i := i + 1;
    }
    assert now[..i] == now;
    return now;
  }

  method ShuffleCase(cases: seq<TestCase>, random: Random, ghost now: seq<seq<int>>, i: nat)
    returns (ghost after: seq<int>)
    requires Distinct(cases) && HoldIndices(cases, now) && i < |cases| && |cases[i].tests| <= MAX_RANGE
    modifies cases`testIndices, random`state
    ensures HoldIndices(cases, now[i := after])
    ensures ShuffledFrom(now[i], after, old(random.state))
    ensures random.state == StateAfter(old(random.state), |now[i]|)
  {
    var tc := cases[i];
    tc.ShuffleTests(random);
    after := tc.testIndices;
  }

  /** Shuffled from the order of registration, the index vectors are those of an iteration. */
  lemma ShuffledOrders(lists: seq<seq<TestInfo>>, befores: seq<seq<int>>, afters: seq<seq<int>>, order: seq<int>, d: nat, seed: nat)
    requires |lists| == |befores| == |afters| == |order| && d <= |lists|
    requires forall i :: 0 <= i < |lists| ==> befores[i] == Iota(0, |lists[i]|)
    requires BlocksShuffled(Iota(0, |lists|), order, d, seed) && AllShuffled(befores, afters, StateBehind(seed, d, |lists|))
    ensures order == CaseOrder(|lists|, d, true, seed)
    ensures forall i :: 0 <= i < |lists| ==> afters[i] == InnerOrder(lists, i, true, StateBehind(seed, d, |lists|))
  {
    IotaSplits(d, |lists|);
    SplitJoin(order, d);
    forall i | 0 <= i < |lists|
      ensures afters[i] == InnerOrder(lists, i, true, StateBehind(seed, d, |lists|))
    {
      StateAtLengths(StateBehind(seed, d, |lists|), befores, lists, i);
    }
  }

  /** As many tests are selected as are due, and so none if none is. */
  lemma CountDue(all: seq<TestInfo>)
    ensures Count(Chosen(all)) > 0 <==> DueOf(all) != {}
  {
    CountRunning(all);
    RunningIsKeep(all, DueOf(all));
    if DueOf(all) != {} {
      var t :| t in DueOf(all);
      KeepIn(all, DueOf(all), t);
    } else {
      NothingKept(all, DueOf(all));
    }
  }

  /** The set of tests that are due can be read off the flags. */
  lemma FlagsSay(cases: seq<TestCase>, lists: seq<seq<TestInfo>>, due: set<TestInfo>)
    requires Flagged(cases, lists, due) && forall t :: t in due ==> t in Flatten(lists)
    ensures DueOf(Flatten(lists)) == due && Running(Flatten(lists)) == Keep(Flatten(lists), due)
  {
    var all := Flatten(lists);
    forall i | 0 <= i < |all|
      ensures all[i].shouldRun <==> all[i] in due
    {
      InFlat(lists, all[i]);
    }
    RunningIsKeep(all, due);
  }

  lemma HeldLists(cases: seq<TestCase>, lists: seq<seq<TestInfo>>)
    requires Hold(cases, lists)
    ensures TestLists(cases) == lists
  {
  }

  class UnitTestImpl {
    var testCases: seq<TestCase>
    var testCaseIndices: seq<int>
    var lastDeathTestCase: int
    const random: Random
    const deathFilter: string

    constructor ()
      ensures Valid() && Unshuffled() && testCases == [] && fresh(random)
      ensures deathFilter == TestFilter.DEATH_TEST_CASE_FILTER
    {
      deathFilter := TestFilter.DEATH_TEST_CASE_FILTER;
      testCases, testCaseIndices, lastDeathTestCase := [], [], -1;
      random := new Random(0);
    }

    /** The number of death test cases; they come first. */
    function Block(): int
      reads `lastDeathTestCase
    {
      lastDeathTestCase + 1
    }

    ghost predicate Valid()
      reads `testCases, `testCaseIndices, `lastDeathTestCase, testCases`tests, testCases`testIndices
    {
      Filed(NamesOf(testCases), Block(), deathFilter) && Indexed()
    }

    /** The part of the invariant about index vectors. */
    ghost predicate Indexed()
      reads `testCases, `testCaseIndices, `lastDeathTestCase, testCases`tests, testCases`testIndices
    {
      && 0 <= Block() <= |testCases| && Distinct(testCases)
      && BlockPermutation(testCaseIndices, Block(), |testCases|)
      && forall t :: t in testCases ==> t.Valid()
    }

    ghost predicate Unshuffled()
      reads `testCases, `testCaseIndices, `lastDeathTestCase, testCases`tests, testCases`testIndices
    {
      && testCaseIndices == Iota(0, |testCases|)
      && forall t :: t in testCases ==> t.Unshuffled()
    }

    /** std::find_if with the name. */
    static method FindTestCase(cases: seq<TestCase>, name: string) returns (tc: TestCase?)
      ensures tc != null ==> tc in cases && tc.name == name
      ensures tc == null <==> name !in NamesOf(cases)
    {
      var i := 0;
      while i < |cases|
        invariant 0 <= i <= |cases|
        invariant forall k :: 0 <= k < i ==> cases[k].name != name
      {
        if cases[i].name == name {
          assert NamesOf(cases)[i] == name;
          return cases[i];
        }
        i := i + 1;
      }
      return null;
    }

    /**
     The test case of that name. A new one is filed behind the death tests so far if it is a death
     test and at the end otherwise. Callers must not call this on shuffled tests.
     */
    method GetTestCase(name: string) returns (tc: TestCase)
      requires Valid() && Unshuffled()
      modifies this
      ensures Valid() && Unshuffled() && tc in testCases && tc.name == name
      ensures name in NamesOf(old(testCases)) ==> testCases == old(testCases) && Block() == old(Block())
      ensures name !in NamesOf(old(testCases)) ==>
                && fresh(tc) && tc.tests == []
                && testCases == Insert(old(testCases), PlaceOf(name, old(Block()), |old(testCases)|, deathFilter), tc)
    {
      var found := FindTestCase(testCases, name);
      if found != null {
        return found;
      }
      tc := new TestCase(name);
      AddTestCase(tc);
    }

    method AddTestCase(tc: TestCase)
      requires Valid() && Unshuffled() && tc.Valid() && tc.Unshuffled()
      requires tc.name !in NamesOf(testCases)
      modifies `testCases, `testCaseIndices, `lastDeathTestCase
      ensures Valid() && Unshuffled() && tc in testCases
      ensures testCases == Insert(old(testCases), PlaceOf(tc.name, old(Block()), |old(testCases)|, deathFilter), tc)
    {
      var isDeathTest := TestFilter.MatchesFilter(tc.name, deathFilter);
      ghost var filed := Insert(testCases, PlaceOf(tc.name, Block(), |testCases|, deathFilter), tc);
      ghost var block := if isDeathTest then Block() + 1 else Block();
      AddedKeeps(testCases, Block(), tc, deathFilter);
      InsertLast(testCases, tc);
      if isDeathTest {
        lastDeathTestCase := lastDeathTestCase + 1;
        testCases := Insert(testCases, lastDeathTestCase, tc);
      } else {
        testCases := testCases + [tc];
      }
      testCaseIndices := testCaseIndices + [|testCaseIndices|];
      assert testCases == filed && Block() == block && testCaseIndices == Iota(0, |filed|);
      assert Filed(NamesOf(filed), block, deathFilter);
    }

    /** The order in which the test cases run. */
    ghost function Order(): (r: seq<TestCase>)
      requires Indexed()
      reads `testCases, `testCaseIndices, `lastDeathTestCase, testCases`tests, testCases`testIndices
      ensures multiset(r) == multiset(testCases)
      ensures |r| == |testCases| && multiset(r[..Block()]) == multiset(testCases[..Block()])
      ensures multiset(r[Block()..]) == multiset(testCases[Block()..])
      ensures Unshuffled() ==> r == testCases
    {
      VisitsAllBlockFirst(testCases, testCaseIndices, Block());
      Visit(testCases, testCaseIndices)
    }

    /** The tests of the registry are where their names say. */
    lemma NamesFit()
      requires Valid()
      ensures Hold(testCases, TestLists(testCases)) && WellNamed(testCases, TestLists(testCases))
    {
      forall i | 0 <= i < |testCases|
        ensures testCases[i].OwnTests() && testCases[i].name == NamesOf(testCases)[i]
      {
        assert testCases[i] in testCases;
      }
    }

    /**
     Registers a test as the last one of the test case of its name. That may be a new one, which is
     put in its place; no other changes.
     */
    method AddTestInfo(test: TestInfo) returns (ghost tc: TestCase)
      requires Valid() && Unshuffled() && forall tc :: tc in testCases ==> test !in tc.tests
      modifies this, testCases
      ensures Valid() && Unshuffled()
      ensures tc in testCases && tc.name == test.testCaseName
      ensures if test.testCaseName in NamesOf(old(testCases)) then testCases == old(testCases)
              else
                && fresh(tc)
                && testCases == Insert(old(testCases),
                                       PlaceOf(test.testCaseName, old(Block()), |old(testCases)|, deathFilter), tc)
      ensures tc.tests == (if tc in old(testCases) then old(tc.tests) else []) + [test]
      ensures forall other :: other in testCases && other != tc ==>
                other in old(testCases) && other.tests == old(other.tests)
    {
      var found := GetTestCase(test.testCaseName);
      AddToCase(found, test);
      tc := found;
    }

    method AddToCase(tc: TestCase, test: TestInfo)
      requires Valid() && Unshuffled() && tc in testCases && test !in tc.tests && test.testCaseName == tc.name
      modifies tc`tests, tc`testIndices
      ensures Valid() && Unshuffled() && tc.tests == old(tc.tests) + [test]
    {
      tc.AddTestInfo(test);
    }

    /**
     The registrations before a run: the test cases are those named, each once, the death test cases
     in the order of their first tests and then the others in theirs, and each has its tests in order.
     */
    method RegisterTests(tests: seq<TestInfo>)
      requires Valid() && Unshuffled() && testCases == [] && Distinct(tests)
      modifies this
      ensures Valid() && Unshuffled()
      ensures NamesOf(testCases) == RegisteredNames(tests, deathFilter)
      ensures forall tc :: tc in testCases ==> fresh(tc) && tc.tests == TestsOf(tests, tc.name)
      ensures AllTests(testCases) == InOrder(tests, deathFilter)
      ensures multiset(AllTests(testCases)) == multiset(tests)
    {
      var i := 0;
      assert tests[..0] == [];
      while i < |tests|
        invariant 0 <= i <= |tests| && Valid() && Unshuffled()
        invariant NamesOf(testCases) == RegisteredNames(tests[..i], deathFilter)
        invariant forall tc :: tc in testCases ==> fresh(tc) && tc.tests == TestsOf(tests[..i], tc.name)
      {
        RegisterOne(tests, i);
        i := i + 1;
      }
      assert tests[..i] == tests;
      HoldInOrder(testCases, tests, deathFilter);
      InOrderMultiset(tests, deathFilter);
    }

    method RegisterOne(tests: seq<TestInfo>, i: nat)
      requires Valid() && Unshuffled() && i < |tests| && Distinct(tests)
      requires NamesOf(testCases) == RegisteredNames(tests[..i], deathFilter)
      requires forall tc :: tc in testCases ==> tc.tests == TestsOf(tests[..i], tc.name)
      modifies this, testCases
      ensures Valid() && Unshuffled()
      ensures NamesOf(testCases) == RegisteredNames(tests[..i + 1], deathFilter)
      ensures forall tc :: tc in testCases ==>
                (tc in old(testCases) || fresh(tc)) && tc.tests == TestsOf(tests[..i + 1], tc.name)
    {
      var done, test := tests[..i], tests[i];
      ghost var cases, d := testCases, Block();
      assert tests[..i + 1] == done + [test];
      forall tc | tc in testCases
        ensures test !in tc.tests
      {
        TestsOfSubset(done, tc.name, test);
      }
      NamesInOrder(done, deathFilter, d);
      RegisteredNext(done, test, deathFilter);
      ghost var tc := AddTestInfo(test);
      if test.testCaseName !in NamesOf(cases) {
        InsertNames(cases, PlaceOf(test.testCaseName, d, |cases|, deathFilter), tc);
        NoTestsOf(done, test.testCaseName, deathFilter);
      }
      forall other | other in testCases
        ensures other.tests == TestsOf(tests[..i + 1], other.name)
      {
        TestsOfNext(done, test, other.name);
        if other != tc {
          OtherName(testCases, Block(), deathFilter, other, tc);
        }
      }
    }

    /**
     Decides about every test, numbering the runnable ones through all the test cases. Returns the
     number of tests selected.
     */
    method FilterTests(p: Protocol, c: Criteria) returns (numSelected: nat)
      requires Valid() && Legal(p)
      modifies testCases`shouldRun
      modifies AllTests(testCases)`isDisabled, AllTests(testCases)`matchesFilter, AllTests(testCases)`shouldRun
      ensures Valid() && old(Unshuffled()) == Unshuffled()
      ensures Filtered(AllTests(testCases), p, c, 0)
      ensures Agree(testCases, TestLists(testCases), |testCases|)
      ensures numSelected == Count(Chosen(AllTests(testCases)))
    {
      numSelected := FilterInOrder(p, c);
    }

    /** The loop of FilterTests on the test cases in the order of registration. */
    method FilterInOrder(p: Protocol, c: Criteria) returns (numSelected: nat)
      requires Valid() && Legal(p)
      modifies testCases`shouldRun
      modifies AllTests(testCases)`isDisabled, AllTests(testCases)`matchesFilter, AllTests(testCases)`shouldRun
      ensures Filtered(AllTests(testCases), p, c, 0)
      ensures Agree(testCases, TestLists(testCases), |testCases|)
      ensures numSelected == Count(Chosen(AllTests(testCases)))
    {
      NamesFit();
      AllInFlat(TestLists(testCases));
      numSelected := FilterCases(testCases, TestLists(testCases), AllTests(testCases), p, c);
    }

    /** The checks of Random::Generate on every range that will be shuffled. */
    predicate Small()
      reads `testCases, testCases`tests
    {
      |testCases| <= MAX_RANGE && forall tc :: tc in testCases ==> |tc.tests| <= MAX_RANGE
    }

    /** Unshuffled, with these tests of which these are to run. */
    ghost predicate Ready(lists: seq<seq<TestInfo>>, due: set<TestInfo>)
      reads `testCases, `testCaseIndices, `lastDeathTestCase
      reads testCases`tests, testCases`testIndices, testCases`shouldRun
      reads (set i, j | 0 <= i < |lists| && 0 <= j < |lists[i]| :: lists[i][j])`shouldRun
    {
      Indexed() && Unshuffled() && Small() && Flagged(testCases, lists, due)
    }

    /** The index vectors are those of an iteration with that seed. */
    ghost predicate Ordered(lists: seq<seq<TestInfo>>, shuffle: bool, seed: nat)
      requires Indexed() && |lists| == |testCases|
      reads `testCases, `testCaseIndices, `lastDeathTestCase, testCases`tests, testCases`testIndices
    {
      var n := |testCases|;
      && testCaseIndices == CaseOrder(n, Block(), shuffle, seed)
      && forall i :: 0 <= i < n ==> testCases[i].testIndices == InnerOrder(lists, i, shuffle, StateBehind(seed, Block(), n))
    }

    /** Shuffles the death test cases among themselves, then the others, then the tests inside each. */
    method ShuffleTests() returns (ghost befores: seq<seq<int>>, ghost afters: seq<seq<int>>)
      requires Indexed() && Small()
      modifies `testCaseIndices, testCases`testIndices, random`state
      ensures Indexed()
      ensures BlocksShuffled(old(testCaseIndices), testCaseIndices, Block(), old(random.state))
      ensures old(HoldIndices(testCases, befores)) && HoldIndices(testCases, afters)
      ensures AllShuffled(befores, afters, StateBehind(old(random.state), Block(), |testCases|))
    {
      befores := IndicesOf(testCases);
      ShuffleCases();
      afters := ShuffleInside(testCases, random, befores);
    }

    /** The test cases, without what is inside them. */
    method ShuffleCases()
      requires Indexed() && Small()
      modifies `testCaseIndices, random`state
      ensures Indexed()
      ensures BlocksShuffled(old(testCaseIndices), testCaseIndices, Block(), old(random.state))
      ensures random.state == StateBehind(old(random.state), Block(), |testCases|)
    {
      ghost var before, state := testCaseIndices, random.state;
      testCaseIndices := ShuffleBlocks(random, testCaseIndices, Block());
      ShuffledBlocks(before, testCaseIndices, Block(), state);
    }

    /** Puts every index vector back, whatever it holds. */
    method UnshuffleTests()
      requires Indexed()
      modifies `testCaseIndices, testCases`testIndices
      ensures Indexed() && Unshuffled()
    {
      var i := 0;
      while i < |testCases|
        invariant 0 <= i <= |testCases| == |testCaseIndices|
        invariant forall k :: 0 <= k < i ==> testCaseIndices[k] == k
        invariant forall t :: t in testCases ==> t.Valid()
        invariant forall k :: 0 <= k < i ==> testCases[k].Unshuffled()
      {
        testCases[i].UnshuffleTests();
        testCaseIndices := testCaseIndices[i := i];
        i := i + 1;
      }
      IotaByElements(testCaseIndices);
      IotaSplits(Block(), |testCases|);
    }

    /** Shuffles an unshuffled registry from a state of the generator. */
    method ShuffleFrom(ghost lists: seq<seq<TestInfo>>, ghost seed: nat)
      requires Indexed() && Unshuffled() && Small() && Hold(testCases, lists) && random.state == seed
      modifies `testCaseIndices, testCases`testIndices, random`state
      ensures Indexed() && Small() && Hold(testCases, lists) && Ordered(lists, true, seed)
    {
      ghost var befores, afters := ShuffleTests();
      ShuffledOrders(lists, befores, afters, testCaseIndices, Block(), seed);
    }

    /** Brings the tests of an iteration into their order. */
    method PutInOrder(ghost lists: seq<seq<TestInfo>>, ghost due: set<TestInfo>, shuffle: bool, seed: nat)
      requires Ready(lists, due)
      modifies `testCaseIndices, testCases`testIndices, random`state
      ensures Indexed() && Small() && Flagged(testCases, lists, due) && Ordered(lists, shuffle, seed)
    {
      if shuffle {
        random.Reseed(seed);
        ShuffleFrom(lists, seed);
      } else {
        forall i | 0 <= i < |testCases|
          ensures testCases[i].Unshuffled()
        {
          assert testCases[i] in testCases;
        }
      }
    }

    /** Runs the tests of an iteration in their order, if there are any. */
    method RunInOrder(ghost lists: seq<seq<TestInfo>>, ghost due: set<TestInfo>, hasTestsToRun: bool,
                      ghost shuffle: bool, ghost seed: nat)
      returns (it: Iteration)
      requires Indexed() && Flagged(testCases, lists, due) && Ordered(lists, shuffle, seed)
      requires hasTestsToRun <==> due != {}
      ensures ExactIteration(it, testCases, lists, due, Block(), shuffle, seed)
    {
      it := Iteration([], []);
      if hasTestsToRun {
        ghost var state := StateBehind(seed, Block(), |testCases|);
        forall i | 0 <= i < |testCases|
          ensures testCases[i].Permuted()
        {
          assert testCases[i] in testCases;
        }
        RunsOfCases(testCases, lists, due, shuffle, state);
        it := RunEach(testCases, testCaseIndices, Runs(lists, due, shuffle, state));
      }
    }

    /** Puts the tests back into the order of registration. */
    method PutBack(ghost lists: seq<seq<TestInfo>>, ghost due: set<TestInfo>)
      requires Indexed() && Small() && Flagged(testCases, lists, due)
      modifies `testCaseIndices, testCases`testIndices
      ensures Ready(lists, due)
    {
      UnshuffleTests();
    }

    /** One iteration of a run; it leaves the registry unshuffled. */
    method RunIteration(ghost lists: seq<seq<TestInfo>>, ghost due: set<TestInfo>, hasTestsToRun: bool, shuffle: bool, seed: nat)
      returns (it: Iteration)
      requires Ready(lists, due) && (hasTestsToRun <==> due != {})
      modifies `testCaseIndices, testCases`testIndices, random`state
      ensures Ready(lists, due)
      ensures ExactIteration(it, testCases, lists, due, Block(), shuffle, seed)
    {
      PutInOrder(lists, due, hasTestsToRun && shuffle, seed);
      it := RunInOrder(lists, due, hasTestsToRun, hasTestsToRun && shuffle, seed);
      PutBack(lists, due);
    }

    /**
     A run of the test program, which ends at once if the sharding variables contradict each other.
     The iterations visit and run exactly what the flags of the tests say, in the order of registration
     or in the order that their seeds give: every test selected runs once and no other test runs; every
     test case is visited once, the death test cases before the others. The registry is left unshuffled.
     */
    method RunAllTests(flags: Flags, total: int, index: int, inSubprocess: bool)
      returns (exited: bool, iterations: seq<Iteration>)
      requires Valid() && Unshuffled() && Small()
      modifies `testCaseIndices, testCases`testIndices, testCases`shouldRun, random`state
      modifies AllTests(testCases)`isDisabled, AllTests(testCases)`matchesFilter, AllTests(testCases)`shouldRun
      ensures Valid() && Unshuffled()
      ensures exited <==> ShouldShard(total, index, inSubprocess).Exit?
      ensures !exited ==>
                Filtered(AllTests(testCases), ShouldShard(total, index, inSubprocess), flags.Criteria(), 0)
      ensures !exited ==> |iterations| == if inSubprocess then 1 else flags.repeat
      ensures !exited ==>
                AllExact(iterations, testCases, TestLists(testCases), DueOf(AllTests(testCases)), Block(), flags)
      ensures !exited ==>
                AllGood(iterations, testCases, Block(), Running(AllTests(testCases)), flags.shuffle)
    {
      var p := ShouldShard(total, index, inSubprocess);
      if p.Exit? {
        return true, [];
      }
      var hasTestsToRun;
      ghost var due;
      hasTestsToRun, due := SelectTests(p, flags.Criteria());
      ghost var lists := TestLists(testCases);
      iterations := RunFiltered(AllTests(testCases), p, lists, due, hasTestsToRun, flags, if inSubprocess then 1 else flags.repeat);
      HeldLists(testCases, lists);
      FlagsSay(testCases, lists, due);
      exited := false;
    }

    /** Sets the flags of the tests and says whether any test is to run. */
    method SelectTests(p: Protocol, c: Criteria) returns (hasTestsToRun: bool, ghost due: set<TestInfo>)
      requires Valid() && Legal(p) && Unshuffled() && Small()
      modifies testCases`shouldRun
      modifies AllTests(testCases)`isDisabled, AllTests(testCases)`matchesFilter, AllTests(testCases)`shouldRun
      ensures Valid() && Ready(TestLists(testCases), due) && (hasTestsToRun <==> due != {})
      ensures Filtered(AllTests(testCases), p, c, 0) && forall t :: t in due ==> t in AllTests(testCases)
    {
      var numSelected := FilterTests(p, c);
      due := DueOf(AllTests(testCases));
      FlaggedByAgree(testCases, TestLists(testCases));
      CountDue(AllTests(testCases));
      hasTestsToRun := numSelected > 0;
    }

    /** The iterations, which leave the flags as they are. */
    method RunFiltered(ghost all: seq<TestInfo>, ghost p: Protocol, ghost lists: seq<seq<TestInfo>>, ghost due: set<TestInfo>,
                       hasTestsToRun: bool, flags: Flags, repeat: nat)
      returns (iterations: seq<Iteration>)
      requires Ready(lists, due) && (hasTestsToRun <==> due != {})
      requires Legal(p) && Filtered(all, p, flags.Criteria(), 0)
      requires forall t :: t in due ==> t in Flatten(lists)
      modifies `testCaseIndices, testCases`testIndices, random`state
      ensures Ready(lists, due) && Filtered(all, p, flags.Criteria(), 0)
      ensures |iterations| == repeat && AllExact(iterations, testCases, lists, due, Block(), flags)
      ensures AllGood(iterations, testCases, Block(), Keep(Flatten(lists), due), flags.shuffle)
    {
      iterations := Iterate(lists, due, hasTestsToRun, flags, repeat);
      AllExactIsGood(iterations, testCases, lists, due, Block(), flags);
    }

    /** The loop over the iterations. */
    method Iterate(ghost lists: seq<seq<TestInfo>>, ghost due: set<TestInfo>, hasTestsToRun: bool, flags: Flags, repeat: nat)
      returns (iterations: seq<Iteration>)
      requires Ready(lists, due) && (hasTestsToRun <==> due != {})
      modifies `testCaseIndices, testCases`testIndices, random`state
      ensures Ready(lists, due)
      ensures |iterations| == repeat && AllExact(iterations, testCases, lists, due, Block(), flags)
    {
      iterations := [];
      var randomSeed := if flags.shuffle then FirstSeed(flags.seed) else 0;
      SeedStarts(flags.seed);
      for i := 0 to repeat
        invariant Ready(lists, due) && |iterations| == i
        invariant randomSeed == flags.SeedOf(i)
        invariant AllExact(iterations, testCases, lists, due, Block(), flags)
      {
        var it := RunIteration(lists, due, hasTestsToRun, flags.shuffle, randomSeed);
        AllExactNext(iterations, it, testCases, lists, due, Block(), flags);
        iterations := iterations + [it];
        SeedNext(flags.seed, i);
        if flags.shuffle {
          randomSeed := NextRandomSeed(randomSeed);
        }
      }
    }
  }
}
