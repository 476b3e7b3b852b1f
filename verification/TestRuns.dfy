/** Which tests are selected, and in which order they run. */
module TestRuns {
  import opened Options
  import Filters
  import opened Shards
  import opened Shuffling
  import opened Registry

  /** The shard a process is, if it is one of several. */
  datatype Shard = Shard(total: nat, index: nat)

  type Sharding = s: Option<Shard> | s.Some? ==> s.value.index < s.value.total witness None

  // ----- Selection -----

  ghost predicate Disabled(caseName: string, testName: string) {
    Filters.Selects(Filters.DISABLE_TEST_FILTER, caseName) || Filters.Selects(Filters.DISABLE_TEST_FILTER, testName)
  }

  datatype Flags = Flags(filter: string, alsoRunDisabledTests: bool)

  ghost predicate CanRun(flags: Flags, caseName: string, testName: string) {
    (flags.alsoRunDisabledTests || !Disabled(caseName, testName)) &&
    Filters.Runs(flags.filter, caseName + "." + testName)
  }

  /** A test can run if its full name is selected, and if no mark disables it or its test case, or that is overruled. */
  lemma CanRunIff(flags: Flags, caseName: string, testName: string)
    ensures CanRun(flags, caseName, testName) <==>
      Filters.Runs(flags.filter, caseName + "." + testName) &&
      (flags.alsoRunDisabledTests ||
       !("DISABLED_" <= caseName || Filters.Contains(caseName, "/DISABLED_") ||
         "DISABLED_" <= testName || Filters.Contains(testName, "/DISABLED_")))
  {
    Filters.DisabledNames(caseName);
    Filters.DisabledNames(testName);
  }

  ghost function RunnableIn(flags: Flags, caseName: string, tests: seq<TestInfo>): seq<bool> {
    seq(|tests|, j requires 0 <= j < |tests| => CanRun(flags, caseName, tests[j].name))
  }

  /** Which tests can run, over all test cases in the order of registration. */
  ghost function Runnable(flags: Flags, cases: seq<TestCase>): seq<bool>
    reads cases`testInfoList
  {
    if cases == [] then []
    else
      var c := cases[|cases| - 1];
      Runnable(flags, cases[..|cases| - 1]) + RunnableIn(flags, c.name, c.testInfoList)
  }

  predicate Chosen(runnable: seq<bool>, k: nat, shard: Sharding)
    requires k < |runnable|
  {
    match shard
    case None => runnable[k]
    case Some(s) => Picked(runnable, k, s.total, s.index)
  }

  function CountChosen(runnable: seq<bool>, shard: Sharding): nat {
    match shard
    case None => CountTrue(runnable)
    case Some(s) => CountPicked(runnable, s.total, s.index)
  }

  lemma ChosenPrefix(runnable: seq<bool>, more: seq<bool>, k: nat, shard: Sharding)
    requires k < |runnable|
    ensures Chosen(runnable + more, k, shard) == Chosen(runnable, k, shard)
  {
    assert (runnable + more)[..k] == runnable[..k];
  }

  lemma CountChosenMore(runnable: seq<bool>, b: bool, shard: Sharding)
    ensures CountTrue(runnable + [b]) == CountTrue(runnable) + if b then 1 else 0
    ensures CountChosen(runnable + [b], shard) ==
      CountChosen(runnable, shard) + if Chosen(runnable + [b], |runnable|, shard) then 1 else 0
    ensures Chosen(runnable + [b], |runnable|, shard) <==>
      b && (shard.Some? ==> ShouldRunTestOnShard(shard.value.total, shard.value.index, CountTrue(runnable)))
  {
    assert (runnable + [b])[..|runnable|] == runnable;
  }

  /** Which of the tests `can` behind the tests `before` are chosen. */
  function Choices(before: seq<bool>, can: seq<bool>, shard: Sharding): (r: seq<bool>)
    ensures |r| == |can| && forall j :: 0 <= j < |can| ==> r[j] == Chosen(before + can, |before| + j, shard)
  {
    seq(|can|, j requires 0 <= j < |can| => Chosen(before + can, |before| + j, shard))
  }

  /** The selection is made for a test case: `choices` are those of its tests. */
  ghost predicate Settled(c: TestCase, choices: seq<bool>)
    reads c`testInfoList, c`shouldRun, c.testInfoList`shouldRun
  {
    |choices| == |c.testInfoList| && (c.shouldRun <==> true in choices) &&
    forall j :: 0 <= j < |choices| ==> c.testInfoList[j].shouldRun == choices[j]
  }

  method FilterTest(flags: Flags, shard: Sharding, caseName: string, test: TestInfo, numRunnable: nat, numSelected: nat)
    returns (runnable: nat, selected: nat)
    modifies test
    ensures test.isDisabled <==> Disabled(caseName, test.name)
    ensures test.matchesFilter <==> Filters.Runs(flags.filter, caseName + "." + test.name)
    ensures test.shouldRun <==>
      CanRun(flags, caseName, test.name) &&
      (shard.Some? ==> ShouldRunTestOnShard(shard.value.total, shard.value.index, numRunnable))
    ensures runnable == numRunnable + if CanRun(flags, caseName, test.name) then 1 else 0
    ensures selected == numSelected + if test.shouldRun then 1 else 0
  {
    var caseDisabled := Filters.MatchesFilter(caseName, Filters.DISABLE_TEST_FILTER);
    var testDisabled := Filters.MatchesFilter(test.name, Filters.DISABLE_TEST_FILTER);
    var isDisabled := caseDisabled || testDisabled;
    test.isDisabled := isDisabled;
    var matchesFilter := Filters.FilterMatchesTest(flags.filter, caseName, test.name);
    test.matchesFilter := matchesFilter;
    var isRunnable := (flags.alsoRunDisabledTests || !isDisabled) && matchesFilter;
    var isSelected := isRunnable &&
      (shard.None? || ShouldRunTestOnShard(shard.value.total, shard.value.index, numRunnable));
    runnable := numRunnable + if isRunnable then 1 else 0;
    selected := numSelected + if isSelected then 1 else 0;
    test.shouldRun := isSelected;
  }

  method FilterCase(flags: Flags, shard: Sharding, c: TestCase, numRunnable: nat, numSelected: nat,
      ghost before: seq<bool>)
    returns (runnable: nat, selected: nat)
    requires c.Valid() && numRunnable == CountTrue(before) && numSelected == CountChosen(before, shard)
    modifies c`shouldRun, c.testInfoList
    ensures Settled(c, Choices(before, RunnableIn(flags, c.name, c.testInfoList), shard))
    ensures var after := before + RunnableIn(flags, c.name, c.testInfoList);
      runnable == CountTrue(after) && selected == CountChosen(after, shard)
  {
    hide CountTrue, CountChosen, Chosen, CanRun, Choices;
    ghost var can := RunnableIn(flags, c.name, c.testInfoList);
    ghost var choices := Choices(before, can, shard);
    runnable, selected := numRunnable, numSelected;
    c.shouldRun := false;
    assert before + can[..0] == before;
    for j := 0 to |c.testInfoList|
      invariant runnable == CountTrue(before + can[..j]) && selected == CountChosen(before + can[..j], shard)
      invariant forall k :: 0 <= k < j ==> c.testInfoList[k].shouldRun == choices[k]
      invariant c.shouldRun <==> true in choices[..j]
    {
      var test := c.testInfoList[j];
      runnable, selected := FilterTest(flags, shard, c.name, test, runnable, selected);
      assert can[j] == CanRun(flags, c.name, test.name);
      OneChoice(before, can, j, shard);
      assert choices[..j + 1] == choices[..j] + [choices[j]];
      c.shouldRun := c.shouldRun || test.shouldRun;
    }
    assert can[..|can|] == can && choices[..|can|] == choices;
  }

  /** One test more of a test case. */
  lemma OneChoice(before: seq<bool>, can: seq<bool>, j: nat, shard: Sharding)
    requires j < |can|
    ensures CountTrue(before + can[..j + 1]) == CountTrue(before + can[..j]) + if can[j] then 1 else 0
    ensures CountChosen(before + can[..j + 1], shard) ==
      CountChosen(before + can[..j], shard) + if Choices(before, can, shard)[j] then 1 else 0
    ensures Choices(before, can, shard)[j] <==>
      can[j] && (shard.Some? ==>
        ShouldRunTestOnShard(shard.value.total, shard.value.index, CountTrue(before + can[..j])))
  {
    hide CountTrue, CountChosen, Chosen;
    assert before + can[..j + 1] == (before + can[..j]) + [can[j]];
    CountChosenMore(before + can[..j], can[j], shard);
    ChosenPrefix(before + can[..j + 1], can[j + 1..], |before| + j, shard);
    assert before + can == (before + can[..j + 1]) + can[j + 1..];
  }

  /** How many tests stand in front of a test case. */
  ghost function Before(flags: Flags, cases: seq<TestCase>, i: nat): seq<bool>
    requires i <= |cases|
    reads cases`testInfoList
  {
    Runnable(flags, cases[..i])
  }

  lemma BeforeMore(flags: Flags, cases: seq<TestCase>, i: nat)
    requires i < |cases|
    ensures Before(flags, cases, i + 1) ==
      Before(flags, cases, i) + RunnableIn(flags, cases[i].name, cases[i].testInfoList)
  {
    assert cases[..i + 1][..i] == cases[..i];
  }

  ghost function AllTests(cases: seq<TestCase>): set<TestInfo>
    reads cases`testInfoList
  {
    set c, t | c in cases && t in c.testInfoList :: t
  }

  lemma HasTest(cases: seq<TestCase>, c: TestCase, t: TestInfo)
    requires c in cases && t in c.testInfoList
    ensures t in AllTests(cases)
  {
  }

  /** The choices for a test case, behind the tests of those before it. */
  ghost function Wanted(flags: Flags, shard: Sharding, cases: seq<TestCase>, i: nat): seq<bool>
    requires i < |cases|
    reads cases`testInfoList
  {
    Choices(Before(flags, cases, i), RunnableIn(flags, cases[i].name, cases[i].testInfoList), shard)
  }

  /** Decides for every test whether it is to run, and counts those that are. */
  method FilterTests(flags: Flags, shard: Sharding, impl: UnitTestImpl) returns (numSelected: nat)
    requires impl.Valid()
    modifies impl.testCases`shouldRun, AllTests(impl.testCases)
    ensures impl.Valid()
    ensures forall i :: 0 <= i < |impl.testCases| ==>
      Settled(impl.testCases[i], Wanted(flags, shard, impl.testCases, i))
    ensures numSelected == CountChosen(Runnable(flags, impl.testCases), shard)
  {
    hide CountChosen, Wanted, Runnable, Settled, TestCase.Valid;
    numSelected := FilterCases(flags, shard, impl.testCases);
  }

  method FilterCases(flags: Flags, shard: Sharding, cases: seq<TestCase>) returns (numSelected: nat)
    requires Distinct(cases) && AllValid(cases) && Apart(cases)
    modifies cases`shouldRun, AllTests(cases)
    ensures forall i :: 0 <= i < |cases| ==> Settled(cases[i], Wanted(flags, shard, cases, i))
    ensures numSelected == CountChosen(Runnable(flags, cases), shard)
  {
    hide CountTrue, CountChosen, Choices, RunnableIn, Runnable, TestCase.Valid, Before, Wanted, AllTests, Befores,
      Wanteds;
    ghost var all, befores, wanteds := AllTests(cases), Befores(flags, cases, |cases|),
      Wanteds(flags, shard, cases, |cases|);
    forall i, j | 0 <= i < |cases| && 0 <= j < |cases[i].testInfoList| ensures cases[i].testInfoList[j] in all {
      HasTest(cases, cases[i], cases[i].testInfoList[j]);
    }
    var numRunnable := 0;
    numSelected := 0;
    NoTests(flags, cases, shard);
    for i := 0 to |cases|
      invariant numRunnable == CountTrue(befores[i]) && numSelected == CountChosen(befores[i], shard)
      invariant forall k :: 0 <= k < i ==> Settled(cases[k], wanteds[k])
    {
      var c := cases[i];
      assert c in cases && wanteds[i] == Wanted(flags, shard, cases, i);
      assert befores[i + 1] == Before(flags, cases, i + 1);
      WantedIs(flags, shard, cases, i);
      assert forall k, j :: 0 <= k < i && 0 <= j < |cases[k].testInfoList| ==>
        cases[k].testInfoList[j] !in c.testInfoList by {
        assert forall k :: 0 <= k < i ==> cases[k] in cases;
      }
      numRunnable, numSelected := FilterCase(flags, shard, c, numRunnable, numSelected, befores[i]);
    }
    AllBefore(flags, cases);
  }

  ghost function Befores(flags: Flags, cases: seq<TestCase>, n: nat): (r: seq<seq<bool>>)
    requires n <= |cases|
    reads cases`testInfoList
    ensures |r| == n + 1 && forall i :: 0 <= i <= n ==> r[i] == Before(flags, cases, i)
  {
    (if n == 0 then [] else Befores(flags, cases, n - 1)) + [Before(flags, cases, n)]
  }

  ghost function Wanteds(flags: Flags, shard: Sharding, cases: seq<TestCase>, n: nat): (r: seq<seq<bool>>)
    requires n <= |cases|
    reads cases`testInfoList
    ensures |r| == n && forall i :: 0 <= i < n ==> r[i] == Wanted(flags, shard, cases, i)
  {
    if n == 0 then [] else Wanteds(flags, shard, cases, n - 1) + [Wanted(flags, shard, cases, n - 1)]
  }

  lemma WantedIs(flags: Flags, shard: Sharding, cases: seq<TestCase>, i: nat)
    requires i < |cases|
    ensures Wanted(flags, shard, cases, i) ==
      Choices(Before(flags, cases, i), RunnableIn(flags, cases[i].name, cases[i].testInfoList), shard)
    ensures Before(flags, cases, i + 1) ==
      Before(flags, cases, i) + RunnableIn(flags, cases[i].name, cases[i].testInfoList)
  {
    BeforeMore(flags, cases, i);
  }

  lemma AllBefore(flags: Flags, cases: seq<TestCase>)
    ensures Before(flags, cases, |cases|) == Runnable(flags, cases)
  {
    assert cases[..|cases|] == cases;
  }

  lemma NoTests(flags: Flags, cases: seq<TestCase>, shard: Sharding)
    ensures CountTrue(Before(flags, cases, 0)) == 0 && CountChosen(Before(flags, cases, 0), shard) == 0
  {
  }

  /** The tests of a test case, with those in front of it, begin the list of all tests. */
  lemma {:induction false} BeforeIsFront(flags: Flags, cases: seq<TestCase>, i: nat) returns (rest: seq<bool>)
    requires i <= |cases|
    ensures Runnable(flags, cases) == Before(flags, cases, i) + rest
    decreases |cases|
  {
    hide RunnableIn;
    if i == |cases| {
      assert cases[..i] == cases;
      rest := [];
    } else {
      var front, c := cases[..|cases| - 1], cases[|cases| - 1];
      rest := BeforeIsFront(flags, front, i);
      assert front[..i] == cases[..i];
      rest := rest + RunnableIn(flags, c.name, c.testInfoList);
    }
  }

  /** The choice for a test is that for its place among all tests. */
  lemma WantedInAll(flags: Flags, shard: Sharding, cases: seq<TestCase>, i: nat, j: nat)
    requires i < |cases| && j < |cases[i].testInfoList|
    ensures |Wanted(flags, shard, cases, i)| == |cases[i].testInfoList|
    ensures |Before(flags, cases, i)| + j < |Runnable(flags, cases)|
    ensures Wanted(flags, shard, cases, i)[j] == Chosen(Runnable(flags, cases), |Before(flags, cases, i)| + j, shard)
    ensures Runnable(flags, cases)[|Before(flags, cases, i)| + j] ==
      CanRun(flags, cases[i].name, cases[i].testInfoList[j].name)
  {
    hide Runnable, CanRun, Chosen, Before;
    var rest := BeforeIsFront(flags, cases, i + 1);
    BeforeMore(flags, cases, i);
    ChosenPrefix(Before(flags, cases, i + 1), rest, |Before(flags, cases, i)| + j, shard);
  }

  /** A count of none is a choice of none. */
  lemma {:induction false} NoneChosen(runnable: seq<bool>, k: nat, shard: Sharding)
    requires k < |runnable| && CountChosen(runnable, shard) == 0
    ensures !Chosen(runnable, k, shard)
    decreases |runnable|
  {
    hide CountTrue, CountPicked, CountChosen, Chosen;
    var n := |runnable| - 1;
    var front, last := runnable[..n], runnable[n];
    assert runnable == front + [last];
    CountChosenMore(front, last, shard);
    if k < n {
      NoneChosen(front, k, shard);
      ChosenPrefix(front, [last], k, shard);
    }
  }

  // ----- Running -----

  /** The test belongs to the test case at one of the first `n` places of the order, and is selected. */
  ghost predicate Ran(cases: seq<TestCase>, indices: seq<int>, n: nat, selected: set<TestInfo>, t: TestInfo,
      c: TestCase)
    reads c`testInfoList
  {
    t in c.testInfoList && t in selected &&
    exists k :: 0 <= k < n && k < |indices| && 0 <= indices[k] < |cases| && c == cases[indices[k]]
  }

  /** Tests of one test case are not among those of the test cases at other places. */
  lemma NewTests(cases: seq<TestCase>, indices: seq<int>, i: nat, ran: seq<TestInfo>, owners: seq<TestCase>,
      part: seq<TestInfo>, selected: set<TestInfo>)
    requires Distinct(cases) && Distinct(indices) && Apart(cases) && i < |indices| == |cases|
    requires forall k :: 0 <= k < |indices| ==> 0 <= indices[k] < |cases|
    requires Distinct(ran) && Distinct(part) && |ran| == |owners|
    requires forall p :: 0 <= p < |ran| ==> Ran(cases, indices, i, selected, ran[p], owners[p])
    requires forall t :: t in part ==> t in cases[indices[i]].testInfoList
    ensures Distinct(ran + part)
  {
    var c := cases[indices[i]];
    forall p, q | 0 <= p < |ran| && 0 <= q < |part| ensures ran[p] != part[q] {
      assert Ran(cases, indices, i, selected, ran[p], owners[p]);
      assert owners[p] != c && owners[p] in cases && c in cases;
      assert part[q] in part;
    }
  }

  // ----- The order of a run -----

  /** An order of the test cases, and one of the tests of each. */
  datatype Order = Order(cases: seq<int>, tests: seq<seq<int>>)

  ghost function OrderOf(impl: UnitTestImpl): Order
    reads impl, impl.testCases`testIndices
  {
    Order(impl.testCaseIndices, Indices(impl.testCases))
  }

  function Identity(n: nat): (r: seq<int>)
    ensures |r| == n && forall i :: 0 <= i < n ==> r[i] == i
  {
    seq(n, i => i)
  }

  ghost function Identities(cases: seq<TestCase>): (r: seq<seq<int>>)
    reads cases`testInfoList
    ensures |r| == |cases| && forall i :: 0 <= i < |cases| ==> r[i] == Identity(|cases[i].testInfoList|)
  {
    if cases == [] then []
    else Identities(cases[..|cases| - 1]) + [Identity(|cases[|cases| - 1].testInfoList|)]
  }

  /** Every test case and every test at its own place. */
  ghost function Registration(cases: seq<TestCase>): Order
    reads cases`testInfoList
  {
    Order(Identity(|cases|), Identities(cases))
  }

  /** The order that a shuffle from a seed makes of another: first the `d` death test cases, then the other test cases,
      and then the tests of each are shuffled, with numbers drawn one behind another. */
  function Shuffled(order: Order, d: nat, seed: nat): Order
    requires d <= |order.cases|
  {
    Order(ShuffledSides(order.cases, d, seed),
      seq(|order.tests|, i requires 0 <= i < |order.tests| =>
        ShuffledCase(order.tests, i, After(After(seed, d), |order.cases| - d))))
  }

  /** The selected tests among some, in the order that the indices give. */
  ghost function Picks(tests: seq<TestInfo>, order: seq<int>, selected: set<TestInfo>): seq<TestInfo> {
    if order == [] then []
    else
      var i := order[|order| - 1];
      Picks(tests, order[..|order| - 1], selected) + if 0 <= i < |tests| && tests[i] in selected then [tests[i]] else []
  }

  /** The selected tests of the first `n` test cases in an order. */
  ghost function Sequence(cases: seq<TestCase>, order: Order, n: nat, selected: set<TestInfo>): seq<TestInfo>
    requires n <= |order.cases|
    reads cases`testInfoList
  {
    if n == 0 then []
    else
      var i := order.cases[n - 1];
      Sequence(cases, order, n - 1, selected) +
      if 0 <= i < |cases| && i < |order.tests| then Picks(cases[i].testInfoList, order.tests[i], selected) else []
  }

  /** The selected ones of some tests, as they were registered. */
  ghost function Filtered(tests: seq<TestInfo>, selected: set<TestInfo>): seq<TestInfo> {
    if tests == [] then []
    else
      var t := tests[|tests| - 1];
      Filtered(tests[..|tests| - 1], selected) + if t in selected then [t] else []
  }

  ghost function InRegistration(cases: seq<TestCase>, selected: set<TestInfo>): seq<TestInfo>
    reads cases`testInfoList
  {
    if cases == [] then []
    else InRegistration(cases[..|cases| - 1], selected) + Filtered(cases[|cases| - 1].testInfoList, selected)
  }

  lemma {:induction false} PicksInPlace(tests: seq<TestInfo>, n: nat, selected: set<TestInfo>)
    requires n <= |tests|
    ensures Picks(tests, Identity(n), selected) == Filtered(tests[..n], selected)
  {
    if n > 0 {
      PicksInPlace(tests, n - 1, selected);
      assert Identity(n)[..n - 1] == Identity(n - 1);
      assert tests[..n][..n - 1] == tests[..n - 1];
    }
  }

  lemma {:induction false} SequenceInPlace(cases: seq<TestCase>, n: nat, selected: set<TestInfo>)
    requires n <= |cases|
    ensures Sequence(cases, Registration(cases), n, selected) == InRegistration(cases[..n], selected)
  {
    hide Picks, Filtered, Identity, Identities;
    if n > 0 {
      SequenceInPlace(cases, n - 1, selected);
      var tests := cases[n - 1].testInfoList;
      OneCaseMore(cases, Registration(cases), n - 1, selected);
      PicksInPlace(tests, |tests|, selected);
      assert tests[..|tests|] == tests;
      RegistrationMore(cases, n, selected);
    }
  }

  lemma RegistrationMore(cases: seq<TestCase>, n: nat, selected: set<TestInfo>)
    requires 0 < n <= |cases|
    ensures InRegistration(cases[..n], selected) ==
      InRegistration(cases[..n - 1], selected) + Filtered(cases[n - 1].testInfoList, selected)
  {
    hide Filtered;
    assert cases[..n][..n - 1] == cases[..n - 1];
  }

  /** In the order of registration, the selected tests come as they were registered. */
  lemma RegistrationIs(cases: seq<TestCase>, selected: set<TestInfo>)
    ensures Sequence(cases, Registration(cases), |cases|, selected) == InRegistration(cases, selected)
  {
    SequenceInPlace(cases, |cases|, selected);
    assert cases[..|cases|] == cases;
  }

  lemma {:induction false} PicksNone(tests: seq<TestInfo>, order: seq<int>)
    ensures Picks(tests, order, {}) == []
    decreases |order|
  {
    if order != [] {
      PicksNone(tests, order[..|order| - 1]);
    }
  }

  lemma {:induction false} SequenceNone(cases: seq<TestCase>, order: Order, n: nat)
    requires n <= |order.cases|
    ensures Sequence(cases, order, n, {}) == []
  {
    hide Picks;
    if n > 0 {
      SequenceNone(cases, order, n - 1);
      var i := order.cases[n - 1];
      if 0 <= i < |cases| && i < |order.tests| {
        PicksNone(cases[i].testInfoList, order.tests[i]);
      }
    }
  }

  lemma {:induction false} PicksAre(tests: seq<TestInfo>, order: seq<int>, selected: set<TestInfo>)
    requires forall j :: 0 <= j < |tests| ==> (tests[j].shouldRun <==> tests[j] in selected)
    ensures ToRun(tests, order) == Picks(tests, order, selected)
    decreases |order|
  {
    if order != [] {
      PicksAre(tests, order[..|order| - 1], selected);
    }
  }

  lemma {:induction false} PicksNothing(tests: seq<TestInfo>, order: seq<int>, selected: set<TestInfo>)
    requires forall j :: 0 <= j < |tests| ==> tests[j] !in selected
    ensures Picks(tests, order, selected) == []
    decreases |order|
  {
    if order != [] {
      PicksNothing(tests, order[..|order| - 1], selected);
    }
  }

  /** What a test case runs are its selected tests. */
  lemma RunIsPicks(c: TestCase, order: seq<int>, selected: set<TestInfo>)
    requires Marked(c, selected)
    ensures Picks(c.testInfoList, order, selected) == if c.shouldRun then ToRun(c.testInfoList, order) else []
  {
    if c.shouldRun {
      PicksAre(c.testInfoList, order, selected);
    } else {
      PicksNothing(c.testInfoList, order, selected);
    }
  }

  lemma OneCaseMore(cases: seq<TestCase>, order: Order, n: nat, selected: set<TestInfo>)
    requires n < |order.cases| && 0 <= order.cases[n] < |cases| == |order.tests|
    ensures Sequence(cases, order, n + 1, selected) ==
      Sequence(cases, order, n, selected) +
      Picks(cases[order.cases[n]].testInfoList, order.tests[order.cases[n]], selected)
  {
    hide Picks;
  }

  /** The tests of the first `n` test cases in the order have run, those of the first `d` being death tests. */
  ghost predicate SoFar(cases: seq<TestCase>, indices: seq<int>, d: nat, n: nat, selected: set<TestInfo>,
      ran: seq<TestInfo>, owners: seq<TestCase>, deaths: nat)
    requires n <= |indices| && forall k :: 0 <= k < |indices| ==> 0 <= indices[k] < |cases|
    reads cases`testInfoList, owners`testInfoList
  {
    Distinct(ran) && deaths <= |ran| == |owners| &&
    (forall p :: 0 <= p < |ran| ==>
      Ran(cases, indices, n, selected, ran[p], owners[p]) && (p < deaths <==> IsDeath(owners[p]))) &&
    (n <= d ==> deaths == |ran|) &&
    forall k, t :: 0 <= k < n && t in cases[indices[k]].testInfoList && t in selected ==> t in ran
  }

  lemma NothingYet(cases: seq<TestCase>, order: Order, selected: set<TestInfo>, indices: seq<int>, d: nat)
    requires forall k :: 0 <= k < |indices| ==> 0 <= indices[k] < |cases|
    ensures Sequence(cases, order, 0, selected) == [] && SoFar(cases, indices, d, 0, selected, [], [], 0)
  {
  }

  lemma DeathSide(impl: UnitTestImpl, i: nat)
    requires impl.Shape() && i < |impl.testCases|
    ensures |impl.testCaseIndices| == |impl.testCases| && 0 <= impl.testCaseIndices[i] < |impl.testCases|
    ensures i < impl.lastDeathTestCase + 1 <==> IsDeath(impl.testCases[impl.testCaseIndices[i]])
  {
    hide IsDeath, Split;
    SplitIs(impl.testCaseIndices, impl.lastDeathTestCase + 1, |impl.testCases|);
  }

  /** The test case at the next place has run. */
  lemma FurtherCase(cases: seq<TestCase>, indices: seq<int>, d: nat, n: nat, selected: set<TestInfo>,
      ran: seq<TestInfo>, owners: seq<TestCase>, deaths: nat, part: seq<TestInfo>)
    requires Distinct(cases) && Distinct(indices) && Apart(cases) && n < |indices| == |cases|
    requires forall k :: 0 <= k < |indices| ==> 0 <= indices[k] < |cases|
    requires SoFar(cases, indices, d, n, selected, ran, owners, deaths) && (n < d <==> IsDeath(cases[indices[n]]))
    requires Distinct(part) && forall t :: t in part <==> t in cases[indices[n]].testInfoList && t in selected
    ensures SoFar(cases, indices, d, n + 1, selected, ran + part, owners + seq(|part|, _ => cases[indices[n]]),
      if n < d then |ran + part| else deaths)
  {
    hide Distinct, IsDeath, Apart;
    var c := cases[indices[n]];
    NewTests(cases, indices, n, ran, owners, part, selected);
    var all, owners' := ran + part, owners + seq(|part|, _ => c);
    forall p | 0 <= p < |all| ensures Ran(cases, indices, n + 1, selected, all[p], owners'[p]) {
      if p < |ran| {
        assert all[p] == ran[p] && owners'[p] == owners[p];
      } else {
        assert all[p] == part[p - |ran|] && owners'[p] == c && all[p] in part;
      }
    }
  }

  lemma AllRan(cases: seq<TestCase>, indices: seq<int>, d: nat, selected: set<TestInfo>, ran: seq<TestInfo>,
      owners: seq<TestCase>, deaths: nat)
    requires |indices| == |cases| && forall k :: 0 <= k < |indices| ==> 0 <= indices[k] < |cases|
    requires forall i :: 0 <= i < |cases| ==> i in indices
    requires SoFar(cases, indices, d, |cases|, selected, ran, owners, deaths)
    ensures Distinct(ran) && deaths <= |ran| == |owners|
    ensures forall p :: 0 <= p < |ran| ==>
      owners[p] in cases && ran[p] in owners[p].testInfoList && (p < deaths <==> IsDeath(owners[p]))
    ensures forall t :: t in ran <==> t in selected && exists c :: c in cases && t in c.testInfoList
  {
    hide IsDeath, Distinct;
    forall t | t in selected && exists c :: c in cases && t in c.testInfoList ensures t in ran {
      var c :| c in cases && t in c.testInfoList;
      var i :| 0 <= i < |cases| && cases[i] == c;
      assert i in indices;
      var k :| 0 <= k < |indices| && indices[k] == i;
      assert t in cases[indices[k]].testInfoList;
    }
  }

  /** What a marked test case runs. */
  lemma RunsSelected(c: TestCase, selected: set<TestInfo>, t: TestInfo)
    requires Marked(c, selected)
    ensures t in c.testInfoList && c.WillRun(t) <==> t in c.testInfoList && t in selected
  {
    if t in c.testInfoList {
      var j :| 0 <= j < |c.testInfoList| && c.testInfoList[j] == t;
    }
  }

  /** Runs every test case in the current order; `owners` are those the tests belong to, those of death tests first. */
  method RunTestCases(impl: UnitTestImpl, ghost selected: set<TestInfo>)
    returns (ran: seq<TestInfo>, ghost owners: seq<TestCase>, ghost deaths: nat)
    requires impl.Valid() && forall c :: c in impl.testCases ==> Marked(c, selected)
    ensures ran == Sequence(impl.testCases, OrderOf(impl), |OrderOf(impl).cases|, selected)
    ensures Distinct(ran) && forall t :: t in ran <==> t in selected && t in AllTests(impl.testCases)
    ensures deaths <= |ran| == |owners|
    ensures forall p :: 0 <= p < |ran| ==>
      owners[p] in impl.testCases && ran[p] in owners[p].testInfoList && (p < deaths <==> IsDeath(owners[p]))
  {
    hide IsDeath, Split, TestCase.Valid, Marked, Sequence, Picks, ToRun, Indices, Distinct, SoFar, TestCase.WillRun;
    ValidParts(impl);
    var cases, n := impl.testCases, |impl.testCases|;
    ghost var order := OrderOf(impl);
    ghost var indices, d := impl.testCaseIndices, impl.lastDeathTestCase + 1;
    SplitIs(indices, d, n);
    ran, owners, deaths := [], [], 0;
    NothingYet(cases, order, selected, indices, d);
    for testIndex := 0 to n
      invariant ran == Sequence(cases, order, testIndex, selected)
      invariant SoFar(cases, indices, d, testIndex, selected, ran, owners, deaths)
    {
      var c := impl.GetMutableTestCase(testIndex);
      var part := c.Run();
      assert c in cases;
      RunIsPicks(c, c.testIndices, selected);
      OneCaseMore(cases, order, testIndex, selected);
      forall t ensures t in part <==> t in c.testInfoList && t in selected {
        RunsSelected(c, selected, t);
      }
      DeathSide(impl, testIndex);
      FurtherCase(cases, indices, d, testIndex, selected, ran, owners, deaths, part);
      ran := ran + part;
      owners := owners + seq(|part|, _ => c);
      if testIndex < d {
        deaths := |ran|;
      }
    }
    AllRan(cases, indices, d, selected, ran, owners, deaths);
  }

  // ----- Whole runs -----

  const MAX_RANDOM_SEED := 99999

  function GetNextRandomSeed(seed: nat): (next: nat)
    requires 1 <= seed <= MAX_RANDOM_SEED
    ensures 1 <= next <= MAX_RANDOM_SEED
  {
    if seed + 1 > MAX_RANDOM_SEED then 1 else seed + 1
  }

  /** What an iteration ran, which test cases those tests belong to, and how many belong to death test cases. */
  datatype Iteration = Iteration(ran: seq<TestInfo>, owners: seq<TestCase>, deaths: nat)

  /** The tests chosen by the flags, on a shard. */
  ghost function Selection(flags: Flags, shard: Sharding, cases: seq<TestCase>): set<TestInfo>
    reads cases`testInfoList
  {
    set i, j | 0 <= i < |cases| && 0 <= j < |cases[i].testInfoList| && Wants(flags, shard, cases, i, j) ::
      cases[i].testInfoList[j]
  }

  ghost predicate Wants(flags: Flags, shard: Sharding, cases: seq<TestCase>, i: nat, j: nat)
    requires i < |cases| && j < |cases[i].testInfoList|
    reads cases`testInfoList
  {
    Wanted(flags, shard, cases, i)[j]
  }

  /** A test has one place only, so its selection is the choice for that place. */
  lemma SelectionIs(flags: Flags, shard: Sharding, cases: seq<TestCase>, i: nat, j: nat)
    requires Distinct(cases) && AllValid(cases) && Apart(cases) && i < |cases| && j < |cases[i].testInfoList|
    ensures cases[i].testInfoList[j] in Selection(flags, shard, cases) <==> Wants(flags, shard, cases, i, j)
  {
    hide Wants, Split;
    var t := cases[i].testInfoList[j];
    if t in Selection(flags, shard, cases) {
      var k, l :| 0 <= k < |cases| && 0 <= l < |cases[k].testInfoList| && Wants(flags, shard, cases, k, l) &&
        cases[k].testInfoList[l] == t;
      assert cases[i] in cases && cases[k] in cases && t in cases[i].testInfoList && t in cases[k].testInfoList;
      assert cases[i] == cases[k] && i == k;
      assert cases[i].Valid() && j == l;
    }
  }

  /** Every selected test ran once, and those of death test cases in front of all others. */
  ghost predicate Complete(cases: seq<TestCase>, selected: set<TestInfo>, it: Iteration)
    reads cases`testInfoList
  {
    Distinct(it.ran) && (set t | t in it.ran) == selected &&
    it.deaths <= |it.ran| == |it.owners| &&
    forall p :: 0 <= p < |it.ran| ==>
      it.owners[p] in cases && it.ran[p] in it.owners[p].testInfoList && (p < it.deaths <==> IsDeath(it.owners[p]))
  }

  /** The tests ran in this order. */
  ghost predicate InOrder(cases: seq<TestCase>, order: Order, selected: set<TestInfo>, it: Iteration)
    reads cases`testInfoList
  {
    it.ran == Sequence(cases, order, |order.cases|, selected)
  }

  /** The tests to run are marked, and so is the test case if it has any. */
  ghost predicate Marked(c: TestCase, selected: set<TestInfo>)
    reads c`testInfoList, c`shouldRun, c.testInfoList`shouldRun
  {
    (forall j :: 0 <= j < |c.testInfoList| ==> (c.testInfoList[j].shouldRun <==> c.testInfoList[j] in selected)) &&
    (c.shouldRun <==> exists j :: 0 <= j < |c.testInfoList| && c.testInfoList[j] in selected)
  }

  lemma SettledIsMarked(flags: Flags, shard: Sharding, cases: seq<TestCase>, i: nat)
    requires Distinct(cases) && AllValid(cases) && Apart(cases) && i < |cases|
    requires Settled(cases[i], Wanted(flags, shard, cases, i))
    ensures Marked(cases[i], Selection(flags, shard, cases))
  {
    hide Wanted, Selection, AllValid, Apart;
    var selected, wanted := Selection(flags, shard, cases), Wanted(flags, shard, cases, i);
    forall j | 0 <= j < |cases[i].testInfoList| ensures cases[i].testInfoList[j] in selected <==> wanted[j] {
      SelectionIs(flags, shard, cases, i, j);
    }
    assert true in wanted ==> exists j :: 0 <= j < |wanted| && wanted[j];
  }

  /** The selection is empty exactly when the count says so. */
  lemma NoneSelected(flags: Flags, shard: Sharding, cases: seq<TestCase>)
    requires CountChosen(Runnable(flags, cases), shard) == 0
    ensures Selection(flags, shard, cases) == {}
  {
    hide Wanted, CountChosen, Chosen, Runnable, Before;
    forall i: nat, j: nat | i < |cases| && j < |cases[i].testInfoList| ensures !Wants(flags, shard, cases, i, j) {
      WantedInAll(flags, shard, cases, i, j);
      NoneChosen(Runnable(flags, cases), |Before(flags, cases, i)| + j, shard);
    }
  }

  lemma SelectionHasPlaces(flags: Flags, shard: Sharding, cases: seq<TestCase>)
    ensures Selection(flags, shard, cases) <= AllTests(cases)
  {
    hide Wants;
    forall t | t in Selection(flags, shard, cases) ensures t in AllTests(cases) {
      var i, j :| 0 <= i < |cases| && 0 <= j < |cases[i].testInfoList| && Wants(flags, shard, cases, i, j) &&
        cases[i].testInfoList[j] == t;
      HasTest(cases, cases[i], t);
    }
  }

  /** Seeds the generator anew and shuffles. */
  method Reshuffle(impl: UnitTestImpl, seed: nat)
    requires impl.Valid() && seed < 0x1_0000_0000
    modifies impl.random, impl`testCaseIndices, impl.testCases`testIndices
    ensures impl.Valid() && 0 <= impl.lastDeathTestCase + 1 <= |old(OrderOf(impl).cases)|
    ensures OrderOf(impl) == Shuffled(old(OrderOf(impl)), impl.lastDeathTestCase + 1, seed)
  {
    hide UnitTestImpl.Valid, ShuffledSides, ShuffledCase, After;
    impl.random.Reseed(seed);
    impl.ShuffleTests();
    assert OrderOf(impl).tests == Shuffled(old(OrderOf(impl)), impl.lastDeathTestCase + 1, seed).tests;
  }

  /** Restores the order of registration. */
  method Restore(impl: UnitTestImpl)
    requires impl.Valid()
    modifies impl`testCaseIndices, impl.testCases`testIndices
    ensures impl.Valid() && OrderOf(impl) == Registration(impl.testCases)
  {
    hide UnitTestImpl.Valid;
    impl.UnshuffleTests();
    RangeIsIdentity(|impl.testCases|);
    forall i | 0 <= i < |impl.testCases| ensures OrderOf(impl).tests[i] == Registration(impl.testCases).tests[i] {
      assert impl.testCases[i] in impl.testCases;
      RangeIsIdentity(|impl.testCases[i].testInfoList|);
    }
  }

  lemma RangeIsIdentity(n: nat)
    ensures Range(0, n) == Identity(n)
  {
  }

  lemma ValidSizes(impl: UnitTestImpl)
    requires impl.Valid()
    ensures 0 <= impl.lastDeathTestCase + 1 <= |impl.testCases| == |OrderOf(impl).cases|
  {
    impl.Sizes();
  }

  /** One iteration: shuffles if asked to, runs what is selected, and restores the order of registration. */
  method RunIteration(impl: UnitTestImpl, hasTestsToRun: bool, shuffle: bool, seed: nat, ghost selected: set<TestInfo>)
    returns (ghost it: Iteration)
    requires impl.Valid() && 1 <= seed <= MAX_RANDOM_SEED
    requires forall c :: c in impl.testCases ==> Marked(c, selected)
    requires selected <= AllTests(impl.testCases)
    requires !hasTestsToRun ==> selected == {}
    modifies impl.random, impl`testCaseIndices, impl.testCases`testIndices
    ensures impl.Valid() && Complete(impl.testCases, selected, it) && OrderOf(impl) == Registration(impl.testCases)
    ensures forall c :: c in impl.testCases ==> Marked(c, selected)
    ensures selected <= AllTests(impl.testCases)
    ensures 0 <= impl.lastDeathTestCase + 1 <= |impl.testCases| == |old(OrderOf(impl).cases)|
    ensures InOrder(impl.testCases, if shuffle then Shuffled(old(OrderOf(impl)), impl.lastDeathTestCase + 1, seed)
              else old(OrderOf(impl)), selected, it)
  {
    hide IsDeath, UnitTestImpl.Shape, UnitTestImpl.Valid, AllValid, Apart, Marked, AllTests, Shuffled, Sequence,
      OrderOf, Registration;
    ghost var cases := impl.testCases;
    it := Iteration([], [], 0);
    ValidSizes(impl);
    ghost var order := if shuffle then Shuffled(OrderOf(impl), impl.lastDeathTestCase + 1, seed) else OrderOf(impl);
    SequenceNone(cases, order, |order.cases|);
    if hasTestsToRun && shuffle {
      Reshuffle(impl, seed);
    }
    if hasTestsToRun {
      var ran, owners, deaths := RunTestCases(impl, selected);
      it := Iteration(ran, owners, deaths);
    }
    Restore(impl);
  }

  /** The seed of an iteration, counted from zero. */
  function SeedAt(randomSeed: nat, k: nat): (seed: nat)
    requires 1 <= randomSeed
    ensures 1 <= seed <= 99999
  {
    (randomSeed - 1 + k) % 99999 + 1
  }

  lemma NextSeed(randomSeed: nat, k: nat)
    requires 1 <= randomSeed
    ensures GetNextRandomSeed(SeedAt(randomSeed, k)) == SeedAt(randomSeed, k + 1)
    ensures randomSeed <= MAX_RANDOM_SEED ==> SeedAt(randomSeed, 0) == randomSeed
  {
    var n := randomSeed - 1 + k;
    assert n + 1 == 99999 * (n / 99999) + (n % 99999 + 1);
  }

  /** The order of an iteration: the first one starts from the order there is, the others from that of registration, and
      each is shuffled from its own seed if that is asked for. */
  function OrderAt(start: Order, registration: Order, d: nat, shuffle: bool, randomSeed: nat, k: nat): Order
    requires d <= |start.cases| && d <= |registration.cases| && 1 <= randomSeed
  {
    var base := if k == 0 then start else registration;
    if shuffle then Shuffled(base, d, SeedAt(randomSeed, k)) else base
  }

  /** Selects tests, and runs them any number of times. Each run is of the selected tests in the order of its iteration;
      without shuffling they run as they were registered. */
  method RunAllTests(impl: UnitTestImpl, flags: Flags, shard: Sharding, shuffle: bool, randomSeed: nat, repeat: nat)
    returns (ghost log: seq<Iteration>)
    requires impl.Valid() && 1 <= randomSeed <= MAX_RANDOM_SEED
    modifies impl.random, impl`testCaseIndices, impl.testCases`testIndices, impl.testCases`shouldRun,
      AllTests(impl.testCases)
    ensures impl.Valid() && |log| == repeat && (repeat > 0 ==> OrderOf(impl) == Registration(impl.testCases))
    ensures forall k :: 0 <= k < repeat ==> Complete(impl.testCases, Selection(flags, shard, impl.testCases), log[k])
    ensures 0 <= impl.lastDeathTestCase + 1 <= |impl.testCases| == |old(OrderOf(impl).cases)|
    ensures forall k :: 0 <= k < repeat ==>
      InOrder(impl.testCases, OrderAt(old(OrderOf(impl)), Registration(impl.testCases), impl.lastDeathTestCase + 1,
                                      shuffle, randomSeed, k), Selection(flags, shard, impl.testCases), log[k])
    ensures forall k :: 0 <= k < repeat && !shuffle && (k > 0 || old(OrderOf(impl)) == Registration(impl.testCases)) ==>
      log[k].ran == InRegistration(impl.testCases, Selection(flags, shard, impl.testCases))
  {
    hide Settled, Wanted, CountChosen, Runnable, Selection, Complete, Marked, AllTests, UnitTestImpl.Shape, AllValid,
      Apart, OrderOf, Sequence, InRegistration, Shuffled;
    var numSelected := Prepare(impl, flags, shard);
    SelectionHasPlaces(flags, shard, impl.testCases);
    log := RunRepeatedly(impl, numSelected > 0, shuffle, randomSeed, repeat, Selection(flags, shard, impl.testCases));
    RegistrationIs(impl.testCases, Selection(flags, shard, impl.testCases));
  }

  method RunRepeatedly(impl: UnitTestImpl, hasTestsToRun: bool, shuffle: bool, randomSeed: nat, repeat: nat,
                       ghost selected: set<TestInfo>)
    returns (ghost log: seq<Iteration>)
    requires impl.Valid() && 1 <= randomSeed <= MAX_RANDOM_SEED
    requires forall c :: c in impl.testCases ==> Marked(c, selected)
    requires selected <= AllTests(impl.testCases)
    requires !hasTestsToRun ==> selected == {}
    modifies impl.random, impl`testCaseIndices, impl.testCases`testIndices
    ensures impl.Valid() && |log| == repeat && (repeat > 0 ==> OrderOf(impl) == Registration(impl.testCases))
    ensures forall k :: 0 <= k < repeat ==> Complete(impl.testCases, selected, log[k])
    ensures 0 <= impl.lastDeathTestCase + 1 <= |impl.testCases| == |old(OrderOf(impl).cases)|
    ensures forall k :: 0 <= k < repeat ==>
      InOrder(impl.testCases, OrderAt(old(OrderOf(impl)), Registration(impl.testCases), impl.lastDeathTestCase + 1,
                                      shuffle, randomSeed, k), selected, log[k])
  {
    hide Complete, Marked, AllTests, UnitTestImpl.Valid, OrderOf, Registration, Shuffled, InOrder, SeedAt,
      GetNextRandomSeed;
    ValidSizes(impl);
    RegistrationSize(impl.testCases);
    NextSeed(randomSeed, 0);
    ghost var start, registration, d := OrderOf(impl), Registration(impl.testCases), impl.lastDeathTestCase + 1;
    log := [];
    var seed := randomSeed;
    for i := 0 to repeat
      invariant impl.Valid() && |log| == i && 1 <= seed <= MAX_RANDOM_SEED
      invariant OrderOf(impl) == if i == 0 then start else registration
      invariant seed == if shuffle then SeedAt(randomSeed, i) else randomSeed
      invariant forall c :: c in impl.testCases ==> Marked(c, selected)
      invariant selected <= AllTests(impl.testCases)
      invariant forall k :: 0 <= k < i ==> Complete(impl.testCases, selected, log[k])
      invariant forall k :: 0 <= k < i ==>
        InOrder(impl.testCases, OrderAt(start, registration, d, shuffle, randomSeed, k), selected, log[k])
    {
      ghost var it := RunIteration(impl, hasTestsToRun, shuffle, seed, selected);
      log := log + [it];
      NextSeed(randomSeed, i);
      seed := if shuffle then GetNextRandomSeed(seed) else seed;
    }
  }

  lemma RegistrationSize(cases: seq<TestCase>)
    ensures |Registration(cases).cases| == |cases|
  {
  }

  lemma ValidParts(impl: UnitTestImpl)
    requires impl.Valid()
    ensures Distinct(impl.testCases) && AllValid(impl.testCases) && Apart(impl.testCases)
  {
    hide AllValid, Apart, Split;
  }

  method Prepare(impl: UnitTestImpl, flags: Flags, shard: Sharding) returns (numSelected: nat)
    requires impl.Valid()
    modifies impl.testCases`shouldRun, AllTests(impl.testCases)
    ensures impl.Valid() && (numSelected == 0 ==> Selection(flags, shard, impl.testCases) == {})
    ensures OrderOf(impl) == old(OrderOf(impl))
    ensures forall c :: c in impl.testCases ==> Marked(c, Selection(flags, shard, impl.testCases))
  {
    hide Settled, Wanted, CountChosen, Runnable, Selection, Marked, OrderOf, UnitTestImpl.Valid, AllValid, Apart,
      Distinct;
    numSelected := FilterTests(flags, shard, impl);
    ValidParts(impl);
    forall c | c in impl.testCases ensures Marked(c, Selection(flags, shard, impl.testCases)) {
      var i :| 0 <= i < |impl.testCases| && impl.testCases[i] == c;
      SettledIsMarked(flags, shard, impl.testCases, i);
    }
    if numSelected == 0 {
      NoneSelected(flags, shard, impl.testCases);
    }
  }
}
