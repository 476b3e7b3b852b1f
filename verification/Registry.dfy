/** Test cases and their tests: registration, filtering and the order they run in. */
module Registry {
  import Filters
  import opened Shuffling

  // ----- Orders -----

  /** The numbers from `a` up to, but not including, `b`. */
  function Range(a: nat, b: nat): (r: seq<int>)
    ensures |r| == if a < b then b - a else 0
    ensures forall i :: 0 <= i < |r| ==> r[i] == a + i
    decreases b
  {
    if a >= b then [] else Range(a, b - 1) + [b - 1]
  }

  /** The first `d` places hold the first `d` numbers in some order, and the other places the others. */
  ghost predicate Split(indices: seq<int>, d: nat, n: nat) {
    d <= n == |indices| &&
    multiset(indices[..d]) == multiset(Range(0, d)) && multiset(indices[d..]) == multiset(Range(d, n))
  }

  lemma RangeSplits(d: nat, n: nat)
    requires d <= n
    ensures Split(Range(0, n), d, n)
  {
    hide Range;
    var all, front, back := Range(0, n), Range(0, d), Range(d, n);
    assert forall i :: 0 <= i < d ==> all[..d][i] == front[i];
    assert forall i :: 0 <= i < n - d ==> all[d..][i] == back[i];
    assert all[..d] == front && all[d..] == back;
  }

  lemma {:induction false} RangeCounts(a: nat, b: nat, x: int)
    ensures multiset(Range(a, b))[x] == if a <= x < b then 1 else 0
    decreases b
  {
    hide Range;
    if a < b {
      RangeCounts(a, b - 1, x);
      RangeSnoc(a, b);
    } else {
      assert Range(a, b) == [];
    }
  }

  lemma RangeSnoc(a: nat, b: nat)
    requires a < b
    ensures Range(a, b) == Range(a, b - 1) + [b - 1]
    ensures multiset(Range(a, b)) == multiset(Range(a, b - 1)) + multiset{b - 1}
  {
  }

  /** Every number has its place, on its side of the split, and only one. */
  lemma SplitIs(indices: seq<int>, d: nat, n: nat)
    requires Split(indices, d, n)
    ensures |indices| == n && forall i: nat :: i < n ==> 0 <= indices[i] < n && (i < d <==> indices[i] < d)
    ensures Distinct(indices) && forall x :: 0 <= x < n ==> x in indices
  {
    hide Range;
    forall i: nat | i < n ensures 0 <= indices[i] < n && (i < d <==> indices[i] < d) {
      SplitAt(indices, d, n, i);
    }
    forall x | 0 <= x < n ensures x in indices {
      SplitCounts(indices, d, n, x);
    }
    forall i, j | 0 <= i < j < n ensures indices[i] != indices[j] {
      SplitCounts(indices, d, n, indices[i]);
      OnceOnly(indices, i, j);
    }
  }

  lemma SplitAt(indices: seq<int>, d: nat, n: nat, i: nat)
    requires Split(indices, d, n) && i < n
    ensures 0 <= indices[i] < n && (i < d <==> indices[i] < d)
  {
    RangeCounts(0, d, indices[i]);
    RangeCounts(d, n, indices[i]);
    if i < d {
      assert indices[..d][i] in multiset(indices[..d]);
    } else {
      assert indices[d..][i - d] in multiset(indices[d..]);
    }
  }

  lemma SplitCounts(indices: seq<int>, d: nat, n: nat, x: int)
    requires Split(indices, d, n)
    ensures |indices| == n && multiset(indices)[x] == if 0 <= x < n then 1 else 0
  {
    hide Range;
    assert indices == indices[..d] + indices[d..];
    RangeCounts(0, d, x);
    RangeCounts(d, n, x);
  }

  /** Two places of the same number count it twice. */
  lemma OnceOnly(s: seq<int>, i: nat, j: nat)
    requires i < j < |s| && multiset(s)[s[i]] <= 1
    ensures s[i] != s[j]
  {
    assert s == s[..j] + s[j..];
    assert s[..j][i] == s[i] && s[j..][0] == s[j];
    assert multiset(s)[s[i]] == multiset(s[..j])[s[i]] + multiset(s[j..])[s[i]];
  }

  /** Shuffling one side of a split, or both, keeps the split. */
  lemma ShuffleKeepsSplit(indices: seq<int>, d: nat, n: nat, begin: nat, end: nat, draws: seq<nat>)
    requires Split(indices, d, n) && begin <= end <= n && (end <= d || d <= begin) && Draws(draws, end - begin)
    ensures Split(Fisher(indices, begin, end - begin, draws), d, n)
  {
    hide Range, Fisher, Draws;
    var w := Fisher(indices, begin, end - begin, draws);
    FisherPermutes(indices, begin, end - begin, draws);
    if end <= d {
      FrontPermutes(indices, w, d);
    } else {
      BackPermutes(indices, w, d);
    }
  }

  lemma FrontPermutes(v: seq<int>, w: seq<int>, d: nat)
    requires d <= |v| == |w| && multiset(v) == multiset(w) && forall i :: d <= i < |v| ==> v[i] == w[i]
    ensures multiset(v[..d]) == multiset(w[..d]) && v[d..] == w[d..]
  {
    RangePermutes(v, w, 0, d);
    assert v[0..d] == v[..d] && w[0..d] == w[..d];
  }

  lemma BackPermutes(v: seq<int>, w: seq<int>, d: nat)
    requires d <= |v| == |w| && multiset(v) == multiset(w) && forall i :: 0 <= i < d ==> v[i] == w[i]
    ensures v[..d] == w[..d] && multiset(v[d..]) == multiset(w[d..])
  {
    RangePermutes(v, w, d, |v|);
    assert v[d..|v|] == v[d..] && w[d..|w|] == w[d..];
  }

  /** One more number for the second side. */
  lemma SplitGrows(indices: seq<int>, n: nat)
    requires Split(indices, 0, n)
    ensures Split(indices + [n], 0, n + 1)
  {
    hide Range;
    var w := indices + [n];
    assert indices[0..] == indices && w[0..] == w && w[..0] == indices[..0];
    RangeSnoc(0, n + 1);
  }

  /** An element of a list; the default outside of it. */
  function GetElementOr<T>(v: seq<T>, i: int, defaultValue: T): T {
    if i < 0 || i >= |v| then defaultValue else v[i]
  }

  // ----- Tests and test cases -----

  class TestInfo {
    const name: string
    var isDisabled: bool
    var matchesFilter: bool
    var shouldRun: bool

    constructor (name: string)
      ensures this.name == name && !shouldRun
    {
      this.name, isDisabled, matchesFilter, shouldRun := name, false, false, false;
    }
  }

  /** The tests to run, in the order that the indices give. */
  ghost function ToRun(tests: seq<TestInfo>, order: seq<int>): seq<TestInfo>
    reads tests`shouldRun
  {
    if order == [] then []
    else
      var i := order[|order| - 1];
      ToRun(tests, order[..|order| - 1]) + if 0 <= i < |tests| && tests[i].shouldRun then [tests[i]] else []
  }

  lemma ToRunMore(tests: seq<TestInfo>, order: seq<int>, i: nat)
    requires i < |order| && 0 <= order[i] < |tests|
    ensures ToRun(tests, order[..i + 1]) ==
      ToRun(tests, order[..i]) + if tests[order[i]].shouldRun then [tests[order[i]]] else []
  {
    assert order[..i + 1][..i] == order[..i];
  }

  lemma NothingToRun(tests: seq<TestInfo>)
    ensures ToRun(tests, []) == []
  {
  }

  class TestCase {
    const name: string
    var testInfoList: seq<TestInfo>
    var testIndices: seq<int>
    var shouldRun: bool

    constructor (name: string)
      ensures Valid() && this.name == name && testInfoList == [] && !shouldRun
    {
      this.name, testInfoList, testIndices, shouldRun := name, [], [], false;
      new;
      RangeSplits(0, 0);
    }

    /** The indices are an order of the tests, which are all different. */
    ghost predicate Valid()
      reads this`testInfoList, this`testIndices
    {
      Distinct(testInfoList) && |testInfoList| <= INT_MAX && Split(testIndices, 0, |testInfoList|)
    }

    method AddTestInfo(testInfo: TestInfo)
      requires Valid() && testInfo !in testInfoList && |testInfoList| < INT_MAX
      modifies this`testInfoList, this`testIndices
      ensures Valid() && testInfoList == old(testInfoList) + [testInfo]
      ensures testIndices == old(testIndices) + [|old(testInfoList)|]
    {
      SplitGrows(testIndices, |testInfoList|);
      testInfoList := testInfoList + [testInfo];
      testIndices := testIndices + [|testIndices|];
    }

    method ShuffleTests(random: Random)
      requires Valid()
      modifies random, this`testIndices
      ensures Valid()
      ensures testIndices ==
        Fisher(old(testIndices), 0, |old(testIndices)|, Drawn(old(random.state), |old(testIndices)|))
      ensures random.state == After(old(random.state), |old(testIndices)|)
    {
      ShuffleKeepsSplit(testIndices, 0, |testIndices|, 0, |testIndices|, Drawn(random.state, |testIndices|));
      testIndices := ShuffleRange(random, 0, |testIndices|, testIndices);
    }

    method UnshuffleTests()
      requires Valid()
      modifies this`testIndices
      ensures Valid() && testIndices == Range(0, |testInfoList|)
    {
      for i := 0 to |testIndices|
        invariant |testIndices| == |testInfoList| == old(|testIndices|)
        invariant forall k :: 0 <= k < i ==> testIndices[k] == k
      {
        testIndices := testIndices[i := i];
      }
      assert testIndices == Range(0, |testInfoList|);
      RangeSplits(0, |testInfoList|);
    }

    function GetMutableTestInfo(i: int): (test: TestInfo?)
      requires Valid()
      reads this
      ensures test == null <==> !(0 <= i < |testInfoList|)
      ensures test != null ==> 0 <= testIndices[i] < |testInfoList| && test == testInfoList[testIndices[i]]
    {
      SplitIs(testIndices, 0, |testInfoList|);
      var index := GetElementOr(testIndices, i, -1);
      if index < 0 then null else testInfoList[index]
    }

    /** Whether one run of this test case runs a test. */
    ghost predicate WillRun(test: TestInfo)
      reads this`shouldRun, this`testInfoList, test`shouldRun
    {
      shouldRun && test in testInfoList && test.shouldRun
    }

    /** Runs the tests to run, each one once and in their current order. */
    method Run() returns (ran: seq<TestInfo>)
      requires Valid()
      ensures Distinct(ran) && forall t :: t in ran <==> t in testInfoList && WillRun(t)
      ensures ran == if shouldRun then ToRun(testInfoList, testIndices) else []
    {
      hide ToRun, Split;
      ran := [];
      if !shouldRun {
        return;
      }
      SplitIs(testIndices, 0, |testInfoList|);
      NothingToRun(testInfoList);
      for i := 0 to |testInfoList|
        invariant Distinct(ran) && ran == ToRun(testInfoList, testIndices[..i])
        invariant forall t :: t in ran <==> exists k :: 0 <= k < i && t == testInfoList[testIndices[k]] && t.shouldRun
      {
        var test := GetMutableTestInfo(i);
        ToRunMore(testInfoList, testIndices, i);
        if test.shouldRun {
          assert test !in ran;
          ran := ran + [test];
        }
      }
      assert testIndices[..|testInfoList|] == testIndices;
      forall t | t in testInfoList && t.shouldRun ensures t in ran {
        var j :| 0 <= j < |testInfoList| && testInfoList[j] == t;
        assert j in testIndices;
      }
    }
  }

  // ----- All test cases -----

  ghost predicate IsDeath(c: TestCase) {
    Filters.Selects(Filters.DEATH_TEST_CASE_FILTER, c.name)
  }

  lemma DeathIs(c: TestCase)
    ensures IsDeath(c) <==> Filters.Selects(Filters.DEATH_TEST_CASE_FILTER, c.name)
  {
  }

  /** Test cases with different names, those with death tests in front. */
  ghost predicate Registered(cases: seq<TestCase>, deaths: int) {
    0 <= deaths <= |cases| && Distinct(cases) &&
    (forall i :: 0 <= i < |cases| ==> (i < deaths <==> IsDeath(cases[i]))) &&
    forall c, d :: c in cases && d in cases && c.name == d.name ==> c == d
  }

  function Inserted<T>(s: seq<T>, k: nat, x: T): seq<T>
    requires k <= |s|
  {
    s[..k] + [x] + s[k..]
  }

  lemma InsertedIs<T>(s: seq<T>, k: nat, x: T)
    requires k <= |s|
    ensures Inserted(s, k, x) == s[..k] + [x] + s[k..] && |Inserted(s, k, x)| == |s| + 1
    ensures k == |s| ==> Inserted(s, k, x) == s + [x]
  {
  }

  lemma InsertedMembers<T>(s: seq<T>, k: nat, x: T)
    requires k <= |s|
    ensures forall y :: y in Inserted(s, k, x) ==> y == x || y in s
  {
  }

  lemma InsertCase(cases: seq<TestCase>, deaths: int, c: TestCase)
    requires Registered(cases, deaths)
    requires forall d :: d in cases ==> d.name != c.name
    ensures Registered(
      Inserted(cases, if IsDeath(c) then deaths else |cases|, c), if IsDeath(c) then deaths + 1 else deaths)
  {
    hide IsDeath;
    var k := if IsDeath(c) then deaths else |cases|;
    var w := Inserted(cases, k, c);
    forall i | 0 <= i < |w| ensures w[i] == if i < k then cases[i] else if i == k then c else cases[i - 1] {
    }
    assert forall d :: d in w ==> d == c || d in cases;
    assert c !in cases;
    assert Distinct(w);
    var deaths' := if IsDeath(c) then deaths + 1 else deaths;
    forall i | 0 <= i < |w| ensures i < deaths' <==> IsDeath(w[i]) {
      if i < k {
        assert w[i] == cases[i];
      } else if i > k {
        assert w[i] == cases[i - 1];
      }
    }
    forall d, e | d in w && e in w && d.name == e.name ensures d == e {
    }
  }

  ghost predicate AllValid(cases: seq<TestCase>)
    reads cases`testInfoList, cases`testIndices
  {
    forall c :: c in cases ==> c.Valid()
  }

  /** No test belongs to two test cases. */
  ghost predicate Apart(cases: seq<TestCase>)
    reads cases`testInfoList
  {
    forall c, d, t :: c in cases && d in cases && c != d && t in c.testInfoList ==> t !in d.testInfoList
  }

  class UnitTestImpl {
    const random: Random
    var testCases: seq<TestCase>
    var testCaseIndices: seq<int>
    var lastDeathTestCase: int

    constructor (random: Random)
      ensures Valid() && Unshuffled() && testCases == [] && this.random == random
    {
      this.random, testCases, testCaseIndices, lastDeathTestCase := random, [], [], -1;
      new;
      RangeSplits(0, 0);
    }

    ghost predicate Valid()
      reads this, testCases`testInfoList, testCases`testIndices
    {
      Shape() && AllValid(testCases) && Apart(testCases)
    }

    /** The test cases are registered, and the indices are an order of each side. */
    ghost predicate Shape()
      reads this
    {
      Registered(testCases, lastDeathTestCase + 1) && |testCases| <= INT_MAX &&
      Split(testCaseIndices, lastDeathTestCase + 1, |testCases|)
    }

    ghost predicate Unshuffled()
      reads this
    {
      testCaseIndices == Range(0, |testCases|)
    }

    /** Finds the test case of a name, or registers a new one: behind the others of its kind, death tests first. */
    method GetTestCase(testCaseName: string) returns (c: TestCase)
      requires Valid() && Unshuffled() && |testCases| < INT_MAX
      modifies this
      ensures Valid() && Unshuffled() && c in testCases && c.name == testCaseName
      ensures c in old(testCases) <==> exists d :: d in old(testCases) && d.name == testCaseName
      ensures c in old(testCases) ==> testCases == old(testCases) && lastDeathTestCase == old(lastDeathTestCase)
      ensures c !in old(testCases) ==>
        fresh(c) && c.testInfoList == [] &&
        testCases == Inserted(old(testCases), if IsDeath(c) then old(lastDeathTestCase) + 1 else |old(testCases)|, c)
    {
      hide IsDeath, Split, Range, Registered, Filters.Selects;
      Filled();
      for i := 0 to |testCases|
        invariant forall k :: 0 <= k < i ==> testCases[k].name != testCaseName
      {
        if testCases[i].name == testCaseName {
          return testCases[i];
        }
      }
      c := new TestCase(testCaseName);
      Register(c);
    }

    /** Puts a new test case behind the others of its kind. */
    method Register(c: TestCase)
      requires Valid() && Unshuffled() && |testCases| < INT_MAX
      requires c.Valid() && c.testInfoList == [] && forall d :: d in testCases ==> d.name != c.name
      modifies this
      ensures Valid() && Unshuffled() && 0 <= old(lastDeathTestCase) + 1 <= |old(testCases)|
      ensures testCases ==
        Inserted(old(testCases), if IsDeath(c) then old(lastDeathTestCase) + 1 else |old(testCases)|, c)
    {
      hide IsDeath, Split, Range, Registered, TestCase.Valid, Inserted, Shape, Unshuffled;
      Filled();
      InsertedMembers(testCases, if IsDeath(c) then lastDeathTestCase + 1 else |testCases|, c);
      PutInPlace(c);
      assert AllValid(testCases) && Apart(testCases);
    }

    lemma NoneTwice()
      requires Shape()
      ensures forall k, i :: 0 <= k < i < |testCases| ==> testCases[k] != testCases[i]
    {
    }

    lemma Filled()
      requires Shape()
      ensures 0 <= lastDeathTestCase + 1 <= |testCases|
    {
    }

    method PutInPlace(c: TestCase)
      requires Shape() && Unshuffled() && |testCases| < INT_MAX && forall d :: d in testCases ==> d.name != c.name
      modifies this
      ensures Shape() && Unshuffled() && 0 <= old(lastDeathTestCase) + 1 <= |old(testCases)|
      ensures testCases ==
        Inserted(old(testCases), if IsDeath(c) then old(lastDeathTestCase) + 1 else |old(testCases)|, c)
    {
      hide IsDeath, Split, Range, Registered, Inserted;
      Filled();
      ghost var d, n := lastDeathTestCase + 1, |testCases|;
      InsertCase(testCases, d, c);
      InsertedIs(testCases, if IsDeath(c) then d else n, c);
      var isDeath := Filters.MatchesFilter(c.name, Filters.DEATH_TEST_CASE_FILTER);
      DeathIs(c);
      PutIn(c, isDeath);
      IdentityGrows(n);
      RangeSplits(if isDeath then d + 1 else d, n + 1);
    }

    method PutIn(c: TestCase, isDeath: bool)
      requires 0 <= lastDeathTestCase + 1 <= |testCases| == |testCaseIndices|
      modifies this
      ensures lastDeathTestCase == if isDeath then old(lastDeathTestCase) + 1 else old(lastDeathTestCase)
      ensures testCases == Inserted(old(testCases), if isDeath then old(lastDeathTestCase) + 1 else |old(testCases)|, c)
      ensures testCaseIndices == old(testCaseIndices) + [|old(testCases)|]
    {
      if isDeath {
        lastDeathTestCase := lastDeathTestCase + 1;
        testCases := testCases[..lastDeathTestCase] + [c] + testCases[lastDeathTestCase..];
      } else {
        InsertedIs(testCases, |testCases|, c);
        testCases := testCases + [c];
      }
      testCaseIndices := testCaseIndices + [|testCaseIndices|];
    }

    /** Shuffles the death test cases, then the others, then the tests inside each test case. */
    method ShuffleTests()
      requires Valid()
      modifies random, this`testCaseIndices, testCases`testIndices
      ensures Valid()
      ensures 0 <= lastDeathTestCase + 1 <= |testCases| == |old(testCaseIndices)|
      ensures testCaseIndices == ShuffledSides(old(testCaseIndices), lastDeathTestCase + 1, old(random.state))
      ensures var s := After(After(old(random.state), lastDeathTestCase + 1), |testCases| - (lastDeathTestCase + 1));
        forall i :: 0 <= i < |testCases| ==>
          testCases[i].testIndices == ShuffledCase(old(Indices(testCases)), i, s)
    {
      hide Valid, ShuffledSides, ShuffledCase, After, Indices;
      ShuffleCases();
      ShuffleInside();
    }

    /** Shuffles the tests inside each test case. */
    method ShuffleInside()
      requires Valid()
      modifies random, testCases`testIndices
      ensures Valid()
      ensures forall i :: 0 <= i < |testCases| ==>
        testCases[i].testIndices == ShuffledCase(old(Indices(testCases)), i, old(random.state))
    {
      hide Split, Range, Registered, Fisher, TestCase.Valid, After, Apart, ShuffledCase, StateAt, Drawn;
      StateAtFirst(Indices(testCases), random.state);
      ghost var orders, s := Indices(testCases), random.state;
      NoneTwice();
      for i := 0 to |testCases|
        invariant AllValid(testCases)
        invariant random.state == StateAt(orders, i, s)
        invariant forall k :: 0 <= k < i ==> testCases[k].testIndices == ShuffledCase(orders, k, s)
        invariant forall k :: i <= k < |testCases| ==> testCases[k].testIndices == orders[k]
      {
        assert testCases[i] in testCases;
        CaseStep(orders, i, s);
        testCases[i].ShuffleTests(random);
      }
    }

    /** Shuffles each side of the test cases by itself. */
    method ShuffleCases()
      requires Valid()
      modifies random, this`testCaseIndices
      ensures Valid()
      ensures 0 <= lastDeathTestCase + 1 <= |testCases| == |old(testCaseIndices)|
      ensures testCaseIndices == ShuffledSides(old(testCaseIndices), lastDeathTestCase + 1, old(random.state))
      ensures Indices(testCases) == old(Indices(testCases))
      ensures random.state ==
        After(After(old(random.state), lastDeathTestCase + 1), |testCases| - (lastDeathTestCase + 1))
    {
      hide Split, Range, Registered, TestCase.Valid, After, AllValid, Apart, ShuffledSides;
      Sizes();
      testCaseIndices := ShuffleSides(random, lastDeathTestCase + 1, testCaseIndices);
    }

    /** Puts everything back in the order of registration. */
    method UnshuffleTests()
      requires Valid()
      modifies this`testCaseIndices, testCases`testIndices
      ensures Valid() && Unshuffled()
      ensures forall c :: c in testCases ==> c.testIndices == Range(0, |c.testInfoList|)
    {
      hide Split, Range, Registered, TestCase.Valid, Apart;
      Sizes();
      NoneTwice();
      for i := 0 to |testCases|
        invariant AllValid(testCases)
        invariant forall k :: 0 <= k < i ==> testCases[k].testIndices == Range(0, |testCases[k].testInfoList|)
        invariant |testCaseIndices| == |testCases| && forall k :: 0 <= k < i ==> testCaseIndices[k] == k
      {
        assert testCases[i] in testCases;
        testCases[i].UnshuffleTests();
        testCaseIndices := testCaseIndices[i := i];
      }
      assert testCaseIndices == Range(0, |testCases|);
      RangeSplits(lastDeathTestCase + 1, |testCases|);
    }

    lemma Sizes()
      requires Shape()
      ensures 0 <= lastDeathTestCase + 1 <= |testCases| == |testCaseIndices|
    {
    }

    lemma Index(i: int)
      requires Shape()
      ensures |testCaseIndices| == |testCases|
      ensures 0 <= i < |testCases| ==> 0 <= testCaseIndices[i] < |testCases|
    {
      SplitIs(testCaseIndices, lastDeathTestCase + 1, |testCases|);
    }

    function GetMutableTestCase(i: int): (c: TestCase?)
      requires Shape()
      reads this
      ensures |testCaseIndices| == |testCases| && (c == null <==> !(0 <= i < |testCases|))
      ensures c != null ==> 0 <= testCaseIndices[i] < |testCases| && c == testCases[testCaseIndices[i]]
    {
      Index(i);
      var index := GetElementOr(testCaseIndices, i, -1);
      if index < 0 then null else testCases[index]
    }
  }

  /** The two sides of an order, shuffled one after the other. */
  function ShuffledSides(indices: seq<int>, d: nat, state: nat): seq<int>
    requires d <= |indices|
  {
    Fisher(Fisher(indices, 0, d, Drawn(state, d)), d, |indices| - d, Drawn(After(state, d), |indices| - d))
  }

  method ShuffleSides(random: Random, d: nat, indices: seq<int>) returns (w: seq<int>)
    requires d <= |indices| <= INT_MAX
    modifies random
    ensures w == ShuffledSides(indices, d, old(random.state))
    ensures random.state == After(After(old(random.state), d), |indices| - d)
    ensures Split(indices, d, |indices|) ==> Split(w, d, |indices|)
  {
    hide Split, Fisher, After;
    ghost var n := |indices|;
    if Split(indices, d, n) {
      ShuffleKeepsSplit(indices, d, n, 0, d, Drawn(random.state, d));
    }
    w := ShuffleRange(random, 0, d, indices);
    if Split(w, d, n) {
      ShuffleKeepsSplit(w, d, n, d, n, Drawn(random.state, n - d));
    }
    w := ShuffleRange(random, d, |w|, w);
  }

  /** The orders of the tests of some test cases. */
  ghost function Indices(cases: seq<TestCase>): (r: seq<seq<int>>)
    reads cases`testIndices
    ensures |r| == |cases| && forall i :: 0 <= i < |cases| ==> r[i] == cases[i].testIndices
  {
    if cases == [] then [] else Indices(cases[..|cases| - 1]) + [cases[|cases| - 1].testIndices]
  }

  /** The state in front of the test case `i`, when the ones before it have been shuffled. */
  function StateAt(orders: seq<seq<int>>, i: nat, state: nat): nat
    requires i <= |orders|
  {
    if i == 0 then state else After(StateAt(orders, i - 1, state), |orders[i - 1]|)
  }

  lemma StateAtFirst(orders: seq<seq<int>>, state: nat)
    ensures StateAt(orders, 0, state) == state
  {
  }

  function ShuffledCase(orders: seq<seq<int>>, i: nat, state: nat): seq<int>
    requires i < |orders|
  {
    Fisher(orders[i], 0, |orders[i]|, Drawn(StateAt(orders, i, state), |orders[i]|))
  }

  lemma CaseStep(orders: seq<seq<int>>, i: nat, state: nat)
    requires i < |orders|
    ensures ShuffledCase(orders, i, state) ==
      Fisher(orders[i], 0, |orders[i]|, Drawn(StateAt(orders, i, state), |orders[i]|))
    ensures StateAt(orders, i + 1, state) == After(StateAt(orders, i, state), |orders[i]|)
  {
  }

  lemma IdentityGrows(n: nat)
    ensures Range(0, n) + [n] == Range(0, n + 1)
  {
    RangeSnoc(0, n + 1);
  }

  /** From seed 1, with two death test cases and two others: the first number decides on the death test cases, the
  second one on the others, the third one on the tests of the first test case, and the fourth on those of the next. */
  lemma ShuffleExample()
    ensures ShuffledSides([0, 1, 2, 3], 2, 1) == [1, 0, 2, 3]
    ensures After(After(1, 2), 2) == 377401575
    ensures ShuffledCase([[0, 1], [0, 1]], 0, 377401575) == [1, 0]
    ensures ShuffledCase([[0, 1], [0, 1]], 1, 377401575) == [0, 1]
  {
    hide Next, Fisher, Drawn;
    FirstNumbers();
    FisherStep([0, 1, 2, 3], 0, 2, 1);
    assert [0, 1, 2, 3][0 := 1][1 := 0] == [1, 0, 2, 3];
    FisherEnd([1, 0, 2, 3], 0, 1, 1103527590);
    FisherStep([1, 0, 2, 3], 2, 2, 1103527590);
    assert [1, 0, 2, 3][3 := 3][3 := 3] == [1, 0, 2, 3];
    FisherEnd([1, 0, 2, 3], 2, 1, 377401575);
    FisherStep([0, 1], 0, 2, 377401575);
    assert [0, 1][0 := 1][1 := 0] == [1, 0];
    FisherEnd([1, 0], 0, 1, 662824084);
    FisherStep([0, 1], 0, 2, 662824084);
    assert [0, 1][1 := 1][1 := 1] == [0, 1];
    FisherEnd([0, 1], 0, 1, 1147902781);
  }
}
