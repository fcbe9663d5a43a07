/**
 The test registry and the runner: registration with death test cases first, filtering
 and sharding, shuffling, unshuffling, and the loop of RunAllTests.
 */
module TestRunner {
  import opened TestFilter
  import opened Sharding
  import opened Shuffling

  /** The record of a test that filtering fills in; its name never changes and is kept apart. */
  datatype TestInfo = TestInfo(isDisabled: bool, matchesFilter: bool, shouldRun: bool)

  function RunFlags(infos: seq<TestInfo>): (run: seq<bool>)
    ensures |run| == |infos| && forall i | 0 <= i < |infos| :: run[i] == infos[i].shouldRun
  {
    seq(|infos|, i requires 0 <= i < |infos| => infos[i].shouldRun)
  }

  /** For each test of a case, whether it can run. */
  ghost function Verdicts(flags: Flags, testCase: string, tests: seq<string>): (v: seq<bool>)
    ensures |v| == |tests| && forall t | 0 <= t < |tests| :: v[t] <==> Runnable(flags, testCase, tests[t])
  {
    seq(|tests|, t requires 0 <= t < |tests| => Runnable(flags, testCase, tests[t]))
  }

  /** In the first n tests, those selected are the ones that can run with a rank that is kept. */
  ghost predicate Filtered(verdicts: seq<bool>, keep: nat -> bool, before: nat, infos: seq<TestInfo>, n: nat)
    requires n <= |infos| == |verdicts|
  {
    forall t | 0 <= t < n :: infos[t].shouldRun <==> verdicts[t] && keep(before + CountTrue(verdicts, t))
  }

  /** The record agrees with the names and the filter flag. */
  ghost predicate Recorded(flags: Flags, testCase: string, test: string, info: TestInfo) {
    && (info.isDisabled <==> IsDisabledName(testCase) || IsDisabledName(test))
    && (info.matchesFilter <==> Selects(flags.filter, testCase + "." + test))
  }

  /** One turn of the loop in FilterTests; `kept` tells whether the next test that can run falls on this shard. */
  method FilterOne(flags: Flags, testCase: string, test: string, kept: bool) returns (info: TestInfo, isRunnable: bool)
    ensures Recorded(flags, testCase, test, info)
    ensures isRunnable <==> Runnable(flags, testCase, test)
    ensures isRunnable <==> (flags.alsoRunDisabledTests || !info.isDisabled) && info.matchesFilter
    ensures info.shouldRun == (isRunnable && kept)
  {
    var isDisabled := MatchesDisableFilter(testCase);
    if !isDisabled {
      isDisabled := MatchesDisableFilter(test);
    }
    var matchesFilter := FilterMatchesTest(flags.filter, testCase, test);
    isRunnable := (flags.alsoRunDisabledTests || !isDisabled) && matchesFilter;
    info := TestInfo(isDisabled, matchesFilter, isRunnable && kept);
  }

  /** Where the filtering loop stands after n tests of a case. */
  ghost predicate Progress(verdicts: seq<bool>, keep: nat -> bool, before: nat, infos: seq<TestInfo>, n: nat,
                           any: bool, runnable: nat, selected: nat)
    requires n <= |infos| == |verdicts|
  {
    && Filtered(verdicts, keep, before, infos, n)
    && (any <==> exists t | 0 <= t < n :: infos[t].shouldRun)
    && runnable == CountTrue(verdicts, n)
    && selected + KeptBelow(keep, before) == KeptBelow(keep, before + runnable)
  }

  lemma {:induction false} ProgressStep(verdicts: seq<bool>, keep: nat -> bool, before: nat, infos: seq<TestInfo>, n: nat,
                                        any: bool, runnable: nat, selected: nat, info: TestInfo)
    requires n < |infos| == |verdicts| && Progress(verdicts, keep, before, infos, n, any, runnable, selected)
    requires info.shouldRun <==> verdicts[n] && keep(before + runnable)
    ensures Progress(verdicts, keep, before, infos[n := info], n + 1, any || info.shouldRun,
                     runnable + (if verdicts[n] then 1 else 0), selected + if info.shouldRun then 1 else 0)
  {
    var infos' := infos[n := info];
    assert forall t | 0 <= t < n :: infos'[t] == infos[t];
    assert infos'[n] == info;
    assert any ==> exists t | 0 <= t < n :: infos'[t].shouldRun;
    assert KeptBelow(keep, before + runnable + 1) == KeptBelow(keep, before + runnable) + if keep(before + runnable) then 1 else 0;
  }

  /** The inner loop of FilterTests, over the tests of one case. */
  method FilterInfos(flags: Flags, keep: nat -> bool, before: nat, testCase: string, tests: seq<string>, infos: seq<TestInfo>)
    returns (filtered: seq<TestInfo>, any: bool, runnable: nat, selected: nat)
    requires |tests| == |infos|
    ensures |filtered| == |tests|
    ensures Progress(Verdicts(flags, testCase, tests), keep, before, filtered, |filtered|, any, runnable, selected)
  {
    hide Runnable;
    filtered, any, runnable, selected := infos, false, 0, 0;
    ghost var verdicts := Verdicts(flags, testCase, tests);
    for j := 0 to |tests|
      invariant |filtered| == |tests|
      invariant Progress(verdicts, keep, before, filtered, j, any, runnable, selected)
    {
      var info, isRunnable := FilterOne(flags, testCase, tests[j], keep(before + runnable));
      ProgressStep(verdicts, keep, before, filtered, j, any, runnable, selected, info);
      runnable := runnable + if isRunnable then 1 else 0;
      selected := selected + if info.shouldRun then 1 else 0;
      filtered := filtered[j := info];
      any := any || info.shouldRun;
    }
  }

  lemma {:induction false} NoneSelectedNoVisits(c: int, order: seq<int>, run: seq<bool>)
    requires forall t | 0 <= t < |run| :: !run[t]
    ensures CaseVisits(c, order, run) == []
    decreases |order|
  {
    if order != [] {
      NoneSelectedNoVisits(c, order[..|order| - 1], run);
    }
  }

  class TestCase {
    const name: string
    var testNames: seq<string>
    var infos: seq<TestInfo>
    var indices: seq<int>
    var shouldRun: bool

    ghost predicate Valid()
      reads this
    {
      Sized() && IsPermutation(indices)
    }

    /** The case is to run iff one of its tests is. */
    ghost predicate Flagged()
      reads `infos, `shouldRun
    {
      shouldRun <==> exists t | 0 <= t < |infos| :: infos[t].shouldRun
    }

    ghost predicate Sized()
      reads this
    {
      |testNames| == |infos| == |indices|
    }

    constructor (name: string)
      ensures Valid() && this.name == name && testNames == [] && !shouldRun
    {
      this.name, testNames, infos, indices, shouldRun := name, [], [], [], false;
    }

    method AddTestInfo(testName: string)
      requires Valid()
      modifies `testNames, `infos, `indices
      ensures Valid() && testNames == old(testNames) + [testName]
      ensures old(indices) == Identity(|old(testNames)|) ==> indices == Identity(|testNames|)
    {
      AppendedIndex(indices, -1);
      testNames := testNames + [testName];
      infos := infos + [TestInfo(false, false, false)];
      indices := indices + [|indices|];
    }

    method ShuffleTests(random: Random)
      requires Valid() && |testNames| <= MAX_RANGE
      modifies `indices, random
      ensures Valid()
      ensures (random.state, indices) == FisherYates(old(random.state), 0, |old(indices)|, old(indices))
    {
      FisherYatesIsPermutation(random.state, 0, |indices|, indices);
      indices := ShuffleRange(random, 0, |indices|, indices);
    }

    method UnshuffleTests()
      requires Valid()
      modifies `indices
      ensures Valid() && indices == Identity(|testNames|)
    {
      for i := 0 to |indices|
        invariant |indices| == |infos|
        invariant forall k | 0 <= k < i :: indices[k] == k
      {
        indices := indices[i := i];
      }
      IdentityIsPermutation(|infos|);
      assert indices == Identity(|infos|);
    }

    /**
     The inner loop of FilterTests: `before` tests that can run have been seen in earlier
     cases, and `keep` says which of the following ones belong to this shard.
     */
    method FilterTests(flags: Flags, keep: nat -> bool, before: nat, ghost verdicts: seq<bool>)
      returns (runnable: nat, selected: nat)
      requires Sized() && verdicts == Verdicts(flags, name, testNames)
      modifies `infos, `shouldRun
      ensures Sized()
      ensures CaseFiltered(this, verdicts, keep, before)
      ensures runnable == CountTrue(verdicts, |verdicts|)
      ensures selected == CountTrue(RunFlags(infos), |infos|)
      ensures selected + KeptBelow(keep, before) == KeptBelow(keep, before + runnable)
    {
      hide Verdicts, Runnable, CountTrue, KeptBelow;
      var filtered, any;
      filtered, any, runnable, selected := FilterInfos(flags, keep, before, name, testNames, infos);
      KeptInCase(verdicts, keep, before, RunFlags(filtered), |filtered|);
      infos, shouldRun := filtered, any;
    }

    /** Runs the selected tests in the current order; c is the number of this case. */
    method Run(c: int) returns (visits: seq<Visit>)
      requires Valid() && Flagged()
      ensures visits == CaseVisits(c, indices, RunFlags(infos))
    {
      visits := [];
      if !shouldRun {
        NoneSelectedNoVisits(c, indices, RunFlags(infos));
        return;
      }
      for i := 0 to |indices|
        invariant visits == CaseVisits(c, indices[..i], RunFlags(infos))
      {
        PermutationInRange(indices, i);
        var info := infos[indices[i]];
        assert indices[..i + 1][..i] == indices[..i];
        if info.shouldRun {
          visits := visits + [(c, indices[i])];
        }
      }
      assert indices[..|indices|] == indices;
    }
  }

  // ------------------------------------------------------------ views of the registry

  ghost function TestOrders(cases: seq<TestCase>): (r: seq<seq<int>>)
    reads cases`indices
    ensures |r| == |cases| && forall c | 0 <= c < |cases| :: r[c] == cases[c].indices
  {
    if cases == [] then [] else TestOrders(cases[..|cases| - 1]) + [cases[|cases| - 1].indices]
  }

  ghost function RunTable(cases: seq<TestCase>): (r: seq<seq<bool>>)
    reads cases`infos
    ensures |r| == |cases| && forall c | 0 <= c < |cases| :: r[c] == RunFlags(cases[c].infos)
  {
    if cases == [] then [] else RunTable(cases[..|cases| - 1]) + [RunFlags(cases[|cases| - 1].infos)]
  }

  ghost function Sizes(cases: seq<TestCase>): (r: seq<nat>)
    reads cases`testNames
    ensures |r| == |cases| && forall c | 0 <= c < |cases| :: r[c] == |cases[c].testNames|
  {
    if cases == [] then [] else Sizes(cases[..|cases| - 1]) + [|cases[|cases| - 1].testNames|]
  }

  ghost function AllVerdicts(flags: Flags, cases: seq<TestCase>): (r: seq<seq<bool>>)
    reads cases`testNames
    ensures |r| == |cases|
    ensures forall c | 0 <= c < |cases| :: r[c] == Verdicts(flags, cases[c].name, cases[c].testNames)
  {
    if cases == [] then []
    else
      var last := cases[|cases| - 1];
      AllVerdicts(flags, cases[..|cases| - 1]) + [Verdicts(flags, last.name, last.testNames)]
  }

  ghost predicate Distinct(cases: seq<TestCase>) {
    forall i, j | 0 <= i < j < |cases| :: cases[i] != cases[j] && cases[i].name != cases[j].name
  }

  ghost predicate AllValid(cases: seq<TestCase>)
    reads cases
  {
    forall c | 0 <= c < |cases| :: cases[c].Valid()
  }

  ghost predicate AllSized(cases: seq<TestCase>)
    reads cases
  {
    forall c | 0 <= c < |cases| :: cases[c].Sized()
  }

  /** Death test cases occupy exactly the positions up to `last`. */
  ghost predicate DeathCasesFirst(cases: seq<TestCase>, last: int) {
    -1 <= last < |cases| && forall c | 0 <= c < |cases| :: IsDeathTestName(cases[c].name) <==> c <= last
  }

  function Insert(cases: seq<TestCase>, testCase: TestCase, k: nat): seq<TestCase>
    requires k <= |cases|
  {
    cases[..k] + [testCase] + cases[k..]
  }

  ghost predicate InRegistrationOrder(cases: seq<TestCase>)
    reads cases`testNames, cases`indices
  {
    forall c | 0 <= c < |cases| :: cases[c].indices == Identity(|cases[c].testNames|)
  }

  /** Where a new test case goes among n, of which the first last + 1 are death test cases. */
  ghost function Position(name: string, last: int, n: nat): nat
    requires -1 <= last < n
  {
    if IsDeathTestName(name) then last + 1 else n
  }

  /** The death test cases, or the other test cases, in the order in which they were registered. */
  ghost function OfKind(cases: seq<TestCase>, death: bool): seq<TestCase> {
    if cases == [] then []
    else
      var last := cases[|cases| - 1];
      OfKind(cases[..|cases| - 1], death) + if IsDeathTestName(last.name) == death then [last] else []
  }

  /** The death test cases as they were registered, up to `last`, and then the others as they were registered. */
  ghost predicate Partitioned(cases: seq<TestCase>, last: int, registered: seq<TestCase>) {
    cases == OfKind(registered, true) + OfKind(registered, false) && last + 1 == |OfKind(registered, true)|
  }

  /** One more case goes to the end of its kind. */
  lemma {:induction false} PartitionGrows(cases: seq<TestCase>, last: int, registered: seq<TestCase>, testCase: TestCase)
    requires Partitioned(cases, last, registered) && -1 <= last < |cases|
    ensures Partitioned(Insert(cases, testCase, Position(testCase.name, last, |cases|)),
                        if IsDeathTestName(testCase.name) then last + 1 else last, registered + [testCase])
  {
    hide IsDeathTestName;
    assert (registered + [testCase])[..|registered|] == registered;
  }

  lemma {:induction false} InsertKeepsOrder(cases: seq<TestCase>, last: int, testCase: TestCase, k: nat)
    requires WellRegistered(cases, last)
    requires testCase.Valid() && testCase.testNames == [] && testCase !in cases
    requires forall c | 0 <= c < |cases| :: cases[c].name != testCase.name
    requires k == if IsDeathTestName(testCase.name) then last + 1 else |cases|
    ensures InRegistrationOrder(cases) ==> InRegistrationOrder(Insert(cases, testCase, k))
    ensures WellRegistered(Insert(cases, testCase, k), if IsDeathTestName(testCase.name) then last + 1 else last)
  {
    var after := Insert(cases, testCase, k);
    assert forall c | 0 <= c < |after| :: after[c] == if c < k then cases[c] else if c == k then testCase else cases[c - 1];
  }

  /** The position of the test case of that name, or the number of cases if there is none. */
  method FindTestCase(cases: seq<TestCase>, name: string) returns (i: nat)
    ensures i <= |cases| && (i < |cases| ==> cases[i].name == name)
    ensures i == |cases| ==> forall c | 0 <= c < |cases| :: cases[c].name != name
  {
    for k := 0 to |cases|
      invariant forall c | 0 <= c < k :: cases[c].name != name
    {
      if cases[k].name == name {
        return k;
      }
    }
    return |cases|;
  }

  ghost predicate WellRegistered(cases: seq<TestCase>, last: int)
    reads cases
  {
    Distinct(cases) && AllValid(cases) && DeathCasesFirst(cases, last)
  }

  /** Shuffles the death test cases, then the others. */
  method ShuffleCaseIndices(random: Random, last: int, indices: seq<int>) returns (w: seq<int>)
    requires -1 <= last < |indices| <= MAX_RANGE && IsPermutation(indices)
    modifies random
    ensures (random.state, w) == ShuffleCases(old(random.state), last, indices)
    ensures IsPermutation(w) && (Halves(w, last) <==> Halves(indices, last))
  {
    CasesStayValid(random.state, last, indices);
    w := ShuffleRange(random, 0, last + 1, indices);
    w := ShuffleRange(random, last + 1, |indices|, w);
  }

  /** Shuffles the tests inside each case, one case after the other. */
  method ShuffleEachCase(cases: seq<TestCase>, random: Random)
    requires Distinct(cases) && AllValid(cases)
    requires forall c | 0 <= c < |cases| :: |cases[c].testNames| <= MAX_RANGE
    modifies cases`indices, random
    ensures AllValid(cases)
    ensures TestOrders(cases) == ShuffleEach(old(random.state), old(TestOrders(cases)), |cases|).1
  {
    hide FisherYates, IsPermutation, TestOrders;
    ghost var orders := TestOrders(cases);
    for i := 0 to |cases|
      invariant AllValid(cases)
      invariant (random.state, TestOrders(cases)) == ShuffleEach(old(random.state), orders, i)
    {
      ghost var before := TestOrders(cases);
      cases[i].ShuffleTests(random);
      assert TestOrders(cases) == before[i := cases[i].indices];
    }
  }

  method UnshuffleEachCase(cases: seq<TestCase>)
    requires Distinct(cases) && AllValid(cases)
    modifies cases`indices
    ensures AllValid(cases) && InRegistrationOrder(cases)
  {
    for i := 0 to |cases|
      invariant AllValid(cases)
      invariant forall c | 0 <= c < i :: cases[c].indices == Identity(|cases[c].testNames|)
    {
      cases[i].UnshuffleTests();
    }
  }

  /** A case after filtering: its selected tests, and its own flag set iff it has one. */
  ghost predicate CaseFiltered(testCase: TestCase, verdicts: seq<bool>, keep: nat -> bool, before: nat)
    reads testCase
  {
    && |testCase.infos| == |verdicts|
    && Filtered(verdicts, keep, before, testCase.infos, |verdicts|)
    && testCase.Flagged()
  }

  /** befores[c] of the tests that can run come before case c. */
  ghost predicate RunningTotals(verdicts: seq<seq<bool>>, befores: seq<nat>) {
    && |befores| == |verdicts| + 1 && befores[0] == 0
    && forall c {:trigger verdicts[c]} | 0 <= c < |verdicts| ::
         befores[c + 1] == befores[c] + CountTrue(verdicts[c], |verdicts[c]|)
  }

  ghost function Befores(verdicts: seq<seq<bool>>): (befores: seq<nat>)
    ensures RunningTotals(verdicts, befores)
    ensures forall c | 0 <= c <= |verdicts| :: befores[c] == CountAll(verdicts, c)
  {
    seq(|verdicts| + 1, c requires 0 <= c <= |verdicts| => CountAll(verdicts, c))
  }

  ghost predicate CaseSelection(testCase: TestCase, shard: Shard, verdicts: seq<seq<bool>>, c: nat)
    requires shard.Valid() && c < |verdicts|
    reads testCase`infos, testCase`shouldRun
  {
    && |testCase.infos| == |verdicts[c]|
    && (forall t | 0 <= t < |testCase.infos| :: testCase.infos[t].shouldRun <==> SelectedOn(shard, verdicts, c, t))
    && testCase.Flagged()
  }

  lemma {:induction false} SelectionOfCase(testCase: TestCase, shard: Shard, verdicts: seq<seq<bool>>, c: nat)
    requires shard.Valid() && c < |verdicts|
    requires CaseFiltered(testCase, verdicts[c], Keeper(shard), CountAll(verdicts, c))
    ensures CaseSelection(testCase, shard, verdicts, c)
  {
    forall t | 0 <= t < |testCase.infos|
      ensures testCase.infos[t].shouldRun <==> SelectedOn(shard, verdicts, c, t)
    {
      assert Keeper(shard)(Rank(verdicts, c, t)) == OnShard(shard, Rank(verdicts, c, t));
    }
  }

  lemma {:induction false} RowOfSelection(testCase: TestCase, shard: Shard, verdicts: seq<seq<bool>>, c: nat)
    requires shard.Valid() && c < |verdicts| && CaseSelection(testCase, shard, verdicts, c)
    ensures RunFlags(testCase.infos) == Marks(shard, verdicts)[c]
  {
    hide SelectedOn;
    var row := Marks(shard, verdicts)[c];
    assert forall t | 0 <= t < |row| :: row[t] <==> SelectedOn(shard, verdicts, c, t);
  }

  /** The outer loop of FilterTests. */
  method FilterCases(cases: seq<TestCase>, flags: Flags, keep: nat -> bool,
                     ghost verdicts: seq<seq<bool>>, ghost befores: seq<nat>)
    returns (selected: nat)
    requires Distinct(cases) && AllSized(cases) && |verdicts| == |cases| && RunningTotals(verdicts, befores)
    requires forall c {:trigger cases[c]} | 0 <= c < |cases| :: verdicts[c] == Verdicts(flags, cases[c].name, cases[c].testNames)
    modifies cases`infos, cases`shouldRun
    ensures AllSized(cases)
    ensures forall c {:trigger cases[c]} | 0 <= c < |cases| :: CaseFiltered(cases[c], verdicts[c], keep, befores[c])
    ensures selected == KeptBelow(keep, befores[|cases|])
  {
    hide Verdicts, Runnable, Filtered, CountTrue;
    var runnable := 0;
    selected := 0;
    for i := 0 to |cases|
      invariant AllSized(cases)
      invariant forall c {:trigger cases[c]} | 0 <= c < i :: CaseFiltered(cases[c], verdicts[c], keep, befores[c])
      invariant runnable == befores[i]
      invariant selected == KeptBelow(keep, runnable)
    {
      var r, s := cases[i].FilterTests(flags, keep, runnable, verdicts[i]);
      assert CaseFiltered(cases[i], verdicts[i], keep, befores[i]);
      assert r == befores[i + 1] - befores[i];
      runnable, selected := runnable + r, selected + s;
    }
  }

  /** Runs the cases in the given order, each with its tests in their current order. */
  method RunCases(cases: seq<TestCase>, indices: seq<int>, ghost orders: seq<seq<int>>, ghost run: seq<seq<bool>>)
    returns (visits: seq<Visit>)
    requires AllValid(cases) && |indices| == |cases| == |orders| == |run| && IsPermutation(indices)
    requires forall c {:trigger cases[c]} | 0 <= c < |cases| ::
               orders[c] == cases[c].indices && run[c] == RunFlags(cases[c].infos) && cases[c].Flagged()
    ensures visits == Visits(indices, orders, run)
  {
    visits := [];
    for i := 0 to |indices|
      invariant visits == Visits(indices[..i], orders, run)
    {
      PermutationInRange(indices, i);
      var own := cases[indices[i]].Run(indices[i]);
      assert indices[..i + 1][..i] == indices[..i];
      visits := visits + own;
    }
    assert indices[..|indices|] == indices;
  }

  /** The seed in force during iteration i; 0 when tests are not shuffled. */
  function IterationSeed(shuffle: bool, seedFlag: int, timeInMillis: int, i: nat): nat {
    if shuffle then SeedAt(GetRandomSeedFromFlag(seedFlag, timeInMillis), i) else 0
  }

  lemma SeedOfIteration(shuffle: bool, seedFlag: int, timeInMillis: int, i: nat)
    ensures shuffle ==> IterationSeed(shuffle, seedFlag, timeInMillis, i) == SeedAt(GetRandomSeedFromFlag(seedFlag, timeInMillis), i)
  {
  }

  /** The visits of one iteration that starts from the registration order with the given seed. */
  ghost function IterationVisits(sizes: seq<nat>, last: int, run: seq<seq<bool>>, shuffle: bool, seed: nat): seq<Visit>
    requires |run| == |sizes| && -1 <= last < |sizes|
  {
    var o := RegistrationOrder(sizes);
    if shuffle then
      ShuffledTestsCount(seed, last, o);
      var o' := Shuffled(seed, last, o);
      Visits(o'.cases, o'.tests, run)
    else Visits(o.cases, o.tests, run)
  }

  lemma IterationInOrder(sizes: seq<nat>, last: int, run: seq<seq<bool>>, shuffle: bool, seed: nat, o: Order)
    requires |run| == |sizes| == |o.tests| && -1 <= last < |sizes|
    requires o == if shuffle then Shuffled(seed, last, RegistrationOrder(sizes)) else RegistrationOrder(sizes)
    ensures IterationVisits(sizes, last, run, shuffle, seed) == Visits(o.cases, o.tests, run)
  {
  }

  /** Without shuffling the visits come in registration order, and otherwise in the shuffled one. */
  lemma {:induction false} IterationFollows(sizes: seq<nat>, last: int, run: seq<seq<bool>>, shuffle: bool, seed: nat)
    requires |run| == |sizes| && -1 <= last < |sizes|
    ensures var visits := IterationVisits(sizes, last, run, shuffle, seed);
            && (shuffle ==> Follows(visits, Shuffled(seed, last, RegistrationOrder(sizes))))
            && (!shuffle ==> Increasing(visits))
  {
    hide Follows, Increasing, Visits;
    var o := RegistrationOrder(sizes);
    if shuffle {
      ShuffledTestsCount(seed, last, o);
      VisitsFollowOrder(Shuffled(seed, last, o), run);
    } else {
      VisitsFollowOrder(o, run);
      RegistrationIncreases(sizes, Visits(o.cases, o.tests, run));
    }
  }

  ghost predicate NothingRuns(run: seq<seq<bool>>) {
    forall c, t | 0 <= c < |run| && 0 <= t < |run[c]| :: !run[c][t]
  }

  lemma {:induction false} NoVisits(cases: seq<int>, tests: seq<seq<int>>, run: seq<seq<bool>>)
    requires |tests| == |run| && NothingRuns(run)
    ensures Visits(cases, tests, run) == []
    decreases |cases|
  {
    if cases != [] {
      NoVisits(cases[..|cases| - 1], tests, run);
      var c := cases[|cases| - 1];
      if 0 <= c < |tests| {
        NoneSelectedNoVisits(c, tests[c], run[c]);
      }
    }
  }

  lemma {:induction false} IdleIteration(sizes: seq<nat>, last: int, run: seq<seq<bool>>, shuffle: bool, seed: nat)
    requires |run| == |sizes| && -1 <= last < |sizes| && NothingRuns(run)
    ensures IterationVisits(sizes, last, run, shuffle, seed) == []
  {
    var o := RegistrationOrder(sizes);
    NoVisits(o.cases, o.tests, run);
    NoVisits(Shuffled(seed, last, o).cases, Shuffled(seed, last, o).tests, run);
  }

  lemma ShuffledTestsCount(seed: nat, last: int, o: Order)
    requires -1 <= last < |o.cases|
    ensures |Shuffled(seed, last, o).tests| == |o.tests|
  {
  }

  /** Each test marked is visited exactly once, and nothing else is. */
  ghost predicate Complete(visits: seq<Visit>, run: seq<seq<bool>>) {
    forall v :: Occurrences(visits, v) == if Selected(run, v) then 1 else 0
  }

  ghost predicate DeathVisit(cases: seq<TestCase>, v: Visit) {
    0 <= v.0 < |cases| && IsDeathTestName(cases[v.0].name)
  }

  /** No test of a death test case is visited after a test of another case. */
  ghost predicate DeathTestsLead(visits: seq<Visit>, cases: seq<TestCase>) {
    forall a, b | 0 <= a < b < |visits| && DeathVisit(cases, visits[b]) :: DeathVisit(cases, visits[a])
  }

  /** Of all the shards, i alone visits the test, and once. */
  ghost predicate VisitedOnlyOn(visits: seq<seq<Visit>>, v: Visit, i: int) {
    0 <= i < |visits| && forall j | 0 <= j < |visits| :: Occurrences(visits[j], v) == if j == i then 1 else 0
  }

  /** When every shard runs its share, each test that can run is visited on exactly one shard, once, and no other is. */
  lemma {:induction false} EachVisitedOnOneShard(runnable: seq<seq<bool>>, total: int, visits: seq<seq<Visit>>, v: Visit)
    requires total > 0 && |visits| == total
    requires forall i | 0 <= i < total :: Complete(visits[i], Marks(Shard(total, i), runnable))
    ensures Selected(runnable, v) ==> exists i :: VisitedOnlyOn(visits, v, i)
    ensures !Selected(runnable, v) ==> forall i | 0 <= i < total :: Occurrences(visits[i], v) == 0
  {
    hide Occurrences;
    if Selected(runnable, v) {
      ExactlyOneShard(runnable, total, v.0, v.1);
      var i :| MarkedOnlyOn(runnable, total, v.0, v.1, i);
      forall j | 0 <= j < total
        ensures Occurrences(visits[j], v) == if j == i then 1 else 0
      {
        assert Complete(visits[j], Marks(Shard(total, j), runnable));
        assert Selected(Marks(Shard(total, j), runnable), v) <==> j == i;
      }
      assert VisitedOnlyOn(visits, v, i);
    } else {
      forall i | 0 <= i < total
        ensures Occurrences(visits[i], v) == 0
      {
        var marks := Marks(Shard(total, i), runnable);
        assert Complete(visits[i], marks);
        assert !Selected(marks, v) by {
          if 0 <= v.0 < |runnable| && 0 <= v.1 < |runnable[v.0]| {
            assert marks[v.0][v.1] <==> SelectedOn(Shard(total, i), runnable, v.0, v.1);
          }
        }
      }
    }
  }

  /**
   Every iteration, whatever its seed, visits each selected test exactly once and nothing
   else, all tests of death test cases before any other.
   */
  lemma {:induction false} IterationIsComplete(sizes: seq<nat>, last: int, run: seq<seq<bool>>, shuffle: bool, seed: nat)
    requires |run| == |sizes| && -1 <= last < |sizes|
    requires forall c | 0 <= c < |sizes| :: |run[c]| == sizes[c]
    ensures var visits := IterationVisits(sizes, last, run, shuffle, seed);
            && Complete(visits, run)
            && (forall i, j | 0 <= i < j < |visits| :: visits[j].0 <= last ==> visits[i].0 <= last)
  {
    var o := RegistrationOrder(sizes);
    RegistrationIsValid(sizes, last);
    var o' := if shuffle then Shuffled(seed, last, o) else o;
    if shuffle {
      ShuffledIsValid(seed, last, o);
    }
    assert IterationVisits(sizes, last, run, shuffle, seed) == Visits(o'.cases, o'.tests, run);
    forall v
      ensures Occurrences(Visits(o'.cases, o'.tests, run), v) == if Selected(run, v) then 1 else 0
    {
      EachSelectedOnce(o', last, run, v);
    }
    forall i, j | 0 <= i < j < |Visits(o'.cases, o'.tests, run)|
      ensures Visits(o'.cases, o'.tests, run)[j].0 <= last ==> Visits(o'.cases, o'.tests, run)[i].0 <= last
    {
      DeathTestsFirst(o'.cases, last, o'.tests, run, i, j);
    }
  }

  class UnitTestImpl {
    var testCases: seq<TestCase>
    var testCaseIndices: seq<int>
    var lastDeathTestCase: int
    const random: Random
    ghost var registered: seq<TestCase>

    /** Holds after every run of registrations, shuffles and unshuffles, in any order. */
    ghost predicate Registered()
      reads this, testCases
    {
      && WellRegistered(testCases, lastDeathTestCase)
      && |testCaseIndices| == |testCases| && IsPermutation(testCaseIndices)
      && Partitioned(testCases, lastDeathTestCase, registered)
    }

    /** Death test cases also come first in the present order. */
    ghost predicate Valid()
      reads this, testCases
    {
      Registered() && Halves(testCaseIndices, lastDeathTestCase)
    }

    /** With one more death test case, these would come first in the present order. */
    ghost predicate DeathCaseWelcome()
      reads this, testCases
    {
      Registered() && Halves(testCaseIndices, lastDeathTestCase + 1)
    }

    /** While death test cases come first, that is so iff the first of the others stands where it was registered. */
    lemma {:induction false} WelcomeInPlace()
      requires Valid()
      ensures DeathCaseWelcome() <==> FirstAfterInPlace(testCaseIndices, lastDeathTestCase)
    {
      BoundaryMovesUp(testCaseIndices, lastDeathTestCase);
    }

    ghost function CurrentOrder(): Order
      reads this, testCases
    {
      Order(testCaseIndices, TestOrders(testCases))
    }

    /** Cases and tests stand in the order in which they were registered. */
    ghost predicate Unshuffled()
      reads `testCases, `testCaseIndices, testCases`testNames, testCases`indices
    {
      testCaseIndices == Identity(|testCases|) && InRegistrationOrder(testCases)
    }

    lemma UnshuffledOrder()
      requires Unshuffled()
      ensures CurrentOrder() == RegistrationOrder(Sizes(testCases))
    {
      assert TestOrders(testCases) == RegistrationTests(Sizes(testCases));
    }

    constructor ()
      ensures Valid() && Unshuffled() && testCases == registered == [] && fresh(random)
    {
      testCases, testCaseIndices, lastDeathTestCase, registered := [], [], -1, [];
      random := new Random(0);
    }

    /**
     Finds the test case of that name or registers one, a death test case after the last
     death test case so far and any other at the end.
     */
    method GetTestCase(name: string) returns (testCase: TestCase)
      requires Registered()
      modifies `testCases, `testCaseIndices, `lastDeathTestCase, `registered
      ensures Registered() && (old(Unshuffled()) ==> Unshuffled())
      ensures testCase in testCases && testCase.name == name
      ensures (exists c | 0 <= c < |old(testCases)| :: old(testCases)[c].name == name) ==>
                testCases == old(testCases) && testCaseIndices == old(testCaseIndices) && registered == old(registered)
      ensures (forall c | 0 <= c < |old(testCases)| :: old(testCases)[c].name != name) ==>
                && fresh(testCase) && testCase.testNames == [] && registered == old(registered) + [testCase]
                && testCases == Insert(old(testCases), testCase, Position(name, old(lastDeathTestCase), |old(testCases)|))
                && (Valid() <==> if IsDeathTestName(name) then old(DeathCaseWelcome()) else old(Valid()))
    {
      var i := FindTestCase(testCases, name);
      if i < |testCases| {
        return testCases[i];
      }
      testCase := new TestCase(name);
      Register(testCase);
    }

    /**
     A new death test case goes after the last one so far, any other test case to the end.
     Whether death test cases come first afterwards can be told from the order before.
     */
    method Register(testCase: TestCase)
      requires Registered()
      requires testCase.Valid() && testCase.testNames == [] && testCase !in testCases
      requires forall c | 0 <= c < |testCases| :: testCases[c].name != testCase.name
      modifies `testCases, `testCaseIndices, `lastDeathTestCase, `registered
      ensures Registered() && (old(Unshuffled()) ==> Unshuffled())
      ensures registered == old(registered) + [testCase]
      ensures testCases == Insert(old(testCases), testCase, Position(testCase.name, old(lastDeathTestCase), |old(testCases)|))
      ensures Valid() <==> if IsDeathTestName(testCase.name) then old(DeathCaseWelcome()) else old(Valid())
    {
      hide IsPermutation, Halves, IsDeathTestName, Partitioned;
      var isDeathTest := MatchesDeathTestFilter(testCase.name);
      var k := if isDeathTest then lastDeathTestCase + 1 else |testCases|;
      InsertKeepsOrder(testCases, lastDeathTestCase, testCase, k);
      hide WellRegistered, InRegistrationOrder;
      AppendedIndex(testCaseIndices, lastDeathTestCase);
      PartitionGrows(testCases, lastDeathTestCase, registered, testCase);
      registered := registered + [testCase];
      if isDeathTest {
        lastDeathTestCase := lastDeathTestCase + 1;
      }
      testCases := Insert(testCases, testCase, k);
      testCaseIndices := testCaseIndices + [|testCaseIndices|];
      assert old(Unshuffled()) ==> testCaseIndices == Identity(|testCases|);
    }

    /** Registers a test, creating its test case if need be. */
    method AddTestInfo(testCaseName: string, testName: string) returns (ghost testCase: TestCase)
      requires Registered()
      modifies `testCases, `testCaseIndices, `lastDeathTestCase, `registered
      modifies testCases`testNames, testCases`infos, testCases`indices
      ensures Registered() && (old(Unshuffled()) ==> Unshuffled())
      ensures testCase in testCases && testCase.name == testCaseName
      ensures testCase in old(testCases) ==>
                testCases == old(testCases) && testCase.testNames == old(testCase.testNames) + [testName]
      ensures testCase !in old(testCases) ==>
                && testCases == Insert(old(testCases), testCase, Position(testCaseName, old(lastDeathTestCase), |old(testCases)|))
                && testCase.testNames == [testName]
      ensures forall other | other in old(testCases) && other != testCase :: other.testNames == old(other.testNames)
    {
      hide IsPermutation, Halves, IsDeathTestName, Partitioned;
      var found := GetTestCase(testCaseName);
      found.AddTestInfo(testName);
      testCase := found;
    }

    /** Sizes are ints in the source. */
    ghost predicate Bounded()
      reads `testCases, testCases`testNames
    {
      |testCases| <= MAX_RANGE && forall c | 0 <= c < |testCases| :: |testCases[c].testNames| <= MAX_RANGE
    }

    /** Shuffles death test cases and other test cases apart, then the tests inside each case. */
    method ShuffleTests()
      requires Registered() && Bounded()
      modifies `testCaseIndices, testCases`indices, random
      ensures Registered() && (Valid() <==> old(Valid()))
      ensures CurrentOrder() == Shuffled(old(random.state), lastDeathTestCase, old(CurrentOrder()))
    {
      hide FisherYates, ShuffleCases, ShuffleEach, IsPermutation, Halves, TestOrders, IsDeathTestName, Partitioned;
      ghost var state, orders := random.state, TestOrders(testCases);
      var indices := ShuffleCaseIndices(random, lastDeathTestCase, testCaseIndices);
      assert TestOrders(testCases) == orders;
      ShuffleEachCase(testCases, random);
      testCaseIndices := indices;
    }

    /** Restores the order of registration, whatever the order was. */
    method UnshuffleTests()
      requires Registered()
      modifies `testCaseIndices, testCases`indices
      ensures Valid() && Unshuffled()
    {
      UnshuffleEachCase(testCases);
      for i := 0 to |testCases|
        invariant |testCaseIndices| == |testCases|
        invariant forall k | 0 <= k < i :: testCaseIndices[k] == k
        invariant WellRegistered(testCases, lastDeathTestCase) && InRegistrationOrder(testCases)
      {
        testCaseIndices := testCaseIndices[i := i];
      }
      IdentityIsPermutation(|testCases|);
      assert testCaseIndices == Identity(|testCases|);
    }

    /**
     Marks the tests to run: those that can run and whose rank among them falls on the
     shard.  Returns how many they are.
     */
    method FilterTests(flags: Flags, shard: Shard) returns (selected: nat)
      requires Registered() && shard.Valid()
      modifies testCases`infos, testCases`shouldRun
      ensures Registered()
      ensures Selection(shard, AllVerdicts(flags, testCases))
      ensures RunTable(testCases) == Marks(shard, AllVerdicts(flags, testCases))
      ensures selected == CountAll(RunTable(testCases), |testCases|)
      ensures selected == ShardSize(shard, CountAll(AllVerdicts(flags, testCases), |testCases|))
    {
      hide Verdicts, Runnable, CountAll, CountTrue, CaseFiltered, SelectedOn, AllVerdicts, Keeper, IsPermutation, Marks, RunTable, Partitioned;
      ghost var verdicts := AllVerdicts(flags, testCases);
      ghost var befores := Befores(verdicts);
      selected := FilterCases(testCases, flags, Keeper(shard), verdicts, befores);
      forall c {:trigger testCases[c]} | 0 <= c < |testCases|
        ensures CaseSelection(testCases[c], shard, verdicts, c)
      {
        SelectionOfCase(testCases[c], shard, verdicts, c);
      }
      MarksOfSelection(shard, verdicts);
      MarkedCount(shard, verdicts);
    }

    /** The tests marked are exactly those selected on the shard; cases are marked to match. */
    ghost predicate Selection(shard: Shard, verdicts: seq<seq<bool>>)
      requires shard.Valid()
      reads `testCases, testCases`infos, testCases`shouldRun
    {
      && |verdicts| == |testCases|
      && forall c {:trigger testCases[c]} | 0 <= c < |testCases| :: CaseSelection(testCases[c], shard, verdicts, c)
    }

    lemma {:induction false} MarksOfSelection(shard: Shard, verdicts: seq<seq<bool>>)
      requires shard.Valid() && Selection(shard, verdicts)
      ensures RunTable(testCases) == Marks(shard, verdicts)
    {
      hide SelectedOn, CaseSelection;
      var run, marks := RunTable(testCases), Marks(shard, verdicts);
      forall c | 0 <= c < |run|
        ensures run[c] == marks[c]
      {
        RowOfSelection(testCases[c], shard, verdicts, c);
      }
    }

    /** A count of zero means that no test is marked; cases are marked to match. */
    lemma {:induction false} SelectionMarks(shard: Shard, verdicts: seq<seq<bool>>, selected: nat)
      requires shard.Valid() && Selection(shard, verdicts)
      requires selected == CountAll(RunTable(testCases), |testCases|)
      ensures forall c {:trigger testCases[c]} | 0 <= c < |testCases| :: testCases[c].Flagged()
      ensures selected == 0 ==> NothingRuns(RunTable(testCases))
    {
      forall c {:trigger testCases[c]} | 0 <= c < |testCases|
        ensures testCases[c].Flagged()
      {
        assert CaseSelection(testCases[c], shard, verdicts, c);
      }
      if selected == 0 {
        var run := RunTable(testCases);
        forall c, t | 0 <= c < |run| && 0 <= t < |run[c]|
          ensures !run[c][t]
        {
          NothingCounted(run, c, t);
        }
      }
    }

    /** Whatever the seed, an iteration visits the marked tests once each, death test cases first. */
    lemma {:induction false} IterationOutcome(shuffle: bool, seed: nat)
      requires Valid()
      ensures var visits := IterationVisits(Sizes(testCases), lastDeathTestCase, RunTable(testCases), shuffle, seed);
              && Complete(visits, RunTable(testCases)) && DeathTestsLead(visits, testCases)
              && (shuffle ==> Follows(visits, Shuffled(seed, lastDeathTestCase, RegistrationOrder(Sizes(testCases)))))
              && (!shuffle ==> Increasing(visits))
    {
      hide IterationVisits, IsDeathTestName, IsPermutation, Halves, Follows, Increasing, Shuffled, RegistrationOrder;
      IterationFollows(Sizes(testCases), lastDeathTestCase, RunTable(testCases), shuffle, seed);
      var sizes, run := Sizes(testCases), RunTable(testCases);
      var visits := IterationVisits(sizes, lastDeathTestCase, run, shuffle, seed);
      IterationIsComplete(sizes, lastDeathTestCase, run, shuffle, seed);
      forall a, b | 0 <= a < b < |visits| && DeathVisit(testCases, visits[b])
        ensures DeathVisit(testCases, visits[a])
      {
        OccursSomewhere(visits, a);
        assert Selected(run, visits[a]);
      }
    }

    /** Shuffles if asked to, and visits the selected tests in the order that results. */
    method ShuffleAndRun(shuffle: bool, seed: nat) returns (visits: seq<Visit>)
      requires Valid() && Unshuffled() && Bounded()
      requires forall c {:trigger testCases[c]} | 0 <= c < |testCases| :: testCases[c].Flagged()
      modifies `testCaseIndices, testCases`indices, random
      ensures Valid()
      ensures visits == IterationVisits(Sizes(testCases), lastDeathTestCase, RunTable(testCases), shuffle, seed)
    {
      hide FisherYates, ShuffleCases, ShuffleEach, Shuffled, IsPermutation, Halves, Visits, RegistrationOrder, Identity;
      hide TestOrders, RunTable, Sizes, Distinct, Partitioned, IsDeathTestName, AllValid, IterationVisits;
      UnshuffledOrder();
      if shuffle {
        random.Reseed(seed);
        ShuffleTests();
      }
      IterationInOrder(Sizes(testCases), lastDeathTestCase, RunTable(testCases), shuffle, seed, CurrentOrder());
      visits := RunCases(testCases, testCaseIndices, TestOrders(testCases), RunTable(testCases));
    }

    /** One iteration of RunAllTests; the registration order is back afterwards. */
    method RunIteration(hasTestsToRun: bool, shuffle: bool, seed: nat) returns (visits: seq<Visit>)
      requires Valid() && Unshuffled() && Bounded()
      requires forall c {:trigger testCases[c]} | 0 <= c < |testCases| :: testCases[c].Flagged()
      requires !hasTestsToRun ==> NothingRuns(RunTable(testCases))
      modifies `testCaseIndices, testCases`indices, random
      ensures Valid() && Unshuffled()
      ensures visits == IterationVisits(Sizes(testCases), lastDeathTestCase, RunTable(testCases), shuffle, seed)
      ensures Complete(visits, RunTable(testCases)) && DeathTestsLead(visits, testCases)
      ensures shuffle ==> Follows(visits, Shuffled(seed, lastDeathTestCase, RegistrationOrder(Sizes(testCases))))
      ensures !shuffle ==> Increasing(visits)
    {
      hide IterationVisits, IsPermutation, Halves, Identity, TestOrders, RunTable, Sizes, Distinct, Partitioned, InRegistrationOrder;
      hide Complete, DeathTestsLead, Follows, Increasing, Shuffled, RegistrationOrder;
      IterationOutcome(shuffle, seed);
      visits := [];
      if hasTestsToRun {
        visits := ShuffleAndRun(shuffle, seed);
      } else {
        IdleIteration(Sizes(testCases), lastDeathTestCase, RunTable(testCases), shuffle, seed);
      }
      UnshuffleTests();
    }

    /**
     The repeat loop of RunAllTests, watched for its first `stop` iterations: a new seed for
     each iteration, all else the same.
     */
    method Repeat(hasTestsToRun: bool, shuffle: bool, seedFlag: int, timeInMillis: int, repeat: int, stop: nat)
      returns (log: seq<seq<Visit>>)
      requires Valid() && Unshuffled() && Bounded()
      requires forall c {:trigger testCases[c]} | 0 <= c < |testCases| :: testCases[c].Flagged()
      requires !hasTestsToRun ==> NothingRuns(RunTable(testCases))
      modifies `testCaseIndices, testCases`indices, random
      ensures Valid() && Unshuffled()
      ensures |log| == if 0 <= repeat <= stop then repeat else stop
      ensures forall i | 0 <= i < |log| ::
                log[i] == IterationVisits(Sizes(testCases), lastDeathTestCase, RunTable(testCases), shuffle,
                                          IterationSeed(shuffle, seedFlag, timeInMillis, i))
    {
      hide IterationVisits, IsPermutation, Halves, Identity, TestOrders, RunTable, Sizes, Distinct, Partitioned, AllValid, InRegistrationOrder;
      var randomSeed := if shuffle then GetRandomSeedFromFlag(seedFlag, timeInMillis) else 0;
      log := [];
      ghost var sizes, run := Sizes(testCases), RunTable(testCases);
      var forever, i := repeat < 0, 0;
      while (forever || i != repeat) && i != stop
        invariant Valid() && Unshuffled()
        invariant i <= stop && (forever || i <= repeat)
        invariant |log| == i && randomSeed == IterationSeed(shuffle, seedFlag, timeInMillis, i)
        invariant forall k | 0 <= k < i ::
                    log[k] == IterationVisits(sizes, lastDeathTestCase, run, shuffle,
                                              IterationSeed(shuffle, seedFlag, timeInMillis, k))
        decreases stop - i
      {
        var visits := RunIteration(hasTestsToRun, shuffle, randomSeed);
        log := log + [visits];
        if shuffle {
          randomSeed := GetNextRandomSeed(randomSeed);
        }
        i := i + 1;
      }
    }

    /**
     Filters once, then repeats; the run is watched for its first `stop` iterations.  In each
     one every test that can run and falls on the shard is visited exactly once, nothing else
     is, and death test cases come first: by number of case and of test without shuffling, and
     otherwise in the order shuffled with the seed of the iteration.  An iteration depends on
     nothing but the registration, the selection and its own seed; the registration order is
     back after it.
     */
    method RunAllTests(flags: Flags, shard: Shard, shuffle: bool, seedFlag: int, timeInMillis: int, repeat: int, stop: nat)
      returns (log: seq<seq<Visit>>)
      requires Valid() && Unshuffled() && Bounded() && shard.Valid()
      modifies `testCaseIndices, testCases`infos, testCases`shouldRun, testCases`indices, random
      ensures Valid() && Unshuffled()
      ensures Selection(shard, AllVerdicts(flags, testCases))
      ensures |log| == if 0 <= repeat <= stop then repeat else stop
      ensures forall i | 0 <= i < |log| ::
                log[i] == IterationVisits(Sizes(testCases), lastDeathTestCase, RunTable(testCases), shuffle,
                                          IterationSeed(shuffle, seedFlag, timeInMillis, i))
      ensures forall i | 0 <= i < |log| ::
                Complete(log[i], Marks(shard, AllVerdicts(flags, testCases))) && DeathTestsLead(log[i], testCases)
      ensures shuffle ==>
                forall i | 0 <= i < |log| ::
                  Follows(log[i], Shuffled(SeedAt(GetRandomSeedFromFlag(seedFlag, timeInMillis), i), lastDeathTestCase,
                                           RegistrationOrder(Sizes(testCases))))
      ensures !shuffle ==> forall i | 0 <= i < |log| :: Increasing(log[i])
    {
      hide IterationVisits, IsPermutation, Halves, Identity, TestOrders, RunTable, Sizes, Distinct, Partitioned, AllValid, InRegistrationOrder;
      hide AllVerdicts, CaseSelection, CountAll, ShardSize, IterationSeed, Marks, Complete, DeathTestsLead;
      hide Follows, Increasing, Shuffled, RegistrationOrder, SeedAt, GetRandomSeedFromFlag;
      var selected := FilterTests(flags, shard);
      SelectionMarks(shard, AllVerdicts(flags, testCases), selected);
      log := Repeat(selected > 0, shuffle, seedFlag, timeInMillis, repeat, stop);
      forall i | 0 <= i < |log|
        ensures Complete(log[i], RunTable(testCases)) && DeathTestsLead(log[i], testCases)
        ensures shuffle ==>
                  Follows(log[i], Shuffled(SeedAt(GetRandomSeedFromFlag(seedFlag, timeInMillis), i), lastDeathTestCase,
                                           RegistrationOrder(Sizes(testCases))))
        ensures !shuffle ==> Increasing(log[i])
      {
        SeedOfIteration(shuffle, seedFlag, timeInMillis, i);
        IterationOutcome(shuffle, IterationSeed(shuffle, seedFlag, timeInMillis, i));
      }
    }
  }
}
