/**
 The order in which tests are visited: the linear congruential generator, the
 Fisher-Yates shuffle it drives, and the visits an order of cases and tests gives rise to.
 */
module Shuffling {
  import opened Common

  // ------------------------------------------------------------ random numbers

  const MAX_RANGE: nat := 0x8000_0000
  const MAX_RANDOM_SEED: nat := 99999

  /** 1103515245 * state + 12345 in 32-bit arithmetic, reduced to 31 bits. */
  function NextState(state: nat): (s: nat)
    ensures s < MAX_RANGE
  {
    (1103515245 * state + 12345) % 0x1_0000_0000 % MAX_RANGE
  }

  /** The wrap-around of 32-bit arithmetic does not show. */
  lemma {:induction false} NextStateIs(state: nat)
    ensures NextState(state) == (1103515245 * state + 12345) % MAX_RANGE
  {
    LowBits(1103515245 * state + 12345);
  }

  lemma {:induction false} LowBits(x: nat)
    ensures x % 0x1_0000_0000 % MAX_RANGE == x % MAX_RANGE
  {
    var q, r := x / 0x1_0000_0000, x % 0x1_0000_0000;
    var k := if r < MAX_RANGE then 0 else 1;
    RemainderIs(r, MAX_RANGE, k, r - MAX_RANGE * k);
    RemainderIs(x, MAX_RANGE, 2 * q + k, r - MAX_RANGE * k);
  }

  class Random {
    var state: nat

    constructor (seed: nat)
      ensures state == seed
    {
      state := seed;
    }

    method Reseed(seed: nat)
      modifies this
      ensures state == seed
    {
      state := seed;
    }

    /** A number below range, from the next state; range must be positive and at most kMaxRange. */
    method Generate(range: nat) returns (n: nat)
      requires 0 < range <= MAX_RANGE
      modifies this
      ensures n < range && state == NextState(old(state)) && n == state % range
    {
      state := NextState(state);
      n := state % range;
    }
  }

  /** A seed in [1, kMaxRandomSeed], from the flag or, when that is 0, from the clock. */
  function GetRandomSeedFromFlag(flag: int, timeInMillis: int): (seed: int)
    ensures 1 <= seed <= MAX_RANDOM_SEED
    ensures 1 <= flag <= MAX_RANDOM_SEED ==> seed == flag
    ensures 1 <= flag < 0x1_0000_0000 ==> (flag - seed) % MAX_RANDOM_SEED == 0
    ensures flag == 0 && 1 <= timeInMillis < 0x1_0000_0000 ==> (timeInMillis - seed) % MAX_RANDOM_SEED == 0
  {
    var rawSeed := (if flag == 0 then timeInMillis else flag) % 0x1_0000_0000;
    (rawSeed - 1) % 0x1_0000_0000 % MAX_RANDOM_SEED + 1
  }

  function GetNextRandomSeed(seed: int): (next: int)
    requires 1 <= seed <= MAX_RANDOM_SEED
    ensures 1 <= next <= MAX_RANDOM_SEED
    ensures seed < MAX_RANDOM_SEED ==> next == seed + 1
    ensures seed == MAX_RANDOM_SEED ==> next == 1
  {
    if seed + 1 > MAX_RANDOM_SEED then 1 else seed + 1
  }

  /** The seed of iteration i of a run that starts with the given seed. */
  function SeedAt(seed: int, i: nat): (s: int)
    requires 1 <= seed <= MAX_RANDOM_SEED
    ensures 1 <= s <= MAX_RANDOM_SEED
    ensures s == (seed - 1 + i) % MAX_RANDOM_SEED + 1
  {
    if i == 0 then seed else GetNextRandomSeed(SeedAt(seed, i - 1))
  }

  // ------------------------------------------------------------ Fisher-Yates

  function Identity(n: nat): (v: seq<int>)
    ensures |v| == n && forall i | 0 <= i < n :: v[i] == i
  {
    seq(n, i => i)
  }

  function Occurrences<T(==)>(s: seq<T>, x: T): nat {
    if s == [] then 0 else Occurrences(s[..|s| - 1], x) + if s[|s| - 1] == x then 1 else 0
  }

  /** Every index of the vector occurs in it once, and nothing else does. */
  ghost predicate IsPermutation(v: seq<int>) {
    forall t :: Occurrences(v, t) == if 0 <= t < |v| then 1 else 0
  }

  lemma {:induction false} OccurrencesAppend<T>(a: seq<T>, b: seq<T>, x: T)
    ensures Occurrences(a + b, x) == Occurrences(a, x) + Occurrences(b, x)
    decreases |b|
  {
    if b == [] {
      assert a + b == a;
    } else {
      assert (a + b)[..|a + b| - 1] == a + b[..|b| - 1];
      OccurrencesAppend(a, b[..|b| - 1], x);
    }
  }

  lemma {:induction false} OccurrencesInMultiset<T>(s: seq<T>, x: T)
    ensures Occurrences(s, x) == multiset(s)[x]
    decreases |s|
  {
    if s != [] {
      OccurrencesInMultiset(s[..|s| - 1], x);
      assert s == s[..|s| - 1] + [s[|s| - 1]];
    }
  }

  lemma {:induction false} OccursSomewhere<T>(s: seq<T>, i: nat)
    requires i < |s|
    ensures Occurrences(s, s[i]) >= 1
    decreases |s|
  {
    if i < |s| - 1 {
      OccursSomewhere(s[..|s| - 1], i);
    }
  }

  function Swap(v: seq<int>, i: int, j: int): (w: seq<int>)
    requires 0 <= i < |v| && 0 <= j < |v|
    ensures |w| == |v|
  {
    v[i := v[j]][j := v[i]]
  }

  /** The generator state and the vector after shuffling [begin, begin + width). */
  function FisherYates(state: nat, begin: nat, width: nat, v: seq<int>): (r: (nat, seq<int>))
    requires begin + width <= |v|
    ensures |r.1| == |v|
    decreases width
  {
    if width < 2 then (state, v)
    else
      var next := NextState(state);
      FisherYates(next, begin, width - 1, Swap(v, begin + next % width, begin + width - 1))
  }

  method ShuffleRange(random: Random, begin: int, end: int, v: seq<int>) returns (w: seq<int>)
    requires 0 <= begin <= end <= |v| && |v| <= MAX_RANGE
    modifies random
    ensures (random.state, w) == FisherYates(old(random.state), begin, end - begin, v)
  {
    hide NextState;
    w := v;
    var rangeWidth := end - begin;
    while rangeWidth >= 2
      invariant 0 <= rangeWidth <= end - begin && |w| == |v|
      invariant FisherYates(random.state, begin, rangeWidth, w) == FisherYates(old(random.state), begin, end - begin, v)
    {
      var lastInRange := begin + rangeWidth - 1;
      var offset := random.Generate(rangeWidth);
      w := Swap(w, begin + offset, lastInRange);
      rangeWidth := rangeWidth - 1;
    }
  }

  /** Every position holds an index from its own side of the boundary. */
  ghost predicate Halves(v: seq<int>, last: int) {
    forall i | 0 <= i < |v| :: v[i] <= last <==> i <= last
  }

  lemma {:induction false} SwapPermutes(v: seq<int>, i: int, j: int, x: int)
    requires 0 <= i < |v| && 0 <= j < |v|
    ensures Occurrences(Swap(v, i, j), x) == Occurrences(v, x)
  {
    assert multiset(Swap(v, i, j)) == multiset(v);
    OccurrencesInMultiset(v, x);
    OccurrencesInMultiset(Swap(v, i, j), x);
  }

  lemma SwapKeepsHalves(v: seq<int>, i: int, j: int, last: int)
    requires 0 <= i < |v| && 0 <= j < |v| && (i <= last <==> j <= last)
    ensures Halves(Swap(v, i, j), last) <==> Halves(v, last)
  {
    var w := Swap(v, i, j);
    if Halves(w, last) {
      forall k | 0 <= k < |v|
        ensures v[k] <= last <==> k <= last
      {
        assert v[k] == if k == i then w[j] else if k == j then w[i] else w[k];
      }
    }
  }

  lemma {:induction false} FisherYatesLeavesRest(state: nat, begin: nat, width: nat, v: seq<int>, i: nat)
    requires begin + width <= |v| && i < |v| && (i < begin || begin + width <= i)
    ensures FisherYates(state, begin, width, v).1[i] == v[i]
    decreases width
  {
    if width >= 2 {
      var next := NextState(state);
      FisherYatesLeavesRest(next, begin, width - 1, Swap(v, begin + next % width, begin + width - 1), i);
    }
  }

  /** The shuffle permutes the vector. */
  lemma {:induction false} FisherYatesPermutes(state: nat, begin: nat, width: nat, v: seq<int>, x: int)
    requires begin + width <= |v|
    ensures Occurrences(FisherYates(state, begin, width, v).1, x) == Occurrences(v, x)
    decreases width
  {
    if width >= 2 {
      var next := NextState(state);
      var k := next % width;
      SwapPermutes(v, begin + k, begin + width - 1, x);
      FisherYatesPermutes(next, begin, width - 1, Swap(v, begin + k, begin + width - 1), x);
    }
  }

  lemma {:induction false} FisherYatesIsPermutation(state: nat, begin: nat, width: nat, v: seq<int>)
    requires begin + width <= |v| && IsPermutation(v)
    ensures IsPermutation(FisherYates(state, begin, width, v).1)
  {
    forall x
      ensures Occurrences(FisherYates(state, begin, width, v).1, x) == if 0 <= x < |v| then 1 else 0
    {
      FisherYatesPermutes(state, begin, width, v, x);
    }
  }

  /** Within one side of the boundary, the shuffle never carries an index over it. */
  lemma {:induction false} FisherYatesKeepsHalves(state: nat, begin: nat, width: nat, v: seq<int>, last: int)
    requires begin + width <= |v|
    requires begin + width <= last + 1 || last < begin
    ensures Halves(FisherYates(state, begin, width, v).1, last) <==> Halves(v, last)
    decreases width
  {
    if width >= 2 {
      var next := NextState(state);
      var k := next % width;
      SwapKeepsHalves(v, begin + k, begin + width - 1, last);
      FisherYatesKeepsHalves(next, begin, width - 1, Swap(v, begin + k, begin + width - 1), last);
    }
  }

  lemma {:induction false} IdentityIsPermutation(n: nat)
    ensures IsPermutation(Identity(n))
  {
    if n > 0 {
      IdentityIsPermutation(n - 1);
      assert Identity(n)[..n - 1] == Identity(n - 1);
    }
  }

  lemma {:induction false} PermutationInRange(v: seq<int>, i: nat)
    requires IsPermutation(v) && i < |v|
    ensures 0 <= v[i] < |v|
  {
    OccursSomewhere(v, i);
  }

  lemma {:induction false} PermutationDistinct(v: seq<int>, i: nat, j: nat)
    requires IsPermutation(v) && i < j < |v|
    ensures v[i] != v[j]
  {
    var x := v[i];
    assert Occurrences(v, x) <= 1;
    if v[j] == x {
      assert v == v[..j] + v[j..];
      OccurrencesAppend(v[..j], v[j..], x);
      OccursSomewhere(v[..j], i);
      OccursSomewhere(v[j..], 0);
    }
  }

  /** The index that follows the boundary still stands right after it. */
  predicate FirstAfterInPlace(v: seq<int>, last: int)
    requires -1 <= last < |v|
  {
    last + 1 == |v| || v[last + 1] == last + 1
  }

  /** A boundary with its sides apart can move up iff the first index after it is in place. */
  lemma {:induction false} BoundaryMovesUp(v: seq<int>, last: int)
    requires IsPermutation(v) && -1 <= last < |v| && Halves(v, last)
    ensures Halves(v, last + 1) <==> FirstAfterInPlace(v, last)
  {
    if last + 1 == |v| {
      forall i | 0 <= i < |v|
        ensures v[i] <= last + 1
      {
        PermutationInRange(v, i);
      }
    } else if v[last + 1] == last + 1 {
      forall i | last + 1 < i < |v|
        ensures v[i] > last + 1
      {
        PermutationDistinct(v, last + 1, i);
      }
    }
  }

  /**
   Registration appends the next index, and moves the boundary up for a death test case. Either
   way the sides are apart afterwards if and only if they were apart for that boundary before.
   */
  lemma {:induction false} AppendedIndex(v: seq<int>, last: int)
    requires IsPermutation(v) && -1 <= last < |v|
    ensures IsPermutation(v + [|v|])
    ensures Halves(v + [|v|], last) <==> Halves(v, last)
    ensures Halves(v + [|v|], last + 1) <==> Halves(v, last + 1)
  {
    var w := v + [|v|];
    assert w[..|v|] == v;
    forall x
      ensures Occurrences(w, x) == if 0 <= x < |w| then 1 else 0
    {
      OccurrencesAppend(v, [|v|], x);
      assert Occurrences([|v|], x) == Occurrences([], x) + if x == |v| then 1 else 0;
    }
    AppendedHalves(v, last);
    AppendedHalves(v, last + 1);
  }

  lemma {:induction false} AppendedHalves(v: seq<int>, last: int)
    ensures Halves(v + [|v|], last) <==> Halves(v, last)
  {
    var w := v + [|v|];
    assert w[|v|] == |v| && forall i | 0 <= i < |v| :: w[i] == v[i];
  }

  // ------------------------------------------------------------ orders of cases and tests

  /** The order of the test cases, and for each case the order of its tests. */
  datatype Order = Order(cases: seq<int>, tests: seq<seq<int>>)

  ghost predicate IsOrder(o: Order, last: int) {
    && IsPermutation(o.cases) && |o.cases| == |o.tests| && -1 <= last < |o.cases|
    && forall c | 0 <= c < |o.tests| :: IsPermutation(o.tests[c])
  }

  /** An order that has the death test cases, which are the first last + 1, in front. */
  ghost predicate ValidOrder(o: Order, last: int) {
    IsOrder(o, last) && Halves(o.cases, last)
  }

  function RegistrationTests(sizes: seq<nat>): (tests: seq<seq<int>>)
    ensures |tests| == |sizes| && forall c | 0 <= c < |sizes| :: tests[c] == Identity(sizes[c])
  {
    if sizes == [] then [] else RegistrationTests(sizes[..|sizes| - 1]) + [Identity(sizes[|sizes| - 1])]
  }

  /** The order in which cases and tests were registered, death test cases moved to the front. */
  function RegistrationOrder(sizes: seq<nat>): (o: Order)
    ensures |o.cases| == |o.tests| == |sizes|
  {
    Order(Identity(|sizes|), RegistrationTests(sizes))
  }

  /** The tests of the first n cases shuffled one case after the other. */
  function ShuffleEach(state: nat, tests: seq<seq<int>>, n: nat): (r: (nat, seq<seq<int>>))
    requires n <= |tests|
    ensures |r.1| == |tests|
  {
    if n == 0 then (state, tests)
    else
      var before := ShuffleEach(state, tests, n - 1);
      var test := FisherYates(before.0, 0, |before.1[n - 1]|, before.1[n - 1]);
      (test.0, before.1[n - 1 := test.1])
  }

  /** The death test cases shuffled among themselves, then the others among themselves. */
  function ShuffleCases(state: nat, last: int, cases: seq<int>): (r: (nat, seq<int>))
    requires -1 <= last < |cases|
    ensures |r.1| == |cases|
  {
    var deathFirst := FisherYates(state, 0, last + 1, cases);
    FisherYates(deathFirst.0, last + 1, |cases| - (last + 1), deathFirst.1)
  }

  lemma {:induction false} ShuffleOfTwo()
    ensures ShuffleCases(1, -1, [0, 1]).1 == [1, 0]
  {
    assert NextState(1) % 2 == 0;
    assert FisherYates(1, 0, 0, [0, 1]) == (1, [0, 1]);
    assert Swap([0, 1], 0, 1) == [1, 0];
    assert FisherYates(1, 0, 2, [0, 1]).1 == [1, 0];
  }

  /** Two test cases that seed 1 shuffles into the opposite order: a death test case registered now does not get in front. */
  lemma {:induction false} LateDeathTestNotFirst()
    ensures ShuffleCases(1, -1, [0, 1]).1 == [1, 0]
    ensures IsPermutation([1, 0]) && Halves([1, 0], -1) && !Halves([1, 0] + [2], 0)
  {
    ShuffleOfTwo();
    assert ([1, 0] + [2])[0] == 1;
    forall x
      ensures Occurrences([1, 0], x) == if 0 <= x < 2 then 1 else 0
    {
      OccurrencesAppend([1], [0], x);
      assert [1] + [0] == [1, 0] && [1][..0] == [] && [0][..0] == [];
    }
  }

  /** What ShuffleTests makes of an order and a generator state. */
  function Shuffled(state: nat, last: int, o: Order): Order
    requires -1 <= last < |o.cases|
  {
    var cases := ShuffleCases(state, last, o.cases);
    Order(cases.1, ShuffleEach(cases.0, o.tests, |o.tests|).1)
  }

  lemma {:induction false} ShuffleEachKeeps(state: nat, tests: seq<seq<int>>, n: nat)
    requires n <= |tests|
    requires forall c | 0 <= c < |tests| :: IsPermutation(tests[c])
    ensures forall c | 0 <= c < |tests| ::
              |ShuffleEach(state, tests, n).1[c]| == |tests[c]| && IsPermutation(ShuffleEach(state, tests, n).1[c])
  {
    if n > 0 {
      ShuffleEachKeeps(state, tests, n - 1);
      var before := ShuffleEach(state, tests, n - 1);
      FisherYatesIsPermutation(before.0, 0, |before.1[n - 1]|, before.1[n - 1]);
    }
  }

  lemma {:induction false} RangeStaysValid(state: nat, begin: nat, width: nat, cases: seq<int>, last: int)
    requires begin + width <= |cases| && (begin + width <= last + 1 || last < begin)
    requires IsPermutation(cases)
    ensures IsPermutation(FisherYates(state, begin, width, cases).1)
    ensures Halves(FisherYates(state, begin, width, cases).1, last) <==> Halves(cases, last)
  {
    FisherYatesIsPermutation(state, begin, width, cases);
    FisherYatesKeepsHalves(state, begin, width, cases, last);
  }

  lemma {:induction false} CasesStayValid(state: nat, last: int, cases: seq<int>)
    requires -1 <= last < |cases| && IsPermutation(cases)
    ensures IsPermutation(ShuffleCases(state, last, cases).1)
    ensures Halves(ShuffleCases(state, last, cases).1, last) <==> Halves(cases, last)
  {
    RangeStaysValid(state, 0, last + 1, cases, last);
    var deathFirst := FisherYates(state, 0, last + 1, cases);
    RangeStaysValid(deathFirst.0, last + 1, |cases| - (last + 1), deathFirst.1, last);
  }

  /** Whatever the seed, a shuffled order is again an order, with the death test cases in front iff they were. */
  lemma {:induction false} ShuffledIsValid(state: nat, last: int, o: Order)
    requires IsOrder(o, last)
    ensures IsOrder(Shuffled(state, last, o), last)
    ensures ValidOrder(Shuffled(state, last, o), last) <==> ValidOrder(o, last)
    ensures |Shuffled(state, last, o).cases| == |o.cases|
    ensures forall c | 0 <= c < |o.tests| :: |Shuffled(state, last, o).tests[c]| == |o.tests[c]|
  {
    CasesStayValid(state, last, o.cases);
    ShuffleEachKeeps(ShuffleCases(state, last, o.cases).0, o.tests, |o.tests|);
  }

  lemma {:induction false} RegistrationIsValid(sizes: seq<nat>, last: int)
    requires -1 <= last < |sizes|
    ensures ValidOrder(RegistrationOrder(sizes), last)
  {
    IdentityIsPermutation(|sizes|);
    forall c | 0 <= c < |sizes|
      ensures IsPermutation(RegistrationTests(sizes)[c])
    {
      IdentityIsPermutation(sizes[c]);
    }
  }

  // ------------------------------------------------------------ visits

  type Visit = (int, int)

  /** The visits of one case: its tests in order, those not selected left out. */
  function CaseVisits(c: int, order: seq<int>, run: seq<bool>): seq<Visit> {
    if order == [] then []
    else
      var t := order[|order| - 1];
      CaseVisits(c, order[..|order| - 1], run) + if 0 <= t < |run| && run[t] then [(c, t)] else []
  }

  /** The visits of the cases listed, tests of each case in its own order. */
  function Visits(cases: seq<int>, tests: seq<seq<int>>, run: seq<seq<bool>>): seq<Visit>
    requires |tests| == |run|
  {
    if cases == [] then []
    else
      var c := cases[|cases| - 1];
      Visits(cases[..|cases| - 1], tests, run) +
      if 0 <= c < |tests| then CaseVisits(c, tests[c], run[c]) else []
  }

  ghost predicate Selected(run: seq<seq<bool>>, v: Visit) {
    0 <= v.0 < |run| && 0 <= v.1 < |run[v.0]| && run[v.0][v.1]
  }

  lemma {:induction false} CaseVisitCount(c: int, order: seq<int>, run: seq<bool>, v: Visit)
    ensures Occurrences(CaseVisits(c, order, run), v) ==
            if v.0 == c && 0 <= v.1 < |run| && run[v.1] then Occurrences(order, v.1) else 0
    decreases |order|
  {
    if order != [] {
      var init, t := order[..|order| - 1], order[|order| - 1];
      CaseVisitCount(c, init, run, v);
      if 0 <= t < |run| && run[t] {
        OccurrencesAppend(CaseVisits(c, init, run), [(c, t)], v);
      } else {
        assert CaseVisits(c, order, run) == CaseVisits(c, init, run);
      }
    }
  }

  lemma {:induction false} VisitCount(cases: seq<int>, tests: seq<seq<int>>, run: seq<seq<bool>>, v: Visit)
    requires |tests| == |run|
    requires forall c | 0 <= c < |tests| :: IsPermutation(tests[c]) && |tests[c]| == |run[c]|
    ensures Occurrences(Visits(cases, tests, run), v) == if Selected(run, v) then Occurrences(cases, v.0) else 0
    decreases |cases|
  {
    if cases != [] {
      var init, c := cases[..|cases| - 1], cases[|cases| - 1];
      VisitCount(init, tests, run, v);
      if 0 <= c < |tests| {
        CaseVisitCount(c, tests[c], run[c], v);
        assert IsPermutation(tests[c]);
        OccurrencesAppend(Visits(init, tests, run), CaseVisits(c, tests[c], run[c]), v);
      } else {
        assert Visits(cases, tests, run) == Visits(init, tests, run);
      }
    }
  }

  /** In any order every selected test is visited exactly once, and nothing else is. */
  lemma {:induction false} EachSelectedOnce(o: Order, last: int, run: seq<seq<bool>>, v: Visit)
    requires IsOrder(o, last) && |run| == |o.tests|
    requires forall c | 0 <= c < |run| :: |run[c]| == |o.tests[c]|
    ensures Occurrences(Visits(o.cases, o.tests, run), v) == if Selected(run, v) then 1 else 0
  {
    VisitCount(o.cases, o.tests, run, v);
  }

  lemma {:induction false} VisitsComeFrom(cases: seq<int>, tests: seq<seq<int>>, run: seq<seq<bool>>, i: int)
    requires |tests| == |run| && 0 <= i < |Visits(cases, tests, run)|
    ensures Visits(cases, tests, run)[i].0 in cases
  {
    var init, c := cases[..|cases| - 1], cases[|cases| - 1];
    var before := Visits(init, tests, run);
    if i < |before| {
      VisitsComeFrom(init, tests, run, i);
    } else {
      var k := i - |before|;
      CaseVisitsOwn(c, tests[c], run[c], k);
    }
  }

  lemma {:induction false} CaseVisitsOwn(c: int, order: seq<int>, run: seq<bool>, i: int)
    requires 0 <= i < |CaseVisits(c, order, run)|
    ensures CaseVisits(c, order, run)[i].0 == c
  {
    var init := order[..|order| - 1];
    if i < |CaseVisits(c, init, run)| {
      CaseVisitsOwn(c, init, run, i);
    }
  }

  /** A test of a death test case is never visited after a test of another case. */
  lemma {:induction false} DeathTestsFirst(cases: seq<int>, last: int, tests: seq<seq<int>>, run: seq<seq<bool>>, i: int, j: int)
    requires Halves(cases, last) && |tests| == |run|
    requires 0 <= i < j < |Visits(cases, tests, run)|
    ensures Visits(cases, tests, run)[j].0 <= last ==> Visits(cases, tests, run)[i].0 <= last
  {
    var init, c := cases[..|cases| - 1], cases[|cases| - 1];
    var before := Visits(init, tests, run);
    if j < |before| {
      DeathTestsFirst(init, last, tests, run, i, j);
    } else {
      CaseVisitsOwn(c, tests[c], run[c], j - |before|);
      VisitsComeFrom(cases, tests, run, i);
      var k :| 0 <= k < |cases| && cases[k] == Visits(cases, tests, run)[i].0;
    }
  }

  // ------------------------------------------------------------ the order of the visits

  /** x stands before y. */
  ghost predicate StandsBefore(s: seq<int>, x: int, y: int) {
    exists p, q | 0 <= p < q < |s| :: s[p] == x && s[q] == y
  }

  /** The case of u comes before the case of v, or it is the same case and the test of u comes before that of v. */
  ghost predicate Precedes(o: Order, u: Visit, v: Visit) {
    || StandsBefore(o.cases, u.0, v.0)
    || (u.0 == v.0 && 0 <= u.0 < |o.tests| && StandsBefore(o.tests[u.0], u.1, v.1))
  }

  /** The visits come in the given order of cases and tests. */
  ghost predicate Follows(visits: seq<Visit>, o: Order) {
    forall a, b | 0 <= a < b < |visits| :: Precedes(o, visits[a], visits[b])
  }

  /** The visits come by number of case, and inside a case by number of test. */
  ghost predicate Increasing(visits: seq<Visit>) {
    forall a, b | 0 <= a < b < |visits| ::
      visits[a].0 < visits[b].0 || (visits[a].0 == visits[b].0 && visits[a].1 < visits[b].1)
  }

  lemma {:induction false} StandsBeforeIn(s: seq<int>, n: nat, x: int, y: int)
    requires n <= |s| && StandsBefore(s[..n], x, y)
    ensures StandsBefore(s, x, y)
  {
    var p, q :| 0 <= p < q < n && s[..n][p] == x && s[..n][q] == y;
    assert s[p] == x && s[q] == y;
  }

  lemma {:induction false} CaseVisitsFollow(c: int, order: seq<int>, run: seq<bool>, a: nat, b: nat)
    requires a < b < |CaseVisits(c, order, run)|
    ensures StandsBefore(order, CaseVisits(c, order, run)[a].1, CaseVisits(c, order, run)[b].1)
    decreases |order|
  {
    var n := |order| - 1;
    var before := CaseVisits(c, order[..n], run);
    if b < |before| {
      CaseVisitsFollow(c, order[..n], run, a, b);
      StandsBeforeIn(order, n, before[a].1, before[b].1);
    } else {
      var p := CaseVisitsComeFrom(c, order[..n], run, a);
      assert order[p] == before[a].1 && order[n] == CaseVisits(c, order, run)[b].1;
    }
  }

  lemma {:induction false} CaseVisitsComeFrom(c: int, order: seq<int>, run: seq<bool>, a: nat) returns (p: nat)
    requires a < |CaseVisits(c, order, run)|
    ensures p < |order| && order[p] == CaseVisits(c, order, run)[a].1
    decreases |order|
  {
    var n := |order| - 1;
    if a < |CaseVisits(c, order[..n], run)| {
      p := CaseVisitsComeFrom(c, order[..n], run, a);
    } else {
      p := n;
    }
  }

  /** Cases are visited in their order, and the tests of a case in theirs. */
  lemma {:induction false} VisitsFollow(cases: seq<int>, tests: seq<seq<int>>, run: seq<seq<bool>>, a: nat, b: nat)
    requires |tests| == |run| && a < b < |Visits(cases, tests, run)|
    ensures Precedes(Order(cases, tests), Visits(cases, tests, run)[a], Visits(cases, tests, run)[b])
    decreases |cases|
  {
    var n, visits := |cases| - 1, Visits(cases, tests, run);
    var c, before := cases[n], Visits(cases[..n], tests, run);
    if b < |before| {
      VisitsFollow(cases[..n], tests, run, a, b);
      if StandsBefore(cases[..n], before[a].0, before[b].0) {
        StandsBeforeIn(cases, n, before[a].0, before[b].0);
      }
    } else {
      var own := CaseVisits(c, tests[c], run[c]);
      CaseVisitsOwn(c, tests[c], run[c], b - |before|);
      assert visits[b] == own[b - |before|];
      if a < |before| {
        VisitsComeFrom(cases[..n], tests, run, a);
        var p :| 0 <= p < n && cases[..n][p] == before[a].0;
        assert cases[p] == visits[a].0 && cases[n] == visits[b].0;
      } else {
        assert visits[a] == own[a - |before|];
        CaseVisitsOwn(c, tests[c], run[c], a - |before|);
        CaseVisitsFollow(c, tests[c], run[c], a - |before|, b - |before|);
      }
    }
  }

  lemma {:induction false} VisitsFollowOrder(o: Order, run: seq<seq<bool>>)
    requires |o.tests| == |run|
    ensures Follows(Visits(o.cases, o.tests, run), o)
  {
    forall a, b | 0 <= a < b < |Visits(o.cases, o.tests, run)|
      ensures Precedes(o, Visits(o.cases, o.tests, run)[a], Visits(o.cases, o.tests, run)[b])
    {
      VisitsFollow(o.cases, o.tests, run, a, b);
    }
  }

  /** In registration order the numbers of cases and tests only grow. */
  lemma {:induction false} RegistrationIncreases(sizes: seq<nat>, visits: seq<Visit>)
    requires Follows(visits, RegistrationOrder(sizes))
    ensures Increasing(visits)
  {
    var o := RegistrationOrder(sizes);
    forall a, b | 0 <= a < b < |visits|
      ensures visits[a].0 < visits[b].0 || (visits[a].0 == visits[b].0 && visits[a].1 < visits[b].1)
    {
      assert Precedes(o, visits[a], visits[b]);
    }
  }
}
