/**
 The shuffle seen as a function of the numbers drawn: every order with the death test cases in
 front comes from some draws, and of a range from exactly one, so that no order is favoured.
 */
module ShuffleDraws {
  import opened Shuffling

  /** One number for each width down to 2, each below its width. */
  predicate ValidDraws(draws: seq<nat>, width: nat) {
    |draws| == (if width < 2 then 0 else width - 1) && forall i | 0 <= i < |draws| :: draws[i] < width - i
  }

  lemma {:induction false} RestOfDraws(draws: seq<nat>, width: nat)
    requires ValidDraws(draws, width) && width >= 2
    ensures draws[0] < width && ValidDraws(draws[1..], width - 1)
  {
  }

  /** The range [begin, begin + width) with the element drawn put last, then the next last, and so on. */
  function ShuffleBy(draws: seq<nat>, begin: nat, width: nat, v: seq<int>): (w: seq<int>)
    requires begin + width <= |v| && ValidDraws(draws, width)
    ensures |w| == |v|
    decreases width
  {
    if width < 2 then v
    else
      RestOfDraws(draws, width);
      ShuffleBy(draws[1..], begin, width - 1, Swap(v, begin + draws[0], begin + width - 1))
  }

  // ------------------------------------------------------------ what the generator draws

  /** The numbers that the generator gives from a state on. */
  function Generated(state: nat, width: nat): (draws: seq<nat>)
    ensures ValidDraws(draws, width)
    decreases width
  {
    if width < 2 then [] else [NextState(state) % width] + Generated(NextState(state), width - 1)
  }

  lemma {:induction false} ShufflesByDraws(state: nat, begin: nat, width: nat, v: seq<int>)
    requires begin + width <= |v|
    ensures FisherYates(state, begin, width, v).1 == ShuffleBy(Generated(state, width), begin, width, v)
    decreases width
  {
    if width >= 2 {
      var next := NextState(state);
      assert Generated(state, width)[1..] == Generated(next, width - 1);
      ShufflesByDraws(next, begin, width - 1, Swap(v, begin + next % width, begin + width - 1));
    }
  }

  // ------------------------------------------------------------ one range

  lemma {:induction false} ShuffleByLeavesRest(draws: seq<nat>, begin: nat, width: nat, v: seq<int>, i: nat)
    requires begin + width <= |v| && ValidDraws(draws, width) && i < |v| && (i < begin || begin + width <= i)
    ensures ShuffleBy(draws, begin, width, v)[i] == v[i]
    decreases width
  {
    if width >= 2 {
      RestOfDraws(draws, width);
      ShuffleByLeavesRest(draws[1..], begin, width - 1, Swap(v, begin + draws[0], begin + width - 1), i);
    }
  }

  lemma {:induction false} SwapIsPermutation(v: seq<int>, i: int, j: int)
    requires 0 <= i < |v| && 0 <= j < |v| && IsPermutation(v)
    ensures IsPermutation(Swap(v, i, j))
  {
    forall x
      ensures Occurrences(Swap(v, i, j), x) == if 0 <= x < |v| then 1 else 0
    {
      SwapPermutes(v, i, j, x);
    }
  }

  ghost predicate AgreeOutside(v: seq<int>, w: seq<int>, begin: nat, width: nat) {
    |v| == |w| && forall i | 0 <= i < |v| :: i < begin || begin + width <= i ==> v[i] == w[i]
  }

  lemma {:induction false} FoundInRange(begin: nat, width: nat, v: seq<int>, w: seq<int>) returns (k: nat)
    requires IsPermutation(v) && IsPermutation(w) && AgreeOutside(v, w, begin, width)
    requires width >= 1 && begin + width <= |v|
    ensures k < width && v[begin + k] == w[begin + width - 1]
  {
    var x := w[begin + width - 1];
    PermutationInRange(w, begin + width - 1);
    var i := PositionOf(v, x);
    if i < begin {
      PermutationDistinct(w, i, begin + width - 1);
    } else if i >= begin + width {
      PermutationDistinct(w, begin + width - 1, i);
    }
    k := i - begin;
  }

  lemma {:induction false} PositionOf(v: seq<int>, x: int) returns (i: nat)
    requires Occurrences(v, x) >= 1
    ensures i < |v| && v[i] == x
  {
    if v[|v| - 1] == x {
      i := |v| - 1;
    } else {
      i := PositionOf(v[..|v| - 1], x);
    }
  }

  /** Whatever rearrangement of the range is wanted, some draws bring it about. */
  lemma {:induction false} Reaches(begin: nat, width: nat, v: seq<int>, w: seq<int>) returns (draws: seq<nat>)
    requires IsPermutation(v) && IsPermutation(w) && AgreeOutside(v, w, begin, width) && begin + width <= |v|
    ensures ValidDraws(draws, width) && ShuffleBy(draws, begin, width, v) == w
    decreases width
  {
    if width < 2 {
      draws := [];
      if width == 1 {
        var k := FoundInRange(begin, width, v, w);
      }
      assert v == w;
    } else {
      var k := FoundInRange(begin, width, v, w);
      var next := Swap(v, begin + k, begin + width - 1);
      SwapIsPermutation(v, begin + k, begin + width - 1);
      var rest := Reaches(begin, width - 1, next, w);
      draws := [k] + rest;
      assert draws[1..] == rest;
    }
  }

  /** No other draws bring it about. */
  lemma {:induction false} DrawsAreUnique(begin: nat, width: nat, v: seq<int>, draws: seq<nat>, draws': seq<nat>)
    requires IsPermutation(v) && begin + width <= |v| && ValidDraws(draws, width) && ValidDraws(draws', width)
    requires ShuffleBy(draws, begin, width, v) == ShuffleBy(draws', begin, width, v)
    ensures draws == draws'
    decreases width
  {
    hide IsPermutation;
    if width >= 2 {
      var last := begin + width - 1;
      var next, next' := Swap(v, begin + draws[0], last), Swap(v, begin + draws'[0], last);
      RestOfDraws(draws, width);
      RestOfDraws(draws', width);
      ShuffleByLeavesRest(draws[1..], begin, width - 1, next, last);
      ShuffleByLeavesRest(draws'[1..], begin, width - 1, next', last);
      assert v[begin + draws[0]] == v[begin + draws'[0]];
      SamePlace(v, begin + draws[0], begin + draws'[0]);
      SwapIsPermutation(v, begin + draws[0], last);
      DrawsAreUnique(begin, width - 1, next, draws[1..], draws'[1..]);
      assert draws == [draws[0]] + draws[1..] && draws' == [draws'[0]] + draws'[1..];
    }
  }

  lemma {:induction false} SamePlace(v: seq<int>, i: nat, j: nat)
    requires IsPermutation(v) && i < |v| && j < |v| && v[i] == v[j]
    ensures i == j
  {
    if i < j {
      PermutationDistinct(v, i, j);
    } else if j < i {
      PermutationDistinct(v, j, i);
    }
  }

  // ------------------------------------------------------------ whole orders

  /** The numbers drawn in one shuffle: for the death test cases, for the others, and for the tests of each case. */
  datatype Draws = Draws(death: seq<nat>, others: seq<nat>, tests: seq<seq<nat>>)

  ghost predicate Fit(d: Draws, last: int, o: Order) {
    && -1 <= last < |o.cases| && |d.tests| == |o.tests|
    && ValidDraws(d.death, last + 1) && ValidDraws(d.others, |o.cases| - (last + 1))
    && forall c | 0 <= c < |o.tests| :: ValidDraws(d.tests[c], |o.tests[c]|)
  }

  ghost function CasesBy(d: Draws, last: int, o: Order): seq<int>
    requires Fit(d, last, o)
  {
    ShuffleBy(d.others, last + 1, |o.cases| - (last + 1), ShuffleBy(d.death, 0, last + 1, o.cases))
  }

  /** w is what the draws make of the order o. */
  ghost predicate OrderBy(d: Draws, last: int, o: Order, w: Order)
    requires Fit(d, last, o)
  {
    && w.cases == CasesBy(d, last, o) && |w.tests| == |o.tests|
    && forall c | 0 <= c < |o.tests| :: ShuffledCase(d.tests[c], o.tests[c], w.tests[c])
  }

  ghost predicate ShuffledCase(d: seq<nat>, v: seq<int>, w: seq<int>) {
    ValidDraws(d, |v|) && w == ShuffleBy(d, 0, |v|, v)
  }

  /** The numbers drawn for the tests of the first n cases, one case after the other. */
  function GeneratedForEach(state: nat, tests: seq<seq<int>>, n: nat): (draws: seq<seq<nat>>)
    requires n <= |tests|
    ensures |draws| == n
  {
    if n == 0 then []
    else GeneratedForEach(state, tests, n - 1) + [Generated(ShuffleEach(state, tests, n - 1).0, |tests[n - 1]|)]
  }

  lemma {:induction false} EachByDraws(state: nat, tests: seq<seq<int>>, n: nat)
    requires n <= |tests|
    ensures forall c | 0 <= c < n ::
              ShuffledCase(GeneratedForEach(state, tests, n)[c], tests[c], ShuffleEach(state, tests, n).1[c])
    ensures forall c | n <= c < |tests| :: ShuffleEach(state, tests, n).1[c] == tests[c]
  {
    if n > 0 {
      hide ShuffledCase;
      EachByDraws(state, tests, n - 1);
      var before := ShuffleEach(state, tests, n - 1);
      CaseByDraws(before.0, tests[n - 1]);
      hide FisherYates, Generated;
    }
  }

  lemma {:induction false} CaseByDraws(state: nat, v: seq<int>)
    ensures ShuffledCase(Generated(state, |v|), v, FisherYates(state, 0, |v|, v).1)
  {
    ShufflesByDraws(state, 0, |v|, v);
  }

  /** The shuffle of a state is the one of the numbers that the generator draws, range after range. */
  lemma {:induction false} ShuffledByDraws(state: nat, last: int, o: Order) returns (d: Draws)
    requires -1 <= last < |o.cases|
    ensures Fit(d, last, o) && OrderBy(d, last, o, Shuffled(state, last, o))
    ensures d.death == Generated(state, last + 1)
    ensures d.tests == GeneratedForEach(ShuffleCases(state, last, o.cases).0, o.tests, |o.tests|)
  {
    var first := FisherYates(state, 0, last + 1, o.cases);
    ShufflesByDraws(state, 0, last + 1, o.cases);
    ShufflesByDraws(first.0, last + 1, |o.cases| - (last + 1), first.1);
    var after := ShuffleCases(state, last, o.cases).0;
    EachByDraws(after, o.tests, |o.tests|);
    d := Draws(Generated(state, last + 1), Generated(first.0, |o.cases| - (last + 1)),
               GeneratedForEach(after, o.tests, |o.tests|));
    forall c | 0 <= c < |o.tests|
      ensures ValidDraws(d.tests[c], |o.tests[c]|)
    {
      assert ShuffledCase(d.tests[c], o.tests[c], ShuffleEach(after, o.tests, |o.tests|).1[c]);
    }
  }

  /** The death test cases of an order, in the order wanted, and the others as they are. */
  function Spliced(v: seq<int>, w: seq<int>, k: nat): seq<int>
    requires k <= |v| == |w|
  {
    w[..k] + v[k..]
  }

  lemma {:induction false} SplicedIsPermutation(v: seq<int>, w: seq<int>, last: int)
    requires IsPermutation(v) && IsPermutation(w) && |v| == |w| && -1 <= last < |v| && Halves(v, last) && Halves(w, last)
    ensures IsPermutation(Spliced(v, w, last + 1))
  {
    var m := Spliced(v, w, last + 1);
    forall x
      ensures Occurrences(m, x) == if 0 <= x < |m| then 1 else 0
    {
      OccurrencesAppend(w[..last + 1], v[last + 1..], x);
      assert w == w[..last + 1] + w[last + 1..] && v == v[..last + 1] + v[last + 1..];
      OccurrencesAppend(w[..last + 1], w[last + 1..], x);
      OccurrencesAppend(v[..last + 1], v[last + 1..], x);
      if x <= last {
        NotThere(v[last + 1..], x);
        NotThere(w[last + 1..], x);
      } else {
        NotThere(v[..last + 1], x);
        NotThere(w[..last + 1], x);
      }
    }
  }

  lemma {:induction false} NotThere(s: seq<int>, x: int)
    requires forall i | 0 <= i < |s| :: s[i] != x
    ensures Occurrences(s, x) == 0
  {
    if s != [] {
      NotThere(s[..|s| - 1], x);
    }
  }

  /** Every order with the death test cases in front comes from some draws, starting from any such order. */
  lemma {:induction false} EveryOrderIsReached(last: int, o: Order, w: Order) returns (d: Draws)
    requires ValidOrder(o, last) && ValidOrder(w, last) && |o.cases| == |w.cases|
    requires forall c | 0 <= c < |o.tests| :: |o.tests[c]| == |w.tests[c]|
    ensures Fit(d, last, o) && OrderBy(d, last, o, w)
  {
    var middle := Spliced(o.cases, w.cases, last + 1);
    SplicedIsPermutation(o.cases, w.cases, last);
    var death := Reaches(0, last + 1, o.cases, middle);
    var others := Reaches(last + 1, |o.cases| - (last + 1), middle, w.cases);
    var tests := EachIsReached(o.tests, w.tests, |o.tests|);
    d := Draws(death, others, tests);
  }

  lemma {:induction false} EachIsReached(v: seq<seq<int>>, w: seq<seq<int>>, n: nat) returns (draws: seq<seq<nat>>)
    requires n <= |v| == |w| && forall c | 0 <= c < |v| :: |v[c]| == |w[c]| && IsPermutation(v[c]) && IsPermutation(w[c])
    ensures |draws| == n
    ensures forall c | 0 <= c < n :: ShuffledCase(draws[c], v[c], w[c])
  {
    if n == 0 {
      draws := [];
    } else {
      var init := EachIsReached(v, w, n - 1);
      var own := Reaches(0, |v[n - 1]|, v[n - 1], w[n - 1]);
      draws := init + [own];
    }
  }
}
