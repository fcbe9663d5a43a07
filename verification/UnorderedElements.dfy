/**
 UnorderedElementsAre on top of the matching: the connectivity matrix, the pairing
 query, the quick pre-check and the decision the matcher finally takes.
 */
module UnorderedElements {
  import opened BipartiteGraph
  import opened BipartiteMatching
  import opened Common

  /** A vector of cells read as a binary number, first cell least significant. */
  ghost function Number(bits: seq<bool>): nat {
    if bits == [] then 0 else (if bits[0] then 1 else 0) + 2 * Number(bits[1..])
  }

  lemma {:induction false} NumberBound(bits: seq<bool>)
    ensures Number(bits) < Pow2(|bits|)
    ensures Number(bits) == 0 <==> forall i | 0 <= i < |bits| :: !bits[i]
    ensures Number(bits) == Pow2(|bits|) - 1 <==> forall i | 0 <= i < |bits| :: bits[i]
  {
    if bits != [] {
      NumberBound(bits[1..]);
      assert forall i | 0 <= i < |bits| :: bits[i] == if i == 0 then bits[0] else bits[1..][i - 1];
    }
  }

  /** Clearing a run of ones and setting the zero above it adds one. */
  lemma {:induction false} CarryAddsOne(before: seq<bool>, after: seq<bool>, k: nat)
    requires |before| == |after| && k < |before|
    requires forall i | 0 <= i < k :: before[i] && !after[i]
    requires !before[k] && after[k] && before[k + 1..] == after[k + 1..]
    ensures Number(after) == Number(before) + 1
  {
    if k > 0 {
      assert before[1..][k..] == before[k + 1..] && after[1..][k..] == after[k + 1..];
      CarryAddsOne(before[1..], after[1..], k - 1);
    }
  }

  lemma {:induction false} RowEnd(ilhs: nat, elements: nat, matchers: nat)
    requires ilhs < elements
    ensures ilhs * matchers + matchers <= elements * matchers
    decreases elements
  {
    assert elements * matchers == (elements - 1) * matchers + matchers;
    if ilhs + 1 < elements {
      RowEnd(ilhs, elements - 1, matchers);
    }
  }

  predicate CellAt(cells: seq<bool>, i: nat) {
    i < |cells| && cells[i]
  }

  class MatchMatrix {
    const numElements: nat
    const numMatchers: nat
    var matched: seq<bool>

    ghost predicate Valid()
      reads this
    {
      |matched| == numElements * numMatchers
    }

    constructor (elements: nat, matchers: nat)
      ensures Valid() && numElements == elements && numMatchers == matchers
      ensures Number(matched) == 0
    {
      numElements, numMatchers := elements, matchers;
      matched := seq(elements * matchers, _ => false);
      new;
      NumberBound(matched);
    }

    function SpaceIndex(ilhs: nat, irhs: nat): nat {
      ilhs * numMatchers + irhs
    }

    predicate HasEdge(ilhs: nat, irhs: nat)
      requires Valid() && ilhs < numElements && irhs < numMatchers
      reads this
    {
      RowEnd(ilhs, numElements, numMatchers);
      matched[SpaceIndex(ilhs, irhs)]
    }

    /** Every pair of an element and a matcher has a cell of its own. */
    lemma {:induction false} CellsArePairs(l: nat, r: nat, l': nat, r': nat)
      requires l < numElements && r < numMatchers && l' < numElements && r' < numMatchers
      ensures SpaceIndex(l, r) < numElements * numMatchers
      ensures SpaceIndex(l, r) == SpaceIndex(l', r') <==> l == l' && r == r'
    {
      RowEnd(l, numElements, numMatchers);
      RemainderIs(SpaceIndex(l, r), numMatchers, l, r);
      RemainderIs(SpaceIndex(l', r'), numMatchers, l', r');
    }

    function AsGraph(): (g: Graph)
      reads this
      ensures g.lhs == numElements && g.rhs == numMatchers
    {
      var cells := matched;
      Graph(numElements, numMatchers, (l: nat, r: nat) => CellAt(cells, SpaceIndex(l, r)))
    }

    lemma {:induction false} AsGraphEdges(l: nat, r: nat)
      requires Valid() && l < numElements && r < numMatchers
      ensures AsGraph().HasEdge(l, r) <==> HasEdge(l, r)
    {
      RowEnd(l, numElements, numMatchers);
    }

    /**
     Adds one to the matrix read as a number, wrapping to the empty matrix; returns false
     exactly when the increment left it empty.
     */
    method NextGraph() returns (more: bool)
      requires Valid()
      modifies `matched
      ensures Valid()
      ensures Number(matched) == (if more then old(Number(matched)) + 1 else 0)
      ensures !more <==> old(Number(matched)) == Pow2(|matched|) - 1
    {
      ghost var k := 0;
      for ilhs := 0 to numElements
        invariant Valid() && k == ilhs * numMatchers <= |matched|
        invariant forall i | 0 <= i < k :: old(matched)[i] && !matched[i]
        invariant forall i | k <= i < |matched| :: matched[i] == old(matched)[i]
      {
        for irhs := 0 to numMatchers
          invariant Valid() && k == ilhs * numMatchers + irhs <= |matched|
          invariant forall i | 0 <= i < k :: old(matched)[i] && !matched[i]
          invariant forall i | k <= i < |matched| :: matched[i] == old(matched)[i]
        {
          RowEnd(ilhs, numElements, numMatchers);
          if !matched[SpaceIndex(ilhs, irhs)] {
            matched := matched[SpaceIndex(ilhs, irhs) := true];
            CarryAddsOne(old(matched), matched, k);
            NumberBound(old(matched));
            return true;
          }
          matched := matched[SpaceIndex(ilhs, irhs) := false];
          k := k + 1;
        }
        assert (ilhs + 1) * numMatchers == ilhs * numMatchers + numMatchers;
      }
      NumberBound(matched);
      NumberBound(old(matched));
      return false;
    }
  }

  method FindMaxBipartiteMatching(g: Graph) returns (matches: seq<Pair>)
    ensures IsMatchingList(g, matches)
    ensures forall m | IsMatching(g, m) :: |m| <= |matches|
  {
    var state := new MaxBipartiteMatchState(g);
    matches := state.Compute();
  }

  /** True iff some choice of distinct elements satisfies every matcher. */
  method FindPairing(g: Graph) returns (result: bool, matches: seq<Pair>)
    ensures result <==> HasPairing(g)
    ensures IsMatchingList(g, matches)
    ensures forall m | IsMatching(g, m) :: |m| <= |matches|
  {
    matches := FindMaxBipartiteMatching(g);
    result := |matches| == g.rhs;
    ListAsSet(g, matches);
    if result {
      FullMatchingGivesPairing(g, set e | e in matches);
    }
    forall pick | IsPairing(g, pick)
      ensures |matches| == g.rhs
    {
      var m := PairingGivesMatching(g, pick);
      EndpointCount(g, set e | e in matches);
      SubsetSize(Rights(set e | e in matches), Below(g.rhs));
    }
  }

  /** The element has an edge to one of the first n matchers. */
  ghost predicate ElementTouched(g: Graph, l: int, n: int) {
    exists r :: r < n && g.HasEdge(l, r)
  }

  /** The matcher has an edge to one of the first n elements. */
  ghost predicate MatcherTouched(g: Graph, r: int, n: int) {
    exists l :: l < n && g.HasEdge(l, r)
  }

  /** No matcher and no element is without an edge. */
  ghost predicate NoneIsolated(g: Graph) {
    && (forall l | 0 <= l < g.lhs :: ElementTouched(g, l, g.rhs))
    && (forall r | 0 <= r < g.rhs :: MatcherTouched(g, r, g.lhs))
  }

  method VerifyAllElementsAndMatchersAreMatched(g: Graph) returns (result: bool)
    ensures result <==> NoneIsolated(g)
  {
    result := true;
    var elementMatched := new bool[g.lhs](_ => false);
    var matcherMatched := new bool[g.rhs](_ => false);
    for ilhs := 0 to g.lhs
      invariant forall l | 0 <= l < g.lhs :: elementMatched[l] <==> l < ilhs && ElementTouched(g, l, g.rhs)
      invariant forall r | 0 <= r < g.rhs :: matcherMatched[r] <==> MatcherTouched(g, r, ilhs)
    {
      for irhs := 0 to g.rhs
        invariant forall l | 0 <= l < g.lhs ::
                    elementMatched[l] <==> || (l < ilhs && ElementTouched(g, l, g.rhs))
                                           || (l == ilhs && ElementTouched(g, l, irhs))
        invariant forall r | 0 <= r < g.rhs ::
                    matcherMatched[r] <==> MatcherTouched(g, r, if r < irhs then ilhs + 1 else ilhs)
      {
        var matched := g.HasEdge(ilhs, irhs);
        elementMatched[ilhs] := elementMatched[ilhs] || matched;
        matcherMatched[irhs] := matcherMatched[irhs] || matched;
      }
    }
    for mi := 0 to matcherMatched.Length
      invariant result <==> forall r | 0 <= r < mi :: matcherMatched[r]
    {
      if matcherMatched[mi] {
        continue;
      }
      result := false;
    }
    for ei := 0 to elementMatched.Length
      invariant result <==> (forall r | 0 <= r < g.rhs :: matcherMatched[r]) && forall l | 0 <= l < ei :: elementMatched[l]
    {
      if elementMatched[ei] {
        continue;
      }
      result := false;
    }
  }

  /** A failed pre-check on a square matrix rules every pairing out. */
  lemma {:induction false} PreCheckIsSound(g: Graph)
    requires g.lhs == g.rhs && HasPairing(g)
    ensures NoneIsolated(g)
  {
    var pick :| IsPairing(g, pick);
    forall l | 0 <= l < g.lhs
      ensures ElementTouched(g, l, g.rhs)
    {
      SquarePairingCoversLeft(g, pick, l);
      var r :| 0 <= r < |pick| && pick[r] == l;
      assert g.HasEdge(l, r);
    }
    forall r | 0 <= r < g.rhs
      ensures MatcherTouched(g, r, g.lhs)
    {
      assert g.HasEdge(pick[r], r);
    }
  }

  /** The verdict of UnorderedElementsAre, unchanged by the pre-check. */
  method MatchAndExplain(g: Graph) returns (result: bool)
    ensures result <==> g.lhs == g.rhs && HasPairing(g)
  {
    if g.lhs == 0 && g.rhs == 0 {
      assert IsPairing(g, []);
      return true;
    }
    if g.lhs != g.rhs {
      return false;
    }
    if HasPairing(g) {
      PreCheckIsSound(g);
    }
    result := VerifyAllElementsAndMatchersAreMatched(g);
    if result {
      var matches;
      result, matches := FindPairing(g);
    }
  }
}
