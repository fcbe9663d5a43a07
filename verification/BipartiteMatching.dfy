/**
 The maximum bipartite matching behind UnorderedElementsAre: a depth-first
 search for augmenting paths that updates two mutually referent vectors in
 place and visits each left node once.
 */
module BipartiteMatching {
  import opened BipartiteGraph

  const K_UNUSED := -1

  /**
   left[l] == kUnused or right[left[l]] == l, and the same from the right, except that
   right node `hole`, when there is one, is matched to nobody and its entry means nothing.
   */
  ghost predicate MutuallyReferentBut(g: Graph, left: seq<int>, right: seq<int>, hole: int) {
    && |left| == g.lhs && |right| == g.rhs
    && (forall l | 0 <= l < |left| && left[l] != K_UNUSED ::
          g.HasEdge(l, left[l]) && left[l] != hole && right[left[l]] == l)
    && (forall r | 0 <= r < |right| && r != hole && right[r] != K_UNUSED ::
          0 <= right[r] < |left| && left[right[r]] == r)
  }

  ghost predicate MutuallyReferent(g: Graph, left: seq<int>, right: seq<int>) {
    MutuallyReferentBut(g, left, right, K_UNUSED)
  }

  /**
   An alternating path from left node `l` to the sink: unseen right nodes, each
   but the last leading on through the left node it is matched to.
   */
  ghost predicate AugmentingPath(g: Graph, right: seq<int>, seen: seq<bool>, l: int, p: seq<int>)
    requires |right| == |seen| == g.rhs
    decreases |p|
  {
    && p != []
    && g.HasEdge(l, p[0]) && !seen[p[0]]
    && if |p| == 1 then right[p[0]] == K_UNUSED
       else right[p[0]] != K_UNUSED && AugmentingPath(g, right, seen, right[p[0]], p[1..])
  }

  ghost predicate Augmentable(g: Graph, right: seq<int>, seen: seq<bool>, l: int)
    requires |right| == |seen| == g.rhs
  {
    exists p :: AugmentingPath(g, right, seen, l, p)
  }

  ghost predicate NeighboursIn(g: Graph, l: int, s: set<int>) {
    forall r | g.HasEdge(l, r) :: r in s
  }

  /** Right nodes that are all matched, to left nodes with no edge leaving the set. */
  ghost predicate Closed(g: Graph, right: seq<int>, s: set<int>) {
    forall r | r in s :: 0 <= r < |right| && right[r] != K_UNUSED && NeighboursIn(g, right[r], s)
  }

  ghost function Marked(seen: seq<bool>): set<int> {
    set r | 0 <= r < |seen| && seen[r]
  }

  ghost function Unmarked(seen: seq<bool>): set<int> {
    set r | 0 <= r < |seen| && !seen[r]
  }

  /** What a failed search from `l` leaves behind: every node it marked is a dead end. */
  ghost predicate DeadEnd(g: Graph, right: seq<int>, before: seq<bool>, after: seq<bool>)
    requires |right| == |before| == |after| == g.rhs
  {
    forall r | 0 <= r < g.rhs && after[r] && !before[r] ::
      right[r] != K_UNUSED && NeighboursIn(g, right[r], Marked(after))
  }

  ghost predicate StillSeen(before: seq<bool>, after: seq<bool>) {
    && |before| == |after|
    && (forall r | 0 <= r < |before| && before[r] :: after[r])
  }

  /**
   What a successful search from left node `l` has done.  It moved l to another right
   node; the right node l came from still names l, and that stale entry is the only one
   in the vectors.  Matched left nodes stay matched and unmatched ones unmatched; nothing
   that was seen before, and nothing in a closed set, has moved.
   */
  ghost predicate Moved(g: Graph, l: int, left: seq<int>, right: seq<int>, seen: seq<bool>, closed: set<int>,
                        left': seq<int>, right': seq<int>)
    requires |left| == g.lhs && |right| == |seen| == g.rhs && 0 <= l < g.lhs
  {
    && MutuallyReferentBut(g, left', right', left[l])
    && left'[l] != K_UNUSED && left'[l] !in closed
    && (forall k | 0 <= k < g.lhs && k != l :: left'[k] == K_UNUSED <==> left[k] == K_UNUSED)
    && (forall k | 0 <= k < g.lhs && k != l && 0 <= left[k] < g.rhs && seen[left[k]] :: left'[k] == left[k])
    && (forall r | 0 <= r < g.rhs && seen[r] :: right'[r] == right[r])
    && (forall r | 0 <= r < g.rhs && r in closed :: right'[r] == right[r])
  }

  lemma {:induction false} MoveToFree(g: Graph, l: int, r: int, left: seq<int>, right: seq<int>, seen: seq<bool>, closed: set<int>)
    requires MutuallyReferent(g, left, right) && Closed(g, right, closed) && |seen| == g.rhs
    requires g.HasEdge(l, r) && right[r] == K_UNUSED && !seen[r]
    ensures Moved(g, l, left, right, seen, closed, left[l := r], right[r := l])
  {
  }

  /** After the holder k of r has moved elsewhere, l takes r over and k's hole at r is filled. */
  lemma {:induction false} MoveAfter(g: Graph, l: int, r: int, left: seq<int>, right: seq<int>, seen: seq<bool>, closed: set<int>,
                                     marked: seq<bool>, left': seq<int>, right': seq<int>)
    requires MutuallyReferent(g, left, right) && Closed(g, right, closed) && |seen| == |marked| == g.rhs
    requires g.HasEdge(l, r) && right[r] != K_UNUSED && !seen[r] && marked[r] && StillSeen(seen, marked)
    requires left[l] != K_UNUSED ==> seen[left[l]]
    requires Moved(g, right[r], left, right, marked, closed, left', right')
    ensures Moved(g, l, left, right, seen, closed, left'[l := r], right'[r := l])
  {
    assert l != right[r];
    assert left'[l] == left[l];
    assert r !in closed;
  }

  lemma {:induction false} PathThroughFewerSeen(g: Graph, right: seq<int>, seen: seq<bool>, seen': seq<bool>, l: int, p: seq<int>)
    requires |right| == |seen| == |seen'| == g.rhs
    requires StillSeen(seen, seen') && AugmentingPath(g, right, seen', l, p)
    ensures AugmentingPath(g, right, seen, l, p)
    decreases |p|
  {
    if |p| > 1 {
      PathThroughFewerSeen(g, right, seen, seen', right[p[0]], p[1..]);
    }
  }

  lemma {:induction false} PathExtends(g: Graph, right: seq<int>, seen: seq<bool>, marked: seq<bool>, l: int, r: int)
    requires |right| == |seen| == |marked| == g.rhs && StillSeen(seen, marked)
    requires g.HasEdge(l, r) && right[r] != K_UNUSED && !seen[r]
    requires Augmentable(g, right, marked, right[r])
    ensures Augmentable(g, right, seen, l)
  {
    var p :| AugmentingPath(g, right, marked, right[r], p);
    PathThroughFewerSeen(g, right, seen, marked, right[r], p);
    assert ([r] + p)[1..] == p;
    assert AugmentingPath(g, right, seen, l, [r] + p);
  }

  /** Dead ends so far, the node r marked next, and those below it are dead ends together. */
  lemma {:induction false} DeadEndGrows(g: Graph, right: seq<int>, before: seq<bool>, marked: seq<bool>, after: seq<bool>, r: int)
    requires |right| == |before| == |marked| == |after| == g.rhs && 0 <= r < g.rhs
    requires marked[r] && right[r] != K_UNUSED && StillSeen(marked, after)
    requires forall q | 0 <= q < g.rhs && marked[q] && !before[q] && q != r ::
               right[q] != K_UNUSED && NeighboursIn(g, right[q], Marked(marked))
    requires NeighboursIn(g, right[r], Marked(after)) && DeadEnd(g, right, marked, after)
    ensures DeadEnd(g, right, before, after)
  {
    assert Marked(marked) <= Marked(after);
  }

  /** A node whose search ended in dead ends has no alternating path to the sink. */
  lemma {:induction false} DeadEndHasNoPath(g: Graph, right: seq<int>, before: seq<bool>, after: seq<bool>, l: int, p: seq<int>)
    requires |right| == |before| == |after| == g.rhs
    requires DeadEnd(g, right, before, after) && NeighboursIn(g, l, Marked(after))
    ensures !AugmentingPath(g, right, before, l, p)
    decreases |p|
  {
    if AugmentingPath(g, right, before, l, p) && |p| > 1 {
      DeadEndHasNoPath(g, right, before, after, right[p[0]], p[1..]);
    }
  }

  /** Nor does a node whose neighbours all lie in a closed set. */
  lemma {:induction false} ClosedHasNoPath(g: Graph, right: seq<int>, seen: seq<bool>, s: set<int>, l: int, p: seq<int>)
    requires |right| == |seen| == g.rhs
    requires Closed(g, right, s) && NeighboursIn(g, l, s)
    ensures !AugmentingPath(g, right, seen, l, p)
    decreases |p|
  {
    if AugmentingPath(g, right, seen, l, p) && |p| > 1 {
      ClosedHasNoPath(g, right, seen, s, right[p[0]], p[1..]);
    }
  }

  /** The edges {left, right} that Compute() reports, in order of left node. */
  function Flow(left: seq<int>): (s: seq<Pair>)
  {
    if left == [] then []
    else
      var init, last := left[..|left| - 1], left[|left| - 1];
      Flow(init) + if last == K_UNUSED then [] else [(|left| - 1, last)]
  }

  lemma {:induction false} FlowEntries(left: seq<int>, e: Pair)
    ensures e in Flow(left) <==> 0 <= e.0 < |left| && left[e.0] == e.1 && e.1 != K_UNUSED
  {
    if left != [] {
      FlowEntries(left[..|left| - 1], e);
    }
  }

  lemma {:induction false} FlowIsMatching(g: Graph, left: seq<int>, right: seq<int>, n: nat)
    requires MutuallyReferent(g, left, right) && n <= |left|
    ensures IsMatchingList(g, Flow(left[..n]))
  {
    if n > 0 {
      FlowIsMatching(g, left, right, n - 1);
      var init := left[..n - 1];
      assert left[..n][..n - 1] == init;
      forall i | 0 <= i < |Flow(init)|
        ensures 0 <= Flow(init)[i].0 < n - 1 && left[Flow(init)[i].0] == Flow(init)[i].1 != K_UNUSED
      {
        FlowEntries(init, Flow(init)[i]);
      }
    }
  }

  /** The left nodes matched outside the right nodes `s`. */
  ghost function MatchedOutside(left: seq<int>, s: set<int>): set<int> {
    set l | 0 <= l < |left| && left[l] != K_UNUSED && left[l] !in s
  }

  /** Left nodes matched outside s, plus s when all of s is matched, count the matched edges. */
  lemma {:induction false} FlowSplits(g: Graph, left: seq<int>, right: seq<int>, s: set<int>)
    requires MutuallyReferent(g, left, right)
    requires forall r | r in s :: 0 <= r < |right| && right[r] != K_UNUSED
    ensures |MatchedOutside(left, s)| + |s| == |Flow(left)|
  {
    assert left[..|left|] == left;
    FlowIsMatching(g, left, right, |left|);
    ListAsSet(g, Flow(left));
    var m := set e | e in Flow(left);
    var inside := set e | e in m && e.1 in s;
    var outside := m - inside;
    assert m == outside + inside;
    EndpointCount(g, outside);
    EndpointCount(g, inside);
    FlowLefts(left, m, inside, s);
    FlowRights(g, left, right, m, inside, s);
  }

  lemma {:induction false} FlowLefts(left: seq<int>, m: set<Pair>, inside: set<Pair>, s: set<int>)
    requires m == set e | e in Flow(left)
    requires inside == set e | e in m && e.1 in s
    ensures Lefts(m - inside) == MatchedOutside(left, s)
  {
    forall e | e in m - inside
      ensures e.0 in MatchedOutside(left, s)
    {
      FlowEntries(left, e);
    }
    forall l | l in MatchedOutside(left, s)
      ensures l in Lefts(m - inside)
    {
      FlowEntries(left, (l, left[l]));
      assert (l, left[l]) in m - inside;
    }
  }

  lemma {:induction false} FlowRights(g: Graph, left: seq<int>, right: seq<int>, m: set<Pair>, inside: set<Pair>, s: set<int>)
    requires MutuallyReferent(g, left, right)
    requires forall r | r in s :: 0 <= r < |right| && right[r] != K_UNUSED
    requires m == set e | e in Flow(left)
    requires inside == set e | e in m && e.1 in s
    ensures Rights(inside) == s
  {
    forall r | r in s
      ensures r in Rights(inside)
    {
      FlowEntries(left, (right[r], r));
      assert (right[r], r) in inside;
    }
  }

  /**
   The dual certificate.  When every unmatched left node sees only a closed set of
   right nodes, that set and the left nodes matched outside it cover all edges with
   exactly as many nodes as the matching has edges.
   */
  lemma {:induction false} CoverOfEqualSize(g: Graph, left: seq<int>, right: seq<int>, s: set<int>)
    requires MutuallyReferent(g, left, right) && Closed(g, right, s)
    requires forall l | 0 <= l < |left| && left[l] == K_UNUSED :: NeighboursIn(g, l, s)
    ensures IsVertexCover(g, MatchedOutside(left, s), s)
    ensures |MatchedOutside(left, s)| + |s| == |Flow(left)|
  {
    FlowSplits(g, left, right, s);
    forall l, r | g.HasEdge(l, r)
      ensures l in MatchedOutside(left, s) || r in s
    {
      if left[l] == K_UNUSED {
        assert NeighboursIn(g, l, s);
      } else if left[l] in s {
        assert NeighboursIn(g, right[left[l]], s);
      }
    }
  }

  /** A failed search from l, started with nothing seen, extends a closed set by what it marked. */
  lemma {:induction false} BlockedGrows(g: Graph, right: seq<int>, s: set<int>, before: seq<bool>, after: seq<bool>, l: int)
    requires |right| == |before| == |after| == g.rhs && Marked(before) == {}
    requires Closed(g, right, s) && DeadEnd(g, right, before, after) && NeighboursIn(g, l, Marked(after))
    ensures Closed(g, right, s + Marked(after)) && NeighboursIn(g, l, s + Marked(after))
  {
    assert forall r | 0 <= r < g.rhs :: !before[r] || r in Marked(before);
  }

  class MaxBipartiteMatchState {
    const graph: Graph
    var left: seq<int>
    var right: seq<int>

    constructor (g: Graph)
      ensures graph == g
      ensures left == seq(g.lhs, _ => K_UNUSED) && right == seq(g.rhs, _ => K_UNUSED)
    {
      graph := g;
      left := seq(g.lhs, _ => K_UNUSED);
      right := seq(g.rhs, _ => K_UNUSED);
    }

    /**
     Depth-first search from left node ilhs to the sink: succeeds exactly when an
     alternating path through unseen nodes exists.  On failure nothing but `seen` has
     changed and all that was marked is a dead end.
     */
    method TryAugment(ilhs: nat, seen: array<bool>, ghost closed: set<int>) returns (ok: bool)
      requires MutuallyReferent(graph, left, right)
      requires ilhs < graph.lhs && seen.Length == graph.rhs
      requires left[ilhs] != K_UNUSED ==> seen[left[ilhs]]
      requires Closed(graph, right, closed)
      modifies `left, `right, seen
      ensures ok <==> Augmentable(graph, old(right), old(seen[..]), ilhs)
      ensures StillSeen(old(seen[..]), seen[..])
      ensures ok ==> Moved(graph, ilhs, old(left), old(right), old(seen[..]), closed, left, right)
      ensures !ok ==> left == old(left) && right == old(right)
      ensures !ok ==> NeighboursIn(graph, ilhs, Marked(seen[..]))
      ensures !ok ==> DeadEnd(graph, right, old(seen[..]), seen[..])
      decreases Unmarked(seen[..])
    {
      ghost var before := seen[..];
      for irhs := 0 to graph.rhs
        invariant left == old(left) && right == old(right)
        invariant StillSeen(before, seen[..])
        invariant forall r | 0 <= r < irhs && graph.HasEdge(ilhs, r) :: seen[r]
        invariant DeadEnd(graph, right, before, seen[..])
      {
        if seen[irhs] {
          continue;
        }
        if !graph.HasEdge(ilhs, irhs) {
          continue;
        }
        seen[irhs] := true;
        ghost var marked := seen[..];
        if right[irhs] == K_UNUSED {
          assert AugmentingPath(graph, right, before, ilhs, [irhs]);
          MoveToFree(graph, ilhs, irhs, left, right, before, closed);
          left, right := left[ilhs := irhs], right[irhs := ilhs];
          return true;
        }
        assert irhs in Unmarked(before) && Unmarked(marked) <= Unmarked(before) - {irhs};
        var found := TryAugment(right[irhs], seen, closed);
        if found {
          PathExtends(graph, old(right), before, marked, ilhs, irhs);
          MoveAfter(graph, ilhs, irhs, old(left), old(right), before, closed, marked, left, right);
          left, right := left[ilhs := irhs], right[irhs := ilhs];
          return true;
        }
        DeadEndGrows(graph, right, before, marked, seen[..], irhs);
      }
      forall p | AugmentingPath(graph, right, before, ilhs, p)
        ensures false
      {
        DeadEndHasNoPath(graph, right, before, seen[..], ilhs, p);
      }
      return false;
    }

    /**
     Returns a maximum matching: a list of real edges, no node twice, at least as long as
     any matching of the graph, as the vertex cover of the same size shows.  One pass over
     the left nodes is enough: no left node left unmatched has an augmenting path at the end.
     */
    method Compute() returns (result: seq<Pair>)
      requires left == seq(graph.lhs, _ => K_UNUSED) && right == seq(graph.rhs, _ => K_UNUSED)
      modifies `left, `right
      ensures MutuallyReferent(graph, left, right)
      ensures result == Flow(left) && IsMatchingList(graph, result)
      ensures exists a, b :: IsVertexCover(graph, a, b) && |a| + |b| == |result|
      ensures forall m | IsMatching(graph, m) :: |m| <= |result|
      ensures forall l, seen | 0 <= l < graph.lhs && left[l] == K_UNUSED && |seen| == graph.rhs ::
                !Augmentable(graph, right, seen, l)
    {
      // Right nodes that failed searches have shown to be dead ends.
      ghost var blocked: set<int> := {};
      for ilhs := 0 to graph.lhs
        invariant MutuallyReferent(graph, left, right) && Closed(graph, right, blocked)
        invariant forall l | ilhs <= l < graph.lhs :: left[l] == K_UNUSED
        invariant forall l | 0 <= l < ilhs && left[l] == K_UNUSED :: NeighboursIn(graph, l, blocked)
      {
        assert left[ilhs] == K_UNUSED;  // the run-time check in the source
        var seen := new bool[graph.rhs](_ => false);
        assert Marked(seen[..]) == {};
        var ok := TryAugment(ilhs, seen, blocked);
        if !ok {
          BlockedGrows(graph, right, blocked, seq(graph.rhs, _ => false), seen[..], ilhs);
          blocked := blocked + Marked(seen[..]);
        }
      }
      result := [];
      for ilhs := 0 to |left|
        invariant result == Flow(left[..ilhs])
      {
        var irhs := left[ilhs];
        assert left[..ilhs + 1][..ilhs] == left[..ilhs];
        if irhs == K_UNUSED {
          continue;
        }
        result := result + [(ilhs, irhs)];
      }
      assert left[..|left|] == left;
      FlowIsMatching(graph, left, right, |left|);
      CoverOfEqualSize(graph, left, right, blocked);
      forall m | IsMatching(graph, m)
        ensures |m| <= |result|
      {
        MatchingAtMostCover(graph, m, MatchedOutside(left, blocked), blocked);
      }
      forall l, seen, p | 0 <= l < graph.lhs && left[l] == K_UNUSED && |seen| == graph.rhs
        ensures !AugmentingPath(graph, right, seen, l, p)
      {
        ClosedHasNoPath(graph, right, seen, blocked, l, p);
      }
    }
  }
}
