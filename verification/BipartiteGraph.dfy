/**
 Bipartite graphs, matchings and vertex covers: the vocabulary in which the
 matching algorithm of UnorderedElementsAre is specified.  Left nodes are the
 elements of a container, right nodes are the matchers.
 */
module BipartiteGraph {

  datatype Graph = Graph(lhs: nat, rhs: nat, edge: (nat, nat) -> bool) {

    predicate HasEdge(l: int, r: int) {
      0 <= l < lhs && 0 <= r < rhs && edge(l, r)
    }
  }

  type Pair = (int, int)

  /** A set of edges in which no left node and no right node occurs twice. */
  ghost predicate IsMatching(g: Graph, m: set<Pair>) {
    && (forall e | e in m :: g.HasEdge(e.0, e.1))
    && (forall e, f | e in m && f in m && (e.0 == f.0 || e.1 == f.1) :: e == f)
  }

  /** The same for a list of edges, which then has no duplicates either. */
  ghost predicate IsMatchingList(g: Graph, s: seq<Pair>) {
    && (forall i | 0 <= i < |s| :: g.HasEdge(s[i].0, s[i].1))
    && (forall i, j | 0 <= i < j < |s| :: s[i].0 != s[j].0 && s[i].1 != s[j].1)
  }

  /** Left nodes `a` and right nodes `b` that together touch every edge. */
  ghost predicate IsVertexCover(g: Graph, a: set<int>, b: set<int>) {
    forall l, r | g.HasEdge(l, r) :: l in a || r in b
  }

  /** A choice of one element per matcher, no element chosen twice. */
  ghost predicate IsPairing(g: Graph, pick: seq<int>) {
    && |pick| == g.rhs
    && (forall r | 0 <= r < g.rhs :: g.HasEdge(pick[r], r))
    && (forall r, s | 0 <= r < s < g.rhs :: pick[r] != pick[s])
  }

  ghost predicate HasPairing(g: Graph) {
    exists pick :: IsPairing(g, pick)
  }

  function Lefts(m: set<Pair>): set<int> {
    set e | e in m :: e.0
  }

  function Rights(m: set<Pair>): set<int> {
    set e | e in m :: e.1
  }

  ghost function MateOf(m: set<Pair>, r: int): (l: int)
    requires r in Rights(m)
    ensures (l, r) in m
  {
    var e :| e in m && e.1 == r;
    e.0
  }

  ghost function Below(n: nat): (s: set<int>)
    ensures forall i :: i in s <==> 0 <= i < n
    ensures |s| == n
  {
    if n == 0 then {} else Below(n - 1) + {n - 1}
  }

  /** Each edge of a matching has its own left and its own right node. */
  lemma {:induction false} EndpointCount(g: Graph, m: set<Pair>)
    requires IsMatching(g, m)
    ensures |Lefts(m)| == |m| && |Rights(m)| == |m|
    decreases |m|
  {
    if m != {} {
      var e :| e in m;
      var rest := m - {e};
      EndpointCount(g, rest);
      assert Lefts(m) == Lefts(rest) + {e.0};
      assert Rights(m) == Rights(rest) + {e.1};
    }
  }

  lemma {:induction false} SubsetSize<T>(a: set<T>, b: set<T>)
    requires a <= b
    ensures |a| <= |b|
    ensures |a| == |b| ==> a == b
  {
    assert b == a + (b - a);
    assert |b| == |a| + |b - a|;
  }

  lemma {:induction false} RightsBound(g: Graph, m: set<Pair>, b: set<int>)
    requires IsMatching(g, m) && forall e | e in m :: e.1 in b
    ensures |m| <= |b|
  {
    EndpointCount(g, m);
    SubsetSize(Rights(m), b);
  }

  lemma {:induction false} LeftsBound(g: Graph, m: set<Pair>, a: set<int>)
    requires IsMatching(g, m) && forall e | e in m :: e.0 in a
    ensures |m| <= |a|
  {
    EndpointCount(g, m);
    SubsetSize(Lefts(m), a);
  }

  /** Weak duality: no matching has more edges than a vertex cover has nodes. */
  lemma {:induction false} MatchingAtMostCover(g: Graph, m: set<Pair>, a: set<int>, b: set<int>)
    requires IsMatching(g, m)
    requires IsVertexCover(g, a, b)
    ensures |m| <= |a| + |b|
  {
    var mb := set e | e in m && e.1 in b;
    var ma := m - mb;
    LeftsBound(g, ma, a);
    RightsBound(g, mb, b);
    assert m == ma + mb;
  }

  /** A matching list read as a set keeps its length. */
  lemma {:induction false} ListAsSet(g: Graph, s: seq<Pair>)
    requires IsMatchingList(g, s)
    ensures IsMatching(g, set e | e in s)
    ensures |set e | e in s| == |s|
    decreases |s|
  {
    if s != [] {
      var init, last := s[..|s| - 1], s[|s| - 1];
      ListAsSet(g, init);
      assert (set e | e in s) == (set e | e in init) + {last};
    }
  }

  /** A matching with as many edges as there are right nodes is a pairing. */
  lemma {:induction false} FullMatchingGivesPairing(g: Graph, m: set<Pair>)
    requires IsMatching(g, m) && |m| == g.rhs
    ensures HasPairing(g)
  {
    EndpointCount(g, m);
    SubsetSize(Rights(m), Below(g.rhs));
    var pick := seq(g.rhs, r requires r in Rights(m) => MateOf(m, r));
    assert forall r | 0 <= r < g.rhs :: (pick[r], r) in m;
    assert IsPairing(g, pick);
  }

  /** Conversely a pairing, read as edges, is a matching of that size. */
  lemma {:induction false} PairingGivesMatching(g: Graph, pick: seq<int>) returns (m: set<Pair>)
    requires IsPairing(g, pick)
    ensures IsMatching(g, m) && |m| == g.rhs
    ensures forall e | e in m :: 0 <= e.1 < g.rhs && pick[e.1] == e.0
  {
    var s := seq(g.rhs, r requires 0 <= r < g.rhs => (pick[r], r));
    ListAsSet(g, s);
    m := set e | e in s;
  }

  /** On a square graph a pairing chooses every left node. */
  lemma {:induction false} SquarePairingCoversLeft(g: Graph, pick: seq<int>, l: int)
    requires g.lhs == g.rhs && IsPairing(g, pick) && 0 <= l < g.lhs
    ensures l in pick
  {
    var m := PairingGivesMatching(g, pick);
    EndpointCount(g, m);
    SubsetSize(Lefts(m), Below(g.lhs));
    assert l in Lefts(m);
    var e :| e in m && e.0 == l;
    assert pick[e.1] == l;
  }
}
