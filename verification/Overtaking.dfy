/**
 Runs in which the calls of a sequence are handled out of order.  Expectations promises order
 except where a member can overtake an earlier one; here every such exception is made to happen.
 */
module Overtaking {
  import opened Expectations

  /** What an expectation of a sequence asks for. */
  datatype Spec = Spec(cardinality: Cardinality, retires: bool)

  /** In a sequence of its own, member j can be called before member i is called again. */
  predicate Overtakes(specs: seq<Spec>, i: nat, j: nat)
    requires i < j < |specs|
  {
    && specs[j].cardinality.max == 0
    && !(specs[i].retires && specs[i].cardinality.min == specs[i].cardinality.max >= 1)
    && forall k | i < k < j :: specs[k].cardinality.min == 0
  }

  /** How many calls the first n members ask for. */
  function Asked(specs: seq<Spec>, n: nat): nat
    requires n <= |specs| && forall k | 0 <= k < |specs| :: specs[k].cardinality.Valid()
  {
    if n == 0 then 0 else Asked(specs, n - 1) + specs[n - 1].cardinality.min
  }

  // ------------------------------------------------------------ a sequence and nothing else

  /** The prerequisites of the k-th member are the members before it. */
  ghost predicate Behind(g: Graph, ms: seq<ExpectationBase>, k: nat)
    requires CreationOrdered(g) && k < |ms|
  {
    ms[k] in g && forall x | x in g :: IsPrerequisite(g, ms[k], x) <==> x in ms[..k]
  }

  ghost predicate InLine(g: Graph, ms: seq<ExpectationBase>)
    requires CreationOrdered(g)
  {
    && (forall x | x in g :: x in ms) && (forall k | 0 <= k < |ms| :: ms[k] in g)
    && forall k | 0 <= k < |ms| :: Behind(g, ms, k)
  }

  /** The k-th member is the only expectation of the k-th method. */
  ghost predicate OwnMethods(lists: map<Method, seq<ExpectationBase>>, ms: seq<ExpectationBase>) {
    && (forall k | 0 <= k < |ms| :: k in lists && lists[k] == [ms[k]])
    && (forall k | k in lists :: k < |ms|)
  }

  ghost predicate Lineup(mocks: Mocks, s: Sequence, ms: seq<ExpectationBase>)
    reads mocks, mocks.graph.Keys, mocks.sequences
  {
    && mocks.Valid() && mocks.sequences == {s} && s.members == ms
    && InLine(mocks.graph, ms) && OwnMethods(mocks.expectations, ms)
  }

  ghost predicate Meets(m: ExpectationBase, spec: Spec) {
    m.cardinality == spec.cardinality && m.retiresOnSaturation == spec.retires
  }

  lemma NoOthers(g: Graph, ms: seq<ExpectationBase>)
    requires CreationOrdered(g) && InLine(g, ms)
    ensures forall x | x in g :: x in ms
  {
  }

  lemma {:induction false} LineDistinct(g: Graph, ms: seq<ExpectationBase>, i: nat, k: nat)
    requires CreationOrdered(g) && InLine(g, ms) && i < k < |ms|
    ensures ms[i] != ms[k] && IsPrerequisite(g, ms[k], ms[i])
  {
    assert Behind(g, ms, k) && Behind(g, ms, i);
    assert ms[..k][i] == ms[i];
    NeverItsOwnPrerequisite(g, ms[k], ms[i]);
  }

  lemma {:induction false} LinePrerequisites(g: Graph, ms: seq<ExpectationBase>, k: nat, i: nat)
    requires CreationOrdered(g) && InLine(g, ms) && k < |ms| && i < |ms|
    ensures ms[i] in g && ms[k] in g && (ms[i] == ms[k] <==> i == k)
    ensures IsPrerequisite(g, ms[k], ms[i]) <==> i < k
  {
    if i < k {
      LineDistinct(g, ms, i, k);
    } else {
      if k < i {
        LineDistinct(g, ms, k, i);
        NeverItsOwnPrerequisite(g, ms[i], ms[k]);
      }
      if IsPrerequisite(g, ms[k], ms[i]) {
        NeverItsOwnPrerequisite(g, ms[k], ms[i]);
      }
    }
  }

  /** In a line, overtaking is a matter of what the members ask for. */
  lemma {:induction false} OvertakesInLine(g: Graph, ms: seq<ExpectationBase>, specs: seq<Spec>, i: nat, j: nat)
    requires CreationOrdered(g) && InLine(g, ms) && i < j < |ms| == |specs|
    requires forall k | 0 <= k < |ms| :: Meets(ms[k], specs[k])
    ensures CanOvertake(g, ms[j], ms[i]) <==> Overtakes(specs, i, j)
  {
    forall k | i < k < j
      ensures IsPrerequisite(g, ms[j], ms[k]) && IsPrerequisite(g, ms[k], ms[i])
    {
      LineDistinct(g, ms, k, j);
      LineDistinct(g, ms, i, k);
    }
    forall x | x in g && IsPrerequisite(g, ms[j], x) && IsPrerequisite(g, x, ms[i])
      ensures exists k | i < k < j :: x == ms[k]
    {
      assert Behind(g, ms, j);
      var k :| 0 <= k < j && ms[..j][k] == x;
      if k <= i {
        NeverItsOwnPrerequisite(g, x, ms[i]);
        if k < i {
          LineDistinct(g, ms, k, i);
          NeverItsOwnPrerequisite(g, ms[i], ms[k]);
        }
        assert false;
      }
    }
  }

  // ------------------------------------------------------------ setting it up

  lemma {:induction false} LineGrows(g: Graph, ms: seq<ExpectationBase>, e: ExpectationBase, p: set<ExpectationBase>)
    requires CreationOrdered(g) && CreationOrdered(g[e := p]) && e !in g && InLine(g, ms)
    requires p == if ms == [] then {} else {ms[|ms| - 1]}
    ensures InLine(g[e := p], ms + [e])
  {
    var h, ms' := g[e := p], ms + [e];
    forall k | 0 <= k < |ms|
      ensures Behind(h, ms', k)
    {
      assert Behind(g, ms, k) && ms'[..k] == ms[..k] && ms'[k] == ms[k];
      forall x | x in h
        ensures IsPrerequisite(h, ms[k], x) <==> x in ms[..k]
      {
        PrerequisitesStay(g, h, ms[k], x);
        if IsPrerequisite(g, ms[k], x) {
          NeverItsOwnPrerequisite(g, ms[k], x);
        }
        if x in ms[..k] {
          var i :| 0 <= i < k && ms[..k][i] == x;
          assert Behind(g, ms, i);
        }
      }
    }
    LastBehind(g, ms, e, p);
  }

  lemma {:induction false} LastBehind(g: Graph, ms: seq<ExpectationBase>, e: ExpectationBase, p: set<ExpectationBase>)
    requires CreationOrdered(g) && CreationOrdered(g[e := p]) && e !in g && InLine(g, ms)
    requires p == if ms == [] then {} else {ms[|ms| - 1]}
    ensures Behind(g[e := p], ms + [e], |ms|)
  {
    var h, ms' := g[e := p], ms + [e];
    assert ms'[..|ms|] == ms && h[e] == p;
    if ms != [] {
      var last := ms[|ms| - 1];
      assert Behind(g, ms, |ms| - 1) && ms == ms[..|ms| - 1] + [last];
      forall x | x in h
        ensures IsPrerequisite(h, e, x) <==> x in ms
      {
        PrerequisitesStay(g, h, last, x);
        if IsPrerequisite(g, last, x) {
          NeverItsOwnPrerequisite(g, last, x);
        }
        if x in ms {
          var i :| 0 <= i < |ms| && ms[i] == x;
          assert Behind(g, ms, i);
        }
      }
    }
  }

  method AddMember(mocks: Mocks, s: Sequence, ms: seq<ExpectationBase>, spec: Spec) returns (e: ExpectationBase)
    requires Lineup(mocks, s, ms) && spec.cardinality.Valid()
    modifies mocks`expectations, mocks`graph, mocks`created, s
    ensures Lineup(mocks, s, ms + [e]) && mocks.log == old(mocks.log)
    ensures fresh(e) && Meets(e, spec) && e.callCount == 0 && !e.retired
  {
    hide InLine, OwnMethods, Settled, InOrder, ListsInOrder, Sound;
    ghost var g, lists := mocks.graph, mocks.expectations;
    LastOfLine(s, g);
    hide Sequence.Chained, LastMembers, Elements;
    e := mocks.Expect(|ms|, spec.cardinality, spec.retires, [s], {});
    LineGrows(g, ms, e, e.immediatePrerequisites);
    MethodsGrow(lists, ms, e);
  }

  lemma {:induction false} LastOfLine(s: Sequence, g: Graph)
    requires s.Chained(g)
    ensures Elements([s]) == {s}
    ensures LastMembers(Elements([s])) == if s.members == [] then {} else {s.members[|s.members| - 1]}
  {
    assert Elements([s]) == {s};
  }

  lemma {:induction false} MethodsGrow(lists: map<Method, seq<ExpectationBase>>, ms: seq<ExpectationBase>, e: ExpectationBase)
    requires OwnMethods(lists, ms)
    ensures OwnMethods(lists[|ms| := ListOf(lists, |ms|) + [e]], ms + [e])
  {
    assert ListOf(lists, |ms|) == [] && [] + [e] == [e];
  }

  method ExpectAll(specs: seq<Spec>) returns (mocks: Mocks, s: Sequence, ms: seq<ExpectationBase>)
    requires forall k | 0 <= k < |specs| :: specs[k].cardinality.Valid()
    ensures fresh(mocks) && fresh(s) && (forall k | 0 <= k < |ms| :: fresh(ms[k]))
    ensures Lineup(mocks, s, ms) && |ms| == |specs| && mocks.log == []
    ensures forall k | 0 <= k < |ms| :: Meets(ms[k], specs[k]) && ms[k].callCount == 0 && !ms[k].retired
  {
    hide Mocks.Valid, InLine, OwnMethods;
    mocks, s := EmptyLine();
    ms := [];
    for n := 0 to |specs|
      invariant fresh(mocks) && fresh(s) && (forall k | 0 <= k < |ms| :: fresh(ms[k]))
      invariant Lineup(mocks, s, ms) && |ms| == n && mocks.log == []
      invariant forall k | 0 <= k < |ms| :: Meets(ms[k], specs[k]) && ms[k].callCount == 0 && !ms[k].retired
    {
      var e := AddMember(mocks, s, ms, specs[n]);
      ms := ms + [e];
    }
  }

  method EmptyLine() returns (mocks: Mocks, s: Sequence)
    ensures fresh(mocks) && fresh(s) && Lineup(mocks, s, []) && mocks.log == []
  {
    mocks := new Mocks();
    s := mocks.NewSequence();
  }

  // ------------------------------------------------------------ calling the members

  /** The k-th member should handle a call that only it matches. */
  lemma {:induction false} MemberShouldHandle(g: Graph, ms: seq<ExpectationBase>, k: nat)
    requires CreationOrdered(g) && InLine(g, ms) && k < |ms| && !ms[k].retired
    requires forall i | 0 <= i < k :: ms[i].IsSatisfied()
    ensures ShouldHandle(g, ms[k], {ms[k]})
  {
    assert Behind(g, ms, k);
    forall x | x in g && IsPrerequisite(g, ms[k], x)
      ensures x.IsSatisfied()
    {
      var i :| 0 <= i < k && ms[..k][i] == x;
    }
  }

  /** How a call to the k-th member changes the i-th. */
  twostate predicate CalledMember(ms: seq<ExpectationBase>, k: nat, i: nat)
    requires k < |ms| && i < |ms|
    reads ms
  {
    && ms[i].callCount == old(ms[i].callCount) + (if i == k then 1 else 0)
    && (ms[i].retired <==>
          || old(ms[i].retired)
          || (!old(ms[k].IsSaturated()) && (i < k || (i == k && ms[k].retiresOnSaturation && ms[k].IsSaturated()))))
  }

  /** A call that only the k-th member matches is handled by it. */
  method CallAlone(mocks: Mocks, s: Sequence, ms: seq<ExpectationBase>, k: nat) returns (ghost excessive: bool)
    requires Lineup(mocks, s, ms) && k < |ms| && ms[k] in mocks.graph && !ms[k].retired
    requires forall i | 0 <= i < k :: ms[i].IsSatisfied()
    modifies mocks`log, mocks`excess, ms`retired, ms`callCount
    ensures Lineup(mocks, s, ms) && mocks.log == old(mocks.log) + [ms[k]] && (excessive <==> old(ms[k].IsSaturated()))
    ensures forall x | x in mocks.graph ::
              && x.callCount == old(x.callCount) + (if x == ms[k] then 1 else 0)
              && (x.retired <==> old(x.retired) || RetiredBy(mocks.graph, ms[k], excessive, x))
  {
    hide InLine, Settled, InOrder, Recorded, ListsInOrder, Sound, IsPrerequisite;
    NoOthers(mocks.graph, ms);
    MemberShouldHandle(mocks.graph, ms, k);
    assert mocks.ExpectationsOf(k) == [ms[k]] && ms[k] in mocks.ExpectationsOf(k);
    var handler;
    handler, excessive := mocks.Call(k, {ms[k]});
    assert handler == ms[k];
  }

  method CallMember(mocks: Mocks, s: Sequence, ms: seq<ExpectationBase>, k: nat)
    requires Lineup(mocks, s, ms) && k < |ms| && !ms[k].retired
    requires forall i | 0 <= i < k :: ms[i].IsSatisfied()
    modifies mocks`log, mocks`excess, ms`retired, ms`callCount
    ensures Lineup(mocks, s, ms) && mocks.log == old(mocks.log) + [ms[k]]
    ensures forall i | 0 <= i < |ms| :: CalledMember(ms, k, i)
  {
    hide InLine, OwnMethods, Settled, InOrder, ListsInOrder, Sound, IsPrerequisite;
    ghost var g := mocks.graph;
    LinePrerequisites(g, ms, k, k);
    ghost var excessive := CallAlone(mocks, s, ms, k);
    forall i | 0 <= i < |ms|
      ensures CalledMember(ms, k, i)
    {
      LinePrerequisites(g, ms, k, i);
    }
  }

  /** Calls the k-th member as often as it asks for. */
  method CallUntilSatisfied(mocks: Mocks, s: Sequence, ms: seq<ExpectationBase>, k: nat)
    requires Lineup(mocks, s, ms) && k < |ms| && !ms[k].retired && ms[k].callCount == 0 && ms[k].cardinality.Valid()
    requires forall i | 0 <= i < k :: ms[i].IsSatisfied()
    modifies mocks`log, mocks`excess, ms`retired, ms`callCount
    ensures Lineup(mocks, s, ms) && ms[k].callCount == ms[k].cardinality.min
    ensures ms[k].retired ==> ms[k].retiresOnSaturation && ms[k].cardinality.min == ms[k].cardinality.max >= 1
    ensures forall i | 0 <= i < |ms| && i != k :: ms[i].callCount == old(ms[i].callCount)
    ensures forall i | k < i < |ms| :: ms[i].retired == old(ms[i].retired)
    ensures |mocks.log| == old(|mocks.log|) + ms[k].cardinality.min
  {
    hide Lineup;
    var n := 0;
    while n < ms[k].cardinality.min
      invariant 0 <= n <= ms[k].cardinality.min && Lineup(mocks, s, ms) && ms[k].callCount == n
      invariant ms[k].retired ==> ms[k].retiresOnSaturation && n == ms[k].cardinality.max >= 1
      invariant forall i | 0 <= i < |ms| && i != k :: ms[i].callCount == old(ms[i].callCount)
      invariant forall i | k < i < |ms| :: ms[i].retired == old(ms[i].retired)
      invariant |mocks.log| == old(|mocks.log|) + n
    {
      label before:
      CallMember(mocks, s, ms, k);
      assert CalledMember@before(ms, k, k);
      forall i | 0 <= i < |ms|
        ensures i != k ==> ms[i].callCount == old@before(ms[i].callCount)
        ensures i > k ==> ms[i].retired == old@before(ms[i].retired)
      {
        assert CalledMember@before(ms, k, i);
      }
      n := n + 1;
    }
  }

  /** In no state of a run has a member been called after a later one, unless that one overtakes it. */
  lemma {:induction false} LineRespected(mocks: Mocks, s: Sequence, ms: seq<ExpectationBase>, specs: seq<Spec>,
                                         i: nat, j: nat, a: nat, b: nat)
    requires Lineup(mocks, s, ms) && i < j < |ms| == |specs| && forall k | 0 <= k < |ms| :: Meets(ms[k], specs[k])
    requires a < b < |mocks.log| && mocks.log[a] == ms[j] && mocks.log[b] == ms[i]
    ensures Overtakes(specs, i, j)
  {
    hide InLine, Settled, InOrder, ListsInOrder, Sound;
    mocks.SequenceRespected(s, j, i, a, b);
    OvertakesInLine(mocks.graph, ms, specs, i, j);
  }

  /**
   Whenever a member of a sequence can overtake an earlier one, some run does it: the members up
   to the earlier one are called as often as they ask for, then the later one, then the earlier.
   */
  method OvertakingRun(specs: seq<Spec>, i: nat, j: nat)
    returns (mocks: Mocks, s: Sequence, ms: seq<ExpectationBase>)
    requires i < j < |specs| && Overtakes(specs, i, j)
    requires forall k | 0 <= k < |specs| :: specs[k].cardinality.Valid()
    ensures Lineup(mocks, s, ms)
    ensures |ms| == |specs| && forall k | 0 <= k < |ms| :: Meets(ms[k], specs[k])
    ensures |mocks.log| == Asked(specs, i + 1) + 2 && mocks.log[|mocks.log| - 2..] == [ms[j], ms[i]]
  {
    hide Mocks.Valid, InLine, OwnMethods;
    mocks, s, ms := ExpectAll(specs);
    for k := 0 to i + 1
      invariant Lineup(mocks, s, ms) && fresh(mocks) && (forall m | 0 <= m < |ms| :: fresh(ms[m]))
      invariant forall m | 0 <= m < |ms| :: ms[m].callCount == if m < k then ms[m].cardinality.min else 0
      invariant forall m | k <= m < |ms| :: !ms[m].retired
      invariant k == i + 1 ==> !ms[i].retired
      invariant |mocks.log| == Asked(specs, k)
    {
      CallUntilSatisfied(mocks, s, ms, k);
    }
    label before:
    CallMember(mocks, s, ms, j);
    assert CalledMember@before(ms, j, i);
    forall m | 0 <= m < i
      ensures ms[m].callCount == old@before(ms[m].callCount)
    {
      assert CalledMember@before(ms, j, m);
    }
    CallMember(mocks, s, ms, i);
  }

  /** At most one call of the first member, none of the second: that one is called although the first never was, and then the first. */
  method ForbiddenCallFirst() returns (mocks: Mocks, s: Sequence, ms: seq<ExpectationBase>)
    ensures Lineup(mocks, s, ms) && |ms| == 2 && mocks.log == [ms[1], ms[0]]
    ensures Meets(ms[0], Spec(Between(0, 1), false)) && Meets(ms[1], Spec(Between(0, 0), false))
  {
    hide Lineup, Meets;
    var specs := [Spec(Between(0, 1), false), Spec(Between(0, 0), false)];
    mocks, s, ms := OvertakingRun(specs, 0, 1);
  }
}
