/**
 Mock expectations and their prerequisites: cardinalities, sequences, the call step,
 retirement and the two queries about unsatisfied prerequisites.
 */
module Expectations {

  /** How many calls an expectation allows; bounds are corrected as at construction. */
  datatype Cardinality = Cardinality(min: int, max: int) {
    predicate IsSatisfiedByCallCount(n: int) {
      min <= n <= max
    }

    predicate IsSaturatedByCallCount(n: int) {
      n >= max
    }

    predicate Valid() {
      0 <= min <= max
    }
  }

  /** The first count that saturates a cardinality also satisfies it, and later ones never do. */
  function Between(min: int, max: int): (c: Cardinality)
    ensures c.Valid() && c.IsSatisfiedByCallCount(c.max)
    ensures forall n :: c.IsSaturatedByCallCount(n) && n != c.max ==> !c.IsSatisfiedByCallCount(n)
    ensures 0 <= min <= max ==> forall n :: c.IsSatisfiedByCallCount(n) <==> min <= n <= max
  {
    var low := if min >= 0 then min else 0;
    Cardinality(low, if max >= low then max else low)
  }

  /** Which expectations each expectation names as immediate prerequisites. */
  type Graph = map<ExpectationBase, set<ExpectationBase>>

  /** Prerequisites were created before the expectations that name them. */
  ghost predicate CreationOrdered(g: Graph) {
    forall e, p | e in g && p in g[e] :: p in g && p.order < e.order
  }

  /** x must be satisfied before e can match: directly, or through another prerequisite. */
  ghost predicate IsPrerequisite(g: Graph, e: ExpectationBase, x: ExpectationBase)
    requires CreationOrdered(g) && e in g
    decreases e.order
  {
    x in g[e] || exists p | p in g[e] :: IsPrerequisite(g, p, x)
  }

  lemma {:induction false} NeverItsOwnPrerequisite(g: Graph, e: ExpectationBase, x: ExpectationBase)
    requires CreationOrdered(g) && e in g && IsPrerequisite(g, e, x)
    ensures x in g && x.order < e.order
    decreases e.order
  {
    if x !in g[e] {
      var p :| p in g[e] && IsPrerequisite(g, p, x);
      NeverItsOwnPrerequisite(g, p, x);
    }
  }

  ghost predicate Extends(g: Graph, h: Graph) {
    forall e | e in g :: e in h && h[e] == g[e]
  }

  lemma {:induction false} PrerequisitesStay(g: Graph, h: Graph, e: ExpectationBase, x: ExpectationBase)
    requires CreationOrdered(g) && CreationOrdered(h) && Extends(g, h) && e in g
    ensures IsPrerequisite(g, e, x) <==> IsPrerequisite(h, e, x)
    decreases e.order
  {
    forall p | p in g[e]
      ensures IsPrerequisite(g, p, x) <==> IsPrerequisite(h, p, x)
    {
      PrerequisitesStay(g, h, p, x);
    }
  }

  /** An expectation is never retired before its immediate prerequisites are. */
  ghost predicate RetiredInOrder(g: Graph)
    reads g.Keys
  {
    forall e, p | e in g && p in g[e] && p in g && e.retired :: p.retired
  }

  lemma {:induction false} RetiredAllTheWay(g: Graph, e: ExpectationBase, x: ExpectationBase)
    requires CreationOrdered(g) && RetiredInOrder(g) && e in g
    requires forall p | p in g[e] :: p.retired
    requires IsPrerequisite(g, e, x)
    ensures x.retired
    decreases e.order
  {
    if x !in g[e] {
      var p :| p in g[e] && IsPrerequisite(g, p, x);
      RetiredAllTheWay(g, p, x);
    }
  }

  /** A chain of immediate prerequisites leads from e through the inner expectations to x. */
  ghost predicate Chain(g: Graph, e: ExpectationBase, older inner: seq<ExpectationBase>, x: ExpectationBase)
    requires CreationOrdered(g) && e in g
    decreases |inner|
  {
    if inner == [] then x in g[e] else inner[0] in g[e] && Chain(g, inner[0], inner[1..], x)
  }

  /** Everything on the way is satisfied and was never called. */
  ghost predicate Idle(g: Graph, inner: seq<ExpectationBase>)
    reads g.Keys
  {
    forall p | p in inner && p in g :: p.IsSatisfied() && p.callCount == 0
  }

  ghost predicate AllSatisfied(g: Graph, inner: seq<ExpectationBase>)
    reads g.Keys
  {
    forall p | p in inner && p in g :: p.IsSatisfied()
  }

  /** x is not satisfied, and nothing but expectations that are satisfied and were never called stands before it. */
  ghost predicate FirstUnsatisfied(g: Graph, e: ExpectationBase, x: ExpectationBase)
    requires CreationOrdered(g) && e in g
    reads g.Keys
  {
    x in g && !x.IsSatisfied() && exists inner :: Chain(g, e, inner, x) && Idle(g, inner)
  }

  ghost function Report(g: Graph, e: ExpectationBase): set<ExpectationBase>
    requires CreationOrdered(g) && e in g
    reads g.Keys
  {
    set x | x in g && FirstUnsatisfied(g, e, x)
  }

  /** The set that FindUnsatisfiedPrerequisites collects, as its code walks the graph. */
  ghost predicate Reported(g: Graph, e: ExpectationBase, x: ExpectationBase)
    requires CreationOrdered(g) && e in g
    reads g.Keys
    decreases e.order
  {
    exists p | p in g[e] ::
      if p.IsSatisfied() then p.callCount == 0 && Reported(g, p, x) else x == p
  }

  ghost function ReportedSet(g: Graph, e: ExpectationBase): set<ExpectationBase>
    requires CreationOrdered(g) && e in g
    reads g.Keys
  {
    set x | x in g && Reported(g, e, x)
  }

  class ExpectationBase {
    ghost const order: nat
    const cardinality: Cardinality
    const retiresOnSaturation: bool
    var immediatePrerequisites: set<ExpectationBase>
    var callCount: int
    var retired: bool

    constructor (ghost order: nat, cardinality: Cardinality, retiresOnSaturation: bool)
      ensures this.order == order && this.cardinality == cardinality
      ensures this.retiresOnSaturation == retiresOnSaturation
      ensures immediatePrerequisites == {} && callCount == 0 && !retired
    {
      this.order, this.cardinality, this.retiresOnSaturation := order, cardinality, retiresOnSaturation;
      immediatePrerequisites, callCount, retired := {}, 0, false;
    }

    predicate IsSatisfied()
      reads this
    {
      cardinality.IsSatisfiedByCallCount(callCount)
    }

    predicate IsSaturated()
      reads this
    {
      cardinality.IsSaturatedByCallCount(callCount)
    }

    /** True iff everything in the transitive closure of the prerequisites is satisfied. */
    method AllPrerequisitesAreSatisfied(ghost g: Graph) returns (ok: bool)
      requires CreationOrdered(g) && this in g && Describes(g)
      ensures ok <==> forall x | x in g && IsPrerequisite(g, this, x) :: x.IsSatisfied()
      decreases order
    {
      var todo := immediatePrerequisites;
      while todo != {}
        invariant todo <= g[this]
        invariant forall p | p in g[this] - todo :: p.IsSatisfied()
        invariant forall p, x | p in g[this] - todo && x in g && IsPrerequisite(g, p, x) :: x.IsSatisfied()
        decreases |todo|
      {
        var p :| p in todo;
        if !p.IsSatisfied() {
          assert IsPrerequisite(g, this, p);
          return false;
        }
        var rest := p.AllPrerequisitesAreSatisfied(g);
        if !rest {
          ghost var x :| x in g && IsPrerequisite(g, p, x) && !x.IsSatisfied();
          assert IsPrerequisite(g, this, x);
          return false;
        }
        todo := todo - {p};
      }
      return true;
    }

    /** Retires exactly the transitive prerequisites, early return included. */
    method RetireAllPreRequisites(ghost g: Graph)
      requires CreationOrdered(g) && this in g && Describes(g) && RetiredInOrder(g)
      modifies g.Keys`retired
      ensures RetiredInOrder(g)
      ensures forall x | x in g :: x.retired <==> old(x.retired) || IsPrerequisite(g, this, x)
      decreases order
    {
      if retired {
        forall x | x in g && IsPrerequisite(g, this, x)
          ensures x.retired
        {
          RetiredAllTheWay(g, this, x);
        }
        return;
      }
      var todo := immediatePrerequisites;
      while todo != {}
        invariant todo <= g[this]
        invariant RetiredInOrder(g)
        invariant forall x | x in g && x.retired :: old(x.retired) || IsPrerequisite(g, this, x)
        invariant forall x | x in g && old(x.retired) :: x.retired
        invariant forall p | p in g[this] - todo :: p.retired
        decreases |todo|
      {
        var p :| p in todo;
        if !p.retired {
          p.RetireAllPreRequisites(g);
          p.retired := true;
        }
        todo := todo - {p};
      }
      forall x | x in g && IsPrerequisite(g, this, x)
        ensures x.retired
      {
        RetiredAllTheWay(g, this, x);
      }
    }

    /**
     The step taken when this expectation handles a call.  An excessive call is only
     counted; any other one retires every transitive prerequisite and, when asked to,
     a saturated expectation itself.
     */
    method GetActionForArguments(ghost g: Graph) returns (excessive: bool)
      requires RunInvariant(g) && this in g && !retired
      requires forall x | x in g && IsPrerequisite(g, this, x) :: x.IsSatisfied()
      modifies g.Keys`retired, `callCount
      ensures RunInvariant(g)
      ensures excessive <==> old(callCount) >= cardinality.max
      ensures callCount == old(callCount) + 1
      ensures excessive ==> forall x | x in g :: x.retired == old(x.retired)
      ensures !excessive ==>
                forall x | x in g ::
                  x.retired <==> || old(x.retired) || IsPrerequisite(g, this, x)
                                 || (x == this && retiresOnSaturation && callCount >= cardinality.max)
    {
      if IsSaturated() {
        callCount := callCount + 1;
        return true;
      }
      if IsPrerequisite(g, this, this) {
        NeverItsOwnPrerequisite(g, this, this);
      }
      callCount := callCount + 1;
      RetireAllPreRequisites(g);
      if retiresOnSaturation && IsSaturated() {
        retired := true;
      }
      forall x | x in g
        ensures Sound(g, x)
      {
        assert x.retired && x != this ==> x.IsSatisfied();
        if x != this && x.callCount > 0 && x.cardinality.max >= 1 {
          assert forall p | p in g[x] :: old(p.retired);
        }
      }
      return false;
    }

    /** Adds to result the unsatisfied prerequisites that stand first on some chain. */
    method FindUnsatisfiedPrerequisites(result: set<ExpectationBase>, ghost g: Graph) returns (found: set<ExpectationBase>)
      requires CreationOrdered(g) && this in g && Describes(g)
      ensures found == result + Report(g, this)
      decreases order
    {
      forall p | p in g
        ensures Report(g, p) == ReportedSet(g, p)
      {
        WalkIsReport(g, p);
      }
      hide Report;
      found := result;
      var todo := immediatePrerequisites;
      while todo != {}
        invariant todo <= g[this]
        invariant result <= found <= result + ReportedSet(g, this)
        invariant forall p | p in g[this] - todo && !p.IsSatisfied() :: p in found
        invariant forall p | p in g[this] - todo && p.IsSatisfied() && p.callCount == 0 :: ReportedSet(g, p) <= found
        decreases |todo|
      {
        var p :| p in todo;
        if p.IsSatisfied() {
          if p.callCount == 0 {
            found := p.FindUnsatisfiedPrerequisites(found, g);
          }
        } else {
          found := found + {p};
        }
        todo := todo - {p};
      }
    }
  }

  /** g lists the prerequisites that the objects hold at present. */
  ghost predicate Describes(g: Graph)
    reads g.Keys
  {
    forall e | e in g :: e.immediatePrerequisites == g[e]
  }

  // ------------------------------------------------------------ runs

  /**
   What holds in every state reached by creating expectations and handling calls: only
   satisfied expectations retire, prerequisites first; an expectation that allows a call and
   has been called has retired its prerequisites; and one that is to retire on saturation has.
   */
  ghost predicate RunInvariant(g: Graph)
    reads g.Keys
  {
    CreationOrdered(g) && forall e | e in g :: Sound(g, e)
  }

  ghost predicate Sound(g: Graph, e: ExpectationBase)
    requires CreationOrdered(g) && e in g
    reads g.Keys
  {
    && e.immediatePrerequisites == g[e]
    && e.cardinality.Valid() && e.callCount >= 0
    && (e.retired ==> e.IsSatisfied())
    && (e.retired || (e.callCount > 0 && e.cardinality.max >= 1) ==> forall p | p in g[e] :: p.retired)
    && (e.retiresOnSaturation && e.callCount >= e.cardinality.max >= 1 ==> e.retired)
  }

  /** Everything reported is a prerequisite, and is unsatisfied. */
  lemma {:induction false} ReportedAreUnsatisfied(g: Graph, e: ExpectationBase, x: ExpectationBase)
    requires CreationOrdered(g) && e in g && Reported(g, e, x)
    ensures IsPrerequisite(g, e, x) && !x.IsSatisfied()
    decreases e.order
  {
    var p :| p in g[e] && if p.IsSatisfied() then p.callCount == 0 && Reported(g, p, x) else x == p;
    if p.IsSatisfied() {
      ReportedAreUnsatisfied(g, p, x);
    }
  }

  lemma {:induction false} WalkIsReport(g: Graph, e: ExpectationBase)
    requires CreationOrdered(g) && e in g
    ensures Report(g, e) == ReportedSet(g, e)
  {
    forall x | x in g
      ensures FirstUnsatisfied(g, e, x) <==> Reported(g, e, x)
    {
      if Reported(g, e, x) {
        ReportedAreUnsatisfied(g, e, x);
        var inner := WalkGivesChain(g, e, x);
      } else if FirstUnsatisfied(g, e, x) {
        var inner :| Chain(g, e, inner, x) && Idle(g, inner);
        ChainIsWalked(g, e, inner, x);
      }
    }
  }

  lemma {:induction false} WalkGivesChain(g: Graph, e: ExpectationBase, x: ExpectationBase) returns (inner: seq<ExpectationBase>)
    requires CreationOrdered(g) && e in g && Reported(g, e, x)
    ensures Chain(g, e, inner, x) && Idle(g, inner)
    decreases e.order
  {
    var p :| p in g[e] && if p.IsSatisfied() then p.callCount == 0 && Reported(g, p, x) else x == p;
    if p.IsSatisfied() {
      var rest := WalkGivesChain(g, p, x);
      inner := [p] + rest;
      assert inner[1..] == rest;
    } else {
      inner := [];
    }
  }

  lemma {:induction false} ChainIsWalked(g: Graph, e: ExpectationBase, inner: seq<ExpectationBase>, x: ExpectationBase)
    requires CreationOrdered(g) && e in g && Chain(g, e, inner, x) && Idle(g, inner) && x in g && !x.IsSatisfied()
    ensures Reported(g, e, x)
    decreases |inner|
  {
    if inner != [] {
      assert inner[0] in inner;
      ChainIsWalked(g, inner[0], inner[1..], x);
    }
  }

  /** A chain through a called expectation ends in something retired, and so satisfied. */
  lemma {:induction false} CalledEndsChain(g: Graph, e: ExpectationBase, inner: seq<ExpectationBase>, x: ExpectationBase)
    requires RunInvariant(g) && e in g && Chain(g, e, inner, x) && AllSatisfied(g, inner) && !Idle(g, inner)
    ensures x in g && x.retired && x.IsSatisfied()
    decreases |inner|
  {
    var p := inner[0];
    if p.callCount > 0 {
      ChainIsPrerequisite(g, p, inner[1..], x);
      RetiredAllTheWay(g, p, x);
      NeverItsOwnPrerequisite(g, p, x);
    } else {
      assert p in inner;
      CalledEndsChain(g, p, inner[1..], x);
    }
  }

  lemma {:induction false} ChainIsPrerequisite(g: Graph, e: ExpectationBase, inner: seq<ExpectationBase>, x: ExpectationBase)
    requires CreationOrdered(g) && e in g && Chain(g, e, inner, x)
    ensures IsPrerequisite(g, e, x)
    decreases |inner|
  {
    if inner != [] {
      ChainIsPrerequisite(g, inner[0], inner[1..], x);
    }
  }

  /** In every state of a run it makes no difference whether the expectations on the way were called. */
  lemma {:induction false} ReportInRun(g: Graph, e: ExpectationBase, x: ExpectationBase)
    requires RunInvariant(g) && e in g
    ensures x in Report(g, e) <==>
            x in g && !x.IsSatisfied() && exists inner :: Chain(g, e, inner, x) && AllSatisfied(g, inner)
  {
    if x in Report(g, e) {
      var inner :| Chain(g, e, inner, x) && Idle(g, inner);
      assert AllSatisfied(g, inner);
    } else if x in g && !x.IsSatisfied() && exists inner :: Chain(g, e, inner, x) && AllSatisfied(g, inner) {
      var inner :| Chain(g, e, inner, x) && AllSatisfied(g, inner);
      if !Idle(g, inner) {
        CalledEndsChain(g, e, inner, x);
      }
    }
  }

  lemma {:induction false} ReportedThrough(g: Graph, e: ExpectationBase, p: ExpectationBase)
    requires CreationOrdered(g) && e in g && p in g[e]
    ensures !p.IsSatisfied() ==> p in ReportedSet(g, e)
    ensures p.IsSatisfied() && p.callCount == 0 ==> ReportedSet(g, p) <= ReportedSet(g, e)
  {
    forall x | x in g && if p.IsSatisfied() then p.callCount == 0 && Reported(g, p, x) else x == p
      ensures Reported(g, e, x)
    {
    }
  }

  /** With nothing reported, every transitive prerequisite is satisfied. */
  lemma {:induction false} NothingReported(g: Graph, e: ExpectationBase, x: ExpectationBase)
    requires RunInvariant(g) && e in g && ReportedSet(g, e) == {}
    requires IsPrerequisite(g, e, x)
    ensures x.IsSatisfied()
    decreases e.order
  {
    forall p | p in g[e]
      ensures p.IsSatisfied() && (p.callCount == 0 ==> ReportedSet(g, p) == {})
    {
      ReportedThrough(g, e, p);
    }
    if x !in g[e] {
      var p :| p in g[e] && IsPrerequisite(g, p, x);
      if p.callCount == 0 {
        NothingReported(g, p, x);
      } else {
        RetiredAllTheWay(g, p, x);
        NeverItsOwnPrerequisite(g, p, x);
      }
    }
  }

  /**
   In every state of a run the report is empty exactly when all transitive prerequisites
   are satisfied, although it never looks behind an expectation already called.
   */
  lemma {:induction false} EmptyReportMeansSatisfied(g: Graph, e: ExpectationBase)
    requires RunInvariant(g) && e in g
    ensures Report(g, e) == {} <==> forall x | x in g && IsPrerequisite(g, e, x) :: x.IsSatisfied()
  {
    WalkIsReport(g, e);
    if ReportedSet(g, e) == {} {
      forall x | x in g && IsPrerequisite(g, e, x)
        ensures x.IsSatisfied()
      {
        NothingReported(g, e, x);
      }
    } else {
      var x :| x in ReportedSet(g, e);
      ReportedAreUnsatisfied(g, e, x);
    }
  }

  /** An ordered sequence of expectations; `members` is the history the source does not keep. */
  class Sequence {
    var lastExpectation: ExpectationBase?
    ghost var members: seq<ExpectationBase>

    constructor ()
      ensures lastExpectation == null && members == []
    {
      lastExpectation, members := null, [];
    }

    /** Each member has the one before it as an immediate prerequisite. */
    ghost predicate Chained(g: Graph)
      reads this
    {
      && lastExpectation == (if members == [] then null else members[|members| - 1])
      && (forall i | 0 <= i < |members| :: members[i] in g)
      && (forall i | 0 < i < |members| :: members[i - 1] in g[members[i]])
    }

    /** Makes the last member a prerequisite of a new one; adding the last member again changes nothing. */
    method AddExpectation(expectation: ExpectationBase, ghost g: Graph)
      requires Chained(g[expectation := expectation.immediatePrerequisites])
      modifies this, expectation`immediatePrerequisites
      ensures Chained(g[expectation := expectation.immediatePrerequisites])
      ensures lastExpectation == expectation
      ensures old(lastExpectation) == expectation ==>
                members == old(members) && expectation.immediatePrerequisites == old(expectation.immediatePrerequisites)
      ensures old(lastExpectation) != expectation ==> members == old(members) + [expectation]
      ensures old(lastExpectation) != expectation ==>
                expectation.immediatePrerequisites == old(expectation.immediatePrerequisites) +
                                                      if old(lastExpectation) == null then {} else {old(lastExpectation)}
    {
      if lastExpectation != expectation {
        if lastExpectation != null {
          expectation.immediatePrerequisites := expectation.immediatePrerequisites + {lastExpectation};
        }
        lastExpectation := expectation;
        members := members + [expectation];
      }
    }
  }

  /** Later members of a sequence have all earlier ones as prerequisites. */
  lemma {:induction false} ChainIsTransitive(s: Sequence, g: Graph, i: nat, j: nat)
    requires CreationOrdered(g) && s.Chained(g) && i < j < |s.members|
    ensures IsPrerequisite(g, s.members[j], s.members[i])
    decreases j
  {
    assert s.members[j - 1] in g[s.members[j]];
    if i < j - 1 {
      ChainIsTransitive(s, g, i, j - 1);
    }
  }

  ghost function LastMembers(ss: set<Sequence>): set<ExpectationBase>
    reads ss
  {
    set s | s in ss && s.lastExpectation != null :: s.lastExpectation
  }

  ghost function Elements(ss: seq<Sequence>): set<Sequence> {
    set s | s in ss
  }

  /** One InSequence clause, which may name a sequence again. */
  method InSequence(e: ExpectationBase, s: Sequence, ghost g: Graph, ghost all: set<Sequence>)
    requires s in all && forall t | t in all :: t.Chained(g[e := e.immediatePrerequisites])
    modifies s, e`immediatePrerequisites
    ensures forall t | t in all :: t.Chained(g[e := e.immediatePrerequisites])
    ensures s.lastExpectation == e
    ensures s.members == old(s.members) + if old(s.lastExpectation) == e then [] else [e]
    ensures e.immediatePrerequisites == old(e.immediatePrerequisites) +
              if old(s.lastExpectation) == null || old(s.lastExpectation) == e then {} else {old(s.lastExpectation)}
  {
    ghost var before := e.immediatePrerequisites;
    s.AddExpectation(e, g);
    forall t | t in all && t != s
      ensures t.Chained(g[e := e.immediatePrerequisites])
    {
      ChainedStays(t, g, e, before, e.immediatePrerequisites);
    }
  }

  /** A sequence before the InSequence clauses of a new expectation. */
  datatype Before = Before(last: ExpectationBase?, members: seq<ExpectationBase>)

  ghost function Snapshot(all: set<Sequence>): (was: map<Sequence, Before>)
    reads all
  {
    map s | s in all :: Before(s.lastExpectation, s.members)
  }

  ghost function LastsIn(was: map<Sequence, Before>, done: set<Sequence>): set<ExpectationBase> {
    set s | s in done && s in was && was[s].last != null :: was[s].last
  }

  /** How far the InSequence clauses of e have got: those of the sequences `done`. */
  ghost predicate Joined(e: ExpectationBase, g: Graph, was: map<Sequence, Before>, done: set<Sequence>)
    reads e, was.Keys
  {
    && done <= was.Keys && e.immediatePrerequisites == LastsIn(was, done)
    && forall s | s in was ::
         && s.Chained(g[e := e.immediatePrerequisites]) && was[s].last != e
         && s.members == was[s].members + (if s in done then [e] else [])
         && s.lastExpectation == if s in done then e else was[s].last
  }

  method JoinNext(e: ExpectationBase, s: Sequence, ghost g: Graph, ghost was: map<Sequence, Before>, ghost done: set<Sequence>)
    requires s in was && Joined(e, g, was, done)
    modifies s, e`immediatePrerequisites
    ensures Joined(e, g, was, done + {s})
  {
    hide Sequence.Chained;
    InSequence(e, s, g, was.Keys);
    assert LastsIn(was, done + {s}) == LastsIn(was, done) + if was[s].last == null then {} else {was[s].last};
  }

  /** The InSequence clauses of a new expectation e, none of whose sequences holds e yet. */
  method JoinSequences(e: ExpectationBase, ss: seq<Sequence>, ghost g: Graph, ghost all: set<Sequence>)
    requires e !in g && e.immediatePrerequisites == {}
    requires Elements(ss) <= all
    requires forall s | s in all :: s.Chained(g)
    modifies all, e`immediatePrerequisites
    ensures e.immediatePrerequisites == old(LastMembers(Elements(ss))) <= g.Keys
    ensures forall s | s in all :: s.members == old(s.members) + if s in ss then [e] else []
    ensures forall s | s in all :: s.Chained(g[e := e.immediatePrerequisites])
  {
    ghost var was := Snapshot(all);
    NothingJoined(e, g, all);
    assert LastMembers(Elements(ss)) == LastsIn(was, Elements(ss)) <= g.Keys;
    JoinAll(e, ss, g, was);
  }

  method JoinAll(e: ExpectationBase, ss: seq<Sequence>, ghost g: Graph, ghost was: map<Sequence, Before>)
    requires Elements(ss) <= was.Keys && Joined(e, g, was, {})
    modifies Elements(ss), e`immediatePrerequisites
    ensures Joined(e, g, was, Elements(ss))
  {
    hide Joined;
    ghost var done: set<Sequence> := {};
    for i := 0 to |ss|
      invariant done <= Elements(ss) && (forall k | 0 <= k < i :: ss[k] in done) && Joined(e, g, was, done)
    {
      assert ss[i] in Elements(ss);
      JoinNext(e, ss[i], g, was, done);
      done := done + {ss[i]};
    }
    assert done == Elements(ss);
  }

  lemma {:induction false} NothingJoined(e: ExpectationBase, g: Graph, all: set<Sequence>)
    requires e !in g && e.immediatePrerequisites == {} && forall s | s in all :: s.Chained(g)
    ensures Joined(e, g, Snapshot(all), {})
  {
  }

  /** A call may be handled: not retired, prerequisites satisfied, arguments accepted. */
  ghost predicate ShouldHandle(g: Graph, e: ExpectationBase, matching: set<ExpectationBase>)
    requires CreationOrdered(g) && e in g
    reads g.Keys
  {
    !e.retired && e in matching && forall x | x in g && IsPrerequisite(g, e, x) :: x.IsSatisfied()
  }

  /**
   Calls to e can come before calls to its prerequisite p: e allows no call, so that a call to
   it is excessive and retires nothing; p need not retire in order to be satisfied; and nothing
   between the two needs a call, which would retire p.
   */
  ghost predicate CanOvertake(g: Graph, e: ExpectationBase, p: ExpectationBase)
    requires CreationOrdered(g) && e in g
  {
    && e.cardinality.max == 0
    && !(p.retiresOnSaturation && p.cardinality.min == p.cardinality.max >= 1)
    && forall x | x in g && IsPrerequisite(g, e, x) && IsPrerequisite(g, x, p) :: x.cardinality.min == 0
  }

  /** The prerequisites of every expectation called so far are retired, unless it can overtake them. */
  ghost predicate Settled(g: Graph, log: seq<ExpectationBase>)
    requires CreationOrdered(g)
    reads g.Keys
  {
    && (forall i | 0 <= i < |log| :: log[i] in g)
    && (forall i, x | 0 <= i < |log| && x in g && IsPrerequisite(g, log[i], x) :: x.retired || CanOvertake(g, log[i], x))
  }

  /** A call is handled after one to an expectation that it is a prerequisite of only if that one can overtake it. */
  ghost predicate InOrder(g: Graph, log: seq<ExpectationBase>)
    requires CreationOrdered(g) && forall i | 0 <= i < |log| :: log[i] in g
  {
    forall i, j | 0 <= i < j < |log| && IsPrerequisite(g, log[i], log[j]) :: CanOvertake(g, log[i], log[j])
  }

  lemma {:induction false} CallKeepsOrder(g: Graph, log: seq<ExpectationBase>, e: ExpectationBase)
    requires CreationOrdered(g) && Settled(g, log) && InOrder(g, log) && e in g && !e.retired
    ensures InOrder(g, log + [e])
  {
    forall i | 0 <= i < |log| && IsPrerequisite(g, log[i], e)
      ensures CanOvertake(g, log[i], e)
    {
    }
  }

  lemma {:induction false} CallSettles(g: Graph, log: seq<ExpectationBase>, e: ExpectationBase)
    requires CreationOrdered(g) && Settled(g, log) && e in g
    requires forall x | x in g && IsPrerequisite(g, e, x) :: x.retired || CanOvertake(g, e, x)
    ensures Settled(g, log + [e])
  {
  }

  ghost predicate PrerequisitesRetired(g: Graph, e: ExpectationBase)
    requires CreationOrdered(g) && e in g
    reads g.Keys
  {
    forall x | x in g && IsPrerequisite(g, e, x) :: x.retired
  }

  lemma {:induction false} CalledHasRetired(g: Graph, e: ExpectationBase)
    requires RunInvariant(g) && e in g && e.callCount > 0 && e.cardinality.max >= 1
    ensures PrerequisitesRetired(g, e)
  {
    forall x | x in g && IsPrerequisite(g, e, x)
      ensures x.retired
    {
      RetiredAllTheWay(g, e, x);
    }
  }

  /** When e should handle a call without allowing one, its prerequisites are retired or can be overtaken. */
  lemma {:induction false} SatisfiedBeforeCall(g: Graph, e: ExpectationBase, x: ExpectationBase)
    requires RunInvariant(g) && e in g && x in g && e.cardinality.max == 0 && IsPrerequisite(g, e, x)
    requires forall y | y in g && IsPrerequisite(g, e, y) :: y.IsSatisfied()
    ensures x.retired || CanOvertake(g, e, x)
  {
    forall y | y in g && IsPrerequisite(g, e, y) && IsPrerequisite(g, y, x) && y.cardinality.min >= 1
      ensures x.retired
    {
      CalledHasRetired(g, y);
    }
  }

  lemma ChainedStays(s: Sequence, g: Graph, e: ExpectationBase, p: set<ExpectationBase>, q: set<ExpectationBase>)
    requires s.Chained(g[e := p]) && p <= q
    ensures s.Chained(g[e := q])
  {
  }

  lemma {:induction false} CreationKeepsRun(g: Graph, e: ExpectationBase)
    requires RunInvariant(g) && e !in g
    requires e.cardinality.Valid() && e.callCount == 0 && !e.retired
    requires e.immediatePrerequisites <= g.Keys && forall x | x in g :: x.order < e.order
    ensures RunInvariant(g[e := e.immediatePrerequisites])
  {
  }

  lemma {:induction false} CreationKeepsLog(g: Graph, e: ExpectationBase, p: set<ExpectationBase>, log: seq<ExpectationBase>)
    requires CreationOrdered(g) && CreationOrdered(g[e := p]) && e !in g
    requires Settled(g, log) && InOrder(g, log)
    ensures Settled(g[e := p], log) && InOrder(g[e := p], log)
  {
    var h := g[e := p];
    forall y, x | y in g
      ensures IsPrerequisite(g, y, x) <==> IsPrerequisite(h, y, x)
      ensures IsPrerequisite(g, y, x) ==> x in g
    {
      PrerequisitesStay(g, h, y, x);
      if IsPrerequisite(g, y, x) {
        NeverItsOwnPrerequisite(g, y, x);
      }
    }
  }

  // ------------------------------------------------------------ what the log tells

  /** How many of the calls logged were handled by e. */
  ghost function Calls(log: seq<ExpectationBase>, e: ExpectationBase): nat {
    if log == [] then 0 else Calls(log[..|log| - 1], e) + if log[|log| - 1] == e then 1 else 0
  }

  /** The i-th call logged came after as many calls to its expectation as that allows. */
  ghost predicate ExcessAt(log: seq<ExpectationBase>, i: nat)
    requires i < |log|
  {
    Calls(log[..i], log[i]) >= log[i].cardinality.max
  }

  /** A call without excess to something x is a prerequisite of, or x saturated and to retire then. */
  ghost predicate RetiredByLog(g: Graph, log: seq<ExpectationBase>, x: ExpectationBase)
    requires CreationOrdered(g)
  {
    || (exists i | 0 <= i < |log| :: log[i] in g && !ExcessAt(log, i) && IsPrerequisite(g, log[i], x))
    || (x.retiresOnSaturation && 1 <= x.cardinality.max <= Calls(log, x))
  }

  ghost predicate Recorded(g: Graph, log: seq<ExpectationBase>, excess: seq<bool>)
    requires CreationOrdered(g)
    reads g.Keys
  {
    && |excess| == |log| && (forall i | 0 <= i < |log| :: excess[i] <==> ExcessAt(log, i))
    && (forall x | x in g :: x.callCount == Calls(log, x) && (x.retired <==> RetiredByLog(g, log, x)))
  }

  lemma {:induction false} CallsAppend(log: seq<ExpectationBase>, e: ExpectationBase, x: ExpectationBase)
    ensures Calls(log + [e], x) == Calls(log, x) + if x == e then 1 else 0
  {
    assert (log + [e])[..|log|] == log;
  }

  lemma {:induction false} CallIsJudged(log: seq<ExpectationBase>, excess: seq<bool>, e: ExpectationBase, last: bool)
    requires |excess| == |log| && (forall i | 0 <= i < |log| :: excess[i] <==> ExcessAt(log, i))
    requires last <==> Calls(log, e) >= e.cardinality.max
    ensures forall i | 0 <= i < |log| + 1 :: (excess + [last])[i] <==> ExcessAt(log + [e], i)
  {
    forall i | 0 <= i < |log|
      ensures ExcessAt(log + [e], i) <==> ExcessAt(log, i)
    {
      assert (log + [e])[..i] == log[..i];
    }
    assert (log + [e])[..|log|] == log;
  }

  lemma {:induction false} RetiredStep(g: Graph, log: seq<ExpectationBase>, e: ExpectationBase, x: ExpectationBase)
    requires CreationOrdered(g) && e in g
    ensures RetiredByLog(g, log + [e], x) <==>
            || RetiredByLog(g, log, x)
            || (Calls(log, e) < e.cardinality.max &&
                (IsPrerequisite(g, e, x) || (x == e && e.retiresOnSaturation && Calls(log, e) + 1 >= e.cardinality.max)))
  {
    var log' := log + [e];
    CallsAppend(log, e, x);
    assert log'[..|log|] == log && log'[|log|] == e;
    assert ExcessAt(log', |log|) <==> Calls(log, e) >= e.cardinality.max;
    forall i | 0 <= i < |log|
      ensures log'[i] == log[i] && (ExcessAt(log', i) <==> ExcessAt(log, i))
    {
      assert log'[..i] == log[..i];
    }
  }

  lemma {:induction false} NeverLogged(log: seq<ExpectationBase>, e: ExpectationBase)
    requires e !in log
    ensures Calls(log, e) == 0
  {
    if log != [] {
      NeverLogged(log[..|log| - 1], e);
    }
  }

  lemma LoggedAreKnown(g: Graph, log: seq<ExpectationBase>)
    requires CreationOrdered(g) && Settled(g, log)
    ensures forall x | x in log :: x in g
  {
  }

  lemma {:induction false} CreationKeepsRecord(g: Graph, e: ExpectationBase, p: set<ExpectationBase>,
                                               log: seq<ExpectationBase>, excess: seq<bool>)
    requires CreationOrdered(g) && CreationOrdered(g[e := p]) && e !in g && Recorded(g, log, excess)
    requires (forall x | x in log :: x in g) && e.callCount == 0 && !e.retired
    ensures Recorded(g[e := p], log, excess)
  {
    var h := g[e := p];
    NeverLogged(log, e);
    forall x
      ensures RetiredByLog(h, log, x) <==> RetiredByLog(g, log, x)
      ensures !RetiredByLog(g, log, e)
    {
      forall i | 0 <= i < |log|
        ensures IsPrerequisite(h, log[i], x) <==> IsPrerequisite(g, log[i], x)
        ensures !IsPrerequisite(g, log[i], e)
      {
        assert log[i] in log;
        PrerequisitesStay(g, h, log[i], x);
        if IsPrerequisite(g, log[i], e) {
          NeverItsOwnPrerequisite(g, log[i], e);
        }
      }
    }
  }

  /** The step of one call, kept on record. */
  method RecordCall(e: ExpectationBase, ghost g: Graph, ghost log: seq<ExpectationBase>, ghost excess: seq<bool>)
    returns (excessive: bool)
    requires RunInvariant(g) && e in g && !e.retired && Recorded(g, log, excess)
    requires forall x | x in g && IsPrerequisite(g, e, x) :: x.IsSatisfied()
    modifies g.Keys`retired, e`callCount
    ensures RunInvariant(g) && Recorded(g, log + [e], excess + [excessive])
    ensures excessive <==> old(e.callCount) >= e.cardinality.max
    ensures e.callCount == old(e.callCount) + 1 >= 1 && e.cardinality.Valid()
    ensures forall x | x in g :: x.retired <==> old(x.retired) || RetiredBy(g, e, excessive, x)
  {
    assert Sound(g, e);
    hide Sound;
    excessive := e.GetActionForArguments(g);
    forall x | x in g
      ensures x.callCount == Calls(log + [e], x) && (x.retired <==> RetiredByLog(g, log + [e], x))
    {
      CallsAppend(log, e, x);
      RetiredStep(g, log, e, x);
    }
    CallIsJudged(log, excess, e, excessive);
  }

  /** A call that e handled without excess retires e's prerequisites, and e itself if so specified. */
  ghost predicate RetiredBy(g: Graph, e: ExpectationBase, excessive: bool, x: ExpectationBase)
    requires CreationOrdered(g) && e in g
    reads e
  {
    !excessive && (IsPrerequisite(g, e, x) || (x == e && e.retiresOnSaturation && e.callCount >= e.cardinality.max))
  }

  method CreateExpectation(ghost order: nat, cardinality: Cardinality, retiresOnSaturation: bool, inSequences: seq<Sequence>,
                           after: set<ExpectationBase>, ghost g: Graph, ghost all: set<Sequence>)
    returns (e: ExpectationBase)
    requires RunInvariant(g) && (forall x | x in g :: x.order < order)
    requires cardinality.Valid() && after <= g.Keys
    requires Elements(inSequences) <= all
    requires forall s | s in all :: s.Chained(g)
    modifies all
    ensures fresh(e) && e.order == order && e.cardinality == cardinality && e.retiresOnSaturation == retiresOnSaturation
    ensures e.callCount == 0 && !e.retired
    ensures e.immediatePrerequisites == old(LastMembers(Elements(inSequences))) + after
    ensures RunInvariant(g[e := e.immediatePrerequisites])
    ensures forall s | s in all :: s.members == old(s.members) + if s in inSequences then [e] else []
    ensures forall s | s in all :: s.Chained(g[e := e.immediatePrerequisites])
  {
    e := new ExpectationBase(order, cardinality, retiresOnSaturation);
    JoinSequences(e, inSequences, g, all);
    ghost var joined := e.immediatePrerequisites;
    e.immediatePrerequisites := e.immediatePrerequisites + after;
    CreationKeepsRun(g, e);
    forall s | s in all
      ensures s.Chained(g[e := e.immediatePrerequisites])
    {
      ChainedStays(s, g, e, joined, e.immediatePrerequisites);
    }
  }

  ghost predicate InCreationOrder(g: Graph, expectations: seq<ExpectationBase>) {
    && (forall i | 0 <= i < |expectations| :: expectations[i] in g)
    && (forall i, j | 0 <= i < j < |expectations| :: expectations[i].order < expectations[j].order)
  }

  type Method = nat

  function ListOf(lists: map<Method, seq<ExpectationBase>>, m: Method): seq<ExpectationBase> {
    if m in lists then lists[m] else []
  }

  ghost predicate ListsInOrder(g: Graph, lists: map<Method, seq<ExpectationBase>>) {
    forall m | m in lists :: InCreationOrder(g, lists[m])
  }

  lemma {:induction false} CreationKeepsLists(g: Graph, e: ExpectationBase, p: set<ExpectationBase>,
                                              lists: map<Method, seq<ExpectationBase>>, m: Method)
    requires e !in g && (forall x | x in g :: x.order < e.order)
    requires ListsInOrder(g, lists)
    ensures ListsInOrder(g[e := p], lists[m := ListOf(lists, m) + [e]])
  {
    forall k | k in lists
      ensures InCreationOrder(g[e := p], lists[k])
    {
    }
    assert InCreationOrder(g[e := p], ListOf(lists, m) + [e]);
  }

  /** e is the newest of the expectations that should handle a call accepted by `matching`. */
  ghost predicate NewestToHandle(g: Graph, expectations: seq<ExpectationBase>, matching: set<ExpectationBase>,
                                 e: ExpectationBase)
    requires CreationOrdered(g) && InCreationOrder(g, expectations) && e in g
    reads g.Keys
  {
    && e in expectations && ShouldHandle(g, e, matching)
    && forall x | x in expectations && x.order > e.order :: !ShouldHandle(g, x, matching)
  }

  /** Tries the newest expectation first. */
  method FindMatchingExpectation(expectations: seq<ExpectationBase>, matching: set<ExpectationBase>, ghost g: Graph)
    returns (handler: ExpectationBase?)
    requires CreationOrdered(g) && Describes(g) && InCreationOrder(g, expectations)
    ensures handler == null <==> forall x | x in expectations :: !ShouldHandle(g, x, matching)
    ensures handler != null ==> handler in g && NewestToHandle(g, expectations, matching, handler)
  {
    var i := |expectations|;
    while i > 0
      invariant 0 <= i <= |expectations|
      invariant forall j | i <= j < |expectations| :: !ShouldHandle(g, expectations[j], matching)
    {
      i := i - 1;
      var e := expectations[i];
      if !e.retired && e in matching {
        var satisfied := e.AllPrerequisitesAreSatisfied(g);
        if satisfied {
          assert e in expectations && ShouldHandle(g, e, matching);
          return e;
        }
      }
    }
    return null;
  }

  /** Every mock method with its expectations, every sequence, and every call handled so far. */
  class Mocks {
    var expectations: map<Method, seq<ExpectationBase>>
    ghost var graph: Graph
    ghost var sequences: set<Sequence>
    ghost var log: seq<ExpectationBase>
    ghost var excess: seq<bool>
    ghost var created: nat

    ghost predicate Valid()
      reads this, graph.Keys, sequences
    {
      && RunInvariant(graph)
      && (forall e | e in graph :: e.order < created)
      && ListsInOrder(graph, expectations)
      && (forall s | s in sequences :: s.Chained(graph))
      && Settled(graph, log) && InOrder(graph, log) && Recorded(graph, log, excess)
    }

    function ExpectationsOf(m: Method): seq<ExpectationBase>
      reads `expectations
    {
      ListOf(expectations, m)
    }

    constructor ()
      ensures Valid() && expectations == map[] && graph == map[] && sequences == {} && log == [] && excess == []
    {
      expectations, graph, sequences, log, excess, created := map[], map[], {}, [], [], 0;
    }

    method NewSequence() returns (s: Sequence)
      requires Valid()
      modifies `sequences
      ensures Valid() && fresh(s) && s.members == [] && s.lastExpectation == null
      ensures sequences == old(sequences) + {s}
    {
      s := new Sequence();
      sequences := sequences + {s};
    }

    /**
     An EXPECT_CALL statement for a method: a new expectation placed after the last member of
     each given sequence and after the expectations named in its After clause.
     */
    method Expect(m: Method, cardinality: Cardinality, retiresOnSaturation: bool, inSequences: seq<Sequence>,
                  after: set<ExpectationBase>) returns (e: ExpectationBase)
      requires Valid() && cardinality.Valid() && after <= graph.Keys
      requires Elements(inSequences) <= sequences
      modifies `expectations, `graph, `created, sequences
      ensures Valid() && fresh(e)
      ensures expectations == old(expectations)[m := old(ExpectationsOf(m)) + [e]]
      ensures graph == old(graph)[e := e.immediatePrerequisites]
      ensures e.cardinality == cardinality && e.retiresOnSaturation == retiresOnSaturation
      ensures e.callCount == 0 && !e.retired
      ensures e.immediatePrerequisites == old(LastMembers(Elements(inSequences))) + after
      ensures forall s | s in sequences :: s.members == old(s.members) + if s in inSequences then [e] else []
    {
      hide ListsInOrder, Settled, InOrder, Recorded, Sound, Sequence.Chained;
      assert forall x | x in log :: x in graph by {
        LoggedAreKnown(graph, log);
      }
      e := CreateExpectation(created, cardinality, retiresOnSaturation, inSequences, after, graph, sequences);
      CreationKeepsLog(graph, e, e.immediatePrerequisites, log);
      CreationKeepsRecord(graph, e, e.immediatePrerequisites, log, excess);
      CreationKeepsLists(graph, e, e.immediatePrerequisites, expectations, m);
      graph, created := graph[e := e.immediatePrerequisites], created + 1;
      expectations := expectations[m := ExpectationsOf(m) + [e]];
    }

    /**
     The expectation e handles a call that it should handle.  Afterwards its prerequisites are
     retired, unless it allows no call and they were not retired before.
     */
    method Handle(e: ExpectationBase, ghost matching: set<ExpectationBase>) returns (excessive: bool)
      requires Valid() && e in graph && ShouldHandle(graph, e, matching)
      modifies `log, `excess, graph.Keys`retired, e`callCount
      ensures Valid() && log == old(log) + [e] && excess == old(excess) + [excessive]
      ensures e.callCount == old(e.callCount) + 1 && (excessive <==> old(e.callCount) >= e.cardinality.max)
      ensures forall x | x in graph :: x.retired <==> old(x.retired) || RetiredBy(graph, e, excessive, x)
      ensures PrerequisitesRetired(graph, e) <==> e.cardinality.max >= 1 || old(PrerequisitesRetired(graph, e))
    {
      hide Recorded, InOrder, Sound, Sequence.Chained, ListsInOrder;
      CallKeepsOrder(graph, log, e);
      forall x | x in graph && IsPrerequisite(graph, e, x) && e.cardinality.max == 0
        ensures x.retired || CanOvertake(graph, e, x)
      {
        SatisfiedBeforeCall(graph, e, x);
      }
      excessive := RecordCall(e, graph, log, excess);
      if e.cardinality.max >= 1 {
        CalledHasRetired(graph, e);
      }
      CallSettles(graph, log, e);
      log, excess := log + [e], excess + [excessive];
    }

    /** A call on a mock method: the newest expectation that should handle it does; when none should, nothing changes. */
    method Call(m: Method, matching: set<ExpectationBase>) returns (handler: ExpectationBase?, excessive: bool)
      requires Valid()
      modifies `log, `excess, graph.Keys`retired, graph.Keys`callCount
      ensures Valid()
      ensures handler == null <==> old(forall x | x in ExpectationsOf(m) :: !ShouldHandle(graph, x, matching))
      ensures handler == null ==>
                log == old(log) && excess == old(excess) && forall x | x in graph :: x.retired == old(x.retired)
      ensures handler != null ==>
                && handler in graph && old(NewestToHandle(graph, ExpectationsOf(m), matching, handler))
                && handler in matching && handler in ExpectationsOf(m) && !old(handler.retired)
                && (forall x | x in graph && IsPrerequisite(graph, handler, x) ::
                      x.cardinality.min <= old(x.callCount) <= x.cardinality.max)
                && log == old(log) + [handler] && excess == old(excess) + [excessive]
                && (excessive <==> old(handler.callCount) >= handler.cardinality.max)
                && (forall x | x in graph :: x.retired <==> old(x.retired) || RetiredBy(graph, handler, excessive, x))
      ensures forall x | x in graph :: x.callCount == old(x.callCount) + if x == handler then 1 else 0
    {
      excessive := false;
      handler := FindMatchingExpectation(ExpectationsOf(m), matching, graph);
      if handler != null {
        excessive := Handle(handler, matching);
      }
    }

    /**
     The log alone tells the state of every expectation: how often it was called, and so
     whether it is satisfied and saturated, and whether it has retired.
     */
    lemma {:induction false} LogTellsState(e: ExpectationBase)
      requires Valid() && e in graph
      ensures e.callCount == Calls(log, e)
      ensures e.IsSatisfied() <==> e.cardinality.min <= Calls(log, e) <= e.cardinality.max
      ensures e.IsSaturated() <==> Calls(log, e) >= e.cardinality.max
      ensures e.retired <==> RetiredByLog(graph, log, e)
    {
    }

    /** A call was excessive iff as many calls as its expectation allows had been handled by it before. */
    lemma {:induction false} ExcessIsLate(i: nat)
      requires Valid() && i < |log|
      ensures |excess| == |log| && (excess[i] <==> Calls(log[..i], log[i]) >= log[i].cardinality.max)
    {
      assert ExcessAt(log, i) <==> excess[i];
    }

    /**
     Calls to the members of one sequence, excessive ones included, were handled in the order of
     the sequence, except where a member that allows no call can overtake an earlier one.
     */
    lemma {:induction false} SequenceRespected(s: Sequence, i: nat, j: nat, a: nat, b: nat)
      requires Valid() && s in sequences && i < |s.members| && j < |s.members|
      requires a < b < |log| && log[a] == s.members[i] && log[b] == s.members[j]
      ensures i <= j || CanOvertake(graph, s.members[i], s.members[j])
    {
      if j < i {
        ChainIsTransitive(s, graph, j, i);
      }
    }
  }
}
