/**
 * Concrete instances: renderings of small expressions, the expression
 * `Star(Empty)` on which the closure loop never stops, and the expression
 * A(B|C)D of the command-line example, whose DFA has five nodes and
 * accepts exactly ABD and ACD.
 */
module Samples {
  import R = Regex
  import opened Automaton
  import opened Reach
  import opened Nfa
  import opened Dfa
  import opened Language
  import opened Pipeline

  /** The symbol type of the command-line example. */
  datatype Step = A | B | C | D

  function Show(s: Step): string {
    match s
    case A => "A"
    case B => "B"
    case C => "C"
    case D => "D"
  }

  /** The expression of the example, built with the composition operators. */
  function Example(): R.Regex<Step> {
    R.Literal(A).Concatenate(R.Literal(B).Alternate(R.Literal(C))).Concatenate(R.Literal(D))
  }

  lemma ExampleRenders()
    ensures R.Render(R.Literal(B).Alternate(R.Literal(C)).Concatenate(R.Literal(D)), Show) == "(B|C)D"
    ensures R.Render(Example(), Show) == "A(B|C)D"
    ensures R.Render(R.Literal(A).Starred().Starred(), Show) == "A**"
    ensures R.Render(R.Regex<Step>.Empty.Starred(), Show) == R.EMPTY_TEXT + "*"
  {
  }

  // ---------------------------------------------------------------------
  // Star(Empty): an empty cycle

  /** The NFA of `Star(Empty)`: an empty edge each way between nodes 1 and 2. */
  lemma StarEmptyNfa()
    ensures NfaOf(R.Regex<Step>.Empty.Starred())
         == Arena([Start, Standard, Final], [Edge(1, 2, Empty), Edge(2, 1, Empty), Edge(0, 1, Empty)])
  {
  }

  /** On `Star(Empty)` no frontier of the closure from the start is ever empty. */
  lemma StarEmptyDiverges()
    ensures CycleReachable(NfaOf(R.Regex<Step>.Empty.Starred()), {0}, Empty)
    ensures forall k :: Frontier(NfaOf(R.Regex<Step>.Empty.Starred()), {0}, Empty, k) != {}
    ensures !EpsAcyclic(NfaOf(R.Regex<Step>.Empty.Starred()))
  {
    var g := NfaOf(R.Regex<Step>.Empty.Starred());
    StarEmptyNfa();
    assert Successors(g, {0}, Empty) == {1};
    assert Successors(g, {1}, Empty) == {2};
    assert Successors(g, {2}, Empty) == {1};
    assert Frontier(g, {1}, Empty, 2) == {1};
    assert 1 in Frontier(g, {0}, Empty, 1);
    assert OnCycle(g, Empty, 1);
    forall k: nat ensures Frontier(g, {0}, Empty, k) != {} {
      CycleNeverEmpties(g, {0}, Empty, k);
    }
    EpsAcyclicIff(g);
  }

  // ---------------------------------------------------------------------
  // The command-line example A(B|C)D

  /** The NFA of the example: B and C branch from node 1 and join at node 2 by empty edges. */
  function ExampleNfa(): Arena<Step> {
    Arena([Start, Standard, Standard, Standard, Standard, Final],
          [Edge(0, 1, Literal(A)), Edge(1, 3, Literal(B)), Edge(3, 2, Empty),
           Edge(1, 4, Literal(C)), Edge(4, 2, Empty), Edge(2, 5, Literal(D))])
  }

  lemma ExampleNfaIs()
    ensures NfaOf(Example()) == ExampleNfa()
    ensures FinalNode(Example()) == 5
  {
  }

  /** The successors in the example, edge by edge. */
  lemma ExampleSuccessors(S: set<nat>, l: BranchLabel<Step>)
    ensures forall v :: v in Successors(ExampleNfa(), S, l) <==>
      || (0 in S && l == Literal(A) && v == 1)
      || (1 in S && l == Literal(B) && v == 3)
      || (3 in S && l == Empty && v == 2)
      || (1 in S && l == Literal(C) && v == 4)
      || (4 in S && l == Empty && v == 2)
      || (2 in S && l == Literal(D) && v == 5)
  {
    var g := ExampleNfa();
    forall v ensures v in Successors(g, S, l) <==>
      || (0 in S && l == Literal(A) && v == 1)
      || (1 in S && l == Literal(B) && v == 3)
      || (3 in S && l == Empty && v == 2)
      || (1 in S && l == Literal(C) && v == 4)
      || (4 in S && l == Empty && v == 2)
      || (2 in S && l == Literal(D) && v == 5)
    {
      TargetsMember(g, S, l, 6, v);
      assert g.edges[0] == Edge(0, 1, Literal(A));
      assert g.edges[1] == Edge(1, 3, Literal(B));
      assert g.edges[2] == Edge(3, 2, Empty);
      assert g.edges[3] == Edge(1, 4, Literal(C));
      assert g.edges[4] == Edge(4, 2, Empty);
      assert g.edges[5] == Edge(2, 5, Literal(D));
    }
  }

  lemma ExampleNodeSet()
    ensures Nodes(ExampleNfa()) == {0, 1, 2, 3, 4, 5}
  {
    assert Range(6) == {0, 1, 2, 3, 4, 5};
  }

  /** Over all nodes, one round of empty edges leads to the join node 2 and a second to nothing. */
  lemma AcyclicFrontiers()
    ensures Frontier(ExampleNfa(), {0, 1, 2, 3, 4, 5}, Empty, 1) == {2}
    ensures Frontier(ExampleNfa(), {0, 1, 2, 3, 4, 5}, Empty, 2) == {}
  {
    ExampleSuccessors({0, 1, 2, 3, 4, 5}, Empty);
    assert Successors(ExampleNfa(), {0, 1, 2, 3, 4, 5}, Empty) == {2};
    ExampleSuccessors({2}, Empty);
    assert Successors(ExampleNfa(), {2}, Empty) == {};
  }

  /** The example has no cycle of empty edges, so the conversion applies to it. */
  lemma ExampleAcyclic()
    ensures EpsAcyclic(ExampleNfa())
  {
    ExampleNodeSet();
    AcyclicFrontiers();
    FrontierStaysEmpty(ExampleNfa(), Nodes(ExampleNfa()), Empty, 2, 6);
  }

  /** A node without an empty edge out of it is its own closure. */
  lemma ClosedClosure(v: nat)
    requires v == 0 || v == 1 || v == 5
    ensures EpsClosure(ExampleNfa(), {v}) == {v}
  {
    ExampleSuccessors({v}, Empty);
    assert Successors(ExampleNfa(), {v}, Empty) == {};
    EpsClosedFixpoint(ExampleNfa(), {v});
  }

  /** From a branch node one empty edge leads to the join node 2, and none leaves that. */
  lemma BranchFrontiers(branch: nat)
    requires branch == 3 || branch == 4
    ensures Frontier(ExampleNfa(), {branch}, Empty, 1) == {2}
    ensures Frontier(ExampleNfa(), {branch}, Empty, 2) == {}
  {
    ExampleSuccessors({branch}, Empty);
    assert Successors(ExampleNfa(), {branch}, Empty) == {2};
    ExampleSuccessors({2}, Empty);
    assert Successors(ExampleNfa(), {2}, Empty) == {};
  }

  /** A branch node closes with the join node. */
  lemma BranchClosure(branch: nat)
    requires branch == 3 || branch == 4
    ensures EpsClosure(ExampleNfa(), {branch}) == {2, branch}
  {
    var g := ExampleNfa();
    BranchFrontiers(branch);
    assert Collected(g, {branch}, Empty, 1) == {branch} + {2};
    assert Collected(g, {branch}, Empty, 2) == {branch} + {2};
    CollectedIsEpsClosure(g, {branch}, 2);
  }

  /** The epsilon-closures of the subsets the example meets. */
  lemma ExampleClosures()
    ensures EpsClosure(ExampleNfa(), {0}) == {0}
    ensures EpsClosure(ExampleNfa(), {1}) == {1}
    ensures EpsClosure(ExampleNfa(), {3}) == {2, 3}
    ensures EpsClosure(ExampleNfa(), {4}) == {2, 4}
    ensures EpsClosure(ExampleNfa(), {5}) == {5}
  {
    ClosedClosure(0);
    ClosedClosure(1);
    ClosedClosure(5);
    BranchClosure(3);
    BranchClosure(4);
  }

  /** The subset reached from `S` by the symbol `x`. */
  ghost function Delta(S: set<nat>, x: Step): set<nat> {
    EpsClosure(ExampleNfa(), Successors(ExampleNfa(), S, Literal(x)))
  }

  /** The transitions out of the start subset: only A leads anywhere. */
  lemma DeltaStart(x: Step)
    ensures Delta({0}, x) == if x == A then {1} else {}
  {
    ExampleSuccessors({0}, Literal(x));
    if x == A {
      assert Successors(ExampleNfa(), {0}, Literal(x)) == {1};
      ExampleClosures();
    } else {
      assert Successors(ExampleNfa(), {0}, Literal(x)) == {};
      EpsClosureNone(ExampleNfa());
    }
  }

  /** The transitions out of `{1}`: B and C enter the two branches, each closed with the join. */
  lemma DeltaBranch(x: Step)
    ensures Delta({1}, x) == if x == B then {2, 3} else if x == C then {2, 4} else {}
  {
    ExampleSuccessors({1}, Literal(x));
    if x == B {
      assert Successors(ExampleNfa(), {1}, Literal(x)) == {3};
      ExampleClosures();
    } else if x == C {
      assert Successors(ExampleNfa(), {1}, Literal(x)) == {4};
      ExampleClosures();
    } else {
      assert Successors(ExampleNfa(), {1}, Literal(x)) == {};
      EpsClosureNone(ExampleNfa());
    }
  }

  /** The transitions out of either branch subset: only D leads on, to the Final node. */
  lemma DeltaJoin(x: Step, branch: nat)
    requires branch == 3 || branch == 4
    ensures Delta({2, branch}, x) == if x == D then {5} else {}
  {
    ExampleSuccessors({2, branch}, Literal(x));
    if x == D {
      assert Successors(ExampleNfa(), {2, branch}, Literal(x)) == {5};
      ExampleClosures();
    } else {
      assert Successors(ExampleNfa(), {2, branch}, Literal(x)) == {};
      EpsClosureNone(ExampleNfa());
    }
  }

  /** Nothing leaves the Final subset. */
  lemma DeltaFinal(x: Step)
    ensures Delta({5}, x) == {}
  {
    ExampleSuccessors({5}, Literal(x));
    assert Successors(ExampleNfa(), {5}, Literal(x)) == {};
    EpsClosureNone(ExampleNfa());
  }

  lemma AcceptedFrom5(w: seq<Step>)
    ensures HasFinal(ExampleNfa(), Move(ExampleNfa(), {5}, w)) <==> w == []
  {
    if w == [] {
      assert ExampleNfa().tags[5] == Final;
    } else {
      DeltaFinal(w[0]);
      MoveNone(ExampleNfa(), w[1..]);
    }
  }

  lemma AcceptedFromJoin(w: seq<Step>, branch: nat)
    requires branch == 3 || branch == 4
    ensures HasFinal(ExampleNfa(), Move(ExampleNfa(), {2, branch}, w)) <==> w == [D]
  {
    if w != [] {
      DeltaJoin(w[0], branch);
      if w[0] == D {
        AcceptedFrom5(w[1..]);
        assert w == [D] <==> w[1..] == [];
      } else {
        MoveNone(ExampleNfa(), w[1..]);
      }
    }
  }

  lemma AcceptedFrom1(w: seq<Step>)
    ensures HasFinal(ExampleNfa(), Move(ExampleNfa(), {1}, w)) <==> w == [B, D] || w == [C, D]
  {
    if w != [] {
      DeltaBranch(w[0]);
      if w[0] == B {
        AcceptedFromJoin(w[1..], 3);
        assert w == [B, D] <==> w[1..] == [D];
      } else if w[0] == C {
        AcceptedFromJoin(w[1..], 4);
        assert w == [C, D] <==> w[1..] == [D];
      } else {
        MoveNone(ExampleNfa(), w[1..]);
      }
    }
  }

  lemma AcceptedFrom0(w: seq<Step>)
    ensures HasFinal(ExampleNfa(), Move(ExampleNfa(), {0}, w)) <==> w == [A, B, D] || w == [A, C, D]
  {
    if w != [] {
      DeltaStart(w[0]);
      if w[0] == A {
        AcceptedFrom1(w[1..]);
        assert w == [A, B, D] <==> w[1..] == [B, D];
        assert w == [A, C, D] <==> w[1..] == [C, D];
      } else {
        MoveNone(ExampleNfa(), w[1..]);
      }
    }
  }

  /** The NFA of A(B|C)D accepts exactly ABD and ACD. */
  lemma ExampleLanguage(w: seq<Step>)
    ensures NfaAccepts(ExampleNfa(), 0, w) <==> w == [A, B, D] || w == [A, C, D]
  {
    ClosedClosure(0);
    AcceptedFrom0(w);
  }

  /** The five subsets the conversion of the example meets. */
  ghost function ExampleSubsets(): set<set<nat>> {
    {{0}, {1}, {2, 3}, {2, 4}, {5}}
  }

  /** A symbol leads from one of the five subsets to another or to the empty subset. */
  lemma ExampleSubsetsClosed(S: set<nat>, x: Step)
    requires S in ExampleSubsets() && Delta(S, x) != {}
    ensures Delta(S, x) in ExampleSubsets()
  {
    if S == {0} {
      DeltaStart(x);
    } else if S == {1} {
      DeltaBranch(x);
    } else if S == {2, 3} {
      DeltaJoin(x, 3);
    } else if S == {2, 4} {
      DeltaJoin(x, 4);
    } else {
      DeltaFinal(x);
    }
  }

  lemma FiveSubsets()
    ensures |ExampleSubsets()| == 5
  {
    var F := {{0}, {1}, {2, 3}};
    assert {0} != {1} && 0 !in {2, 3} && 1 !in {2, 3};
    assert |F| == 3;
    assert 4 !in {0} && 4 !in {1} && 4 !in {2, 3};
    assert |F + {{2, 4}}| == 4;
    assert 5 !in {0} && 5 !in {1} && 5 !in {2, 3} && 5 !in {2, 4};
    assert ExampleSubsets() == F + {{2, 4}} + {{5}};
  }

  /** The five subsets are closed under the steps of the example. */
  lemma ExampleFamilyClosed(nfa: Arena<Step>)
    requires nfa == ExampleNfa()
    ensures forall S, x :: S in ExampleSubsets() && EpsClosure(nfa, Successors(nfa, S, Literal(x))) != {} ==>
      EpsClosure(nfa, Successors(nfa, S, Literal(x))) in ExampleSubsets()
  {
    forall S, x | S in ExampleSubsets() && EpsClosure(nfa, Successors(nfa, S, Literal(x))) != {}
      ensures EpsClosure(nfa, Successors(nfa, S, Literal(x))) in ExampleSubsets()
    {
      assert Delta(S, x) == EpsClosure(nfa, Successors(nfa, S, Literal(x)));
      ExampleSubsetsClosed(S, x);
    }
  }

  /** Every subset of a subset automaton of the example is one of the five. */
  lemma SubsetsWithin(nfa: Arena<Step>, sets: seq<set<nat>>, d: Arena<Step>)
    requires nfa == ExampleNfa() && SubsetAutomaton(nfa, 0, sets, d)
    ensures forall i :: 0 <= i < |sets| ==> sets[i] in ExampleSubsets()
  {
    ExampleClosures();
    ExampleFamilyClosed(nfa);
    forall i | 0 <= i < |sets| ensures sets[i] in ExampleSubsets() {
      SubsetsIn(nfa, 0, sets, d, ExampleSubsets(), i);
    }
  }

  /** Each of the five subsets is among subsets that hold `{0}` and are closed under the steps. */
  lemma SubsetsPresent(nfa: Arena<Step>, sets: seq<set<nat>>)
    requires nfa == ExampleNfa() && |sets| >= 1 && sets[0] == {0} && StepsPresent(nfa, sets)
    ensures ExampleSubsets() <= Elems(sets)
  {
    assert {0} in sets;
    DeltaStart(A);
    assert Delta({0}, A) == {1};
    DeltaBranch(B);
    DeltaBranch(C);
    assert Delta({1}, B) == {2, 3};
    assert Delta({1}, C) == {2, 4};
    DeltaJoin(D, 3);
    assert Delta({2, 3}, D) == {5};
  }

  /** Distinct subsets drawn from the five, covering them, are five. */
  lemma FiveNodes(sets: seq<set<nat>>)
    requires Distinct(sets) && Elems(sets) == ExampleSubsets()
    ensures |sets| == 5
  {
    DistinctCard(sets);
    FiveSubsets();
  }

  /** The five subsets are all nodes of a subset automaton of the example, and no others. */
  lemma ExampleNodes(nfa: Arena<Step>, sets: seq<set<nat>>, d: Arena<Step>)
    requires nfa == ExampleNfa() && SubsetAutomaton(nfa, 0, sets, d)
    ensures Elems(sets) == ExampleSubsets()
    ensures |sets| == 5 && |d.tags| == 5
  {
    SubsetsWithin(nfa, sets, d);
    SubsetsComplete(nfa, 0, sets, d);
    ClosedClosure(0);
    SubsetsPresent(nfa, sets);
    assert Elems(sets) == ExampleSubsets();
    FiveNodes(sets);
  }

  /**
   * Any subset automaton of the example, whatever order its nodes were
   * numbered in, has exactly the five subsets as nodes and accepts exactly
   * ABD and ACD.
   */
  lemma ExampleDfa(sets: seq<set<nat>>, d: Arena<Step>)
    requires SubsetAutomaton(ExampleNfa(), 0, sets, d)
    ensures Elems(sets) == ExampleSubsets() && |d.tags| == 5
    ensures forall w :: Accepts(d, w) <==> w == [A, B, D] || w == [A, C, D]
  {
    ExampleNodes(ExampleNfa(), sets, d);
    ExampleClosures();
    forall w ensures Accepts(d, w) <==> w == [A, B, D] || w == [A, C, D] {
      SubsetLanguage(ExampleNfa(), 0, sets, d, w);
      ExampleLanguage(w);
    }
  }

  /**
   * The command-line example: the expression built with the composition
   * operators, converted to an NFA and then to a DFA, gives five nodes
   * and accepts exactly ABD and ACD.
   */
  method CommandLineExample() returns (dfa: Arena<Step>)
    ensures |dfa.tags| == 5
    ensures forall w :: Accepts(dfa, w) <==> w == [A, B, D] || w == [A, C, D]
  {
    ExampleNfaIs();
    ExampleAcyclic();
    ghost var sets;
    dfa, sets := RegexToDfa(Example());
    ExampleDfa(sets, dfa);
  }
}
