/**
 * What the automata accept. A DFA graph is run by following, for each
 * symbol, the first edge out of the current node that carries it; an NFA is
 * run on subsets of its nodes, closing under empty edges after each symbol.
 * The subset automaton accepts a word exactly when the NFA's subset after it
 * holds a Final node, unless that subset is the start subset itself, whose
 * node keeps the Start tag.
 */
module Language {
  import opened Automaton
  import opened Reach
  import opened Dfa

  // ---------------------------------------------------------------------
  // Running a DFA graph

  /** The target of the first edge from position `k` on that leaves `i` with label `l`. */
  function NextFrom<T(==)>(d: Arena<T>, i: nat, l: BranchLabel<T>, k: nat): Option<nat>
    decreases |d.edges| - k
  {
    if k >= |d.edges| then None
    else if d.edges[k].src == i && d.edges[k].weight == l then Some(d.edges[k].dst)
    else NextFrom(d, i, l, k + 1)
  }

  /** The node reached from `i` by the edge labelled `l`, if there is one. */
  function Next<T(==)>(d: Arena<T>, i: nat, l: BranchLabel<T>): Option<nat> {
    NextFrom(d, i, l, 0)
  }

  /** The node reached from `i` by reading `w`, or `None` once a symbol has no edge. */
  function Walk<T(==)>(d: Arena<T>, i: nat, w: seq<T>): Option<nat>
    decreases |w|
  {
    if w == [] then Some(i)
    else match Next(d, i, Literal(w[0]))
      case None => None
      case Some(j) => Walk(d, j, w[1..])
  }

  /** Reading `w` from node 0 ends in a node tagged Final. */
  predicate Accepts<T(==)>(d: Arena<T>, w: seq<T>) {
    var r := Walk(d, 0, w);
    r.Some? && r.value < |d.tags| && d.tags[r.value] == Final
  }

  lemma {:induction false} NextFromSpec<T>(d: Arena<T>, i: nat, l: BranchLabel<T>, k: nat)
    ensures NextFrom(d, i, l, k).None? <==>
      !exists a :: k <= a < |d.edges| && d.edges[a].src == i && d.edges[a].weight == l
    ensures NextFrom(d, i, l, k).Some? ==>
      exists a :: k <= a < |d.edges| && d.edges[a] == Edge(i, NextFrom(d, i, l, k).value, l)
    decreases |d.edges| - k
  {
    if k < |d.edges| {
      NextFromSpec(d, i, l, k + 1);
      if d.edges[k].src == i && d.edges[k].weight == l {
        assert d.edges[k] == Edge(i, d.edges[k].dst, l);
      }
    }
  }

  /** There is a next node exactly when some edge leaves `i` with `l`, and it is that edge's target. */
  lemma NextSpec<T>(d: Arena<T>, i: nat, l: BranchLabel<T>)
    ensures Next(d, i, l).None? <==> !HasEdge(d, i, l)
    ensures Next(d, i, l).Some? ==>
      exists a :: 0 <= a < |d.edges| && d.edges[a] == Edge(i, Next(d, i, l).value, l)
  {
    NextFromSpec(d, i, l, 0);
  }

  // ---------------------------------------------------------------------
  // Running an NFA on subsets

  /** The subset the NFA is in after reading `w` from the subset `S`. */
  ghost function Move<T>(nfa: Arena<T>, S: set<nat>, w: seq<T>): set<nat>
    decreases |w|
  {
    if w == [] then S else Move(nfa, EpsClosure(nfa, Successors(nfa, S, Literal(w[0]))), w[1..])
  }

  /** The NFA accepts `w` from `start` when the subset it ends in holds a Final node. */
  ghost predicate NfaAccepts<T>(nfa: Arena<T>, start: nat, w: seq<T>) {
    HasFinal(nfa, Move(nfa, EpsClosure(nfa, {start}), w))
  }

  lemma EpsClosureNone<T>(g: Arena<T>)
    ensures EpsClosure(g, {}) == {}
  {
    forall v | Reaches(g, {}, Empty, v) ensures false {
      var j :| 1 <= j && v in Frontier(g, {}, Empty, j);
      FrontierNone(g, Empty, j);
    }
  }

  /** The empty subset reads every word into the empty subset. */
  lemma {:induction false} MoveNone<T>(nfa: Arena<T>, w: seq<T>)
    ensures Move(nfa, {}, w) == {}
    decreases |w|
  {
    if w != [] {
      TargetsNone(nfa, Literal(w[0]), |nfa.edges|);
      EpsClosureNone(nfa);
      MoveNone(nfa, w[1..]);
    }
  }

  /**
   * Running the subset automaton from node `i` follows the NFA's subsets:
   * it ends in the node of the subset the NFA reaches from `sets[i]`, and
   * it gets stuck only where that subset is empty.
   */
  lemma {:induction false} WalkSubsets<T>(nfa: Arena<T>, start: nat, sets: seq<set<nat>>, d: Arena<T>, i: nat, w: seq<T>)
    requires SubsetAutomaton(nfa, start, sets, d) && i < |sets|
    ensures Walk(d, i, w).Some? ==> Walk(d, i, w).value < |sets| && sets[Walk(d, i, w).value] == Move(nfa, sets[i], w)
    ensures Walk(d, i, w).None? ==> Move(nfa, sets[i], w) == {}
    decreases |w|
  {
    if w != [] {
      var l := Literal(w[0]);
      NextSpec(d, i, l);
      match Next(d, i, l)
      case Some(j) =>
        var a :| 0 <= a < |d.edges| && d.edges[a] == Edge(i, j, l);
        assert SubsetEdge(nfa, sets, d.edges[a]);
        WalkSubsets(nfa, start, sets, d, j, w[1..]);
      case None =>
        AlphabetMember(nfa, sets[i], l);
        assert Successors(nfa, sets[i], l) == {};
        EpsClosureNone(nfa);
        MoveNone(nfa, w[1..]);
    }
  }

  /**
   * The subset automaton accepts `w` exactly when the NFA does, except
   * that a word leading back to the start subset is not accepted (the
   * empty word among them), because the start node keeps the Start tag.
   */
  lemma SubsetLanguage<T>(nfa: Arena<T>, start: nat, sets: seq<set<nat>>, d: Arena<T>, w: seq<T>)
    requires SubsetAutomaton(nfa, start, sets, d)
    ensures Accepts(d, w) <==> NfaAccepts(nfa, start, w) && Move(nfa, sets[0], w) != sets[0]
  {
    WalkSubsets(nfa, start, sets, d, 0, w);
    var r := Walk(d, 0, w);
    if r.Some? && r.value != 0 {
      assert sets[r.value] != sets[0];
    }
  }

  // ---------------------------------------------------------------------
  // The nodes of a subset automaton

  /** Every node but the first is entered by a symbol from an earlier node's subset. */
  lemma Predecessor<T>(nfa: Arena<T>, start: nat, sets: seq<set<nat>>, d: Arena<T>, i: nat)
      returns (src: nat, l: BranchLabel<T>)
    requires SubsetAutomaton(nfa, start, sets, d) && 1 <= i < |sets|
    ensures src < i && l.Literal?
    ensures sets[i] == EpsClosure(nfa, Successors(nfa, sets[src], l))
  {
    assert ReachedAt(d, i);
    var a :| 0 <= a < |d.edges| && d.edges[a].dst == i && d.edges[a].src < i;
    assert SubsetEdge(nfa, sets, d.edges[a]);
    AlphabetMember(nfa, sets[d.edges[a].src], d.edges[a].weight);
    src, l := d.edges[a].src, d.edges[a].weight;
  }

  /** Whatever non-empty subset a symbol leads to from a node's subset is the subset of some node. */
  lemma SuccessorPresent<T>(nfa: Arena<T>, start: nat, sets: seq<set<nat>>, d: Arena<T>, i: nat, x: T)
    requires SubsetAutomaton(nfa, start, sets, d) && i < |sets|
    requires EpsClosure(nfa, Successors(nfa, sets[i], Literal(x))) != {}
    ensures EpsClosure(nfa, Successors(nfa, sets[i], Literal(x))) in sets
  {
    EpsClosureNone(nfa);
    AlphabetMember(nfa, sets[i], Literal(x));
    var a :| 0 <= a < |d.edges| && d.edges[a].src == i && d.edges[a].weight == Literal(x);
    assert SubsetEdge(nfa, sets, d.edges[a]);
  }

  /**
   * A family of subsets that holds the start subset and is closed under
   * the non-empty steps holds every subset of the automaton.
   */
  lemma {:induction false} SubsetsIn<T>(nfa: Arena<T>, start: nat, sets: seq<set<nat>>, d: Arena<T>, F: set<set<nat>>, i: nat)
    requires SubsetAutomaton(nfa, start, sets, d) && i < |sets|
    requires sets[0] in F
    requires forall S, x :: S in F && EpsClosure(nfa, Successors(nfa, S, Literal(x))) != {} ==>
      EpsClosure(nfa, Successors(nfa, S, Literal(x))) in F
    ensures sets[i] in F
    decreases i
  {
    if i > 0 {
      var src, l := Predecessor(nfa, start, sets, d, i);
      SubsetsIn(nfa, start, sets, d, F, src);
    }
  }

  /** Every non-empty subset a symbol leads to from one of `sets` is one of `sets`. */
  ghost predicate StepsPresent<T(!new)>(nfa: Arena<T>, sets: seq<set<nat>>) {
    forall S, x :: S in sets && EpsClosure(nfa, Successors(nfa, S, Literal(x))) != {} ==>
      EpsClosure(nfa, Successors(nfa, S, Literal(x))) in sets
  }

  /** The subsets of a subset automaton are closed under the non-empty steps. */
  lemma SubsetsComplete<T(!new)>(nfa: Arena<T>, start: nat, sets: seq<set<nat>>, d: Arena<T>)
    requires SubsetAutomaton(nfa, start, sets, d)
    ensures StepsPresent(nfa, sets)
  {
    forall S, x | S in sets && EpsClosure(nfa, Successors(nfa, S, Literal(x))) != {}
      ensures EpsClosure(nfa, Successors(nfa, S, Literal(x))) in sets
    {
      var i :| 0 <= i < |sets| && sets[i] == S;
      SuccessorPresent(nfa, start, sets, d, i, x);
    }
  }
}
