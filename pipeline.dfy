/**
 * The whole pipeline from an expression to a DFA graph: the NFA of the
 * expression, then the subset construction on it. Because no edge of the
 * compiled NFA enters its start node, the start subset is never reached
 * again, and the DFA accepts exactly the non-empty words the NFA accepts.
 */
module Pipeline {
  import R = Regex
  import opened Automaton
  import opened Reach
  import opened Nfa
  import opened Dfa
  import opened Language

  /** No edge of `g` enters node 0. */
  ghost predicate NoEntry<T>(g: Arena<T>) {
    forall k :: 0 <= k < |g.edges| ==> g.edges[k].dst != 0
  }

  lemma NoEntrySuccessors<T>(g: Arena<T>, S: set<nat>, l: BranchLabel<T>)
    requires NoEntry(g)
    ensures 0 !in Successors(g, S, l)
  {
    TargetsMember(g, S, l, |g.edges|, 0);
  }

  lemma NoEntryClosure<T>(g: Arena<T>, X: set<nat>)
    requires NoEntry(g) && 0 !in X
    ensures 0 !in EpsClosure(g, X)
  {
    if Reaches(g, X, Empty, 0) {
      var j :| 1 <= j && 0 in Frontier(g, X, Empty, j);
      NoEntrySuccessors(g, Frontier(g, X, Empty, j - 1), Empty);
    }
  }

  /** After at least one symbol the NFA is never in its start node. */
  lemma {:induction false} NoEntryMove<T>(g: Arena<T>, S: set<nat>, w: seq<T>)
    requires NoEntry(g) && w != []
    ensures 0 !in Move(g, S, w)
    decreases |w|
  {
    var next := EpsClosure(g, Successors(g, S, Literal(w[0])));
    NoEntrySuccessors(g, S, Literal(w[0]));
    NoEntryClosure(g, Successors(g, S, Literal(w[0])));
    if |w| > 1 {
      NoEntryMove(g, next, w[1..]);
    } else {
      assert w[1..] == [];
    }
  }

  /**
   * The pipeline of the command-line example: `to_nfa` then `to_dfa`.
   * The compiled NFA always has its start node, so a DFA is always built;
   * its nodes stand for the subsets `sets`, a node other than the first is
   * Final iff its subset holds the NFA's Final node, and the DFA accepts
   * exactly the non-empty words the NFA accepts from node 0.
   */
  method RegexToDfa<T(==)>(e: R.Regex<T>) returns (dfa: Arena<T>, ghost sets: seq<set<nat>>)
    requires EpsAcyclic(NfaOf(e))
    ensures SubsetAutomaton(NfaOf(e), 0, sets, dfa)
    ensures IsDfa(NfaOf(e), dfa)
    ensures forall i :: 1 <= i < |dfa.tags| ==> (dfa.tags[i] == Final <==> FinalNode(e) in sets[i])
    ensures forall w :: Accepts(dfa, w) <==> w != [] && NfaAccepts(NfaOf(e), 0, w)
  {
    var nfa := Nfa.Converter(e);
    NfaShape(e);
    UniqueStart(nfa.tags);
    var result;
    ghost var start;
    result, start, sets := Dfa.Converter(nfa);
    dfa := result.value;
    DfaFacts(nfa, start, sets, dfa);
    forall i | 1 <= i < |dfa.tags| ensures dfa.tags[i] == Final <==> FinalNode(e) in sets[i] {
      assert sets[i] <= Nodes(nfa);
    }
    EpsClosureClosed(nfa, {0});
    forall w ensures Accepts(dfa, w) <==> w != [] && NfaAccepts(nfa, 0, w) {
      SubsetLanguage(nfa, 0, sets, dfa, w);
      if w != [] {
        NoEntryMove(nfa, sets[0], w);
      }
    }
  }
}
