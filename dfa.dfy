/**
 * The subset construction: the closure loop, the search for the start node,
 * the alphabet of a set of NFA nodes, the tag of a DFA node and the work-list
 * loop that builds the DFA graph node by node.
 */
module Dfa {
  import opened Automaton
  import opened Reach

  datatype Option<X> = None | Some(value: X)

  // ---------------------------------------------------------------------
  // One step and the closure loop

  /**
   * The nodes one `l`-edge away from `index`: every edge out of it, the
   * target kept when the label matches.
   */
  method EdgeTargets<T(==)>(g: Arena<T>, index: nat, l: BranchLabel<T>) returns (next: set<nat>)
    ensures next == Successors(g, {index}, l)
  {
    next := {};
    var k := 0;
    while k < |g.edges|
      invariant k <= |g.edges|
      invariant next == Targets(g, {index}, l, k)
    {
      var e := g.edges[k];
      if e.src == index && e.weight == l {
        next := next + {e.dst};
      }
      k := k + 1;
    }
  }

  /** The nodes one `l`-edge away from some node of `indices`, node by node. */
  method Step<T(==)>(g: Arena<T>, indices: set<nat>, l: BranchLabel<T>) returns (next: set<nat>)
    ensures next == Successors(g, indices, l)
  {
    next := {};
    var todo := indices;
    TargetsNone(g, l, |g.edges|);
    assert indices - todo == {};
    while todo != {}
      invariant todo <= indices
      invariant next == Successors(g, indices - todo, l)
      decreases |todo|
    {
      var index :| index in todo;
      ghost var done := indices - todo;
      var targets := EdgeTargets(g, index, l);
      next := next + targets;
      SuccessorsUnion(g, done, {index}, l);
      todo := todo - {index};
      assert indices - todo == done + {index};
    }
    assert indices - todo == indices;
  }

  /**
   * The closure loop: for the empty label it starts from `indices` itself,
   * then adds each new frontier of `l`-successors until a frontier is empty.
   * It stops exactly when some frontier is empty, which is what it requires.
   */
  method Closure<T(==)>(g: Arena<T>, indices: set<nat>, l: BranchLabel<T>) returns (collected: set<nat>)
    requires exists bound: nat :: Frontier(g, indices, l, bound) == {}
    ensures forall v :: v in collected <==> (l == Empty && v in indices) || Reaches(g, indices, l, v)
    ensures l == Empty && g.WellFormed() ==> collected == EpsClosure(g, indices)
  {
    ghost var bound: nat :| Frontier(g, indices, l, bound) == {};
    collected := {};
    if l == Empty {
      collected := indices;
    }
    var frontier := indices;
    ghost var k: nat := 0;
    while frontier != {}
      invariant k <= bound
      invariant frontier == Frontier(g, indices, l, k)
      invariant collected == Collected(g, indices, l, k)
      decreases bound - k
    {
      var next := Step(g, frontier, l);
      collected := collected + next;
      frontier := next;
      k := k + 1;
    }
    forall v ensures v in collected <==> (l == Empty && v in indices) || Reaches(g, indices, l, v) {
      CollectedReaches(g, indices, l, k, v);
    }
    if l == Empty && g.WellFormed() {
      CollectedIsEpsClosure(g, indices, k);
    }
  }

  // ---------------------------------------------------------------------
  // The start node

  /** `start` is the last node tagged as the start. */
  ghost predicate LastStart(tags: seq<State>, start: nat) {
    start < |tags| && tags[start] == Start && Start !in tags[start + 1..]
  }

  /** The scan over all nodes that remembers the last one tagged as the start. */
  method FindStart(tags: seq<State>) returns (start: Option<nat>)
    ensures start.None? <==> Start !in tags
    ensures start.Some? ==> LastStart(tags, start.value)
  {
    start := None;
    var node := 0;
    while node < |tags|
      invariant node <= |tags|
      invariant start.None? <==> Start !in tags[..node]
      invariant start.Some? ==> start.value < node && tags[start.value] == Start && Start !in tags[start.value + 1..node]
    {
      if tags[node] == Start {
        start := Some(node);
      }
      assert tags[..node + 1] == tags[..node] + [tags[node]];
      node := node + 1;
    }
    assert tags[..node] == tags;
  }

  /** In a graph whose only start node is 0, the scan finds node 0. */
  lemma UniqueStart(tags: seq<State>)
    requires |tags| >= 1 && tags[0] == Start
    requires forall i :: 1 <= i < |tags| ==> tags[i] != Start
    ensures LastStart(tags, 0)
    ensures forall s :: LastStart(tags, s) ==> s == 0
  {
    forall s: nat | LastStart(tags, s) ensures s == 0 {
    }
  }

  // ---------------------------------------------------------------------
  // The alphabet of a set of nodes

  /** The non-empty labels of those among the first `k` edges that leave `S`. */
  function Labels<T(==)>(g: Arena<T>, S: set<nat>, k: nat): set<BranchLabel<T>>
    requires k <= |g.edges|
  {
    if k == 0 then {}
    else
      var e := g.edges[k - 1];
      Labels(g, S, k - 1) + (if e.src in S && e.weight != Empty then {e.weight} else {})
  }

  /** The symbols on edges leaving `S`. */
  function AlphabetOf<T(==)>(g: Arena<T>, S: set<nat>): set<BranchLabel<T>> {
    Labels(g, S, |g.edges|)
  }

  lemma {:induction false} LabelsMember<T>(g: Arena<T>, S: set<nat>, l: BranchLabel<T>, k: nat)
    requires k <= |g.edges|
    ensures l in Labels(g, S, k) <==> l.Literal? && Targets(g, S, l, k) != {}
  {
    if k > 0 {
      LabelsMember(g, S, l, k - 1);
    }
  }

  /** A label is in the alphabet iff it is a symbol that leads somewhere from `S`. */
  lemma AlphabetMember<T>(g: Arena<T>, S: set<nat>, l: BranchLabel<T>)
    ensures l in AlphabetOf(g, S) <==> l.Literal? && Successors(g, S, l) != {}
  {
    LabelsMember(g, S, l, |g.edges|);
  }

  lemma {:induction false} LabelsNone<T>(g: Arena<T>, k: nat)
    requires k <= |g.edges|
    ensures Labels(g, {}, k) == {}
  {
    if k > 0 {
      LabelsNone(g, k - 1);
    }
  }

  lemma {:induction false} LabelsUnion<T>(g: Arena<T>, A: set<nat>, B: set<nat>, k: nat)
    requires k <= |g.edges|
    ensures Labels(g, A + B, k) == Labels(g, A, k) + Labels(g, B, k)
  {
    if k > 0 {
      LabelsUnion(g, A, B, k - 1);
    }
  }

  /** The non-empty labels on the edges out of `index`. */
  method EdgeLabels<T(==)>(g: Arena<T>, index: nat) returns (labels: set<BranchLabel<T>>)
    ensures labels == AlphabetOf(g, {index})
  {
    labels := {};
    var k := 0;
    while k < |g.edges|
      invariant k <= |g.edges|
      invariant labels == Labels(g, {index}, k)
    {
      var e := g.edges[k];
      if e.src == index && e.weight != Empty {
        labels := labels + {e.weight};
      }
      k := k + 1;
    }
  }

  /** The loop collecting every non-empty label on an edge out of a node of `indices`. */
  method Alphabet<T(==)>(g: Arena<T>, indices: set<nat>) returns (alphabet: set<BranchLabel<T>>)
    ensures alphabet == AlphabetOf(g, indices)
  {
    alphabet := {};
    var todo := indices;
    LabelsNone(g, |g.edges|);
    assert indices - todo == {};
    while todo != {}
      invariant todo <= indices
      invariant alphabet == AlphabetOf(g, indices - todo)
      decreases |todo|
    {
      var index :| index in todo;
      ghost var done := indices - todo;
      var labels := EdgeLabels(g, index);
      alphabet := alphabet + labels;
      LabelsUnion(g, done, {index}, |g.edges|);
      todo := todo - {index};
      assert indices - todo == done + {index};
    }
    assert indices - todo == indices;
  }

  // ---------------------------------------------------------------------
  // The tag of a new DFA node

  /** Some node of `S` is an accepting node of the NFA. */
  ghost predicate HasFinal<T>(nfa: Arena<T>, S: set<nat>) {
    exists v :: v in S && v < |nfa.tags| && nfa.tags[v] == Final
  }

  /** The tag a new DFA node receives for the subset `S`. */
  ghost function DfaTag<T>(nfa: Arena<T>, S: set<nat>): State {
    if HasFinal(nfa, S) then Final else Standard
  }

  /** The scan over `S` that turns the tag to final when it meets a final node. */
  method AcceptTag<T>(nfa: Arena<T>, S: set<nat>) returns (state: State)
    requires S <= Nodes(nfa)
    ensures state == Final <==> exists v :: v in S && v < |nfa.tags| && nfa.tags[v] == Final
    ensures state == Final || state == Standard
    ensures state == DfaTag(nfa, S)
  {
    state := Standard;
    var todo := S;
    while todo != {}
      invariant todo <= S
      invariant state == (if HasFinal(nfa, S - todo) then Final else Standard)
      decreases |todo|
    {
      var node :| node in todo;
      ghost var done := S - todo;
      if nfa.tags[node] == Final {
        state := Final;
      }
      todo := todo - {node};
      assert S - todo == done + {node};
    }
    assert S - todo == S;
  }

  // ---------------------------------------------------------------------
  // The list of subsets

  /** No subset occurs twice. */
  ghost predicate Distinct(sets: seq<set<nat>>) {
    forall i, j :: 0 <= i < j < |sets| ==> sets[i] != sets[j]
  }

  /** The first position of `s` in `sets`, if any. */
  method Position(sets: seq<set<nat>>, s: set<nat>) returns (pos: Option<nat>)
    ensures pos.None? <==> s !in sets
    ensures pos.Some? ==> pos.value < |sets| && sets[pos.value] == s
    ensures pos.Some? ==> forall k :: 0 <= k < pos.value ==> sets[k] != s
  {
    var i := 0;
    while i < |sets|
      invariant i <= |sets|
      invariant forall k :: 0 <= k < i ==> sets[k] != s
    {
      if sets[i] == s {
        return Some(i);
      }
      i := i + 1;
    }
    pos := None;
  }

  lemma AppendSlices<X>(s: seq<X>, x: X, p: nat)
    requires p <= |s|
    ensures s <= s + [x] && (s + [x])[p..] == s[p..] + [x]
  {
  }

  /** Appending the next index to the list of indices `0, 1, …` keeps it so. */
  lemma IdentityAppend(nodes: seq<nat>)
    requires forall i :: 0 <= i < |nodes| ==> nodes[i] == i
    ensures forall i :: 0 <= i < |nodes| + 1 ==> (nodes + [|nodes|])[i] == i
  {
  }

  lemma PrefixTrans<X>(a: seq<X>, b: seq<X>, c: seq<X>)
    requires a <= b && b <= c
    ensures a <= c && |b| <= |c| && forall i :: 0 <= i < |b| ==> c[i] == b[i]
  {
  }

  /** In a list without repetitions an element's first position is its position. */
  lemma FirstPosition(sets: seq<set<nat>>, p: nat, pos: nat)
    requires Distinct(sets) && p < |sets| && pos < |sets| && sets[pos] == sets[p]
    requires forall k :: 0 <= k < pos ==> sets[k] != sets[p]
    ensures pos == p
  {
  }

  // ---------------------------------------------------------------------
  // All subsets of the nodes

  function Pow2(n: nat): (r: nat)
    ensures r >= 1
  {
    if n == 0 then 1 else 2 * Pow2(n - 1)
  }

  /** Every subset of `s` plus the element `x`. */
  ghost function Extend(A: set<set<nat>>, x: nat): set<set<nat>> {
    set s | s in A :: s + {x}
  }

  /** The subsets of the nodes below `n`. */
  ghost function PowerSet(n: nat): set<set<nat>> {
    if n == 0 then {{}} else PowerSet(n - 1) + Extend(PowerSet(n - 1), n - 1)
  }

  lemma ExtendCard(A: set<set<nat>>, x: nat)
    ensures |Extend(A, x)| <= |A|
    decreases |A|
  {
    if A != {} {
      var y :| y in A;
      var B := A - {y};
      ExtendCard(B, x);
      assert Extend(A, x) == Extend(B, x) + {y + {x}};
    }
  }

  lemma UnionCard<X>(A: set<X>, B: set<X>)
    ensures |A + B| <= |A| + |B|
  {
    assert |A + B| + |A * B| == |A| + |B|;
  }

  lemma {:induction false} PowerSetCard(n: nat)
    ensures |PowerSet(n)| <= Pow2(n)
  {
    if n > 0 {
      PowerSetCard(n - 1);
      ExtendCard(PowerSet(n - 1), n - 1);
      UnionCard(PowerSet(n - 1), Extend(PowerSet(n - 1), n - 1));
    }
  }

  lemma {:induction false} PowerSetMember(n: nat, s: set<nat>)
    requires s <= Range(n)
    ensures s in PowerSet(n)
  {
    if n == 0 {
      assert s == {};
    } else if n - 1 in s {
      var r := s - {n - 1};
      PowerSetMember(n - 1, r);
      assert r + {n - 1} == s;
    } else {
      PowerSetMember(n - 1, s);
    }
  }

  /** Distinct subsets of the nodes are at most two to the number of nodes. */
  lemma SubsetsBound<T>(nfa: Arena<T>, sets: seq<set<nat>>)
    requires Distinct(sets) && forall i :: 0 <= i < |sets| ==> sets[i] <= Nodes(nfa)
    ensures |sets| <= Pow2(|nfa.tags|)
  {
    var n := |nfa.tags|;
    DistinctCard(sets);
    forall s | s in Elems(sets) ensures s in PowerSet(n) {
      PowerSetMember(n, s);
    }
    SubsetCard(Elems(sets), PowerSet(n));
    PowerSetCard(n);
  }

  /** Adding a new subset of the nodes shrinks the number of subsets not yet met. */
  lemma FewerUnmet(U: set<set<nat>>, A: set<set<nat>>, B: set<set<nat>>, x: set<nat>)
    requires A <= B && x in B && x !in A && x in U
    ensures |U - B| < |U - A|
  {
    assert U - B <= (U - A) - {x};
    SubsetCard(U - B, (U - A) - {x});
  }


  /**
   * A work-list entry either leaves the list of subsets as it was or appends
   * new subsets of the nodes, leaving fewer subsets not yet met.
   */
  lemma UnmetShrinks(n: nat, before: seq<set<nat>>, after: seq<set<nat>>)
    requires before <= after && Distinct(after)
    requires forall i :: 0 <= i < |after| ==> after[i] <= Range(n)
    ensures |after| == |before| ==> after == before
    ensures |after| > |before| ==> |PowerSet(n) - Elems(after)| < |PowerSet(n) - Elems(before)|
  {
    if |after| > |before| {
      var x := after[|before|];
      forall s | s in Elems(before) ensures s in Elems(after) {
        var i :| 0 <= i < |before| && before[i] == s;
        assert after[i] == s;
      }
      forall s | s in Elems(after) ensures s in PowerSet(n) {
        PowerSetMember(n, s);
      }
      forall i | 0 <= i < |before| ensures before[i] != x {
        assert before[i] == after[i];
      }
      FewerUnmet(PowerSet(n), Elems(before), Elems(after), x);
    } else {
      assert after == before;
    }
  }

  // ---------------------------------------------------------------------
  // What the work-list loop builds

  /** Some edge leaves DFA node `i` with label `l`. */
  ghost predicate HasEdge<T>(d: Arena<T>, i: nat, l: BranchLabel<T>) {
    exists a :: 0 <= a < |d.edges| && d.edges[a].src == i && d.edges[a].weight == l
  }

  /** No two edges leave the same node with the same label. */
  ghost predicate Deterministic<T>(d: Arena<T>) {
    forall a, b :: 0 <= a < b < |d.edges| && d.edges[a].src == d.edges[b].src ==> d.edges[a].weight != d.edges[b].weight
  }

  /**
   * An edge of the DFA: it joins two subsets, carries a symbol of its source
   * subset, and leads to the closure of that symbol's successors.
   */
  ghost predicate SubsetEdge<T>(nfa: Arena<T>, sets: seq<set<nat>>, e: Edge<T>) {
    && e.src < |sets| && e.dst < |sets|
    && e.weight in AlphabetOf(nfa, sets[e.src])
    && sets[e.dst] == EpsClosure(nfa, Successors(nfa, sets[e.src], e.weight))
  }

  ghost predicate EdgesFollow<T>(nfa: Arena<T>, sets: seq<set<nat>>, d: Arena<T>) {
    forall a :: 0 <= a < |d.edges| ==> SubsetEdge(nfa, sets, d.edges[a])
  }

  /** The subsets and the DFA nodes that stand for them, whatever the edges. */
  ghost predicate SubsetNodes<T>(nfa: Arena<T>, start: nat, sets: seq<set<nat>>, d: Arena<T>) {
    && |sets| >= 1 && |d.tags| == |sets|
    && sets[0] == EpsClosure(nfa, {start})
    && Distinct(sets)
    && (forall i :: 0 <= i < |sets| ==> sets[i] <= Nodes(nfa) && EpsClosed(nfa, sets[i]))
    && (forall i :: 1 <= i < |sets| ==> sets[i] != {})
    && d.tags[0] == Start
    && (forall i :: 1 <= i < |sets| ==> d.tags[i] == DfaTag(nfa, sets[i]))
  }

  /** The edges of subsets before `p`, and of subset `p` for the symbols `done`, are in place, and no others. */
  ghost predicate Handled<T>(nfa: Arena<T>, sets: seq<set<nat>>, d: Arena<T>, p: nat, done: set<BranchLabel<T>>) {
    && p <= |sets|
    && (forall a :: 0 <= a < |d.edges| ==> d.edges[a].src < p || (d.edges[a].src == p && d.edges[a].weight in done))
    && (forall i, l :: 0 <= i < p && l in AlphabetOf(nfa, sets[i]) ==> HasEdge(d, i, l))
    && (forall l :: l in done ==> HasEdge(d, p, l))
  }

  /** Node `i` is the target of an edge from an earlier node. */
  ghost predicate ReachedAt<T>(d: Arena<T>, i: nat) {
    exists a :: 0 <= a < |d.edges| && d.edges[a].dst == i && d.edges[a].src < i
  }

  /** Each node but the first is the target of an edge from an earlier node. */
  ghost predicate Reached<T>(d: Arena<T>, n: nat) {
    forall i :: 1 <= i < n ==> ReachedAt(d, i)
  }

  /**
   * The state of the construction after the first `p` subsets and, of subset
   * `p`, the symbols `done` have been handled.
   */
  ghost predicate Built<T>(nfa: Arena<T>, start: nat, sets: seq<set<nat>>, d: Arena<T>, p: nat, done: set<BranchLabel<T>>) {
    && SubsetNodes(nfa, start, sets, d)
    && EdgesFollow(nfa, sets, d)
    && Deterministic(d)
    && Handled(nfa, sets, d, p, done)
    && Reached(d, |sets|)
  }

  /**
   * The finished DFA: its nodes stand for distinct epsilon-closed subsets,
   * the first being the closure of the start node; each edge carries a
   * symbol and leads to the closure of that symbol's successors; each node
   * has exactly one edge per symbol of its subset; every node is reached.
   */
  ghost predicate SubsetAutomaton<T>(nfa: Arena<T>, start: nat, sets: seq<set<nat>>, d: Arena<T>) {
    && SubsetNodes(nfa, start, sets, d)
    && EdgesFollow(nfa, sets, d)
    && Deterministic(d)
    && (forall i, l :: 0 <= i < |sets| && l in AlphabetOf(nfa, sets[i]) ==> HasEdge(d, i, l))
    && Reached(d, |sets|)
    && |sets| <= Pow2(|nfa.tags|)
  }

  lemma HasEdgeGrow<T>(d: Arena<T>, d': Arena<T>, i: nat, l: BranchLabel<T>)
    requires d.edges <= d'.edges && HasEdge(d, i, l)
    ensures HasEdge(d', i, l)
  {
    var a :| 0 <= a < |d.edges| && d.edges[a].src == i && d.edges[a].weight == l;
    assert d'.edges[a] == d.edges[a];
  }

  lemma ReachedGrow<T>(d: Arena<T>, d': Arena<T>, n: nat)
    requires d.edges <= d'.edges && Reached(d, n)
    ensures Reached(d', n)
  {
    forall i | 1 <= i < n ensures ReachedAt(d', i) {
      assert ReachedAt(d, i);
      var a :| 0 <= a < |d.edges| && d.edges[a].dst == i && d.edges[a].src < i;
      assert d'.edges[a] == d.edges[a];
    }
  }

  /** An edge for a symbol not yet handled at `p` keeps the DFA deterministic. */
  lemma DeterministicAdd<T>(nfa: Arena<T>, sets: seq<set<nat>>, d: Arena<T>, p: nat, done: set<BranchLabel<T>>,
                            dst: nat, symbol: BranchLabel<T>)
    requires Deterministic(d) && Handled(nfa, sets, d, p, done) && symbol !in done
    ensures Deterministic(d.AddEdge(p, dst, symbol))
  {
    var d' := d.AddEdge(p, dst, symbol);
    var n := |d.edges|;
    forall a, b | 0 <= a < b < |d'.edges| && d'.edges[a].src == d'.edges[b].src
      ensures d'.edges[a].weight != d'.edges[b].weight
    {
      if b == n {
        assert d'.edges[a] == d.edges[a];
      } else {
        assert d'.edges[a] == d.edges[a] && d'.edges[b] == d.edges[b];
      }
    }
  }

  /** The edge for `symbol` out of `p` completes one more symbol of `p`. */
  lemma HandledAdd<T>(nfa: Arena<T>, sets: seq<set<nat>>, d: Arena<T>, p: nat, done: set<BranchLabel<T>>,
                      dst: nat, symbol: BranchLabel<T>)
    requires Handled(nfa, sets, d, p, done)
    ensures Handled(nfa, sets, d.AddEdge(p, dst, symbol), p, done + {symbol})
  {
    var d' := d.AddEdge(p, dst, symbol);
    forall i, l | 0 <= i < p && l in AlphabetOf(nfa, sets[i]) ensures HasEdge(d', i, l) {
      HasEdgeGrow(d, d', i, l);
    }
    forall l | l in done + {symbol} ensures HasEdge(d', p, l) {
      if l == symbol {
        assert d'.edges[|d.edges|] == Edge(p, dst, symbol);
      } else {
        HasEdgeGrow(d, d', p, l);
      }
    }
  }

  lemma EdgesFollowAdd<T>(nfa: Arena<T>, sets: seq<set<nat>>, d: Arena<T>, e: Edge<T>)
    requires EdgesFollow(nfa, sets, d) && SubsetEdge(nfa, sets, e)
    ensures EdgesFollow(nfa, sets, d.AddEdge(e.src, e.dst, e.weight))
  {
    var d' := d.AddEdge(e.src, e.dst, e.weight);
    forall a | 0 <= a < |d'.edges| ensures SubsetEdge(nfa, sets, d'.edges[a]) {
      if a < |d.edges| {
        assert d'.edges[a] == d.edges[a];
      }
    }
  }

  /** A new subset keeps the subsets distinct, closed and non-empty, and gets its tag. */
  lemma SubsetNodesAppend<T>(nfa: Arena<T>, start: nat, sets: seq<set<nat>>, d: Arena<T>, target: set<nat>)
    requires SubsetNodes(nfa, start, sets, d)
    requires target <= Nodes(nfa) && EpsClosed(nfa, target) && target != {} && target !in sets
    ensures SubsetNodes(nfa, start, sets + [target], d.AddNode(DfaTag(nfa, target)))
  {
    var sets' := sets + [target];
    forall i, j | 0 <= i < j < |sets'| ensures sets'[i] != sets'[j] {
      if j == |sets| {
        assert sets'[i] == sets[i];
      }
    }
  }

  /** Appending a subset leaves the edge facts about the existing subsets intact. */
  lemma EdgesFollowAppend<T>(nfa: Arena<T>, sets: seq<set<nat>>, d: Arena<T>, target: set<nat>, tag: State)
    requires EdgesFollow(nfa, sets, d)
    ensures EdgesFollow(nfa, sets + [target], d.AddNode(tag))
  {
    var sets' := sets + [target];
    forall a | 0 <= a < |d.edges| ensures SubsetEdge(nfa, sets', d.edges[a]) {
      assert SubsetEdge(nfa, sets, d.edges[a]);
      assert sets'[d.edges[a].src] == sets[d.edges[a].src];
      assert sets'[d.edges[a].dst] == sets[d.edges[a].dst];
    }
  }

  lemma HandledAppend<T>(nfa: Arena<T>, sets: seq<set<nat>>, d: Arena<T>, p: nat, done: set<BranchLabel<T>>,
                         target: set<nat>, tag: State)
    requires Handled(nfa, sets, d, p, done)
    ensures Handled(nfa, sets + [target], d.AddNode(tag), p, done)
  {
    var sets' := sets + [target];
    forall i, l | 0 <= i < p && l in AlphabetOf(nfa, sets'[i]) ensures HasEdge(d.AddNode(tag), i, l) {
      assert sets'[i] == sets[i];
    }
  }

  /** The construction starts with the closure of the start node, as node 0 tagged as the start. */
  lemma BuiltInit<T>(nfa: Arena<T>, start: nat, startSet: set<nat>, d: Arena<T>)
    requires nfa.WellFormed() && start < |nfa.tags|
    requires startSet == EpsClosure(nfa, {start}) && d == Arena([Start], [])
    ensures Built(nfa, start, [startSet], d, 0, {})
  {
    EpsClosureClosed(nfa, {start});
  }

  /** The successors of a set of nodes, and their closure, are nodes. */
  lemma TargetWithin<T>(nfa: Arena<T>, S: set<nat>, l: BranchLabel<T>)
    requires nfa.WellFormed()
    ensures Successors(nfa, S, l) <= Nodes(nfa)
    ensures EpsClosure(nfa, Successors(nfa, S, l)) <= Nodes(nfa)
  {
    var moved := Successors(nfa, S, l);
    TargetsInNodes(nfa, S, l, |nfa.edges|);
    EpsClosureClosed(nfa, moved);
    assert moved + Nodes(nfa) == Nodes(nfa);
  }

  /** Handling symbol `symbol` of subset `p` whose target subset is already listed at `idx`. */
  lemma ExistingTarget<T>(nfa: Arena<T>, start: nat, sets: seq<set<nat>>, d: Arena<T>, p: nat,
                          done: set<BranchLabel<T>>, symbol: BranchLabel<T>, idx: nat)
    requires Built(nfa, start, sets, d, p, done) && p < |sets|
    requires symbol in AlphabetOf(nfa, sets[p]) && symbol !in done
    requires idx < |sets| && sets[idx] == EpsClosure(nfa, Successors(nfa, sets[p], symbol))
    ensures Built(nfa, start, sets, d.AddEdge(p, idx, symbol), p, done + {symbol})
  {
    var d' := d.AddEdge(p, idx, symbol);
    EdgesFollowAdd(nfa, sets, d, Edge(p, idx, symbol));
    DeterministicAdd(nfa, sets, d, p, done, idx, symbol);
    HandledAdd(nfa, sets, d, p, done, idx, symbol);
    ReachedGrow(d, d', |sets|);
  }

  /** Handling symbol `symbol` of subset `p` whose target subset is new: a node is appended for it. */
  lemma NewTarget<T>(nfa: Arena<T>, start: nat, sets: seq<set<nat>>, d: Arena<T>, p: nat,
                     done: set<BranchLabel<T>>, symbol: BranchLabel<T>, target: set<nat>)
    requires nfa.WellFormed()
    requires Built(nfa, start, sets, d, p, done) && p < |sets|
    requires symbol in AlphabetOf(nfa, sets[p]) && symbol !in done
    requires target == EpsClosure(nfa, Successors(nfa, sets[p], symbol)) && target !in sets
    ensures Built(nfa, start, sets + [target], d.AddNode(DfaTag(nfa, target)).AddEdge(p, |sets|, symbol), p, done + {symbol})
  {
    var sets' := sets + [target];
    var tag := DfaTag(nfa, target);
    var d1 := d.AddNode(tag);
    var d' := d1.AddEdge(p, |sets|, symbol);
    var moved := Successors(nfa, sets[p], symbol);
    TargetsInNodes(nfa, sets[p], symbol, |nfa.edges|);
    EpsClosureClosed(nfa, moved);
    AlphabetMember(nfa, sets[p], symbol);
    assert moved + Nodes(nfa) == Nodes(nfa);
    SubsetNodesAppend(nfa, start, sets, d, target);
    EdgesFollowAppend(nfa, sets, d, target, tag);
    assert sets'[p] == sets[p] && sets'[|sets|] == target;
    EdgesFollowAdd(nfa, sets', d1, Edge(p, |sets|, symbol));
    HandledAppend(nfa, sets, d, p, done, target, tag);
    DeterministicAdd(nfa, sets', d1, p, done, |sets|, symbol);
    HandledAdd(nfa, sets', d1, p, done, |sets|, symbol);
    ReachedGrow(d, d', |sets|);
    assert d'.edges[|d.edges|] == Edge(p, |sets|, symbol);
    assert ReachedAt(d', |sets|);
  }

  /** Once every symbol of subset `p` is handled, the construction moves to subset `p + 1`. */
  lemma NextSubset<T>(nfa: Arena<T>, start: nat, sets: seq<set<nat>>, d: Arena<T>, p: nat)
    requires p < |sets| && Built(nfa, start, sets, d, p, AlphabetOf(nfa, sets[p]))
    ensures Built(nfa, start, sets, d, p + 1, {})
  {
    forall i, l | 0 <= i < p + 1 && l in AlphabetOf(nfa, sets[i]) ensures HasEdge(d, i, l) {
    }
  }

  /** When the work list is exhausted the construction is the finished DFA. */
  lemma BuiltDone<T>(nfa: Arena<T>, start: nat, sets: seq<set<nat>>, d: Arena<T>)
    requires Built(nfa, start, sets, d, |sets|, {})
    ensures SubsetAutomaton(nfa, start, sets, d)
  {
    SubsetsBound(nfa, sets);
  }

  // ---------------------------------------------------------------------
  // The construction

  /** The closure of the nodes one `symbol`-edge away from `indices`: the target subset. */
  method TargetSet<T(==)>(nfa: Arena<T>, indices: set<nat>, symbol: BranchLabel<T>) returns (target: set<nat>)
    requires nfa.WellFormed() && EpsAcyclic(nfa)
    ensures target == EpsClosure(nfa, Successors(nfa, indices, symbol))
    ensures Successors(nfa, indices, symbol) <= target <= Nodes(nfa)
    ensures EpsClosed(nfa, target)
  {
    var moved := Step(nfa, indices, symbol);
    TargetWithin(nfa, indices, symbol);
    AcyclicBound(nfa, moved);
    target := Closure(nfa, moved, Empty);
    EpsClosureClosed(nfa, moved);
  }

  /**
   * One symbol of the work-list entry for subset `p` at DFA node
   * `currentNode`: the closure of the symbol's successors becomes the target
   * of an edge out of the node; a subset not met before is appended to the
   * list, the queue and the graph, its node tagged final when it holds a
   * final NFA node.
   */
  method AddTransition<T(==)>(nfa: Arena<T>, graph: Graph<T>, ghost start: nat, subsets: seq<set<nat>>,
                              queue: seq<set<nat>>, nodes: seq<nat>, ghost p: nat, indices: set<nat>, currentNode: nat,
                              ghost done: set<BranchLabel<T>>, symbol: BranchLabel<T>)
      returns (newSubsets: seq<set<nat>>, newQueue: seq<set<nat>>, newNodes: seq<nat>)
    requires nfa.WellFormed() && EpsAcyclic(nfa)
    requires Built(nfa, start, subsets, graph.View(), p, done)
    requires p < |subsets| && indices == subsets[p] && currentNode == p && queue == subsets[p + 1..]
    requires symbol in AlphabetOf(nfa, indices) && symbol !in done
    requires |nodes| == |subsets| && forall i :: 0 <= i < |nodes| ==> nodes[i] == i
    modifies graph
    ensures Built(nfa, start, newSubsets, graph.View(), p, done + {symbol})
    ensures subsets <= newSubsets && newQueue == newSubsets[p + 1..]
    ensures |newNodes| == |newSubsets| && forall i :: 0 <= i < |newNodes| ==> newNodes[i] == i
  {
    ghost var d := graph.View();
    var target := TargetSet(nfa, indices, symbol);
    if target in subsets {
      var index := Position(subsets, target);
      var node := nodes[index.value];
      assert node == index.value && subsets[node] == target;
      assert target == EpsClosure(nfa, Successors(nfa, subsets[p], symbol));
      ExistingTarget(nfa, start, subsets, d, p, done, symbol, node);
      graph.AddEdge(currentNode, node, symbol);
      newSubsets, newQueue, newNodes := subsets, queue, nodes;
    } else {
      var state := AcceptTag(nfa, target);
      NewTarget(nfa, start, subsets, d, p, done, symbol, target);
      newSubsets := subsets + [target];
      newQueue := queue + [target];
      AppendSlices(subsets, target, p + 1);
      var node := graph.AddNode(state);
      newNodes := nodes + [node];
      IdentityAppend(nodes);
      graph.AddEdge(currentNode, node, symbol);
    }
  }

  /**
   * One work-list entry: the symbols on edges out of subset `p`, each
   * handled in turn, in no particular order.
   */
  method AddTransitions<T(==)>(nfa: Arena<T>, graph: Graph<T>, ghost start: nat, subsets: seq<set<nat>>,
                               queue: seq<set<nat>>, nodes: seq<nat>, ghost p: nat, indices: set<nat>, currentNode: nat)
      returns (newSubsets: seq<set<nat>>, newQueue: seq<set<nat>>, newNodes: seq<nat>)
    requires nfa.WellFormed() && EpsAcyclic(nfa)
    requires Built(nfa, start, subsets, graph.View(), p, {})
    requires p < |subsets| && indices == subsets[p] && currentNode == p && queue == subsets[p + 1..]
    requires |nodes| == |subsets| && forall i :: 0 <= i < |nodes| ==> nodes[i] == i
    modifies graph
    ensures Built(nfa, start, newSubsets, graph.View(), p + 1, {})
    ensures subsets <= newSubsets && newQueue == newSubsets[p + 1..]
    ensures |newNodes| == |newSubsets| && forall i :: 0 <= i < |newNodes| ==> newNodes[i] == i
  {
    newSubsets, newQueue, newNodes := subsets, queue, nodes;
    var alphabet := Alphabet(nfa, indices);
    var todo := alphabet;
    while todo != {}
      invariant p < |subsets| && subsets <= newSubsets && newQueue == newSubsets[p + 1..]
      invariant todo <= alphabet && alphabet == AlphabetOf(nfa, newSubsets[p])
      invariant Built(nfa, start, newSubsets, graph.View(), p, alphabet - todo)
      invariant |newNodes| == |newSubsets| && forall i :: 0 <= i < |newNodes| ==> newNodes[i] == i
      decreases |todo|
    {
      var symbol :| symbol in todo;
      ghost var done := alphabet - todo;
      ghost var before := newSubsets;
      todo := todo - {symbol};
      assert alphabet - todo == done + {symbol};
      newSubsets, newQueue, newNodes :=
        AddTransition(nfa, graph, start, newSubsets, newQueue, newNodes, p, indices, currentNode, done, symbol);
      PrefixTrans(subsets, before, newSubsets);
    }
    NextSubset(nfa, start, newSubsets, graph.View(), p);
  }

  /**
   * The subset construction. Without a start node the Rust code panics: the
   * model returns `None`. Otherwise the DFA is built from the closure of the
   * last start node, one work-list entry per new subset.
   */
  method Converter<T(==)>(nfa: Arena<T>) returns (dfa: Option<Arena<T>>, ghost start: nat, ghost sets: seq<set<nat>>)
    requires nfa.WellFormed() && EpsAcyclic(nfa)
    ensures dfa.None? <==> Start !in nfa.tags
    ensures dfa.Some? ==> LastStart(nfa.tags, start) && SubsetAutomaton(nfa, start, sets, dfa.value)
  {
    var found := FindStart(nfa.tags);
    if found.None? {
      return None, 0, [];
    }
    var startIndex := found.value;
    start := startIndex;
    AcyclicBound(nfa, {startIndex});
    var startSet := Closure(nfa, {startIndex}, Empty);
    var queue := [startSet];
    var graph := new Graph<T>();
    var startNode := graph.AddNode(Start);
    var subsets := [startSet];
    var nodes := [startNode];
    ghost var p: nat := 0;
    BuiltInit(nfa, start, startSet, graph.View());
    ghost var U := PowerSet(|nfa.tags|);
    while queue != []
      invariant Built(nfa, start, subsets, graph.View(), p, {})
      invariant p <= |subsets| && queue == subsets[p..]
      invariant |nodes| == |subsets| && forall i :: 0 <= i < |nodes| ==> nodes[i] == i
      decreases |U - Elems(subsets)|, |queue|
    {
      var indices := queue[0];
      queue := queue[1..];
      var nodeIndex := Position(subsets, indices);
      FirstPosition(subsets, p, nodeIndex.value);
      var currentNode := nodes[nodeIndex.value];
      ghost var before := subsets;
      subsets, queue, nodes := AddTransitions(nfa, graph, start, subsets, queue, nodes, p, indices, currentNode);
      UnmetShrinks(|nfa.tags|, before, subsets);
      p := p + 1;
    }
    BuiltDone(nfa, start, subsets, graph.View());
    sets := subsets;
    dfa := Some(graph.View());
  }

  // ---------------------------------------------------------------------
  // What the caller of the conversion sees

  /**
   * A deterministic automaton over the symbols of `nfa`: a well-formed graph
   * whose node 0 alone is the start, whose edges all carry symbols, at most
   * one edge per symbol out of each node, and no more nodes than `nfa` has
   * subsets of nodes.
   */
  ghost predicate IsDfa<T>(nfa: Arena<T>, d: Arena<T>) {
    && d.WellFormed()
    && |d.tags| >= 1 && d.tags[0] == Start
    && (forall i :: 1 <= i < |d.tags| ==> d.tags[i] != Start)
    && (forall a :: 0 <= a < |d.edges| ==> d.edges[a].weight.Literal?)
    && Deterministic(d)
    && |d.tags| <= Pow2(|nfa.tags|)
  }

  /** The subset automaton is a deterministic automaton; a node accepts iff its subset does. */
  lemma DfaFacts<T>(nfa: Arena<T>, start: nat, sets: seq<set<nat>>, d: Arena<T>)
    requires SubsetAutomaton(nfa, start, sets, d)
    ensures IsDfa(nfa, d)
    ensures forall i :: 1 <= i < |d.tags| ==> (d.tags[i] == Final <==> HasFinal(nfa, sets[i]))
  {
    forall a | 0 <= a < |d.edges|
      ensures d.edges[a].src < |d.tags| && d.edges[a].dst < |d.tags| && d.edges[a].weight.Literal?
    {
      assert SubsetEdge(nfa, sets, d.edges[a]);
      AlphabetMember(nfa, sets[d.edges[a].src], d.edges[a].weight);
    }
  }

  /**
   * The public conversion: the subset construction applied to the NFA's
   * graph. The result is the subset automaton of the last start node, and
   * seen from outside it is a deterministic automaton.
   */
  method ToDfa<T(==)>(nfa: Arena<T>) returns (dfa: Option<Arena<T>>, ghost start: nat, ghost sets: seq<set<nat>>)
    requires nfa.WellFormed() && EpsAcyclic(nfa)
    ensures dfa.None? <==> Start !in nfa.tags
    ensures dfa.Some? ==> LastStart(nfa.tags, start) && SubsetAutomaton(nfa, start, sets, dfa.value)
    ensures dfa.Some? ==> IsDfa(nfa, dfa.value)
  {
    dfa, start, sets := Converter(nfa);
    if dfa.Some? {
      DfaFacts(nfa, start, sets, dfa.value);
    }
  }
}
