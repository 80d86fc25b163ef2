/**
 * The NFA builder: Thompson-style compilation of an expression into a graph
 * arena. `Compile` is the construction as a function on graph values; the
 * methods `Generate`, `Concatenation`, `Alternative`, `KleeneStar`, `Symbol`
 * and `EmptyWord` perform it in place on a `Graph` object and are proved to
 * produce exactly `Compile`'s result.
 */
module Nfa {
  import R = Regex
  import opened Automaton

  /** A compiled fragment: the graph after compilation and the fragment's exit node. */
  datatype Fragment<T> = Fragment(graph: Arena<T>, exit: nat)

  /** Nodes one compilation adds: one per leaf, alternation and star. */
  function Size<T>(e: R.Regex<T>): nat {
    match e
    case Literal(_) => 1
    case Empty => 1
    case Concatenation(a, b) => Size(a) + Size(b)
    case Alternative(a, b) => 1 + Size(a) + Size(b)
    case Star(a) => 1 + Size(a)
  }

  /** Edges one compilation adds. */
  function EdgeCount<T>(e: R.Regex<T>): nat {
    match e
    case Literal(_) => 1
    case Empty => 1
    case Concatenation(a, b) => EdgeCount(a) + EdgeCount(b)
    case Alternative(a, b) => 2 + EdgeCount(a) + EdgeCount(b)
    case Star(a) => 2 + EdgeCount(a)
  }

  /** The symbols that occur as literals in `e`. */
  ghost function Symbols<T>(e: R.Regex<T>): set<T> {
    match e
    case Literal(s) => {s}
    case Empty => {}
    case Concatenation(a, b) => Symbols(a) + Symbols(b)
    case Alternative(a, b) => Symbols(a) + Symbols(b)
    case Star(a) => Symbols(a)
  }

  /** `e` is built from literals by concatenation alone. */
  predicate LiteralChain<T>(e: R.Regex<T>) {
    match e
    case Literal(_) => true
    case Concatenation(a, b) => LiteralChain(a) && LiteralChain(b)
    case _ => false
  }

  /**
   * Compiles `e` from entry node `start` into `g`. Compilation only appends:
   * it adds Size(e) nodes tagged Standard, keeps every existing tag and edge,
   * and its exit is one of the new nodes.
   */
  function Compile<T>(g: Arena<T>, start: nat, e: R.Regex<T>): (r: Fragment<T>)
    ensures |r.graph.tags| == |g.tags| + Size(e)
    ensures |r.graph.edges| == |g.edges| + EdgeCount(e)
    ensures g.tags <= r.graph.tags && g.edges <= r.graph.edges
    ensures forall i :: |g.tags| <= i < |r.graph.tags| ==> r.graph.tags[i] == Standard
    ensures |g.tags| <= r.exit < |r.graph.tags|
    decreases e
  {
    match e
    case Literal(s) =>
      Fragment(g.AddNode(Standard).AddEdge(start, |g.tags|, Literal(s)), |g.tags|)
    case Empty =>
      Fragment(g.AddNode(Standard).AddEdge(start, |g.tags|, Empty), |g.tags|)
    case Concatenation(a, b) =>
      var fa := Compile(g, start, a);
      Compile(fa.graph, fa.exit, b)
    case Alternative(a, b) =>
      var join := |g.tags|;
      var fa := Compile(g.AddNode(Standard), start, a);
      var fb := Compile(fa.graph.AddEdge(fa.exit, join, Empty), start, b);
      Fragment(fb.graph.AddEdge(fb.exit, join, Empty), join)
    case Star(a) =>
      var loop := |g.tags|;
      var fa := Compile(g.AddNode(Standard), loop, a);
      Fragment(fa.graph.AddEdge(fa.exit, loop, Empty).AddEdge(start, loop, Empty), fa.exit)
  }

  /** The automaton for `e`: node 0 tagged Start, the compiled exit retagged Final. */
  function NfaOf<T>(e: R.Regex<T>): (n: Arena<T>)
    ensures |n.tags| == 1 + Size(e) && |n.edges| == EdgeCount(e)
    ensures n.tags[0] == Start && 0 < FinalNode(e) < |n.tags| && n.tags[FinalNode(e)] == Final
    ensures forall i :: 0 < i < |n.tags| && i != FinalNode(e) ==> n.tags[i] == Standard
  {
    var f := Compile(Arena([Start], []), 0, e);
    f.graph.SetTag(f.exit, Final)
  }

  /** The node `NfaOf(e)` tags Final: the exit of the compiled expression. */
  function FinalNode<T>(e: R.Regex<T>): nat {
    Compile(Arena([Start], []), 0, e).exit
  }

  /**
   * Every edge of `h` beyond those of `g` leaves `start` or a node of `h`
   * that `g` lacks, and enters a node that `g` lacks.
   */
  ghost predicate AddsFreshEdges<T>(g: Arena<T>, h: Arena<T>, start: nat) {
    forall k :: |g.edges| <= k < |h.edges| ==>
      (h.edges[k].src == start || |g.tags| <= h.edges[k].src < |h.tags|) &&
      |g.tags| <= h.edges[k].dst < |h.tags|
  }

  /** Adding to `h` an edge that leaves `start` or a new node and enters a new node keeps the property. */
  lemma FreshAddEdge<T>(g: Arena<T>, h: Arena<T>, start: nat, src: nat, dst: nat, l: BranchLabel<T>)
    requires AddsFreshEdges(g, h, start)
    requires src == start || |g.tags| <= src < |h.tags|
    requires |g.tags| <= dst < |h.tags|
    ensures AddsFreshEdges(g, h.AddEdge(src, dst, l), start)
  {
  }

  /** Two appending stages compose when the second starts at `start` or at a node the first added. */
  lemma FreshCompose<T>(g: Arena<T>, h1: Arena<T>, h2: Arena<T>, start: nat, mid: nat)
    requires g.tags <= h1.tags && g.edges <= h1.edges && h1.tags <= h2.tags && h1.edges <= h2.edges
    requires AddsFreshEdges(g, h1, start) && AddsFreshEdges(h1, h2, mid)
    requires mid == start || |g.tags| <= mid < |h1.tags|
    ensures AddsFreshEdges(g, h2, start)
  {
    forall k | |g.edges| <= k < |h2.edges|
      ensures (h2.edges[k].src == start || |g.tags| <= h2.edges[k].src < |h2.tags|) &&
              |g.tags| <= h2.edges[k].dst < |h2.tags|
    {
      if k < |h1.edges| {
        assert h2.edges[k] == h1.edges[k];
      }
    }
  }

  /** Only-appended edges that start at an existing node keep a graph well-formed. */
  lemma FreshWellFormed<T>(g: Arena<T>, h: Arena<T>, start: nat)
    requires g.WellFormed() && start < |g.tags|
    requires g.tags <= h.tags && g.edges <= h.edges && AddsFreshEdges(g, h, start)
    ensures h.WellFormed()
  {
    forall k | 0 <= k < |h.edges| ensures h.edges[k].src < |h.tags| && h.edges[k].dst < |h.tags| {
      if k < |g.edges| {
        assert h.edges[k] == g.edges[k];
      }
    }
  }

  /** Every edge compilation adds leaves the entry or a new node and enters a new node. */
  lemma {:induction false} CompileEdges<T>(g: Arena<T>, start: nat, e: R.Regex<T>)
    requires start < |g.tags|
    ensures AddsFreshEdges(g, Compile(g, start, e).graph, start)
    decreases e
  {
    match e
    case Literal(s) =>
    case Empty =>
    case Concatenation(a, b) =>
      var fa := Compile(g, start, a);
      CompileEdges(g, start, a);
      CompileEdges(fa.graph, fa.exit, b);
      FreshCompose(g, fa.graph, Compile(fa.graph, fa.exit, b).graph, start, fa.exit);
    case Alternative(a, b) =>
      var join := |g.tags|;
      var g1 := g.AddNode(Standard);
      var fa := Compile(g1, start, a);
      var g2 := fa.graph.AddEdge(fa.exit, join, Empty);
      var fb := Compile(g2, start, b);
      CompileEdges(g1, start, a);
      assert AddsFreshEdges(g, fa.graph, start);
      FreshAddEdge(g, fa.graph, start, fa.exit, join, Empty);
      CompileEdges(g2, start, b);
      FreshCompose(g, g2, fb.graph, start, start);
      FreshAddEdge(g, fb.graph, start, fb.exit, join, Empty);
    case Star(a) =>
      var loop := |g.tags|;
      var g1 := g.AddNode(Standard);
      var fa := Compile(g1, loop, a);
      CompileEdges(g1, loop, a);
      assert AddsFreshEdges(g, fa.graph, loop);
      assert AddsFreshEdges(g, fa.graph, start);
      FreshAddEdge(g, fa.graph, start, fa.exit, loop, Empty);
      FreshAddEdge(g, fa.graph.AddEdge(fa.exit, loop, Empty), start, start, loop, Empty);
  }

  /** Every edge of `h` beyond those of `g` is an empty edge or carries a symbol of `syms`. */
  ghost predicate LabelsWithin<T>(g: Arena<T>, h: Arena<T>, syms: set<T>) {
    forall k :: |g.edges| <= k < |h.edges| ==>
      h.edges[k].weight.Empty? || h.edges[k].weight.sym in syms
  }

  /** Some edge of `h` beyond those of `g` is an empty edge. */
  ghost predicate AddsEmptyEdge<T>(g: Arena<T>, h: Arena<T>) {
    exists k :: |g.edges| <= k < |h.edges| && h.edges[k].weight.Empty?
  }

  lemma LabelsCompose<T>(g: Arena<T>, h1: Arena<T>, h2: Arena<T>, s1: set<T>, s2: set<T>)
    requires g.edges <= h1.edges && h1.edges <= h2.edges
    requires LabelsWithin(g, h1, s1) && LabelsWithin(h1, h2, s2)
    ensures LabelsWithin(g, h2, s1 + s2)
  {
    forall k | |g.edges| <= k < |h2.edges|
      ensures h2.edges[k].weight.Empty? || h2.edges[k].weight.sym in s1 + s2
    {
      if k < |h1.edges| {
        assert h2.edges[k] == h1.edges[k];
      }
    }
  }

  /** Every symbol edge that compilation adds carries a literal of the expression. */
  lemma {:induction false} CompileLabels<T>(g: Arena<T>, start: nat, e: R.Regex<T>)
    ensures LabelsWithin(g, Compile(g, start, e).graph, Symbols(e))
    decreases e
  {
    match e
    case Literal(s) =>
    case Empty =>
    case Concatenation(a, b) =>
      var fa := Compile(g, start, a);
      CompileLabels(g, start, a);
      CompileLabels(fa.graph, fa.exit, b);
      LabelsCompose(g, fa.graph, Compile(fa.graph, fa.exit, b).graph, Symbols(a), Symbols(b));
    case Alternative(a, b) =>
      var join := |g.tags|;
      var g1 := g.AddNode(Standard);
      var fa := Compile(g1, start, a);
      var g2 := fa.graph.AddEdge(fa.exit, join, Empty);
      var fb := Compile(g2, start, b);
      CompileLabels(g1, start, a);
      LabelsCompose(g, fa.graph, g2, Symbols(a), {});
      CompileLabels(g2, start, b);
      LabelsCompose(g, g2, fb.graph, Symbols(a), Symbols(b));
      LabelsCompose(g, fb.graph, fb.graph.AddEdge(fb.exit, join, Empty), Symbols(e), {});
    case Star(a) =>
      var loop := |g.tags|;
      var g1 := g.AddNode(Standard);
      var fa := Compile(g1, loop, a);
      CompileLabels(g1, loop, a);
      var h := fa.graph.AddEdge(fa.exit, loop, Empty).AddEdge(start, loop, Empty);
      LabelsCompose(g, fa.graph, h, Symbols(a), {});
  }

  /**
   * Compilation adds an empty edge exactly when the expression holds an
   * `Empty`, an alternation or a star: a chain of literals adds none.
   */
  lemma {:induction false} CompileEmptyEdges<T>(g: Arena<T>, start: nat, e: R.Regex<T>)
    ensures AddsEmptyEdge(g, Compile(g, start, e).graph) <==> !LiteralChain(e)
    decreases e
  {
    var r := Compile(g, start, e);
    match e
    case Literal(s) =>
      assert r.graph.edges == g.edges + [Edge(start, |g.tags|, Literal(s))];
    case Empty =>
      assert r.graph.edges[|g.edges|].weight.Empty?;
    case Concatenation(a, b) =>
      var fa := Compile(g, start, a);
      CompileEmptyEdges(g, start, a);
      CompileEmptyEdges(fa.graph, fa.exit, b);
      if AddsEmptyEdge(g, fa.graph) {
        var k :| |g.edges| <= k < |fa.graph.edges| && fa.graph.edges[k].weight.Empty?;
        assert r.graph.edges[k] == fa.graph.edges[k];
      } else if AddsEmptyEdge(fa.graph, r.graph) {
      } else {
        forall k | |g.edges| <= k < |r.graph.edges| ensures !r.graph.edges[k].weight.Empty? {
          if k < |fa.graph.edges| {
            assert r.graph.edges[k] == fa.graph.edges[k];
          }
        }
      }
    case Alternative(a, b) =>
      assert r.graph.edges[|r.graph.edges| - 1].weight.Empty?;
    case Star(a) =>
      assert r.graph.edges[|r.graph.edges| - 1].weight.Empty?;
  }

  /**
   * An alternation exits at its join node, the first node it allocates; the
   * join is entered by exactly two of the new edges, both empty: the one
   * after the left branch and the last one.
   */
  lemma AlternativeShape<T>(g: Arena<T>, start: nat, a: R.Regex<T>, b: R.Regex<T>)
    requires start < |g.tags|
    ensures var r := Compile(g, start, R.Alternative(a, b));
      && r.exit == |g.tags|
      && (forall k :: |g.edges| <= k < |r.graph.edges| ==>
            (r.graph.edges[k].dst == r.exit <==>
               k == |g.edges| + EdgeCount(a) || k == |r.graph.edges| - 1))
      && r.graph.edges[|g.edges| + EdgeCount(a)].weight.Empty?
      && r.graph.edges[|r.graph.edges| - 1].weight.Empty?
  {
    var join := |g.tags|;
    var g1 := g.AddNode(Standard);
    var fa := Compile(g1, start, a);
    var g2 := fa.graph.AddEdge(fa.exit, join, Empty);
    var fb := Compile(g2, start, b);
    var r := Compile(g, start, R.Alternative(a, b));
    CompileEdges(g1, start, a);
    CompileEdges(g2, start, b);
    forall k | |g.edges| <= k < |r.graph.edges|
      ensures r.graph.edges[k].dst == join <==> k == |g.edges| + EdgeCount(a) || k == |r.graph.edges| - 1
    {
      if k < |fa.graph.edges| {
        assert r.graph.edges[k] == fa.graph.edges[k];
      } else if k == |fa.graph.edges| {
        assert r.graph.edges[k] == g2.edges[k];
      } else if k < |fb.graph.edges| {
        assert r.graph.edges[k] == fb.graph.edges[k];
      }
    }
    assert r.graph.edges[|g.edges| + EdgeCount(a)] == g2.edges[|fa.graph.edges|];
  }

  /**
   * A star never exits at its loop node, the first node it allocates: it
   * exits where its body does, and its last two edges are the empty back
   * edge from that exit to the loop and the empty edge from the entry to the loop.
   */
  lemma StarShape<T>(g: Arena<T>, start: nat, a: R.Regex<T>)
    ensures var r := Compile(g, start, R.Star(a));
      var loop := |g.tags|;
      && r.exit != loop
      && r.exit == Compile(g.AddNode(Standard), loop, a).exit
      && r.graph.edges[|r.graph.edges| - 2] == Edge(r.exit, loop, Empty)
      && r.graph.edges[|r.graph.edges| - 1] == Edge(start, loop, Empty)
  {
  }

  /**
   * The compiled automaton: node 0 is the only Start node, exactly one other
   * node is Final, there is one node per Size(e) plus the start, every edge
   * joins existing nodes, no edge enters the start, and every symbol edge
   * carries a literal of `e`.
   */
  lemma NfaShape<T>(e: R.Regex<T>)
    ensures var n := NfaOf(e);
      && n.WellFormed()
      && |n.tags| == 1 + Size(e) && |n.edges| == EdgeCount(e)
      && n.tags[0] == Start
      && (forall i :: 0 < i < |n.tags| ==> n.tags[i] != Start)
      && 0 < FinalNode(e) < |n.tags|
      && (forall i :: 0 <= i < |n.tags| ==> (n.tags[i] == Final <==> i == FinalNode(e)))
      && (forall k :: 0 <= k < |n.edges| ==> n.edges[k].dst != 0)
      && (forall k :: 0 <= k < |n.edges| ==> n.edges[k].weight.Empty? || n.edges[k].weight.sym in Symbols(e))
  {
    var g0: Arena<T> := Arena([Start], []);
    var f := Compile(g0, 0, e);
    var n := NfaOf(e);
    CompileEdges(g0, 0, e);
    CompileLabels(g0, 0, e);
    assert g0.WellFormed();
    FreshWellFormed(g0, f.graph, 0);
    assert n.tags == f.graph.tags[f.exit := Final];
    forall i | 0 <= i < |n.tags| ensures n.tags[i] == Final <==> i == f.exit {
      if i == 0 {
        assert f.graph.tags[0] == g0.tags[0];
      }
    }
    assert f.graph.tags[0] == g0.tags[0];
  }

  // ---------------------------------------------------------------------
  // The construction in place on a graph object

  /** Compiles `e` into `graph` from entry node `start` and returns the exit node. */
  method Generate<T>(graph: Graph<T>, start: nat, e: R.Regex<T>) returns (end: nat)
    requires start < |graph.tags|
    modifies graph
    ensures Fragment(graph.View(), end) == Compile(old(graph.View()), start, e)
    decreases e, 1
  {
    match e
    case Literal(s) => end := Symbol(graph, start, s);
    case Concatenation(a, b) => end := Concatenation(graph, start, a, b);
    case Alternative(a, b) => end := Alternative(graph, start, a, b);
    case Star(a) => end := KleeneStar(graph, start, a);
    case Empty => end := EmptyWord(graph, start);
  }

  /** `a` from the entry, then `b` from `a`'s exit: the two fragments are glued. */
  method Concatenation<T>(graph: Graph<T>, start: nat, a: R.Regex<T>, b: R.Regex<T>) returns (end: nat)
    requires start < |graph.tags|
    modifies graph
    ensures Fragment(graph.View(), end) == Compile(old(graph.View()), start, R.Concatenation(a, b))
    decreases R.Concatenation(a, b), 0
  {
    var mid := Generate(graph, start, a);
    end := Generate(graph, mid, b);
  }

  /** Both branches from the same entry, each joined by an empty edge to a new node. */
  method Alternative<T>(graph: Graph<T>, start: nat, a: R.Regex<T>, b: R.Regex<T>) returns (end: nat)
    requires start < |graph.tags|
    modifies graph
    ensures Fragment(graph.View(), end) == Compile(old(graph.View()), start, R.Alternative(a, b))
    decreases R.Alternative(a, b), 0
  {
    end := graph.AddNode(Standard);
    var endA := Generate(graph, start, a);
    graph.AddEdge(endA, end, Empty);
    var endB := Generate(graph, start, b);
    graph.AddEdge(endB, end, Empty);
  }

  /** A new loop node entered from the entry and from the body's exit; exits at the body's exit. */
  method KleeneStar<T>(graph: Graph<T>, start: nat, a: R.Regex<T>) returns (end: nat)
    requires start < |graph.tags|
    modifies graph
    ensures Fragment(graph.View(), end) == Compile(old(graph.View()), start, R.Star(a))
    decreases R.Star(a), 0
  {
    var node := graph.AddNode(Standard);
    end := Generate(graph, node, a);
    graph.AddEdge(end, node, Empty);
    graph.AddEdge(start, node, Empty);
  }

  /** A new node reached from the entry by one symbol edge. */
  method Symbol<T>(graph: Graph<T>, start: nat, s: T) returns (end: nat)
    requires start < |graph.tags|
    modifies graph
    ensures Fragment(graph.View(), end) == Compile(old(graph.View()), start, R.Literal(s))
  {
    end := graph.AddNode(Standard);
    graph.AddEdge(start, end, Literal(s));
  }

  /** A new node reached from the entry by one empty edge. */
  method EmptyWord<T>(graph: Graph<T>, start: nat) returns (end: nat)
    requires start < |graph.tags|
    modifies graph
    ensures Fragment(graph.View(), end) == Compile(old(graph.View()), start, R.Empty)
  {
    end := graph.AddNode(Standard);
    graph.AddEdge(start, end, Empty);
  }

  /**
   * Builds the automaton of `expression`: a Start node, the compiled
   * expression from it, and its exit retagged Final.
   */
  method Converter<T>(expression: R.Regex<T>) returns (nfa: Arena<T>)
    ensures nfa == NfaOf(expression)
    ensures |nfa.tags| == 1 + Size(expression) && nfa.tags[0] == Start
    ensures nfa.tags[FinalNode(expression)] == Final
  {
    var graph := new Graph<T>();
    var start := graph.AddNode(Start);
    assert graph.View() == Arena([Start], []);
    var end := Generate(graph, start, expression);
    graph.SetTag(end, Final);
    nfa := graph.View();
    NfaShape(expression);
  }
}
