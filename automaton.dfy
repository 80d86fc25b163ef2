/**
 * Automaton graphs: node tags, edge labels, and a graph arena in which a
 * node is a position in the sequence of tags and an edge is a record of two
 * positions and a label. `Arena` is the value, `Graph` the mutable object
 * that the builders add nodes and edges to.
 */
module Automaton {

  /** Role of a node. The start tag also stands for the DFA builder's `Initial`. */
  datatype State = Start | Standard | Final

  /** Edge label: one occurrence of a symbol, or no input at all. */
  datatype BranchLabel<T> = Literal(sym: T) | Empty

  datatype Edge<T> = Edge(src: nat, dst: nat, weight: BranchLabel<T>)

  /** A graph as a value: node tags by index, edges in insertion order. */
  datatype Arena<T> = Arena(tags: seq<State>, edges: seq<Edge<T>>)
  {
    /** Every edge joins two existing nodes. */
    ghost predicate WellFormed() {
      forall i :: 0 <= i < |edges| ==> edges[i].src < |tags| && edges[i].dst < |tags|
    }

    /** The graph with one more node, whose index is the old node count. */
    function AddNode(s: State): (g: Arena<T>)
      ensures g.tags == tags + [s] && g.edges == edges
    {
      Arena(tags + [s], edges)
    }

    /** The graph with one more edge, appended after the existing ones. */
    function AddEdge(src: nat, dst: nat, weight: BranchLabel<T>): (g: Arena<T>)
      ensures g.tags == tags && g.edges == edges + [Edge(src, dst, weight)]
    {
      Arena(tags, edges + [Edge(src, dst, weight)])
    }

    /** The graph with the tag of node `n` replaced. */
    function SetTag(n: nat, s: State): (g: Arena<T>)
      requires n < |tags|
      ensures |g.tags| == |tags| && g.tags[n] == s && g.edges == edges
      ensures forall i :: 0 <= i < |tags| && i != n ==> g.tags[i] == tags[i]
    {
      Arena(tags[n := s], edges)
    }
  }

  /** The node indices below `n`. */
  function Range(n: nat): (r: set<nat>)
    ensures forall v: nat :: v in r <==> v < n
    ensures |r| == n
  {
    if n == 0 then {} else Range(n - 1) + {n - 1}
  }

  /** The set of valid node indices of `g`. */
  function Nodes<T>(g: Arena<T>): set<nat> {
    Range(|g.tags|)
  }

  /** A mutable graph; node indices are stable and never reused. */
  class Graph<T> {
    var tags: seq<State>
    var edges: seq<Edge<T>>

    /** The current contents as a value. */
    function View(): (g: Arena<T>)
      reads this
      ensures g.tags == tags && g.edges == edges
    {
      Arena(tags, edges)
    }

    constructor ()
      ensures tags == [] && edges == []
    {
      tags := [];
      edges := [];
    }

    /** Appends a node tagged `s` and returns its index. */
    method AddNode(s: State) returns (n: nat)
      modifies this
      ensures n == |old(tags)|
      ensures View() == old(View()).AddNode(s)
    {
      n := |tags|;
      tags := tags + [s];
    }

    /** Appends an edge; both endpoints must be existing nodes. */
    method AddEdge(src: nat, dst: nat, weight: BranchLabel<T>)
      requires src < |tags| && dst < |tags|
      modifies this
      ensures View() == old(View()).AddEdge(src, dst, weight)
    {
      edges := edges + [Edge(src, dst, weight)];
    }

    /** Replaces the tag of an existing node. */
    method SetTag(n: nat, s: State)
      requires n < |tags|
      modifies this
      ensures View() == old(View()).SetTag(n, s)
    {
      tags := tags[n := s];
    }
  }
}
