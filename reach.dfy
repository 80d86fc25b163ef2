/**
 * Reachability along edges of one label in a graph arena: the successors of
 * a set of nodes, the frontier after k steps, the nodes collected within k
 * steps, paths, cycles, and the epsilon-closure as a set.
 */
module Reach {
  import opened Automaton

  /** Targets of those among the first `k` edges that leave `S` with label `l`. */
  function Targets<T(==)>(g: Arena<T>, S: set<nat>, l: BranchLabel<T>, k: nat): set<nat>
    requires k <= |g.edges|
  {
    if k == 0 then {}
    else
      var e := g.edges[k - 1];
      Targets(g, S, l, k - 1) + (if e.src in S && e.weight == l then {e.dst} else {})
  }

  /** The nodes one `l`-edge away from some node of `S`. */
  function Successors<T(==)>(g: Arena<T>, S: set<nat>, l: BranchLabel<T>): set<nat> {
    Targets(g, S, l, |g.edges|)
  }

  /** Some edge goes from `u` to `v` with label `l`. */
  ghost predicate Arc<T>(g: Arena<T>, u: nat, v: nat, l: BranchLabel<T>) {
    exists k :: 0 <= k < |g.edges| && g.edges[k] == Edge(u, v, l)
  }

  /** The nodes reached from `S` by exactly `k` edges labelled `l`. */
  function Frontier<T(==)>(g: Arena<T>, S: set<nat>, l: BranchLabel<T>, k: nat): set<nat> {
    if k == 0 then S else Successors(g, Frontier(g, S, l, k - 1), l)
  }

  /** What the closure loop has collected after `k` rounds: `S` itself only for the empty label. */
  function Collected<T(==)>(g: Arena<T>, S: set<nat>, l: BranchLabel<T>, k: nat): set<nat> {
    if k == 0 then (if l == Empty then S else {})
    else Collected(g, S, l, k - 1) + Frontier(g, S, l, k)
  }

  /** `v` is reached from `S` by one or more `l`-edges. */
  ghost predicate Reaches<T>(g: Arena<T>, S: set<nat>, l: BranchLabel<T>, v: nat) {
    exists j :: 1 <= j && v in Frontier(g, S, l, j)
  }

  /** The epsilon-closure: `S` and every node reached from it by empty edges. */
  ghost function EpsClosure<T>(g: Arena<T>, S: set<nat>): set<nat> {
    S + set v | v in Nodes(g) && Reaches(g, S, Empty, v)
  }

  /** No empty edge leaves `S`. */
  ghost predicate EpsClosed<T>(g: Arena<T>, S: set<nat>) {
    Successors(g, S, Empty) <= S
  }

  // ---------------------------------------------------------------------
  // Successors

  lemma {:induction false} TargetsMember<T>(g: Arena<T>, S: set<nat>, l: BranchLabel<T>, k: nat, v: nat)
    requires k <= |g.edges|
    ensures v in Targets(g, S, l, k) <==>
      exists i :: 0 <= i < k && g.edges[i].src in S && g.edges[i].weight == l && g.edges[i].dst == v
  {
    if k > 0 {
      TargetsMember(g, S, l, k - 1, v);
    }
  }

  lemma SuccessorsMember<T>(g: Arena<T>, S: set<nat>, l: BranchLabel<T>, v: nat)
    ensures v in Successors(g, S, l) <==> exists u :: u in S && Arc(g, u, v, l)
  {
    TargetsMember(g, S, l, |g.edges|, v);
    if v in Successors(g, S, l) {
      var i :| 0 <= i < |g.edges| && g.edges[i].src in S && g.edges[i].weight == l && g.edges[i].dst == v;
      assert g.edges[i] == Edge(g.edges[i].src, v, l);
    }
    if exists u :: u in S && Arc(g, u, v, l) {
      var u :| u in S && Arc(g, u, v, l);
      var i :| 0 <= i < |g.edges| && g.edges[i] == Edge(u, v, l);
      assert g.edges[i].src in S && g.edges[i].weight == l && g.edges[i].dst == v;
    }
  }

  lemma {:induction false} TargetsUnion<T>(g: Arena<T>, A: set<nat>, B: set<nat>, l: BranchLabel<T>, k: nat)
    requires k <= |g.edges|
    ensures Targets(g, A + B, l, k) == Targets(g, A, l, k) + Targets(g, B, l, k)
  {
    if k > 0 {
      TargetsUnion(g, A, B, l, k - 1);
    }
  }

  /** Successors distribute over union. */
  lemma SuccessorsUnion<T>(g: Arena<T>, A: set<nat>, B: set<nat>, l: BranchLabel<T>)
    ensures Successors(g, A + B, l) == Successors(g, A, l) + Successors(g, B, l)
  {
    TargetsUnion(g, A, B, l, |g.edges|);
  }

  lemma SuccessorsMono<T>(g: Arena<T>, A: set<nat>, B: set<nat>, l: BranchLabel<T>)
    requires A <= B
    ensures Successors(g, A, l) <= Successors(g, B, l)
  {
    assert B == A + (B - A);
    SuccessorsUnion(g, A, B - A, l);
  }

  lemma {:induction false} TargetsNone<T>(g: Arena<T>, l: BranchLabel<T>, k: nat)
    requires k <= |g.edges|
    ensures Targets(g, {}, l, k) == {}
  {
    if k > 0 {
      TargetsNone(g, l, k - 1);
    }
  }

  lemma {:induction false} TargetsInNodes<T>(g: Arena<T>, S: set<nat>, l: BranchLabel<T>, k: nat)
    requires g.WellFormed() && k <= |g.edges|
    ensures Targets(g, S, l, k) <= Nodes(g)
  {
    if k > 0 {
      TargetsInNodes(g, S, l, k - 1);
    }
  }

  // ---------------------------------------------------------------------
  // Frontiers

  lemma {:induction false} FrontierMono<T>(g: Arena<T>, A: set<nat>, B: set<nat>, l: BranchLabel<T>, k: nat)
    requires A <= B
    ensures Frontier(g, A, l, k) <= Frontier(g, B, l, k)
  {
    if k > 0 {
      FrontierMono(g, A, B, l, k - 1);
      SuccessorsMono(g, Frontier(g, A, l, k - 1), Frontier(g, B, l, k - 1), l);
    }
  }

  /** Walking `i` steps and then `j` steps is walking `i + j` steps. */
  lemma {:induction false} FrontierAdd<T>(g: Arena<T>, S: set<nat>, l: BranchLabel<T>, i: nat, j: nat)
    ensures Frontier(g, Frontier(g, S, l, i), l, j) == Frontier(g, S, l, i + j)
  {
    if j > 0 {
      FrontierAdd(g, S, l, i, j - 1);
    }
  }

  lemma {:induction false} FrontierNone<T>(g: Arena<T>, l: BranchLabel<T>, k: nat)
    ensures Frontier(g, {}, l, k) == {}
  {
    if k > 0 {
      FrontierNone(g, l, k - 1);
      TargetsNone(g, l, |g.edges|);
    }
  }

  /** Once the frontier is empty it stays empty. */
  lemma FrontierStaysEmpty<T>(g: Arena<T>, S: set<nat>, l: BranchLabel<T>, k: nat, m: nat)
    requires Frontier(g, S, l, k) == {} && k <= m
    ensures Frontier(g, S, l, m) == {}
  {
    FrontierAdd(g, S, l, k, m - k);
    FrontierNone(g, l, m - k);
  }

  lemma FrontierInNodes<T>(g: Arena<T>, S: set<nat>, l: BranchLabel<T>, k: nat)
    requires g.WellFormed() && 1 <= k
    ensures Frontier(g, S, l, k) <= Nodes(g)
  {
    TargetsInNodes(g, Frontier(g, S, l, k - 1), l, |g.edges|);
  }

  /** A node of the frontier of `A` is in the frontier of one node of `A`. */
  lemma {:induction false} FrontierFrom<T>(g: Arena<T>, A: set<nat>, l: BranchLabel<T>, k: nat, v: nat)
    requires v in Frontier(g, A, l, k)
    ensures exists u :: u in A && v in Frontier(g, {u}, l, k)
  {
    if k > 0 {
      SuccessorsMember(g, Frontier(g, A, l, k - 1), l, v);
      var w :| w in Frontier(g, A, l, k - 1) && Arc(g, w, v, l);
      FrontierFrom(g, A, l, k - 1, w);
      var u :| u in A && w in Frontier(g, {u}, l, k - 1);
      SuccessorsMember(g, Frontier(g, {u}, l, k - 1), l, v);
    }
  }

  // ---------------------------------------------------------------------
  // What the closure loop collects

  lemma {:induction false} CollectedMember<T>(g: Arena<T>, S: set<nat>, l: BranchLabel<T>, k: nat, v: nat)
    ensures v in Collected(g, S, l, k) <==>
      (l == Empty && v in S) || exists j :: 1 <= j <= k && v in Frontier(g, S, l, j)
  {
    if k > 0 {
      CollectedMember(g, S, l, k - 1, v);
      assert Collected(g, S, l, k) == Collected(g, S, l, k - 1) + Frontier(g, S, l, k);
      if exists j :: 1 <= j <= k && v in Frontier(g, S, l, j) {
        var j :| 1 <= j <= k && v in Frontier(g, S, l, j);
        if j < k {
          assert exists i :: 1 <= i <= k - 1 && v in Frontier(g, S, l, i);
        } else {
          assert v in Frontier(g, S, l, k);
        }
      }
    }
  }

  /**
   * When the frontier is empty after `k` rounds, the collected nodes are
   * `S` (for the empty label) and exactly the nodes reached from `S`.
   */
  lemma CollectedReaches<T>(g: Arena<T>, S: set<nat>, l: BranchLabel<T>, k: nat, v: nat)
    requires Frontier(g, S, l, k) == {}
    ensures v in Collected(g, S, l, k) <==> (l == Empty && v in S) || Reaches(g, S, l, v)
  {
    CollectedMember(g, S, l, k, v);
    if Reaches(g, S, l, v) {
      var j :| 1 <= j && v in Frontier(g, S, l, j);
      if j > k {
        FrontierStaysEmpty(g, S, l, k, j);
      }
    }
  }

  /** The collected set no longer changes once the frontier is empty. */
  lemma CollectedStable<T>(g: Arena<T>, S: set<nat>, l: BranchLabel<T>, k: nat, m: nat)
    requires Frontier(g, S, l, k) == {} && k <= m
    ensures Collected(g, S, l, m) == Collected(g, S, l, k)
  {
    forall v ensures v in Collected(g, S, l, m) <==> v in Collected(g, S, l, k) {
      FrontierStaysEmpty(g, S, l, k, m);
      CollectedReaches(g, S, l, k, v);
      CollectedReaches(g, S, l, m, v);
    }
  }

  /** For the empty label, a terminated closure loop has collected the epsilon-closure. */
  lemma CollectedIsEpsClosure<T>(g: Arena<T>, S: set<nat>, k: nat)
    requires g.WellFormed() && Frontier(g, S, Empty, k) == {}
    ensures Collected(g, S, Empty, k) == EpsClosure(g, S)
  {
    forall v ensures v in Collected(g, S, Empty, k) <==> v in EpsClosure(g, S) {
      CollectedReaches(g, S, Empty, k, v);
      if Reaches(g, S, Empty, v) {
        var j :| 1 <= j && v in Frontier(g, S, Empty, j);
        FrontierInNodes(g, S, Empty, j);
      }
    }
  }

  // ---------------------------------------------------------------------
  // The epsilon-closure

  /** The closure contains `S`, consists of nodes of `S` or of the graph, and no empty edge leaves it. */
  lemma EpsClosureClosed<T>(g: Arena<T>, S: set<nat>)
    requires g.WellFormed()
    ensures S <= EpsClosure(g, S) <= S + Nodes(g)
    ensures EpsClosed(g, EpsClosure(g, S))
  {
    var C := EpsClosure(g, S);
    forall v | v in Successors(g, C, Empty) ensures v in C {
      TargetsInNodes(g, C, Empty, |g.edges|);
      SuccessorsMember(g, C, Empty, v);
      var u :| u in C && Arc(g, u, v, Empty);
      SuccessorsMember(g, Frontier(g, S, Empty, 0), Empty, v);
      if u in S {
        assert v in Frontier(g, S, Empty, 1);
      } else {
        var j :| 1 <= j && u in Frontier(g, S, Empty, j);
        SuccessorsMember(g, Frontier(g, S, Empty, j), Empty, v);
        assert v in Frontier(g, S, Empty, j + 1);
      }
    }
  }

  /** The closure is the least set containing `S` that no empty edge leaves. */
  lemma EpsClosureLeast<T>(g: Arena<T>, S: set<nat>, X: set<nat>)
    requires S <= X && EpsClosed(g, X)
    ensures EpsClosure(g, S) <= X
  {
    forall j: nat ensures Frontier(g, S, Empty, j) <= X {
      FrontierWithin(g, S, X, j);
    }
  }

  lemma {:induction false} FrontierWithin<T>(g: Arena<T>, S: set<nat>, X: set<nat>, j: nat)
    requires S <= X && EpsClosed(g, X)
    ensures Frontier(g, S, Empty, j) <= X
  {
    if j > 0 {
      FrontierWithin(g, S, X, j - 1);
      SuccessorsMono(g, Frontier(g, S, Empty, j - 1), X, Empty);
    }
  }

  /** Closing twice is closing once. */
  lemma EpsClosureIdempotent<T>(g: Arena<T>, S: set<nat>)
    requires g.WellFormed()
    ensures EpsClosure(g, EpsClosure(g, S)) == EpsClosure(g, S)
  {
    var C := EpsClosure(g, S);
    EpsClosureClosed(g, S);
    EpsClosureClosed(g, C);
    EpsClosureLeast(g, C, C);
  }

  /** A closed set is its own closure. */
  lemma EpsClosedFixpoint<T>(g: Arena<T>, S: set<nat>)
    requires g.WellFormed() && EpsClosed(g, S)
    ensures EpsClosure(g, S) == S
  {
    EpsClosureClosed(g, S);
    EpsClosureLeast(g, S, S);
  }

  // ---------------------------------------------------------------------
  // Paths, cycles and termination of the frontier loop

  /** Consecutive nodes of `p` are joined by `l`-edges. */
  ghost predicate IsPath<T>(g: Arena<T>, l: BranchLabel<T>, p: seq<nat>) {
    forall i :: 0 <= i < |p| - 1 ==> p[i + 1] in Successors(g, {p[i]}, l)
  }

  /** `c` lies on a cycle of `l`-edges. */
  ghost predicate OnCycle<T>(g: Arena<T>, l: BranchLabel<T>, c: nat) {
    exists j :: 1 <= j && c in Frontier(g, {c}, l, j)
  }

  /** A node on a cycle of `l`-edges is reachable from `S`. */
  ghost predicate CycleReachable<T>(g: Arena<T>, S: set<nat>, l: BranchLabel<T>) {
    exists c, j :: c in Frontier(g, S, l, j) && OnCycle(g, l, c)
  }

  lemma {:induction false} FrontierPath<T>(g: Arena<T>, S: set<nat>, l: BranchLabel<T>, k: nat, v: nat)
    requires v in Frontier(g, S, l, k)
    ensures exists p :: |p| == k + 1 && p[0] in S && p[k] == v && IsPath(g, l, p)
  {
    if k == 0 {
      assert [v][0] in S;
    } else {
      SuccessorsMember(g, Frontier(g, S, l, k - 1), l, v);
      var u :| u in Frontier(g, S, l, k - 1) && Arc(g, u, v, l);
      FrontierPath(g, S, l, k - 1, u);
      var p :| |p| == k && p[0] in S && p[k - 1] == u && IsPath(g, l, p);
      SuccessorsMember(g, {u}, l, v);
      var q := p + [v];
      assert forall i :: 0 <= i < |q| - 1 ==> q[i + 1] in Successors(g, {q[i]}, l) by {
        forall i | 0 <= i < |q| - 1 ensures q[i + 1] in Successors(g, {q[i]}, l) {
          if i < |p| - 1 {
            assert q[i] == p[i] && q[i + 1] == p[i + 1];
          }
        }
      }
      assert q[0] in S && q[k] == v;
    }
  }

  lemma {:induction false} PathFrontier<T>(g: Arena<T>, l: BranchLabel<T>, p: seq<nat>, i: nat, j: nat)
    requires IsPath(g, l, p) && i <= j < |p|
    ensures p[j] in Frontier(g, {p[i]}, l, j - i)
  {
    if j > i {
      PathFrontier(g, l, p, i, j - 1);
      assert p[j] in Successors(g, {p[j - 1]}, l);
      SuccessorsMono(g, {p[j - 1]}, Frontier(g, {p[i]}, l, j - 1 - i), l);
    }
  }

  /** The values occurring in `p`. */
  ghost function Elems<X>(p: seq<X>): set<X> {
    set x | x in p
  }

  /** The elements of a sequence without repetitions are as many as its length. */
  lemma {:induction false} DistinctCard<X>(p: seq<X>)
    requires forall i, j :: 0 <= i < j < |p| ==> p[i] != p[j]
    ensures |Elems(p)| == |p|
  {
    if p != [] {
      var q := p[..|p| - 1];
      DistinctCard(q);
      var last := p[|p| - 1];
      assert p == q + [last];
      assert Elems(p) == Elems(q) + {last};
      assert last !in Elems(q);
    }
  }

  lemma SubsetCard<X>(A: set<X>, B: set<X>)
    requires A <= B
    ensures |A| <= |B|
  {
    var rest := B - A;
    assert B == A + rest;
  }

  /** More than `n` values below `n` repeat one. */
  lemma Pigeonhole(p: seq<nat>, n: nat)
    requires |p| > n && forall i :: 0 <= i < |p| ==> p[i] < n
    ensures exists i, j :: 0 <= i < j < |p| && p[i] == p[j]
  {
    if forall i, j :: 0 <= i < j < |p| ==> p[i] != p[j] {
      DistinctCard(p);
      var elems := Elems(p);
      SubsetCard(elems, Range(n));
    }
  }

  /** A reachable cycle keeps the frontier non-empty forever: the loop never stops. */
  lemma CycleNeverEmpties<T>(g: Arena<T>, S: set<nat>, l: BranchLabel<T>, k: nat)
    requires CycleReachable(g, S, l)
    ensures Frontier(g, S, l, k) != {}
  {
    var c, j :| c in Frontier(g, S, l, j) && OnCycle(g, l, c);
    var i :| 1 <= i && c in Frontier(g, {c}, l, i);
    var t := CycleRepeat(g, S, l, c, j, i, k);
    if Frontier(g, S, l, k) == {} {
      FrontierStaysEmpty(g, S, l, k, t);
      assert false;
    }
  }

  lemma {:induction false} CycleRepeat<T>(g: Arena<T>, S: set<nat>, l: BranchLabel<T>, c: nat, j: nat, i: nat, m: nat)
      returns (t: nat)
    requires c in Frontier(g, S, l, j) && 1 <= i && c in Frontier(g, {c}, l, i)
    ensures t >= m && c in Frontier(g, S, l, t)
  {
    if m == 0 {
      t := j;
    } else {
      var t0 := CycleRepeat(g, S, l, c, j, i, m - 1);
      FrontierMono(g, {c}, Frontier(g, S, l, t0), l, i);
      FrontierAdd(g, S, l, t0, i);
      t := t0 + i;
    }
  }

  /** In a well-formed graph every node of a path out of a set of nodes is a node. */
  lemma PathInNodes<T>(g: Arena<T>, S: set<nat>, l: BranchLabel<T>, p: seq<nat>)
    requires g.WellFormed() && S <= Nodes(g) && |p| >= 1 && p[0] in S && IsPath(g, l, p)
    ensures forall i :: 0 <= i < |p| ==> p[i] < |g.tags|
  {
    forall i | 0 <= i < |p| ensures p[i] < |g.tags| {
      if i > 0 {
        PathFrontier(g, l, p, 0, i);
        FrontierInNodes(g, {p[0]}, l, i);
      }
    }
  }

  /** A path that repeats a node shows a reachable cycle. */
  lemma RepeatIsCycle<T>(g: Arena<T>, S: set<nat>, l: BranchLabel<T>, p: seq<nat>, a: nat, b: nat)
    requires |p| >= 1 && p[0] in S && IsPath(g, l, p)
    requires a < b < |p| && p[a] == p[b]
    ensures CycleReachable(g, S, l)
  {
    PathFrontier(g, l, p, a, b);
    PathFrontier(g, l, p, 0, a);
    FrontierMono(g, {p[0]}, S, l, a);
    assert OnCycle(g, l, p[a]);
  }

  /**
   * Without a reachable cycle the frontier from a set of nodes is empty
   * after as many steps as the graph has nodes: the loop stops.
   */
  lemma AcyclicEmpties<T>(g: Arena<T>, S: set<nat>, l: BranchLabel<T>)
    requires g.WellFormed() && S <= Nodes(g)
    requires !CycleReachable(g, S, l)
    ensures Frontier(g, S, l, |g.tags|) == {}
  {
    var n := |g.tags|;
    if Frontier(g, S, l, n) != {} {
      var v :| v in Frontier(g, S, l, n);
      FrontierPath(g, S, l, n, v);
      var p :| |p| == n + 1 && p[0] in S && p[n] == v && IsPath(g, l, p);
      PathInNodes(g, S, l, p);
      Pigeonhole(p, n);
      var a, b :| 0 <= a < b < |p| && p[a] == p[b];
      RepeatIsCycle(g, S, l, p, a, b);
    }
  }

  /** The frontier loop from a set of nodes stops iff no cycle is reachable from it. */
  lemma FrontierEmptiesIff<T>(g: Arena<T>, S: set<nat>, l: BranchLabel<T>)
    requires g.WellFormed() && S <= Nodes(g)
    ensures (exists k :: Frontier(g, S, l, k) == {}) <==> !CycleReachable(g, S, l)
  {
    if CycleReachable(g, S, l) {
      forall k ensures Frontier(g, S, l, k) != {} {
        CycleNeverEmpties(g, S, l, k);
      }
    } else {
      AcyclicEmpties(g, S, l);
    }
  }

  /** No cycle of empty edges: every frontier of empty edges dies within |nodes| steps. */
  ghost predicate EpsAcyclic<T>(g: Arena<T>) {
    Frontier(g, Nodes(g), Empty, |g.tags|) == {}
  }

  /** `EpsAcyclic` holds exactly when no node lies on a cycle of empty edges. */
  lemma EpsAcyclicIff<T>(g: Arena<T>)
    requires g.WellFormed()
    ensures EpsAcyclic(g) <==> forall c :: !OnCycle(g, Empty, c)
  {
    if exists c :: OnCycle(g, Empty, c) {
      var c :| OnCycle(g, Empty, c);
      var i :| 1 <= i && c in Frontier(g, {c}, Empty, i);
      FrontierInNodes(g, {c}, Empty, i);
      assert c in Frontier(g, Nodes(g), Empty, 0);
      assert CycleReachable(g, Nodes(g), Empty);
      CycleNeverEmpties(g, Nodes(g), Empty, |g.tags|);
    } else {
      AcyclicEmpties(g, Nodes(g), Empty);
    }
  }

  /** In an epsilon-acyclic graph the closure loop from any set of nodes stops within |nodes| rounds. */
  lemma AcyclicBound<T>(g: Arena<T>, S: set<nat>)
    requires EpsAcyclic(g) && S <= Nodes(g)
    ensures Frontier(g, S, Empty, |g.tags|) == {}
  {
    FrontierMono(g, S, Nodes(g), Empty, |g.tags|);
  }
}
