/**
 * A self-contained directed graph over an explicit edge relation: cycles,
 * topological orders, and Kahn's algorithm. It stands in for the two graph
 * library calls the task graph makes (cycle listing and topological sort).
 */
module Digraph {

  /** Task ids are the nodes of the task graph. */
  type Node = string

  predicate Distinct(s: seq<Node>) {
    forall i, j :: 0 <= i < j < |s| ==> s[i] != s[j]
  }

  /** Consecutive elements of `p` are joined by edges. */
  ghost predicate IsPath(edges: set<(Node, Node)>, p: seq<Node>) {
    forall i :: 0 <= i < |p| - 1 ==> (p[i], p[i + 1]) in edges
  }

  /** A path that closes on itself; a single node with a self-loop is one. */
  ghost predicate IsCycle(edges: set<(Node, Node)>, c: seq<Node>) {
    c != [] && IsPath(edges, c) && (c[|c| - 1], c[0]) in edges
  }

  ghost predicate HasCycle(edges: set<(Node, Node)>) {
    exists c :: IsCycle(edges, c)
  }

  ghost predicate HasCycleWithin(edges: set<(Node, Node)>, within: set<Node>) {
    exists c :: IsCycle(edges, c) && forall x :: x in c ==> x in within
  }

  /** Every edge between two members of `order` goes forward in it. */
  ghost predicate RespectsEdges(edges: set<(Node, Node)>, order: seq<Node>) {
    forall i, j :: 0 <= i < |order| && 0 <= j < |order| && (order[i], order[j]) in edges ==> i < j
  }

  /** `order` lists the nodes, each once, with every edge's source before its target. */
  ghost predicate IsTopologicalOrder(nodes: seq<Node>, edges: set<(Node, Node)>, order: seq<Node>) {
    multiset(order) == multiset(nodes) && RespectsEdges(edges, order)
  }

  /** Every edge joins two nodes of the graph, as in any graph object. */
  ghost predicate EdgesWithin(nodes: seq<Node>, edges: set<(Node, Node)>) {
    forall e :: e in edges ==> e.0 in nodes && e.1 in nodes
  }

  // ---------------------------------------------------------------------------
  // Acyclicity and topological orders

  ghost function Position(s: seq<Node>, x: Node): (i: nat)
    requires x in s
    ensures i < |s| && s[i] == x
  {
    var i :| 0 <= i < |s| && s[i] == x; i
  }

  lemma {:induction false} PathClimbs(edges: set<(Node, Node)>, order: seq<Node>, c: seq<Node>, k: nat)
    requires RespectsEdges(edges, order) && IsPath(edges, c)
    requires forall x :: x in c ==> x in order
    requires 0 < k < |c|
    ensures Position(order, c[0]) < Position(order, c[k])
  {
    assert (c[k - 1], c[k]) in edges;
    if k > 1 {
      PathClimbs(edges, order, c, k - 1);
    }
  }

  /** A path through nodes of a topological order never has an edge back to its start. */
  lemma NoClosingEdge(edges: set<(Node, Node)>, order: seq<Node>, c: seq<Node>)
    requires RespectsEdges(edges, order) && c != [] && IsPath(edges, c)
    requires forall x :: x in c ==> x in order
    ensures (c[|c| - 1], c[0]) !in edges
  {
    var last := |c| - 1;
    if last > 0 {
      PathClimbs(edges, order, c, last);
    }
    var i, j := Position(order, c[last]), Position(order, c[0]);
    assert order[i] == c[last] && order[j] == c[0];
  }

  /** A graph that has a topological order has no cycle. */
  lemma TopologicalOrderAcyclic(edges: set<(Node, Node)>, order: seq<Node>)
    requires RespectsEdges(edges, order)
    requires forall e :: e in edges ==> e.0 in order && e.1 in order
    ensures !HasCycle(edges)
  {
    if c :| IsCycle(edges, c) {
      assert forall x :: x in c ==> x in order by {
        forall x | x in c ensures x in order {
          var k :| 0 <= k < |c| && c[k] == x;
          if k < |c| - 1 {
            assert (c[k], c[k + 1]) in edges;
          } else {
            assert (c[k], c[0]) in edges;
          }
        }
      }
      NoClosingEdge(edges, order, c);
    }
  }

  // ---------------------------------------------------------------------------
  // Where every node has a predecessor, there is a cycle

  lemma {:induction false} DistinctSize(w: seq<Node>)
    requires Distinct(w)
    ensures |set x | x in w| == |w|
  {
    if w != [] {
      DistinctSize(w[1..]);
      assert (set x | x in w) == {w[0]} + (set x | x in w[1..]);
      assert w[0] !in (set x | x in w[1..]);
    }
  }

  lemma SubsetSize(a: set<Node>, b: set<Node>)
    requires a <= b
    ensures |a| <= |b|
  {
    assert b == a + (b - a);
  }

  ghost predicate HasPredecessor(edges: set<(Node, Node)>, s: set<Node>, x: Node) {
    exists y :: y in s && (y, x) in edges
  }

  ghost predicate EveryNodeHasPredecessor(edges: set<(Node, Node)>, s: set<Node>) {
    forall x {:trigger HasPredecessor(edges, s, x)} :: x in s ==> HasPredecessor(edges, s, x)
  }

  lemma {:induction false} WalkBack(edges: set<(Node, Node)>, s: set<Node>, w: seq<Node>)
    requires EveryNodeHasPredecessor(edges, s)
    requires w != [] && IsPath(edges, w) && Distinct(w)
    requires forall x :: x in w ==> x in s
    ensures HasCycleWithin(edges, s)
    decreases |s| - |w|
  {
    DistinctSize(w);
    assert (set x | x in w) <= s;
    assert HasPredecessor(edges, s, w[0]);
    var p :| p in s && (p, w[0]) in edges;
    if j :| 0 <= j < |w| && w[j] == p {
      var c := w[..j + 1];
      assert IsCycle(edges, c);
      assert forall x :: x in c ==> x in s;
    } else {
      var w' := [p] + w;
      assert Distinct(w');
      assert IsPath(edges, w');
      DistinctSize(w');
      SubsetSize((set x | x in w'), s);
      WalkBack(edges, s, w');
    }
  }

  /**
   * When every node of a non-empty set has a predecessor inside the set,
   * walking backwards must revisit a node: the set holds a cycle.
   */
  lemma NoSourceHasCycle(edges: set<(Node, Node)>, s: set<Node>)
    requires s != {} && EveryNodeHasPredecessor(edges, s)
    ensures HasCycleWithin(edges, s)
  {
    var x :| x in s;
    assert IsPath(edges, [x]);
    WalkBack(edges, s, [x]);
  }

  // ---------------------------------------------------------------------------
  // Kahn's algorithm

  datatype SortResult = Sorted(order: seq<Node>) | Cyclic(unsorted: seq<Node>)

  /** Some member of `pending` has an edge into `x`. */
  predicate HasPredecessorIn(edges: set<(Node, Node)>, pending: seq<Node>, x: Node) {
    exists y :: y in pending && (y, x) in edges
  }

  /** The first pending node with no incoming edge from a pending node, if any. */
  method FindSource(edges: set<(Node, Node)>, pending: seq<Node>) returns (k: nat)
    ensures k <= |pending|
    ensures k < |pending| ==> !HasPredecessorIn(edges, pending, pending[k])
    ensures forall i :: 0 <= i < k ==> HasPredecessorIn(edges, pending, pending[i])
  {
    k := 0;
    while k < |pending| && HasPredecessorIn(edges, pending, pending[k])
      invariant k <= |pending|
      invariant forall i :: 0 <= i < k ==> HasPredecessorIn(edges, pending, pending[i])
    {
      k := k + 1;
    }
  }

  /** Moving a source of the pending nodes to the output keeps Kahn's invariant. */
  lemma KahnStep(edges: set<(Node, Node)>, order: seq<Node>, pending: seq<Node>, k: nat)
    requires k < |pending| && !HasPredecessorIn(edges, pending, pending[k])
    requires RespectsEdges(edges, order)
    requires forall a, b :: a in pending && b in order ==> (a, b) !in edges
    ensures var x := pending[k];
      var rest := pending[..k] + pending[k + 1..];
      && multiset(order + [x]) + multiset(rest) == multiset(order) + multiset(pending)
      && RespectsEdges(edges, order + [x])
      && forall a, b :: a in rest && b in order + [x] ==> (a, b) !in edges
  {
    var x := pending[k];
    var rest := pending[..k] + pending[k + 1..];
    assert pending == pending[..k] + [x] + pending[k + 1..];
    forall a | a in rest ensures a in pending {
    }
    var o := order + [x];
    assert RespectsEdges(edges, o);
  }

  /**
   * Kahn's algorithm: repeatedly move a node with no incoming edge from the
   * still-pending nodes to the output. It fails exactly when the graph has a
   * cycle, and then the nodes it could not place contain one.
   */
  method TopologicalSort(nodes: seq<Node>, edges: set<(Node, Node)>) returns (r: SortResult)
    requires EdgesWithin(nodes, edges)
    ensures r.Sorted? <==> !HasCycle(edges)
    ensures r.Sorted? ==> IsTopologicalOrder(nodes, edges, r.order)
    ensures r.Cyclic? ==> HasCycleWithin(edges, set x | x in r.unsorted)
  {
    var order: seq<Node> := [];
    var pending := nodes;
    while pending != []
      invariant multiset(order) + multiset(pending) == multiset(nodes)
      invariant RespectsEdges(edges, order)
      invariant forall a, b :: a in pending && b in order ==> (a, b) !in edges
      decreases |pending|
    {
      var k := FindSource(edges, pending);
      if k == |pending| {
        var left := set x | x in pending;
        forall x | x in left ensures HasPredecessor(edges, left, x) {
          var i :| 0 <= i < |pending| && pending[i] == x;
          assert HasPredecessorIn(edges, pending, pending[i]);
        }
        assert pending[0] in left;
        NoSourceHasCycle(edges, left);
        return Cyclic(pending);
      }
      KahnStep(edges, order, pending, k);
      order, pending := order + [pending[k]], pending[..k] + pending[k + 1..];
    }
    forall e | e in edges ensures e.0 in order && e.1 in order {
      assert e.0 in multiset(nodes) && e.1 in multiset(nodes);
    }
    TopologicalOrderAcyclic(edges, order);
    r := Sorted(order);
  }
}
