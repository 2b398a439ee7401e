/** Finite directed graphs given by adjacency sets, and reachability by walks.

    `nodes` restricts a graph: an edge counts only when both of its ends are nodes. */
module Digraph {
  import opened Sorting

  type Node = string
  type Edges = map<Node, set<Node>>

  /** The adjacency set of `key`; a key without an entry has no successors. */
  function Successors(edges: Edges, key: Node): set<Node> {
    if key in edges then edges[key] else {}
  }

  ghost predicate IsWalk(nodes: set<Node>, edges: Edges, p: seq<Node>) {
    && p != []
    && (forall i | 0 <= i < |p| :: p[i] in nodes)
    && (forall i | 0 < i < |p| :: p[i] in Successors(edges, p[i - 1]))
  }

  ghost predicate WalkFromTo(nodes: set<Node>, edges: Edges, p: seq<Node>, a: Node, b: Node) {
    IsWalk(nodes, edges, p) && |p| >= 2 && p[0] == a && p[|p| - 1] == b
  }

  /** `b` can be reached from `a` along one or more edges. */
  ghost predicate Reaches(nodes: set<Node>, edges: Edges, a: Node, b: Node) {
    exists p :: WalkFromTo(nodes, edges, p, a, b)
  }

  ghost predicate Acyclic(nodes: set<Node>, edges: Edges) {
    forall k | k in nodes :: !Reaches(nodes, edges, k, k)
  }

  ghost function ReachSet(nodes: set<Node>, edges: Edges, a: Node): set<Node> {
    set t | t in nodes && Reaches(nodes, edges, a, t)
  }

  /** The nodes with an edge into `key`. */
  ghost function Predecessors(nodes: set<Node>, edges: Edges, key: Node): set<Node> {
    set s | s in nodes && key in Successors(edges, s)
  }

  lemma EdgeReaches(nodes: set<Node>, edges: Edges, a: Node, b: Node)
    requires a in nodes && b in nodes && b in Successors(edges, a)
    ensures Reaches(nodes, edges, a, b)
  {
    assert WalkFromTo(nodes, edges, [a, b], a, b);
  }

  lemma ReachesTransitive(nodes: set<Node>, edges: Edges, a: Node, b: Node, c: Node)
    requires Reaches(nodes, edges, a, b) && Reaches(nodes, edges, b, c)
    ensures Reaches(nodes, edges, a, c)
  {
    var p :| WalkFromTo(nodes, edges, p, a, b);
    var q :| WalkFromTo(nodes, edges, q, b, c);
    var r := p + q[1..];
    assert r[|r| - 1] == c;
    forall i | 0 < i < |r| ensures r[i] in Successors(edges, r[i - 1]) {
      if i >= |p| {
        assert r[i] == q[i - |p| + 1] && r[i - 1] == q[i - |p|];
      }
    }
    assert WalkFromTo(nodes, edges, r, a, c);
  }

  /** A set that holds the successors of `a` and is closed under edges holds all that `a` reaches. */
  lemma ClosedUnderReach(nodes: set<Node>, edges: Edges, closed: set<Node>, a: Node, b: Node)
    requires Reaches(nodes, edges, a, b)
    requires Successors(edges, a) * nodes <= closed
    requires forall k | k in closed :: Successors(edges, k) * nodes <= closed
    ensures b in closed
  {
    var p :| WalkFromTo(nodes, edges, p, a, b);
    for i := 1 to |p|
      invariant i > 1 ==> p[i - 1] in closed
    {
    }
  }

  /** Each node comes after its successors: a certificate that no walk can close. */
  ghost predicate FinishOrder(nodes: set<Node>, edges: Edges, order: seq<Node>) {
    forall i | 0 <= i < |order| :: Successors(edges, order[i]) * nodes <= Elements(order[..i])
  }

  lemma {:induction false} FinishOrderDescends(nodes: set<Node>, edges: Edges, order: seq<Node>, i: nat, b: Node)
    requires FinishOrder(nodes, edges, order) && i < |order|
    requires Reaches(nodes, edges, order[i], b)
    ensures b in Elements(order[..i])
  {
    var closed := Elements(order[..i]);
    forall k | k in closed ensures Successors(edges, k) * nodes <= closed {
      var j :| 0 <= j < i && order[j] == k;
      assert Elements(order[..j]) <= closed;
    }
    ClosedUnderReach(nodes, edges, closed, order[i], b);
  }

  lemma FinishOrderAcyclic(nodes: set<Node>, edges: Edges, order: seq<Node>)
    requires FinishOrder(nodes, edges, order) && NoDuplicates(order) && Elements(order) == nodes
    ensures Acyclic(nodes, edges)
  {
    forall k | k in nodes ensures !Reaches(nodes, edges, k, k) {
      assert k in Elements(order);
      var i :| 0 <= i < |order| && order[i] == k;
      if Reaches(nodes, edges, k, k) {
        FinishOrderDescends(nodes, edges, order, i, k);
      }
    }
  }

  /** On an acyclic graph the number of reachable nodes strictly falls along every edge. */
  lemma ReachSetShrinks(nodes: set<Node>, edges: Edges, a: Node, b: Node)
    requires Acyclic(nodes, edges)
    requires a in nodes && b in nodes && b in Successors(edges, a)
    ensures ReachSet(nodes, edges, b) < ReachSet(nodes, edges, a)
    ensures |ReachSet(nodes, edges, b)| < |ReachSet(nodes, edges, a)|
  {
    EdgeReaches(nodes, edges, a, b);
    forall t | t in ReachSet(nodes, edges, b) ensures t in ReachSet(nodes, edges, a) {
      ReachesTransitive(nodes, edges, a, b, t);
    }
    assert b in ReachSet(nodes, edges, a) && b !in ReachSet(nodes, edges, b);
    SubsetCardinality(ReachSet(nodes, edges, b), ReachSet(nodes, edges, a));
  }

  lemma {:induction false} SubsetCardinality<T>(small: set<T>, big: set<T>)
    requires small < big
    ensures |small| < |big|
  {
    var x :| x in big && x !in small;
    if small == {} {
      assert |big| > 0;
    } else {
      var y :| y in small;
      SubsetCardinality(small - {y}, big - {y});
    }
  }

  lemma {:induction false} SubsetBound<T>(small: set<T>, big: set<T>)
    requires small <= big
    ensures |small| <= |big|
  {
    if small != big { SubsetCardinality(small, big); }
  }

  /** Every non-empty part of an acyclic graph has a member with no predecessor inside that part. */
  lemma AcyclicHasSource(nodes: set<Node>, edges: Edges, part: set<Node>) returns (source: Node)
    requires Acyclic(nodes, edges) && part != {} && part <= nodes
    ensures source in part && Predecessors(nodes, edges, source) * part == {}
  {
    source :| source in part;
    while Predecessors(nodes, edges, source) * part != {}
      invariant source in part
      decreases |nodes| - |ReachSet(nodes, edges, source)|
    {
      var above :| above in Predecessors(nodes, edges, source) * part;
      ReachSetShrinks(nodes, edges, above, source);
      SubsetBound(ReachSet(nodes, edges, above), nodes);
      source := above;
    }
  }

  /** A listing of all nodes, each after its predecessors. */
  ghost predicate Topological(nodes: set<Node>, edges: Edges, order: seq<Node>) {
    && Elements(order) == nodes && NoDuplicates(order)
    && (forall i | 0 <= i < |order| :: Predecessors(nodes, edges, order[i]) <= Elements(order[..i]))
  }

  /** In a topological order whatever a node reaches stands after it. */
  lemma TopologicalReach(nodes: set<Node>, edges: Edges, order: seq<Node>, a: nat, b: nat)
    requires Topological(nodes, edges, order) && a < |order| && b < |order|
    requires Reaches(nodes, edges, order[a], order[b])
    ensures a < b
  {
    var p :| WalkFromTo(nodes, edges, p, order[a], order[b]);
    var at: nat := a;
    for n := 1 to |p|
      invariant at < |order| && order[at] == p[n - 1] && (n > 1 ==> a < at)
    {
      assert p[n] in Elements(order);
      var next: nat :| next < |order| && order[next] == p[n];
      assert p[n - 1] in Predecessors(nodes, edges, order[next]);
      assert order[at] in order[..next];
      at := next;
    }
  }

  lemma TopologicalAcyclic(nodes: set<Node>, edges: Edges, order: seq<Node>)
    requires Topological(nodes, edges, order)
    ensures Acyclic(nodes, edges)
  {
    forall k | k in nodes ensures !Reaches(nodes, edges, k, k) {
      assert k in Elements(order);
      var a: nat :| a < |order| && order[a] == k;
      if Reaches(nodes, edges, k, k) {
        TopologicalReach(nodes, edges, order, a, a);
      }
    }
  }
}
