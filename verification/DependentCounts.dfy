/** The worklist that counts transitive open dependents
    (tools/governance/roadmap-governance.ts, transitiveDependentCounts). */
module DependentCounts {
  import opened Sorting
  import opened Digraph

  /** Everything seen or pending is reachable from `key`, and every successor of `key`
      or of a seen node is itself seen or pending. */
  ghost predicate Worklist(nodes: set<Node>, edges: Edges, key: Node, seen: set<Node>, pending: set<Node>) {
    && seen <= ReachSet(nodes, edges, key) && pending * nodes <= ReachSet(nodes, edges, key)
    && Successors(edges, key) * nodes <= seen + pending
    && (forall k | k in seen :: Successors(edges, k) * nodes <= seen + pending)
  }

  lemma Start(nodes: set<Node>, edges: Edges, key: Node)
    requires key in nodes
    ensures Worklist(nodes, edges, key, {}, Successors(edges, key))
  {
    forall t | t in Successors(edges, key) * nodes ensures t in ReachSet(nodes, edges, key) {
      EdgeReaches(nodes, edges, key, t);
    }
  }

  lemma Skip(nodes: set<Node>, edges: Edges, key: Node, seen: set<Node>, pending: set<Node>, target: Node)
    requires Worklist(nodes, edges, key, seen, pending + {target})
    requires target in seen || target !in nodes
    ensures Worklist(nodes, edges, key, seen, pending)
  {
  }

  lemma Expand(nodes: set<Node>, edges: Edges, key: Node, seen: set<Node>, pending: set<Node>, target: Node)
    requires Worklist(nodes, edges, key, seen, pending + {target}) && target in nodes
    ensures Worklist(nodes, edges, key, seen + {target}, pending + Successors(edges, target))
  {
    assert target in ReachSet(nodes, edges, key);
    forall t | t in Successors(edges, target) * nodes ensures t in ReachSet(nodes, edges, key) {
      EdgeReaches(nodes, edges, target, t);
      ReachesTransitive(nodes, edges, key, target, t);
    }
  }

  lemma Finish(nodes: set<Node>, edges: Edges, key: Node, seen: set<Node>)
    requires Worklist(nodes, edges, key, seen, {})
    ensures seen == ReachSet(nodes, edges, key)
  {
    forall t | t in ReachSet(nodes, edges, key) ensures t in seen {
      ClosedUnderReach(nodes, edges, seen, key, t);
    }
  }

  /** One key's worklist ends with exactly the nodes the key reaches. */
  method Reachable(nodes: set<Node>, edges: Edges, key: Node) returns (seen: set<Node>)
    requires key in nodes
    ensures seen == ReachSet(nodes, edges, key)
  {
    seen := {};
    var stack := Enumerate(Successors(edges, key));
    Start(nodes, edges, key);
    while stack != []
      invariant Worklist(nodes, edges, key, seen, Elements(stack))
      decreases nodes - seen, |stack|
    {
      var target, rest := stack[|stack| - 1], stack[..|stack| - 1];
      ElementsSnoc(stack);
      stack := rest;
      if target in seen || target !in nodes {
        Skip(nodes, edges, key, seen, Elements(rest), target);
        continue;
      }
      Expand(nodes, edges, key, seen, Elements(rest), target);
      seen := seen + {target};
      var next := Enumerate(Successors(edges, target));
      stack := rest + next;
      ElementsConcat(rest, next);
    }
    Finish(nodes, edges, key, seen);
  }

  /** Every key's count is the exact number of nodes it reaches. */
  method TransitiveDependentCounts(nodes: set<Node>, edges: Edges) returns (counts: map<Node, nat>)
    ensures counts == ReachCounts(nodes, edges)
  {
    counts := map[];
    var keys := Enumerate(nodes);
    for i := 0 to |keys|
      invariant counts.Keys == Elements(keys[..i])
      invariant forall k | k in counts :: counts[k] == |ReachSet(nodes, edges, k)|
    {
      ElementsTake(keys, i);
      var seen := Reachable(nodes, edges, keys[i]);
      counts := counts[keys[i] := |seen|];
    }
    assert keys[..|keys|] == keys;
  }

  ghost function ReachCounts(nodes: set<Node>, edges: Edges): map<Node, nat> {
    map k | k in nodes :: |ReachSet(nodes, edges, k)|
  }

  /** On an acyclic graph a prerequisite has strictly more transitive dependents than each of its dependents. */
  lemma CountsFallAlongEdges(nodes: set<Node>, edges: Edges, source: Node, target: Node)
    requires Acyclic(nodes, edges) && source in nodes && target in nodes
    requires Reaches(nodes, edges, source, target)
    ensures ReachCounts(nodes, edges)[target] < ReachCounts(nodes, edges)[source]
  {
    var p :| WalkFromTo(nodes, edges, p, source, target);
    for i := 1 to |p|
      invariant i > 1 ==> |ReachSet(nodes, edges, p[i - 1])| < |ReachSet(nodes, edges, source)|
    {
      ReachSetShrinks(nodes, edges, p[i - 1], p[i]);
    }
  }
}
