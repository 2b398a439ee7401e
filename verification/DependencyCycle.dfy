/** The depth-first cycle search over open dependencies
    (tools/governance/roadmap-governance.ts, dependencyCycle). */
module DependencyCycle {
  import opened Foundation
  import opened Text
  import opened Sorting
  import opened Digraph

  /** A closed walk along real edges that repeats no node but its first, which is also its last. */
  ghost predicate SimpleCycle(nodes: set<Node>, edges: Edges, cycle: seq<Node>) {
    && IsWalk(nodes, edges, cycle) && |cycle| >= 2
    && cycle[0] == cycle[|cycle| - 1]
    && NoDuplicates(cycle[1..])
  }

  method IndexOf(path: seq<Node>, key: Node) returns (start: nat)
    requires key in path
    ensures start < |path| && path[start] == key && key !in path[..start]
  {
    start := 0;
    while path[start] != key
      invariant start < |path| && key in path[start..] && key !in path[..start]
      decreases |path| - start
    {
      start := start + 1;
    }
  }

  /** The search keeps three shared collections, updated in place by the recursive visits. */
  class CycleSearch {
    const nodes: set<Node>
    const edges: Edges
    var visiting: set<Node>
    var visited: set<Node>
    var path: seq<Node>
    /** The visited nodes in the order in which their visits ended. */
    ghost var finished: seq<Node>

    constructor (nodes: set<Node>, edges: Edges)
      ensures Valid() && this.nodes == nodes && this.edges == edges
      ensures path == [] && visited == {}
    {
      this.nodes, this.edges := nodes, edges;
      visiting, visited, path, finished := {}, {}, [], [];
    }

    ghost predicate Valid()
      reads this
    {
      && visiting == Elements(path) && visited == Elements(finished)
      && Progress(nodes, edges, path, finished)
    }

    /** Explores `key`. Without a cycle the three collections are as before, except that `key` and
        everything below it are now visited. */
    method Visit(key: Node) returns (cycle: Option<seq<Node>>)
      requires Valid() && key in nodes
      requires path == [] || key in Successors(edges, path[|path| - 1])
      modifies this
      ensures cycle.Some? ==> SimpleCycle(nodes, edges, cycle.value)
      ensures cycle.None? ==> Valid() && path == old(path) && key in visited && old(visited) <= visited
      decreases nodes - visiting - visited
    {
      if key in visiting {
        var start := IndexOf(path, key);
        assert path == path[..start] + path[start..];
        cycle := Some(path[start..] + [key]);
        ClosesPath(nodes, edges, path, start);
        return;
      }
      if key in visited {
        return None;
      }
      Enter(nodes, edges, path, finished, key);
      visiting := visiting + {key};
      path := path + [key];
      ghost var here := path;
      var targets := SortedText(Successors(edges, key));
      for i := 0 to |targets|
        invariant Valid() && path == here && visiting == old(visiting) + {key} && old(visited) <= visited
        invariant Elements(targets[..i]) * nodes <= visited
      {
        assert Elements(targets[..i + 1]) == Elements(targets[..i]) + {targets[i]};
        if targets[i] !in nodes {
          continue;
        }
        assert targets[i] in Elements(targets);
        assert key !in nodes - visiting - visited && key in old(nodes - visiting - visited);
        cycle := Visit(targets[i]);
        if cycle.Some? {
          return;
        }
      }
      assert targets[..|targets|] == targets;
      Leave(nodes, edges, old(path), finished, key);
      path := path[..|path| - 1];
      assert path == old(path);
      visiting := visiting - {key};
      visited := visited + {key};
      finished := finished + [key];
      return None;
    }
  }

  /** The open path is a simple walk; the finished nodes are off it, each after its successors. */
  ghost predicate Progress(nodes: set<Node>, edges: Edges, path: seq<Node>, finished: seq<Node>) {
    && (path == [] || IsWalk(nodes, edges, path)) && NoDuplicates(path)
    && Elements(finished) <= nodes && Elements(finished) !! Elements(path)
    && NoDuplicates(finished) && FinishOrder(nodes, edges, finished)
  }

  lemma Enter(nodes: set<Node>, edges: Edges, path: seq<Node>, finished: seq<Node>, key: Node)
    requires Progress(nodes, edges, path, finished)
    requires key in nodes && key !in Elements(path) && key !in Elements(finished)
    requires path == [] || key in Successors(edges, path[|path| - 1])
    ensures Progress(nodes, edges, path + [key], finished)
    ensures Elements(path + [key]) == Elements(path) + {key}
  {
  }

  lemma Leave(nodes: set<Node>, edges: Edges, path: seq<Node>, finished: seq<Node>, key: Node)
    requires Progress(nodes, edges, path + [key], finished)
    requires Successors(edges, key) * nodes <= Elements(finished)
    ensures Progress(nodes, edges, path, finished + [key])
    ensures Elements(finished + [key]) == Elements(finished) + {key}
    ensures Elements(path + [key]) == Elements(path) + {key} && key !in Elements(path)
  {
    var all := path + [key];
    assert all[|path|] == key && forall i | 0 <= i < |path| :: path[i] == all[i];
    assert Elements(all) == Elements(path) + {key};
    var done := finished + [key];
    assert done[..|finished|] == finished;
    assert forall i | 0 <= i < |finished| :: done[..i] == finished[..i];
  }

  lemma ClosesPath(nodes: set<Node>, edges: Edges, path: seq<Node>, start: nat)
    requires IsWalk(nodes, edges, path) && NoDuplicates(path) && start < |path|
    requires path[start] in Successors(edges, path[|path| - 1])
    ensures SimpleCycle(nodes, edges, path[start..] + [path[start]])
  {
  }

  /** The search over a whole graph: a cycle found is a real one, and none is found only if none exists. */
  method FindCycle(nodes: set<Node>, edges: Edges) returns (cycle: Option<seq<Node>>)
    ensures cycle.Some? ==> SimpleCycle(nodes, edges, cycle.value)
    ensures cycle.None? <==> Acyclic(nodes, edges)
  {
    var search := new CycleSearch(nodes, edges);
    var keys := SortedText(nodes);
    for i := 0 to |keys|
      invariant search.Valid() && search.path == [] && fresh(search)
      invariant Elements(keys[..i]) <= search.visited
    {
      assert Elements(keys[..i + 1]) == Elements(keys[..i]) + {keys[i]};
      assert keys[i] in Elements(keys);
      cycle := search.Visit(keys[i]);
      if cycle.Some? {
        CycleReachesItself(nodes, edges, cycle.value);
        return;
      }
    }
    assert keys[..|keys|] == keys;
    FinishOrderAcyclic(nodes, edges, search.finished);
    return None;
  }

  lemma CycleReachesItself(nodes: set<Node>, edges: Edges, cycle: seq<Node>)
    requires SimpleCycle(nodes, edges, cycle)
    ensures Reaches(nodes, edges, cycle[0], cycle[0]) && cycle[0] in nodes
    ensures !Acyclic(nodes, edges)
  {
    assert WalkFromTo(nodes, edges, cycle, cycle[0], cycle[0]);
  }
}
