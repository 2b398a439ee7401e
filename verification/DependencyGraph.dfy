/** The dependency graph of the open managed issues: an edge from each prerequisite, a blocker
    or a sub-issue, to the issue that waits for it (tools/governance/roadmap-governance.ts,
    the edge loops of sequence and of analyzeRoadmapGovernance). */
module DependencyGraph {
  import opened Text
  import opened Sorting
  import opened Digraph
  import opened Roadmap
  import opened DeliveryOrder

  /** Who waits for what: the prerequisites declared by each issue. */
  type Declared = map<IssueKey, set<IssueKey>>

  ghost function Keys(relations: seq<Relation>): set<IssueKey> {
    set r | r in relations :: r.Key()
  }

  ghost function Prerequisites(issue: Issue): set<IssueKey> {
    Keys(issue.blockedBy) + Keys(issue.subIssues)
  }

  ghost function AllDeclared(issues: Issues): Declared {
    map k | k in issues :: Prerequisites(issues[k])
  }

  /** The edges among `nodes` that the declarations call for. */
  ghost function EdgesOf(nodes: set<IssueKey>, declared: Declared): Edges {
    map s | s in nodes :: set k | k in nodes && k in declared && s in declared[k]
  }

  /** The dependency graph by definition. */
  ghost function PlanEdges(issues: Issues): Edges {
    EdgesOf(issues.Keys, AllDeclared(issues))
  }

  /** How many of the first relations point, open, outside the graph. */
  ghost function OutsideCount(issues: Issues, blockers: seq<Relation>): nat {
    if blockers == [] then 0
    else
      var last := blockers[|blockers| - 1];
      OutsideCount(issues, blockers[..|blockers| - 1]) + OutsideShare(issues, last)
  }

  ghost function Outside(issues: Issues): map<IssueKey, nat> {
    map k | k in issues :: OutsideCount(issues, issues[k].blockedBy)
  }

  // ---- Adding one edge ----

  lemma AddEdge(nodes: set<IssueKey>, declared: Declared, source: IssueKey, target: IssueKey)
    requires source in nodes && target in nodes && target in declared
    ensures var edges := EdgesOf(nodes, declared);
      edges[source := edges[source] + {target}] == EdgesOf(nodes, declared[target := declared[target] + {source}])
  {
    var edges := EdgesOf(nodes, declared);
    var more := declared[target := declared[target] + {source}];
    forall s | s in nodes ensures edges[source := edges[source] + {target}][s] == EdgesOf(nodes, more)[s] {
    }
  }

  lemma AddOutside(nodes: set<IssueKey>, declared: Declared, source: IssueKey, target: IssueKey)
    requires source !in nodes && target in declared
    ensures EdgesOf(nodes, declared) == EdgesOf(nodes, declared[target := declared[target] + {source}])
  {
    var more := declared[target := declared[target] + {source}];
    forall s | s in nodes ensures EdgesOf(nodes, declared)[s] == EdgesOf(nodes, more)[s] {
    }
  }

  lemma KnownEdge(nodes: set<IssueKey>, declared: Declared, source: IssueKey, target: IssueKey)
    requires source in nodes && target in declared && target in EdgesOf(nodes, declared)[source]
    ensures declared[target := declared[target] + {source}] == declared
  {
    assert declared[target] + {source} == declared[target];
  }

  lemma CountEdge(nodes: set<IssueKey>, edges: Edges, outside: map<IssueKey, nat>, indegree: map<IssueKey, int>, source: IssueKey, target: IssueKey)
    requires source in nodes && target in nodes && source in edges && target !in edges[source]
    requires Counts(nodes, edges, outside, {}, indegree)
    ensures Counts(nodes, edges[source := edges[source] + {target}], outside, {}, indegree[target := indegree[target] + 1])
  {
    var more := edges[source := edges[source] + {target}];
    forall k | k in nodes ensures OpenCount(nodes, more, {}, k) == OpenCount(nodes, edges, {}, k) + (if k == target then 1 else 0) {
      CountEdgeAt(nodes, edges, source, target, k);
    }
    OneCountMore(nodes, edges, more, outside, indegree, target);
  }

  lemma OneCountMore(nodes: set<IssueKey>, edges: Edges, more: Edges, outside: map<IssueKey, nat>, indegree: map<IssueKey, int>, target: IssueKey)
    requires target in nodes && Counts(nodes, edges, outside, {}, indegree)
    requires forall k | k in nodes :: OpenCount(nodes, more, {}, k) == OpenCount(nodes, edges, {}, k) + (if k == target then 1 else 0)
    ensures Counts(nodes, more, outside, {}, indegree[target := indegree[target] + 1])
  {
  }

  lemma CountEdgeAt(nodes: set<IssueKey>, edges: Edges, source: IssueKey, target: IssueKey, k: IssueKey)
    requires source in nodes && source in edges && target !in edges[source]
    ensures OpenCount(nodes, edges[source := edges[source] + {target}], {}, k)
      == OpenCount(nodes, edges, {}, k) + (if k == target then 1 else 0)
  {
    var more := edges[source := edges[source] + {target}];
    var before, after := Predecessors(nodes, edges, k), Predecessors(nodes, more, k);
    PredecessorsWith(nodes, edges, source, target, k);
    assert before - {} == before && after - {} == after;
  }

  lemma PredecessorsWith(nodes: set<IssueKey>, edges: Edges, source: IssueKey, target: IssueKey, k: IssueKey)
    requires source in nodes && source in edges && target !in edges[source]
    ensures var (before, after) := (Predecessors(nodes, edges, k), Predecessors(nodes, edges[source := edges[source] + {target}], k));
      if k == target then after == before + {source} && source !in before else after == before
  {
  }

  /** The closure that adds an edge once and counts it once. */
  method Connect(issues: Issues, edges0: Edges, indegree0: map<IssueKey, int>, source: IssueKey, target: IssueKey,
                 ghost declared: Declared, ghost outside: map<IssueKey, nat>)
    returns (edges: Edges, indegree: map<IssueKey, int>)
    requires target in issues && target in declared && edges0 == EdgesOf(issues.Keys, declared)
    requires Counts(issues.Keys, edges0, outside, {}, indegree0)
    ensures edges == EdgesOf(issues.Keys, declared[target := declared[target] + {source}])
    ensures Counts(issues.Keys, edges, outside, {}, indegree)
  {
    edges, indegree := edges0, indegree0;
    if source !in issues {
      AddOutside(issues.Keys, declared, source, target);
      return;
    }
    if target in edges[source] {
      KnownEdge(issues.Keys, declared, source, target);
      return;
    }
    AddEdge(issues.Keys, declared, source, target);
    CountEdge(issues.Keys, edges, outside, indegree, source, target);
    edges := edges[source := edges[source] + {target}];
    indegree := indegree[target := indegree[target] + 1];
  }

  lemma KeysTake(relations: seq<Relation>, i: nat)
    requires i < |relations|
    ensures Keys(relations[..i + 1]) == Keys(relations[..i]) + {relations[i].Key()}
    ensures relations[..|relations|] == relations
    ensures relations[..i + 1][..|relations[..i + 1]| - 1] == relations[..i]
  {
    assert relations[..i + 1] == relations[..i] + [relations[i]];
  }

  lemma CountOutside(nodes: set<IssueKey>, edges: Edges, outside: map<IssueKey, nat>, indegree: map<IssueKey, int>, key: IssueKey)
    requires key in nodes && Counts(nodes, edges, outside, {}, indegree)
    ensures Counts(nodes, edges, outside[key := outside[key] + 1], {}, indegree[key := indegree[key] + 1])
  {
  }

  /** What one blocker adds to the count from outside. */
  function OutsideShare(issues: Issues, blocker: Relation): nat {
    if blocker.Key() !in issues && blocker.state == Open then 1 else 0
  }

  /** One blocker: inside the graph an edge, open outside it a count nothing will clear. */
  method AddBlocker(issues: Issues, key: IssueKey, blocker: Relation, edges0: Edges, indegree0: map<IssueKey, int>,
                    ghost declared: Declared, ghost outside: map<IssueKey, nat>)
    returns (edges: Edges, indegree: map<IssueKey, int>)
    requires key in issues && key in declared && key in outside
    requires edges0 == EdgesOf(issues.Keys, declared) && Counts(issues.Keys, edges0, outside, {}, indegree0)
    ensures edges == EdgesOf(issues.Keys, declared[key := declared[key] + {blocker.Key()}])
    ensures Counts(issues.Keys, edges, outside[key := outside[key] + OutsideShare(issues, blocker)], {}, indegree)
  {
    edges, indegree := edges0, indegree0;
    if blocker.Key() in issues {
      NothingOutside(outside, key);
      edges, indegree := Connect(issues, edges, indegree, blocker.Key(), key, declared, outside);
    } else {
      AddOutside(issues.Keys, declared, blocker.Key(), key);
      if blocker.state == Open {
        CountOutside(issues.Keys, edges, outside, indegree, key);
        indegree := indegree[key := indegree[key] + 1];
      } else {
        NothingOutside(outside, key);
      }
    }
  }

  lemma NothingOutside(outside: map<IssueKey, nat>, key: IssueKey)
    requires key in outside
    ensures outside[key := outside[key] + 0] == outside
  {
  }

  lemma NoBlockers(issues: Issues, declared: Declared, outside: map<IssueKey, nat>, key: IssueKey, blockers: seq<Relation>)
    requires key in declared && key in outside && declared[key] == {} && outside[key] == 0
    ensures declared[key := Keys(blockers[..0])] == declared
    ensures outside[key := OutsideCount(issues, blockers[..0])] == outside
    ensures blockers[..|blockers|] == blockers
  {
    assert Keys(blockers[..0]) == {};
  }

  /** The declarations and outside counts after one more blocker of `key`. */
  lemma NextBlocker(issues: Issues, declared: Declared, outside: map<IssueKey, nat>, key: IssueKey, blockers: seq<Relation>, i: nat)
    requires i < |blockers|
    ensures var so := declared[key := Keys(blockers[..i])];
      so[key := so[key] + {blockers[i].Key()}] == declared[key := Keys(blockers[..i + 1])]
    ensures var far := outside[key := OutsideCount(issues, blockers[..i])];
      far[key := far[key] + OutsideShare(issues, blockers[i])] == outside[key := OutsideCount(issues, blockers[..i + 1])]
  {
    KeysTake(blockers, i);
  }

  method AddBlockers(issues: Issues, key: IssueKey, edges0: Edges, indegree0: map<IssueKey, int>,
                     ghost declared: Declared, ghost outside: map<IssueKey, nat>)
    returns (edges: Edges, indegree: map<IssueKey, int>)
    requires key in issues && key in declared && key in outside && declared[key] == {} && outside[key] == 0
    requires edges0 == EdgesOf(issues.Keys, declared) && Counts(issues.Keys, edges0, outside, {}, indegree0)
    ensures edges == EdgesOf(issues.Keys, declared[key := Keys(issues[key].blockedBy)])
    ensures Counts(issues.Keys, edges, outside[key := OutsideCount(issues, issues[key].blockedBy)], {}, indegree)
  {
    edges, indegree := edges0, indegree0;
    var blockers := issues[key].blockedBy;
    NoBlockers(issues, declared, outside, key, blockers);
    for i := 0 to |blockers|
      invariant edges == EdgesOf(issues.Keys, declared[key := Keys(blockers[..i])])
      invariant Counts(issues.Keys, edges, outside[key := OutsideCount(issues, blockers[..i])], {}, indegree)
    {
      NextBlocker(issues, declared, outside, key, blockers, i);
      edges, indegree := AddBlocker(issues, key, blockers[i], edges, indegree,
        declared[key := Keys(blockers[..i])], outside[key := OutsideCount(issues, blockers[..i])]);
    }
  }

  /** One issue's sub-issues: each one inside the graph is a prerequisite. */
  method AddChildren(issues: Issues, key: IssueKey, edges0: Edges, indegree0: map<IssueKey, int>,
                     ghost declared: Declared, ghost outside: map<IssueKey, nat>)
    returns (edges: Edges, indegree: map<IssueKey, int>)
    requires key in issues && key in declared
    requires edges0 == EdgesOf(issues.Keys, declared) && Counts(issues.Keys, edges0, outside, {}, indegree0)
    ensures edges == EdgesOf(issues.Keys, declared[key := declared[key] + Keys(issues[key].subIssues)])
    ensures Counts(issues.Keys, edges, outside, {}, indegree)
  {
    edges, indegree := edges0, indegree0;
    var children := issues[key].subIssues;
    assert declared[key] + Keys(children[..0]) == declared[key];
    assert declared[key := declared[key]] == declared;
    for i := 0 to |children|
      invariant edges == EdgesOf(issues.Keys, declared[key := declared[key] + Keys(children[..i])])
      invariant Counts(issues.Keys, edges, outside, {}, indegree)
    {
      ghost var so := declared[key := declared[key] + Keys(children[..i])];
      KeysTake(children, i);
      assert so[key] + {children[i].Key()} == declared[key] + Keys(children[..i + 1]);
      assert so[key := so[key] + {children[i].Key()}] == declared[key := declared[key] + Keys(children[..i + 1])];
      if children[i].Key() in issues {
        edges, indegree := Connect(issues, edges, indegree, children[i].Key(), key, so, outside);
      } else {
        AddOutside(issues.Keys, so, children[i].Key(), key);
      }
    }
    assert children[..|children|] == children;
  }

  /** The declarations once the issues in `done` have been processed. */
  ghost function DeclaredBy(issues: Issues, done: set<IssueKey>): Declared {
    map k | k in issues :: if k in done then Prerequisites(issues[k]) else {}
  }

  ghost function OutsideBy(issues: Issues, done: set<IssueKey>): map<IssueKey, nat> {
    map k | k in issues :: if k in done then OutsideCount(issues, issues[k].blockedBy) else 0
  }

  lemma NextIssue(issues: Issues, done: set<IssueKey>, key: IssueKey)
    requires key in issues && key !in done
    ensures var blocked := DeclaredBy(issues, done)[key := Keys(issues[key].blockedBy)];
      blocked[key := blocked[key] + Keys(issues[key].subIssues)] == DeclaredBy(issues, done + {key})
    ensures var before := DeclaredBy(issues, done);
      before[key := before[key] + Keys(issues[key].blockedBy)] == before[key := Keys(issues[key].blockedBy)]
    ensures OutsideBy(issues, done)[key := OutsideCount(issues, issues[key].blockedBy)] == OutsideBy(issues, done + {key})
  {
    assert {} + Keys(issues[key].blockedBy) == Keys(issues[key].blockedBy);
  }

  lemma NoEdges(issues: Issues, edges: Edges)
    requires edges == map k | k in issues :: {}
    ensures edges == EdgesOf(issues.Keys, DeclaredBy(issues, {}))
  {
    var built := EdgesOf(issues.Keys, DeclaredBy(issues, {}));
    forall s | s in issues ensures built[s] == {} {
    }
  }

  lemma NoCounts(issues: Issues, edges: Edges, indegree: map<IssueKey, int>)
    requires edges == map k | k in issues :: {}
    requires indegree == map k | k in issues :: 0
    ensures Counts(issues.Keys, edges, OutsideBy(issues, {}), {}, indegree)
  {
    forall k | k in issues ensures OpenCount(issues.Keys, edges, {}, k) == 0 {
      assert Predecessors(issues.Keys, edges, k) == {};
    }
  }

  lemma AllProcessed(issues: Issues)
    ensures EdgesOf(issues.Keys, DeclaredBy(issues, issues.Keys)) == PlanEdges(issues)
    ensures OutsideBy(issues, issues.Keys) == Outside(issues)
  {
    assert DeclaredBy(issues, issues.Keys) == AllDeclared(issues);
  }

  /** The graph of the issues in `done`, with exact indegrees. */
  ghost predicate Built(issues: Issues, done: set<IssueKey>, edges: Edges, indegree: map<IssueKey, int>) {
    && edges == EdgesOf(issues.Keys, DeclaredBy(issues, done))
    && Counts(issues.Keys, edges, OutsideBy(issues, done), {}, indegree)
  }

  method AddIssue(issues: Issues, key: IssueKey, edges0: Edges, indegree0: map<IssueKey, int>, ghost done: set<IssueKey>)
    returns (edges: Edges, indegree: map<IssueKey, int>)
    requires key in issues && key !in done && Built(issues, done, edges0, indegree0)
    ensures Built(issues, done + {key}, edges, indegree)
  {
    NextIssue(issues, done, key);
    edges, indegree := AddBlockers(issues, key, edges0, indegree0, DeclaredBy(issues, done), OutsideBy(issues, done));
    edges, indegree := AddChildren(issues, key, edges, indegree,
      DeclaredBy(issues, done)[key := Keys(issues[key].blockedBy)], OutsideBy(issues, done + {key}));
  }

  /** The loops build exactly the dependency graph, with exact indegrees. */
  method BuildGraph(issues: Issues) returns (edges: Edges, indegree: map<IssueKey, int>)
    ensures edges == PlanEdges(issues)
    ensures Counts(issues.Keys, edges, Outside(issues), {}, indegree)
  {
    edges, indegree := EmptyGraph(issues);
    var keys := Enumerate(issues.Keys);
    edges, indegree := AddIssues(issues, keys, edges, indegree);
    AllProcessed(issues);
  }

  method EmptyGraph(issues: Issues) returns (edges: Edges, indegree: map<IssueKey, int>)
    ensures Built(issues, {}, edges, indegree)
  {
    edges := map k | k in issues :: {};
    indegree := map k | k in issues :: 0;
    NoEdges(issues, edges);
    NoCounts(issues, edges, indegree);
  }

  method AddIssues(issues: Issues, keys: seq<IssueKey>, edges0: Edges, indegree0: map<IssueKey, int>)
    returns (edges: Edges, indegree: map<IssueKey, int>)
    requires NoDuplicates(keys) && Elements(keys) <= issues.Keys && Built(issues, {}, edges0, indegree0)
    ensures Built(issues, Elements(keys), edges, indegree)
  {
    edges, indegree := edges0, indegree0;
    assert Elements(keys[..0]) == {};
    for i := 0 to |keys|
      invariant Built(issues, Elements(keys[..i]), edges, indegree)
    {
      ElementsTake(keys, i);
      edges, indegree := AddIssue(issues, keys[i], edges, indegree, Elements(keys[..i]));
    }
    assert keys[..|keys|] == keys;
  }

  /** Adds one issue's relations as edges; a target outside the graph is ignored. */
  method AddOpenEdges(issues: Issues, key: IssueKey, relations: seq<Relation>, edges0: Edges, ghost declared: Declared)
    returns (edges: Edges)
    requires key in issues && key in declared && edges0 == EdgesOf(issues.Keys, declared)
    ensures edges == EdgesOf(issues.Keys, declared[key := declared[key] + Keys(relations)])
  {
    edges := edges0;
    assert declared[key] + Keys(relations[..0]) == declared[key];
    assert declared[key := declared[key]] == declared;
    for i := 0 to |relations|
      invariant edges == EdgesOf(issues.Keys, declared[key := declared[key] + Keys(relations[..i])])
    {
      ghost var so := declared[key := declared[key] + Keys(relations[..i])];
      KeysTake(relations, i);
      assert so[key] + {relations[i].Key()} == declared[key] + Keys(relations[..i + 1]);
      assert so[key := so[key] + {relations[i].Key()}] == declared[key := declared[key] + Keys(relations[..i + 1])];
      var source := relations[i].Key();
      if source in issues {
        AddEdge(issues.Keys, so, source, key);
        edges := edges[source := edges[source] + {key}];
      } else {
        AddOutside(issues.Keys, so, source, key);
      }
    }
    assert relations[..|relations|] == relations;
  }

  /** The graph searched for cycles is the graph that is delivered. */
  method OpenEdges(issues: Issues) returns (edges: Edges)
    ensures edges == PlanEdges(issues)
  {
    edges := map k | k in issues :: {};
    NoEdges(issues, edges);
    var keys := Enumerate(issues.Keys);
    assert Elements(keys[..0]) == {};
    for i := 0 to |keys|
      invariant edges == EdgesOf(issues.Keys, DeclaredBy(issues, Elements(keys[..i])))
    {
      var key := keys[i];
      ghost var declared := DeclaredBy(issues, Elements(keys[..i]));
      ElementsTake(keys, i);
      NextIssue(issues, Elements(keys[..i]), key);
      edges := AddOpenEdges(issues, key, issues[key].blockedBy, edges, declared);
      edges := AddOpenEdges(issues, key, issues[key].subIssues, edges, declared[key := Keys(issues[key].blockedBy)]);
    }
    assert keys[..|keys|] == keys;
    AllProcessed(issues);
  }

  /** In the dependency graph an issue's predecessors are its prerequisites inside the graph. */
  lemma PlanPredecessors(issues: Issues, key: IssueKey)
    requires key in issues
    ensures Predecessors(issues.Keys, PlanEdges(issues), key) == Prerequisites(issues[key]) * issues.Keys
  {
    forall s | s in issues ensures key in Successors(PlanEdges(issues), s) <==> s in Prerequisites(issues[key]) {
    }
  }

  /** An issue waits exactly for the issues that it names as blockers or sub-issues. */
  lemma WaitsExactlyFor(issues: Issues, key: IssueKey, source: IssueKey)
    requires key in issues && source in issues
    ensures key in Successors(PlanEdges(issues), source) <==>
      exists r :: (r in issues[key].blockedBy || r in issues[key].subIssues) && r.Key() == source
  {
    PlanPredecessors(issues, key);
    assert source in Predecessors(issues.Keys, PlanEdges(issues), key) <==> key in Successors(PlanEdges(issues), source);
    assert source in Prerequisites(issues[key]) <==> source in Keys(issues[key].blockedBy) || source in Keys(issues[key].subIssues);
  }

  /** Nothing outside holds an issue back iff none of its open blockers lies outside the graph. */
  lemma {:induction false} OutsideCountZero(issues: Issues, blockers: seq<Relation>)
    ensures OutsideCount(issues, blockers) == 0 <==> forall r | r in blockers :: r.Key() in issues || r.state != Open
  {
    if blockers != [] {
      var init, last := blockers[..|blockers| - 1], blockers[|blockers| - 1];
      OutsideCountZero(issues, init);
      assert blockers == init + [last];
    }
  }
}
