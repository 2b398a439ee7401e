/** Bounded capability graphs and the check that admits them
    (src/domain/capabilities/composition.ts, parseCompositionGraph). */
module CompositionGraph {
  import opened Foundation
  import opened Sorting
  import opened Digraph

  const MAX_COMPOSITION_NODES: nat := 64
  const MAX_CONCURRENT_NODES: nat := 16
  const MAX_IDENTIFIER_LENGTH: nat := 128
  const MAX_PATH_LENGTH: nat := 16
  const MAX_COMPOSITION_DURATION_MS: int := 30 * 60 * 1000
  const MAX_COMPOSITION_EDGES: nat := 128
  const MAX_COMPOSITION_BYTES: nat := 256 * 1024
  const MAX_TRANSFER_BYTES: nat := 64 * 1024

  type NodeId = string

  /** A transfer copies part of a dependency's output into an input of this node. */
  datatype Transfer = Transfer(from: NodeId, path: seq<string>, target: string)

  datatype CapabilityNode = CapabilityNode(
    id: NodeId,
    capabilityId: string,
    capabilityVersion: int,
    dependencies: seq<NodeId>,
    transfers: seq<Transfer>)

  datatype Graph = Graph(
    id: string,
    /** The size of the JSON encoding; None for a value that has none. */
    encodedBytes: Option<nat>,
    maxConcurrent: nat,
    timeoutMs: int,
    nodes: seq<CapabilityNode>)

  datatype Reason =
    | InputBound
    | MalformedComposition
    | DuplicateNode
    | EdgeBound
    | DuplicateTransferTarget
    | UnknownDependency
    | Cycle

  // ---- The schema ----

  /** JavaScript counts UTF-16 code units: two for a character beyond the basic plane. */
  function Utf16Length(s: string): nat {
    if s == [] then 0 else Utf16Length(s[1..]) + (if s[0] > '\U{FFFF}' then 2 else 1)
  }

  /** The UTF-16 encoding of one scalar value: a unit outside the surrogates, or a surrogate pair. */
  function Utf16(c: char): seq<int> {
    var n := c as int;
    if n < 0x10000 then [n] else [0xD800 + (n - 0x10000) / 0x400, 0xDC00 + (n - 0x10000) % 0x400]
  }

  function Utf16Units(s: string): seq<int> {
    if s == [] then [] else Utf16(s[0]) + Utf16Units(s[1..])
  }

  predicate Surrogate(unit: int) { 0xD800 <= unit < 0xE000 }

  /** The encoding is one: pairs are high and low surrogates, and nothing else is a surrogate. */
  lemma Utf16Encodes(c: char)
    ensures var units := Utf16(c);
      if |units| == 1 then 0 <= units[0] < 0x10000 && !Surrogate(units[0])
      else |units| == 2 && 0xD800 <= units[0] < 0xDC00 <= units[1] < 0xE000
           && c as int == 0x10000 + (units[0] - 0xD800) * 0x400 + (units[1] - 0xDC00)
  {
  }

  /** The length is the number of UTF-16 code units. */
  lemma {:induction false} Utf16LengthCounts(s: string)
    ensures Utf16Length(s) == |Utf16Units(s)|
  {
    if s != [] { Utf16LengthCounts(s[1..]); }
  }

  predicate Identifier(s: string) { 1 <= Utf16Length(s) <= MAX_IDENTIFIER_LENGTH }

  predicate InputKey(s: string) { Identifier(s) && s !in ["__proto__", "prototype", "constructor"] }

  predicate WellShapedNode(node: CapabilityNode) {
    && Identifier(node.id) && Identifier(node.capabilityId) && node.capabilityVersion >= 1
    && |node.dependencies| <= MAX_COMPOSITION_EDGES && (forall d | d in node.dependencies :: Identifier(d))
    && |node.transfers| <= MAX_COMPOSITION_EDGES
    && (forall t | t in node.transfers :: WellShapedTransfer(t))
  }

  predicate WellShapedTransfer(transfer: Transfer) {
    && Identifier(transfer.from) && InputKey(transfer.target)
    && |transfer.path| <= MAX_PATH_LENGTH && (forall key | key in transfer.path :: InputKey(key))
  }

  predicate FitsInput(graph: Graph) {
    graph.encodedBytes.Some? && graph.encodedBytes.value <= MAX_COMPOSITION_BYTES
  }

  predicate WellShaped(graph: Graph) {
    && Identifier(graph.id) && 1 <= graph.maxConcurrent <= MAX_CONCURRENT_NODES
    && 1 <= graph.timeoutMs <= MAX_COMPOSITION_DURATION_MS
    && 1 <= |graph.nodes| <= MAX_COMPOSITION_NODES && (forall n | n in graph.nodes :: WellShapedNode(n))
  }

  /** What the schema asks of a name, in numbers. */
  lemma IdentifierByNumbers(s: string)
    ensures Identifier(s) <==> 1 <= |Utf16Units(s)| <= 128
    ensures InputKey(s) <==> 1 <= |Utf16Units(s)| <= 128 && s != "__proto__" && s != "prototype" && s != "constructor"
  {
    Utf16LengthCounts(s);
  }

  lemma TransferByNumbers(t: Transfer)
    ensures WellShapedTransfer(t) <==>
      Identifier(t.from) && InputKey(t.target) && |t.path| <= 16 && forall i | 0 <= i < |t.path| :: InputKey(t.path[i])
  {
  }

  lemma NodeByNumbers(n: CapabilityNode)
    ensures WellShapedNode(n) <==>
      && Identifier(n.id) && Identifier(n.capabilityId) && n.capabilityVersion >= 1
      && |n.dependencies| <= 128 && |n.transfers| <= 128
      && (forall i | 0 <= i < |n.dependencies| :: Identifier(n.dependencies[i]))
      && (forall i | 0 <= i < |n.transfers| :: WellShapedTransfer(n.transfers[i]))
  {
  }

  /** What the schema asks of a graph, in numbers. */
  lemma GraphByNumbers(graph: Graph)
    ensures WellShaped(graph) <==>
      && Identifier(graph.id) && 1 <= graph.maxConcurrent <= 16 && 1 <= graph.timeoutMs <= 1_800_000
      && 1 <= |graph.nodes| <= 64 && (forall i | 0 <= i < |graph.nodes| :: WellShapedNode(graph.nodes[i]))
  {
  }

  // ---- The graph ----

  function Ids(nodes: seq<CapabilityNode>): set<NodeId> {
    set n | n in nodes :: n.id
  }

  /** The dependents of each node. */
  ghost function Dependents(nodes: seq<CapabilityNode>): Edges {
    map d | d in Ids(nodes) :: set n | n in nodes && d in n.dependencies :: n.id
  }

  ghost predicate UniqueIds(nodes: seq<CapabilityNode>) {
    forall i, j | 0 <= i < j < |nodes| :: nodes[i].id != nodes[j].id
  }

  function EdgeCount(nodes: seq<CapabilityNode>): nat {
    if nodes == [] then 0
    else
      var last := nodes[|nodes| - 1];
      EdgeCount(nodes[..|nodes| - 1]) + |last.dependencies| + |last.transfers|
  }

  function Targets(transfers: seq<Transfer>): seq<string> {
    seq(|transfers|, i requires 0 <= i < |transfers| => transfers[i].target)
  }

  ghost predicate LocallyWellFormed(node: CapabilityNode, ids: set<NodeId>) {
    && NoDuplicates(node.dependencies)
    && (forall i, j | 0 <= i < j < |node.transfers| :: node.transfers[i].target != node.transfers[j].target)
    && Elements(node.dependencies) <= ids
    && (forall t | t in node.transfers :: t.from in node.dependencies)
  }

  /** What the nodes of every accepted graph satisfy. */
  ghost predicate WellFormed(nodes: seq<CapabilityNode>) {
    && UniqueIds(nodes) && EdgeCount(nodes) <= MAX_COMPOSITION_EDGES
    && (forall n | n in nodes :: LocallyWellFormed(n, Ids(nodes)))
    && Acyclic(Ids(nodes), Dependents(nodes))
  }

  /** The graphs that may be executed. */
  ghost predicate Accepted(graph: Graph) {
    FitsInput(graph) && WellShaped(graph) && WellFormed(graph.nodes)
  }

  /** Predecessors in the dependents graph are the dependencies. */
  lemma DependencyPredecessors(nodes: seq<CapabilityNode>, n: CapabilityNode)
    requires UniqueIds(nodes) && n in nodes && Elements(n.dependencies) <= Ids(nodes)
    ensures Predecessors(Ids(nodes), Dependents(nodes), n.id) == Elements(n.dependencies)
  {
    forall d | d in Ids(nodes) ensures n.id in Successors(Dependents(nodes), d) <==> d in n.dependencies {
      if n.id in Successors(Dependents(nodes), d) {
        var m :| m in nodes && d in m.dependencies && m.id == n.id;
        SameId(nodes, m, n);
      }
    }
  }

  lemma SameId(nodes: seq<CapabilityNode>, m: CapabilityNode, n: CapabilityNode)
    requires UniqueIds(nodes) && m in nodes && n in nodes && m.id == n.id
    ensures m == n
  {
    var i :| 0 <= i < |nodes| && nodes[i] == m;
    var j :| 0 <= j < |nodes| && nodes[j] == n;
  }

  lemma UniqueSnoc(init: seq<CapabilityNode>, last: CapabilityNode)
    ensures UniqueIds(init + [last]) <==> UniqueIds(init) && last.id !in Ids(init)
  {
    var nodes := init + [last];
    assert forall i | 0 <= i < |init| :: nodes[i] == init[i];
    if UniqueIds(nodes) {
      forall n | n in init ensures n.id != last.id {
        var i :| 0 <= i < |init| && init[i] == n;
        assert nodes[i].id != nodes[|init|].id;
      }
    }
    if last.id !in Ids(init) {
      assert forall i | 0 <= i < |init| :: init[i] in init && init[i].id in Ids(init);
    }
  }

  /** As many distinct ids as nodes. */
  lemma {:induction false} UniqueByCount(nodes: seq<CapabilityNode>)
    ensures |Ids(nodes)| <= |nodes|
    ensures UniqueIds(nodes) <==> |Ids(nodes)| == |nodes|
  {
    if nodes != [] {
      var init, last := nodes[..|nodes| - 1], nodes[|nodes| - 1];
      assert nodes == init + [last];
      assert Ids(nodes) == Ids(init) + {last.id};
      UniqueByCount(init);
      UniqueSnoc(init, last);
    }
  }

  ghost predicate TargetsDiffer(node: CapabilityNode) {
    forall i, j | 0 <= i < j < |node.transfers| :: node.transfers[i].target != node.transfers[j].target
  }

  ghost predicate LinksKnown(node: CapabilityNode, ids: set<NodeId>) {
    && (forall d | d in node.dependencies :: d in ids)
    && (forall t | t in node.transfers :: t.from in node.dependencies)
  }

  /** What is wrong with one node, the first fault in the order of the checks. */
  ghost predicate NodeFault(node: CapabilityNode, ids: set<NodeId>, edges: nat, reason: Reason) {
    var overBound := edges > MAX_COMPOSITION_EDGES || !NoDuplicates(node.dependencies);
    match reason
    case EdgeBound => overBound
    case DuplicateTransferTarget => !overBound && !TargetsDiffer(node)
    case UnknownDependency => !overBound && TargetsDiffer(node) && !LinksKnown(node, ids)
    case _ => false
  }

  /** The fault of the first faulty node, with the edges counted up to it. */
  ghost predicate FirstFault(nodes: seq<CapabilityNode>, at: nat, reason: Reason) {
    && at < |nodes| && NodeFault(nodes[at], Ids(nodes), EdgeCount(nodes[..at + 1]), reason)
    && EdgeCount(nodes[..at]) <= MAX_COMPOSITION_EDGES && (forall j | 0 <= j < at :: LocallyWellFormed(nodes[j], Ids(nodes)))
  }

  /** The per-node checks, in order, with one running edge count. */
  method CheckNodes(nodes: seq<CapabilityNode>) returns (reason: Option<Reason>, ghost at: nat)
    ensures reason.None? <==>
      EdgeCount(nodes) <= MAX_COMPOSITION_EDGES && forall n | n in nodes :: LocallyWellFormed(n, Ids(nodes))
    ensures reason.Some? ==> FirstFault(nodes, at, reason.value)
  {
    var ids := Ids(nodes);
    var edges := 0;
    for i := 0 to |nodes|
      invariant edges == EdgeCount(nodes[..i]) <= MAX_COMPOSITION_EDGES
      invariant forall j | 0 <= j < i :: LocallyWellFormed(nodes[j], ids)
    {
      var node := nodes[i];
      assert nodes[..i + 1][..i] == nodes[..i];
      edges := edges + |node.dependencies| + |node.transfers|;
      EdgeCountGrows(nodes, i + 1);
      at := i;
      reason := CheckNode(node, ids, edges);
      if reason.Some? {
        return;
      }
    }
    assert nodes[..|nodes|] == nodes;
    return None, |nodes|;
  }

  method CheckNode(node: CapabilityNode, ids: set<NodeId>, edges: nat) returns (reason: Option<Reason>)
    ensures reason.None? <==> edges <= MAX_COMPOSITION_EDGES && LocallyWellFormed(node, ids)
    ensures reason.Some? ==> NodeFault(node, ids, edges, reason.value)
  {
    DistinctBySize(node.dependencies);
    DistinctBySize(Targets(node.transfers));
    TargetsApart(node.transfers);
    if edges > MAX_COMPOSITION_EDGES || |Elements(node.dependencies)| != |node.dependencies| {
      return Some(EdgeBound);
    }
    if |Elements(Targets(node.transfers))| != |node.transfers| {
      return Some(DuplicateTransferTarget);
    }
    if (exists d | d in node.dependencies :: d !in ids) || (exists t | t in node.transfers :: t.from !in node.dependencies) {
      return Some(UnknownDependency);
    }
    return None;
  }

  lemma TargetsApart(transfers: seq<Transfer>)
    ensures NoDuplicates(Targets(transfers)) <==> forall i, j | 0 <= i < j < |transfers| :: transfers[i].target != transfers[j].target
  {
    var targets := Targets(transfers);
    assert forall i | 0 <= i < |transfers| :: targets[i] == transfers[i].target;
  }

  lemma DistinctBySize(ids: seq<string>)
    ensures NoDuplicates(ids) <==> |Elements(ids)| == |ids|
  {
    if NoDuplicates(ids) { DistinctByCount(ids); }
    if |Elements(ids)| == |ids| { CountDistinct(ids); }
  }

  lemma {:induction false} EdgeCountGrows(nodes: seq<CapabilityNode>, i: nat)
    requires i <= |nodes|
    ensures EdgeCount(nodes[..i]) <= EdgeCount(nodes)
    decreases |nodes| - i
  {
    if i < |nodes| {
      EdgeCountGrows(nodes, i + 1);
      assert nodes[..i + 1][..i] == nodes[..i];
    } else {
      assert nodes[..i] == nodes;
    }
  }

  /** Settles the graph layer by layer; it gets stuck exactly on a cyclic graph. */
  method SettlesInLayers(nodes: seq<CapabilityNode>) returns (acyclic: bool)
    requires UniqueIds(nodes) && forall n | n in nodes :: LocallyWellFormed(n, Ids(nodes))
    ensures acyclic <==> Acyclic(Ids(nodes), Dependents(nodes))
  {
    var settled: set<NodeId> := {};
    ghost var order: seq<NodeId> := [];
    while settled != Ids(nodes)
      invariant settled == Elements(order) <= Ids(nodes) && NoDuplicates(order)
      invariant forall i | 0 <= i < |order| :: Predecessors(Ids(nodes), Dependents(nodes), order[i]) <= Elements(order[..i])
      decreases Ids(nodes) - settled
    {
      var ready := set n | n in nodes && n.id !in settled && Elements(n.dependencies) <= settled :: n.id;
      assert forall n | n in nodes && n.id !in settled && Elements(n.dependencies) <= settled :: n.id in ready;
      if ready == {} {
        StuckMeansCyclic(nodes, settled);
        return false;
      }
      ghost var layer := Enumerate(ready);
      AppendLayer(nodes, order, layer);
      order := order + layer;
      settled := settled + ready;
    }
    TopologicalAcyclic(Ids(nodes), Dependents(nodes), order);
    return true;
  }

  lemma StuckMeansCyclic(nodes: seq<CapabilityNode>, settled: set<NodeId>)
    requires UniqueIds(nodes) && (forall n | n in nodes :: LocallyWellFormed(n, Ids(nodes)))
    requires settled <= Ids(nodes) && settled != Ids(nodes)
    requires forall n | n in nodes && n.id !in settled :: !(Elements(n.dependencies) <= settled)
    ensures !Acyclic(Ids(nodes), Dependents(nodes))
  {
    if Acyclic(Ids(nodes), Dependents(nodes)) {
      var n := AcyclicHasReady(nodes, settled);
    }
  }

  /** In an acyclic graph that is not all settled, some unsettled node has only settled dependencies. */
  lemma AcyclicHasReady(nodes: seq<CapabilityNode>, settled: set<NodeId>) returns (n: CapabilityNode)
    requires UniqueIds(nodes) && (forall m | m in nodes :: LocallyWellFormed(m, Ids(nodes)))
    requires settled <= Ids(nodes) && settled != Ids(nodes) && Acyclic(Ids(nodes), Dependents(nodes))
    ensures n in nodes && n.id !in settled && Elements(n.dependencies) <= settled
  {
    var left := Ids(nodes) - settled;
    var missing :| missing in Ids(nodes) && missing !in settled;
    assert missing in left;
    var source := AcyclicHasSource(Ids(nodes), Dependents(nodes), left);
    n :| n in nodes && n.id == source;
    DependencyPredecessors(nodes, n);
    forall d | d in n.dependencies ensures d in settled {
      assert d in Predecessors(Ids(nodes), Dependents(nodes), source);
      assert d !in Predecessors(Ids(nodes), Dependents(nodes), source) * left;
    }
  }

  lemma AppendLayer(nodes: seq<CapabilityNode>, order: seq<NodeId>, layer: seq<NodeId>)
    requires UniqueIds(nodes) && (forall n | n in nodes :: LocallyWellFormed(n, Ids(nodes)))
    requires NoDuplicates(order) && NoDuplicates(layer) && Elements(order) <= Ids(nodes)
    requires forall i | 0 <= i < |order| :: Predecessors(Ids(nodes), Dependents(nodes), order[i]) <= Elements(order[..i])
    requires Elements(layer) == set n | n in nodes && n.id !in Elements(order) && Elements(n.dependencies) <= Elements(order) :: n.id
    ensures var all := order + layer;
      && Elements(all) == Elements(order) + Elements(layer) && NoDuplicates(all)
      && (forall i | 0 <= i < |all| :: Predecessors(Ids(nodes), Dependents(nodes), all[i]) <= Elements(all[..i]))
  {
    var all := order + layer;
    ElementsConcat(order, layer);
    assert forall i | 0 <= i < |layer| :: layer[i] in Elements(layer);
    assert forall i | 0 <= i < |order| :: order[i] in Elements(order);
    forall i | 0 <= i < |all| ensures Predecessors(Ids(nodes), Dependents(nodes), all[i]) <= Elements(all[..i]) {
      if i < |order| {
        assert all[..i] == order[..i];
      } else {
        assert all[i] in Elements(layer);
        var n :| n in nodes && n.id == all[i] && Elements(n.dependencies) <= Elements(order);
        DependencyPredecessors(nodes, n);
        assert all[..i] == order + layer[..i - |order|];
      }
    }
  }

  /** A graph is accepted exactly when it fits, has the right shape and is well formed, and is
      otherwise refused for its first fault in this order. */
  method ParseGraph(graph: Graph) returns (reason: Option<Reason>, ghost at: nat)
    ensures reason.None? <==> Accepted(graph)
    ensures reason == Some(InputBound) <==> !FitsInput(graph)
    ensures reason == Some(MalformedComposition) <==> FitsInput(graph) && !WellShaped(graph)
    ensures FitsInput(graph) && WellShaped(graph) && reason.Some? ==> StructureFault(graph.nodes, at, reason.value)
  {
    if !FitsInput(graph) {
      return Some(InputBound), 0;
    }
    if !WellShaped(graph) {
      return Some(MalformedComposition), 0;
    }
    reason, at := CheckStructure(graph.nodes);
  }

  /** Why a graph of the right shape is refused; `at` is the node at fault, if a single one is. */
  ghost predicate StructureFault(nodes: seq<CapabilityNode>, at: nat, reason: Reason) {
    if !UniqueIds(nodes) then reason == DuplicateNode
    else if EdgeCount(nodes) > MAX_COMPOSITION_EDGES || exists n | n in nodes :: !LocallyWellFormed(n, Ids(nodes))
    then FirstFault(nodes, at, reason) && reason in {EdgeBound, DuplicateTransferTarget, UnknownDependency}
    else !Acyclic(Ids(nodes), Dependents(nodes)) && reason == Cycle
  }

  method CheckStructure(nodes: seq<CapabilityNode>) returns (reason: Option<Reason>, ghost at: nat)
    ensures reason.None? <==> WellFormed(nodes)
    ensures reason.Some? ==> StructureFault(nodes, at, reason.value)
  {
    UniqueByCount(nodes);
    if |Ids(nodes)| != |nodes| {
      return Some(DuplicateNode), 0;
    }
    reason, at := CheckNodes(nodes);
    if reason.Some? {
      return;
    }
    var acyclic := SettlesInLayers(nodes);
    return if acyclic then None else Some(Cycle), 0;
  }
}
