/** All executions of one composition service together: the one-shot admission they share, and the
    batch interface on top (src/application/capabilities/capability-composition.ts,
    createCapabilityComposition). */
module CompositionAdmission {
  import opened Foundation
  import opened Sorting
  import opened Digraph
  import opened CompositionGraph
  import opened CompositionRun
  import opened CompositionSafety
  import opened CompositionOutcome

  const MAX_ADMITTED: nat := 512

  type GraphId = string

  datatype Instance = Instance(graphId: GraphId, graph: Graph, run: Run)

  /** The shared set of admitted graph ids, and every execution admitted so far. */
  datatype Service = Service(admitted: set<GraphId>, instances: seq<Instance>)

  datatype Answer = MalformedGraph | StaleGeneration | AlreadyAdmitted | AdmissionBound | Started

  /** What a call to `execute` answers before its first await. */
  ghost function Admission(service: Service, graphId: GraphId, graph: Graph, current: bool): Answer {
    if !Accepted(graph) then MalformedGraph
    else if !current then StaleGeneration
    else if graphId in service.admitted then AlreadyAdmitted
    else if |service.admitted| >= MAX_ADMITTED then AdmissionBound
    else Started
  }

  datatype ServiceMove =
    | Execute(graphId: GraphId, graph: Graph, current: bool)
    | Progress(index: nat, move: Move)

  /** Calls to `execute` and moves of admitted executions interleave freely. */
  ghost predicate ServiceStep(service: Service, move: ServiceMove, next: Service) {
    match move
    case Execute(graphId, graph, current) =>
      next == if Admission(service, graphId, graph, current).Started?
              then Service(service.admitted + {graphId}, service.instances + [Instance(graphId, graph, INITIAL)])
              else service
    case Progress(index, m) =>
      && index < |service.instances| && next.admitted == service.admitted
      && |next.instances| == |service.instances|
      && var (before, after) := (service.instances[index], next.instances[index]);
         && after.graphId == before.graphId && after.graph == before.graph
         && Step(before.graph, before.run, m, after.run)
         && (forall i | 0 <= i < |service.instances| && i != index :: next.instances[i] == service.instances[i])
  }

  /** One execution per admitted id, at most 512 of them, each one sound. */
  ghost predicate ServiceInvariant(service: Service) {
    OneShot(service.admitted, service.instances) && AllSound(service.instances)
  }

  ghost predicate OneShot(admitted: set<GraphId>, instances: seq<Instance>) {
    && |admitted| <= MAX_ADMITTED && (forall i | 0 <= i < |instances| :: instances[i].graphId in admitted)
    && (forall i, j | 0 <= i < j < |instances| :: instances[i].graphId != instances[j].graphId)
  }

  ghost predicate AllSound(instances: seq<Instance>) {
    forall i | 0 <= i < |instances| :: Sound(instances[i])
  }

  ghost predicate Sound(instance: Instance) {
    Accepted(instance.graph) && Invariant(instance.graph, instance.run)
  }

  ghost predicate ServiceExecution(states: seq<Service>, moves: seq<ServiceMove>) {
    && |states| == |moves| + 1 && states[0] == Service({}, [])
    && (forall i | 0 <= i < |moves| :: ServiceStep(states[i], moves[i], states[i + 1]))
  }

  lemma ServiceStepInvariant(service: Service, move: ServiceMove, next: Service)
    requires ServiceInvariant(service) && ServiceStep(service, move, next)
    ensures ServiceInvariant(next)
  {
    match move
    case Execute(graphId, graph, current) =>
      if Admission(service, graphId, graph, current).Started? {
        StartKeeps(service, graphId, graph);
      }
    case Progress(index, m) => ProgressKeeps(service, index, m, next);
  }

  lemma StartKeeps(service: Service, graphId: GraphId, graph: Graph)
    requires ServiceInvariant(service) && Accepted(graph)
    requires graphId !in service.admitted && |service.admitted| < MAX_ADMITTED
    ensures ServiceInvariant(Service(service.admitted + {graphId}, service.instances + [Instance(graphId, graph, INITIAL)]))
  {
    OneMore(service.admitted, service.instances, Instance(graphId, graph, INITIAL));
    InitialInvariant(graph);
  }

  lemma OneMore(admitted: set<GraphId>, instances: seq<Instance>, instance: Instance)
    requires OneShot(admitted, instances) && instance.graphId !in admitted && |admitted| < MAX_ADMITTED
    ensures OneShot(admitted + {instance.graphId}, instances + [instance])
  {
    assert |admitted + {instance.graphId}| == |admitted| + 1;
  }

  lemma ProgressKeeps(service: Service, index: nat, m: Move, next: Service)
    requires ServiceInvariant(service) && ServiceStep(service, Progress(index, m), next)
    ensures ServiceInvariant(next)
  {
    var before, after := service.instances[index], next.instances[index];
    assert Sound(before);
    StepInvariant(before.graph, before.run, m, after.run);
    forall i | 0 <= i < |next.instances| ensures next.instances[i].graphId == service.instances[i].graphId {
      if i != index { assert next.instances[i] == service.instances[i]; }
    }
  }

  /** In every interleaving of any number of executions: admission is one-shot per graph id, bounded
      by 512, and every execution keeps its own invariants. */
  lemma {:induction false} ServiceSafe(states: seq<Service>, moves: seq<ServiceMove>, i: nat)
    requires ServiceExecution(states, moves) && i < |states|
    ensures ServiceInvariant(states[i])
  {
    if i > 0 {
      ServiceSafe(states, moves, i - 1);
      ServiceStepInvariant(states[i - 1], moves[i - 1], states[i]);
    }
  }

  /** No gateway call of any execution precedes that execution's persisted start record. */
  lemma CallsFollowPersistedStart(states: seq<Service>, moves: seq<ServiceMove>, i: nat, instance: nat, at: nat)
    requires ServiceExecution(states, moves) && i < |states| && instance < |states[i].instances|
    requires at < |states[i].instances[instance].run.log| && states[i].instances[instance].run.log[at].GatewayCall?
    ensures at > 0 && states[i].instances[instance].run.log[0] == StartPersisted
  {
    ServiceSafe(states, moves, i);
    var it := states[i].instances[instance];
    assert Sound(it) && Journaled(it.graph, it.run);
  }

  /** A call starts exactly when its graph is accepted and current and its id is new and within the
      bound, and then its id counts as admitted for good. */
  lemma StartsExactlyOnce(states: seq<Service>, moves: seq<ServiceMove>, i: nat, later: nat)
    requires ServiceExecution(states, moves) && i < later < |states| && moves[i].Execute?
    ensures var (before, after, move) := (states[i], states[i + 1], moves[i]);
      if Accepted(move.graph) && move.current && move.graphId !in before.admitted && |before.admitted| < MAX_ADMITTED
      then after.instances == before.instances + [Instance(move.graphId, move.graph, INITIAL)] && move.graphId in states[later].admitted
      else after == before
  {
    assert ServiceStep(states[i], moves[i], states[i + 1]);
    AdmittedStays(states, moves, i + 1, later);
  }

  lemma {:induction false} AdmittedStays(states: seq<Service>, moves: seq<ServiceMove>, i: nat, j: nat)
    requires ServiceExecution(states, moves) && i <= j < |states|
    ensures states[i].admitted <= states[j].admitted
  {
    if i < j {
      AdmittedStays(states, moves, i, j - 1);
      assert ServiceStep(states[j - 1], moves[j - 1], states[j]);
    }
  }

  // ---- Batches ----

  datatype BatchCall = BatchCall(toolCallId: NodeId, capabilityId: string, capabilityVersion: int)

  function CallIds(calls: seq<BatchCall>): seq<NodeId> {
    seq(|calls|, i requires 0 <= i < |calls| => calls[i].toolCallId)
  }

  /** A batch runs as a graph without dependencies. */
  function BatchNodes(calls: seq<BatchCall>): seq<CapabilityNode> {
    seq(|calls|, i requires 0 <= i < |calls| =>
      CapabilityNode(calls[i].toolCallId, calls[i].capabilityId, calls[i].capabilityVersion, [], []))
  }

  function BatchGraph(graphId: string, encodedBytes: Option<nat>, maxConcurrent: nat, calls: seq<BatchCall>): Graph {
    Graph(graphId, encodedBytes, maxConcurrent, MAX_COMPOSITION_DURATION_MS, BatchNodes(calls))
  }

  /** The answer to each item: its own record, unless the completion record was lost. */
  function BatchOutcomes(size: nat, started: bool, result: Phase): seq<Outcome>
    requires result.Returned?
  {
    seq(size, i =>
      if started && result.status == Uncertain && !result.settled then Outcome(Uncertain, UncertainEffect)
      else if 0 <= i < |result.records| then result.records[i]
      else Outcome(Unavailable, NoEffect))
  }

  predicate ProperCall(call: BatchCall) {
    Identifier(call.toolCallId) && Identifier(call.capabilityId) && call.capabilityVersion >= 1
  }

  /** A batch is accepted iff it fits, holds 1 to 64 distinct calls under proper names and its
      concurrency is between 1 and 16. */
  lemma BatchAcceptedExactly(graphId: string, encodedBytes: Option<nat>, maxConcurrent: nat, calls: seq<BatchCall>)
    requires Identifier(graphId)
    ensures Accepted(BatchGraph(graphId, encodedBytes, maxConcurrent, calls)) <==>
      && encodedBytes.Some? && encodedBytes.value <= MAX_COMPOSITION_BYTES
      && 1 <= |calls| <= MAX_COMPOSITION_NODES && 1 <= maxConcurrent <= MAX_CONCURRENT_NODES
      && NoDuplicates(CallIds(calls)) && (forall i | 0 <= i < |calls| :: ProperCall(calls[i]))
  {
    BatchWellFormed(calls);
    BatchShaped(calls);
  }

  lemma BatchShaped(calls: seq<BatchCall>)
    ensures (forall n | n in BatchNodes(calls) :: WellShapedNode(n)) <==> forall i | 0 <= i < |calls| :: ProperCall(calls[i])
  {
    var nodes := BatchNodes(calls);
    forall i | 0 <= i < |calls| ensures nodes[i] in nodes && (WellShapedNode(nodes[i]) <==> ProperCall(calls[i])) {
    }
    if forall n | n in nodes :: WellShapedNode(n) {
      forall i | 0 <= i < |calls| ensures ProperCall(calls[i]) { assert nodes[i] in nodes; }
    }
  }

  /** Without dependencies, a graph is well formed iff its nodes are distinct. */
  lemma BatchWellFormed(calls: seq<BatchCall>)
    ensures WellFormed(BatchNodes(calls)) <==> NoDuplicates(CallIds(calls))
  {
    var nodes := BatchNodes(calls);
    NoEdges(nodes);
    BatchUnique(calls);
    assert forall d | d in Ids(nodes) :: Dependents(nodes)[d] == {};
    forall k | k in Ids(nodes) ensures !Reaches(Ids(nodes), Dependents(nodes), k, k) {
      if Reaches(Ids(nodes), Dependents(nodes), k, k) {
        ClosedUnderReach(Ids(nodes), Dependents(nodes), {}, k, k);
      }
    }
  }

  lemma BatchUnique(calls: seq<BatchCall>)
    ensures UniqueIds(BatchNodes(calls)) <==> NoDuplicates(CallIds(calls))
  {
    var nodes, ids := BatchNodes(calls), CallIds(calls);
    assert forall i | 0 <= i < |calls| :: nodes[i].id == ids[i];
    if UniqueIds(nodes) {
      forall i, j | 0 <= i < j < |ids| ensures ids[i] != ids[j] { assert nodes[i].id != nodes[j].id; }
    }
  }

  lemma {:induction false} NoEdges(nodes: seq<CapabilityNode>)
    requires forall n | n in nodes :: n.dependencies == [] && n.transfers == []
    ensures EdgeCount(nodes) == 0
  {
    if nodes != [] { NoEdges(nodes[..|nodes| - 1]); }
  }

  /** Every batch item gets exactly its own node's outcome when the run was journaled to the end,
      and uncertainty when the completion record was not persisted. */
  lemma BatchAnswersItems(calls: seq<BatchCall>, graph: Graph, run: Run, i: nat)
    requires graph.nodes == BatchNodes(calls) && Invariant(graph, run)
    requires run.phase.Returned? && run.log != [] && i < |calls|
    ensures var (outcome, id) := (BatchOutcomes(|calls|, true, run.phase)[i], calls[i].toolCallId);
      if run.phase.settled then id in run.results && outcome == run.results[id]
      else outcome == Outcome(Uncertain, UncertainEffect)
  {
    ReturnedRun(graph, run);
    assert graph.nodes[i].id == calls[i].toolCallId;
  }

  /** A batch whose run did not start has every item answered as unavailable, without effect. */
  lemma RefusedBatchAnswers(calls: seq<BatchCall>, graph: Graph, run: Run, i: nat)
    requires Invariant(graph, run) && run.phase.Returned? && run.log == [] && i < |calls|
    ensures BatchOutcomes(|calls|, false, run.phase)[i] == Outcome(Unavailable, NoEffect)
  {
  }
}
