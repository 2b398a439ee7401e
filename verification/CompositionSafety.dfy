/** What holds in every reachable state of a composition run, in every interleaving
    (src/application/capabilities/capability-composition.ts, execute). */
module CompositionSafety {
  import opened Foundation
  import opened Sorting
  import opened CompositionGraph
  import opened CompositionRun

  /** What an execution relies on: every accepted graph is well formed and has room for one node. */
  ghost predicate Runnable(graph: Graph) {
    WellFormed(graph.nodes) && graph.maxConcurrent >= 1
  }

  ghost function Deps(graph: Graph, id: NodeId): set<NodeId>
    requires id in Ids(graph.nodes)
  {
    Elements(NodeOf(graph.nodes, id).dependencies)
  }

  lemma {:induction false} NodeOfFinds(nodes: seq<CapabilityNode>, id: NodeId)
    requires id in Ids(nodes)
    ensures NodeOf(nodes, id) in nodes && NodeOf(nodes, id).id == id
  {
    if nodes[0].id != id {
      assert nodes == [nodes[0]] + nodes[1..];
      NodeOfFinds(nodes[1..], id);
    }
  }

  // ---- Scheduling ----

  /** Every dependency of the given nodes is recorded. */
  ghost predicate Gated(graph: Graph, ids: set<NodeId>, done: set<NodeId>) {
    forall id | id in ids :: id in Ids(graph.nodes) && Deps(graph, id) <= done
  }

  /** Queued, in-flight and recorded nodes are distinct nodes of the graph, their dependencies are
      all recorded, and no more than `maxConcurrent` are started at a time. */
  ghost predicate Placed(graph: Graph, queue: seq<NodeId>, inFlight: set<NodeId>, done: set<NodeId>) {
    && NoDuplicates(queue) && Elements(queue) !! done && Elements(queue) !! inFlight && inFlight !! done
    && Gated(graph, Elements(queue), done) && Gated(graph, inFlight, done) && Gated(graph, done, done)
    && |inFlight| + |queue| <= graph.maxConcurrent
  }

  ghost predicate Scheduled(graph: Graph, run: Run) {
    && Placed(graph, run.queue, run.inFlight, run.results.Keys)
    && (run.phase != Running ==> run.queue == [] && run.inFlight == {})
  }

  lemma Head(queue: seq<NodeId>)
    requires queue != [] && NoDuplicates(queue)
    ensures queue[0] in Elements(queue) && queue[0] !in Elements(queue[1..])
    ensures Elements(queue) == Elements(queue[1..]) + {queue[0]}
  {
    assert queue == [queue[0]] + queue[1..];
  }

  lemma Dequeue(graph: Graph, queue: seq<NodeId>, inFlight: set<NodeId>, done: set<NodeId>)
    requires Placed(graph, queue, inFlight, done) && queue != []
    ensures Placed(graph, queue[1..], inFlight + {queue[0]}, done)
    ensures Placed(graph, queue[1..], inFlight, done + {queue[0]})
  {
    var id := queue[0];
    Head(queue);
    assert |inFlight + {id}| == |inFlight| + 1;
  }

  lemma Land(graph: Graph, queue: seq<NodeId>, inFlight: set<NodeId>, done: set<NodeId>, id: NodeId)
    requires Placed(graph, queue, inFlight, done) && id in inFlight
    ensures Placed(graph, queue, inFlight - {id}, done + {id})
  {
  }

  lemma {:induction false} FirstReadyIsReady(all: seq<CapabilityNode>, nodes: seq<CapabilityNode>, done: set<NodeId>, limit: nat)
    requires UniqueIds(all) && (forall n | n in nodes :: n in all) && UniqueIds(nodes)
    ensures var q := FirstReady(nodes, done, limit);
      && NoDuplicates(q) && |q| <= limit && Elements(q) <= Ids(nodes) && Elements(q) !! done
      && (forall id | id in q :: id in Ids(all) && Elements(NodeOf(all, id).dependencies) <= done)
  {
    if nodes != [] && limit > 0 {
      var head, rest := nodes[0], nodes[1..];
      assert nodes == [head] + rest;
      assert Ids(nodes) == Ids(rest) + {head.id};
      var taken := head.id !in done && Elements(head.dependencies) <= done;
      FirstReadyIsReady(all, rest, done, if taken then limit - 1 else limit);
      assert head.id !in Ids(rest);
      assert head in all;
      NodeOfFinds(all, head.id);
      SameId(all, NodeOf(all, head.id), head);
    }
  }

  lemma {:induction false} FirstReadyFinds(nodes: seq<CapabilityNode>, done: set<NodeId>, limit: nat, n: CapabilityNode)
    requires n in nodes && n.id !in done && Elements(n.dependencies) <= done && limit >= 1
    ensures FirstReady(nodes, done, limit) != []
  {
    if nodes[0].id in done || !(Elements(nodes[0].dependencies) <= done) {
      assert nodes == [nodes[0]] + nodes[1..];
      FirstReadyFinds(nodes[1..], done, limit, n);
    }
  }

  lemma RoundScheduled(graph: Graph, run: Run, next: Run)
    requires Runnable(graph) && Scheduled(graph, run) && RoundBegins(graph, run, next)
    ensures Scheduled(graph, next)
  {
    FirstReadyIsReady(graph.nodes, graph.nodes, run.results.Keys, graph.maxConcurrent);
  }

  /** The head of the queue is recorded on the spot: not completed, and without effect. */
  ghost predicate RecordedAs(run: Run, next: Run, outcome: Outcome, total: nat) {
    && run.phase == Running && run.queue != [] && outcome.status != Completed && outcome.effect == NoEffect
    && total >= run.transferBytes
    && next == run.(queue := run.queue[1..], results := run.results[run.queue[0] := outcome], transferBytes := total)
  }

  /** The head of the queue goes to the gateway: all its dependencies completed, within the transfer budget. */
  ghost predicate Launched(graph: Graph, run: Run, next: Run, total: nat) {
    && run.phase == Running && run.queue != [] && run.queue[0] in Ids(graph.nodes)
    && total >= run.transferBytes && (total <= MAX_COMPOSITION_BYTES || total == run.transferBytes)
    && (forall d | d in Deps(graph, run.queue[0]) :: d in run.results && run.results[d].status == Completed)
    && next == run.(queue := run.queue[1..], inFlight := run.inFlight + {run.queue[0]}, transferBytes := total,
                    log := run.log + [GatewayCall(run.queue[0], total - run.transferBytes)])
  }

  lemma StartCases(graph: Graph, run: Run, next: Run, refused: bool, sizes: seq<Option<nat>>) returns (outcome: Outcome, total: nat)
    requires NodeStarts(graph, run, next, refused, sizes)
    ensures RecordedAs(run, next, outcome, total) || Launched(graph, run, next, total)
  {
    var id := run.queue[0];
    total := next.transferBytes;
    outcome := if id in next.results then next.results[id] else Outcome(Failed, NoEffect);
  }

  lemma StepScheduled(graph: Graph, run: Run, move: Move, next: Run)
    requires Runnable(graph) && Scheduled(graph, run) && Step(graph, run, move, next)
    ensures Scheduled(graph, next)
  {
    match move
    case SettleStart(persisted, invalid, aborted, expired) =>
      SettleScheduled(graph, run, next, persisted, invalid, aborted, expired);
    case BeginRound => RoundScheduled(graph, run, next);
    case StartNext(refused, sizes) =>
      StartScheduled(graph, run, next, refused, sizes);
    case Complete(id, outcome) => CompleteScheduled(graph, run, next, id, outcome);
    case _ => StillScheduled(graph, run, next) by {
      assert next.queue == run.queue && next.inFlight == run.inFlight && next.results == run.results;
    }
  }

  lemma StillScheduled(graph: Graph, run: Run, next: Run)
    requires Scheduled(graph, run)
    requires next.queue == run.queue && next.inFlight == run.inFlight && next.results == run.results
    requires next.phase == run.phase || (next.queue == [] && next.inFlight == {})
    ensures Scheduled(graph, next)
  {
  }

  lemma SettleScheduled(graph: Graph, run: Run, next: Run, persisted: bool, invalid: bool, aborted: bool, expired: bool)
    requires Runnable(graph) && Scheduled(graph, run) && StartSettles(graph, run, next, persisted, invalid, aborted, expired)
    ensures Scheduled(graph, next)
  {
    forall id | id in Ids(graph.nodes) ensures Deps(graph, id) <= Ids(graph.nodes) {
      NodeOfFinds(graph.nodes, id);
    }
  }

  lemma CompleteScheduled(graph: Graph, run: Run, next: Run, id: NodeId, outcome: Outcome)
    requires Scheduled(graph, run) && NodeCompletes(run, next, id, outcome)
    ensures Scheduled(graph, next)
  {
    Land(graph, run.queue, run.inFlight, run.results.Keys, id);
    assert next.results.Keys == run.results.Keys + {id};
  }

  lemma StartScheduled(graph: Graph, run: Run, next: Run, refused: bool, sizes: seq<Option<nat>>)
    requires Scheduled(graph, run) && NodeStarts(graph, run, next, refused, sizes)
    ensures Scheduled(graph, next)
  {
    var outcome, total := StartCases(graph, run, next, refused, sizes);
    StartedScheduled(graph, run, next, outcome, total);
  }

  lemma StartedScheduled(graph: Graph, run: Run, next: Run, outcome: Outcome, total: nat)
    requires Scheduled(graph, run)
    requires RecordedAs(run, next, outcome, total) || Launched(graph, run, next, total)
    ensures Scheduled(graph, next)
  {
    Dequeue(graph, run.queue, run.inFlight, run.results.Keys);
    if RecordedAs(run, next, outcome, total) {
      assert next.results.Keys == run.results.Keys + {run.queue[0]};
    }
  }

  // ---- Gateway calls ----

  ghost predicate CalledOnce(log: seq<Event>) {
    forall i, j | 0 <= i < j < |log| && log[i].GatewayCall? && log[j].GatewayCall? :: log[i].id != log[j].id
  }

  ghost predicate AllCompleted(ids: set<NodeId>, results: map<NodeId, Outcome>) {
    forall d | d in ids :: d in results && results[d].status == Completed
  }

  /** A node is called at most once and only with all its dependencies completed; a recorded node
      that was never called is not completed and has no effect. */
  ghost predicate CallsSound(graph: Graph, run: Run) {
    && CalledOnce(run.log)
    && run.inFlight <= Called(run.log) <= run.inFlight + run.results.Keys && Called(run.log) !! Elements(run.queue)
    && (forall id | id in Called(run.log) :: id in Ids(graph.nodes) && AllCompleted(Deps(graph, id), run.results))
    && (forall id | id in run.results && id !in Called(run.log) ::
          run.results[id].effect == NoEffect && run.results[id].status != Completed)
  }

  lemma CalledSnoc(log: seq<Event>, e: Event)
    ensures Called(log + [e]) == Called(log) + (if e.GatewayCall? then {e.id} else {})
    ensures CalledOnce(log) && (e.GatewayCall? ==> e.id !in Called(log)) ==> CalledOnce(log + [e])
  {
    if CalledOnce(log) && (e.GatewayCall? ==> e.id !in Called(log)) {
      forall i | 0 <= i < |log| && log[i].GatewayCall? ensures log[i].id in Called(log) {
        assert log[i] in log;
      }
    }
  }

  /** Recording a node that was not recorded keeps every completed dependency completed. */
  lemma RecordKeepsCompleted(ids: set<NodeId>, results: map<NodeId, Outcome>, id: NodeId, outcome: Outcome)
    requires AllCompleted(ids, results) && id !in results
    ensures AllCompleted(ids, results[id := outcome])
  {
  }

  lemma RecordCalls(graph: Graph, run: Run, next: Run, outcome: Outcome, total: nat)
    requires Scheduled(graph, run) && CallsSound(graph, run) && RecordedAs(run, next, outcome, total)
    ensures CallsSound(graph, next)
  {
    var id := run.queue[0];
    Head(run.queue);
    forall n | n in Called(run.log) ensures AllCompleted(Deps(graph, n), next.results) {
      RecordKeepsCompleted(Deps(graph, n), run.results, id, outcome);
    }
  }

  lemma LaunchCalls(graph: Graph, run: Run, next: Run, total: nat)
    requires Scheduled(graph, run) && CallsSound(graph, run) && Launched(graph, run, next, total)
    ensures CallsSound(graph, next)
  {
    var id := run.queue[0];
    Head(run.queue);
    CalledSnoc(run.log, GatewayCall(id, total - run.transferBytes));
  }

  lemma CompleteCalls(graph: Graph, run: Run, next: Run, id: NodeId, outcome: Outcome)
    requires Scheduled(graph, run) && CallsSound(graph, run) && NodeCompletes(run, next, id, outcome)
    ensures CallsSound(graph, next)
  {
    forall n | n in Called(run.log) ensures AllCompleted(Deps(graph, n), next.results) {
      RecordKeepsCompleted(Deps(graph, n), run.results, id, outcome);
    }
  }

  lemma RoundCalls(graph: Graph, run: Run, next: Run)
    requires Runnable(graph) && Scheduled(graph, run) && CallsSound(graph, run) && RoundBegins(graph, run, next)
    ensures CallsSound(graph, next)
  {
    RoundScheduled(graph, run, next);
  }

  lemma StartCalls(graph: Graph, run: Run, next: Run, persisted: bool, invalid: bool, aborted: bool, expired: bool)
    requires run.queue == [] && run.inFlight == {} && run.results == map[] && run.log == []
    requires StartSettles(graph, run, next, persisted, invalid, aborted, expired)
    ensures CallsSound(graph, next)
  {
  }

  lemma NextCalls(graph: Graph, run: Run, next: Run, refused: bool, sizes: seq<Option<nat>>)
    requires Scheduled(graph, run) && CallsSound(graph, run) && NodeStarts(graph, run, next, refused, sizes)
    ensures CallsSound(graph, next)
  {
    var outcome, total := StartCases(graph, run, next, refused, sizes);
    if RecordedAs(run, next, outcome, total) {
      RecordCalls(graph, run, next, outcome, total);
    } else {
      LaunchCalls(graph, run, next, total);
    }
  }

  lemma StepCalls(graph: Graph, run: Run, move: Move, next: Run)
    requires Runnable(graph) && Scheduled(graph, run) && CallsSound(graph, run) && Step(graph, run, move, next)
    requires run.phase == AwaitingStart ==> run.results == map[] && run.log == []
    ensures CallsSound(graph, next)
  {
    match move
    case SettleStart(persisted, invalid, aborted, expired) =>
      StartCalls(graph, run, next, persisted, invalid, aborted, expired);
    case BeginRound => RoundCalls(graph, run, next);
    case StartNext(refused, sizes) =>
      NextCalls(graph, run, next, refused, sizes);
    case Complete(id, outcome) => CompleteCalls(graph, run, next, id, outcome);
    case EndLoop => EndCalls(graph, run, next);
    case _ => QuietCalls(graph, run, move, next);
  }

  lemma QuietCalls(graph: Graph, run: Run, move: Move, next: Run)
    requires CallsSound(graph, run) && Step(graph, run, move, next)
    requires move.Capture? || move.Interrupt? || move.SettleCompletion?
    ensures CallsSound(graph, next)
  {
    QuietMove(graph, run, move, next);
    SameCalls(graph, run, next);
  }

  /** Captures, interrupts and the settlement of the completion record schedule nothing. */
  lemma QuietMove(graph: Graph, run: Run, move: Move, next: Run)
    requires Step(graph, run, move, next) && (move.Capture? || move.Interrupt? || move.SettleCompletion?)
    ensures next.log == run.log && next.queue == run.queue && next.inFlight == run.inFlight && next.results == run.results
  {
  }

  lemma EndCalls(graph: Graph, run: Run, next: Run)
    requires CallsSound(graph, run) && LoopEnds(graph, run, next)
    ensures CallsSound(graph, next)
  {
    CalledSnoc(run.log, CompletionWrite(next.phase.status));
  }

  lemma SameCalls(graph: Graph, run: Run, next: Run)
    requires CallsSound(graph, run)
    requires next.log == run.log && next.queue == run.queue && next.inFlight == run.inFlight && next.results == run.results
    ensures CallsSound(graph, next)
  {
  }

  // ---- Byte budgets ----

  /** Delivered transfer bytes and retained outputs stay within the composition budget. */
  ghost predicate Budgeted(run: Run) {
    && Delivered(run.log) <= run.transferBytes && Delivered(run.log) <= MAX_COMPOSITION_BYTES
    && RetainedSize(run.exact) <= run.retainedBytes <= MAX_COMPOSITION_BYTES
  }

  lemma {:induction false} RetainedWithout(exact: map<NodeId, nat>, id: NodeId)
    requires id in exact
    ensures RetainedSize(exact) == exact[id] + RetainedSize(exact - {id})
    decreases |exact|
  {
    var first :| first in exact && RetainedSize(exact) == exact[first] + RetainedSize(exact - {first});
    if first != id {
      var less := exact - {first};
      assert |less| < |exact| by { assert less.Keys == exact.Keys - {first}; assert |exact.Keys| == |exact| && |less.Keys| == |less|; }
      RetainedWithout(less, id);
      var both := exact - {id};
      assert |both| < |exact| by { assert both.Keys == exact.Keys - {id}; assert |exact.Keys| == |exact| && |both.Keys| == |both|; }
      RetainedWithout(both, first);
      assert less - {id} == both - {first};
    }
  }

  /** Overwriting a retained output never adds more than the new size. */
  lemma RetainedUpdate(exact: map<NodeId, nat>, id: NodeId, bytes: nat)
    ensures RetainedSize(exact[id := bytes]) <= RetainedSize(exact) + bytes
  {
    var more := exact[id := bytes];
    RetainedWithout(more, id);
    if id in exact {
      RetainedWithout(exact, id);
      assert more - {id} == exact - {id};
    } else {
      assert more - {id} == exact;
    }
  }

  lemma DeliveredSnoc(log: seq<Event>, e: Event)
    ensures Delivered(log + [e]) == Delivered(log) + (if e.GatewayCall? then e.bytes else 0)
  {
    assert (log + [e])[..|log|] == log;
  }

  lemma StepBudget(graph: Graph, run: Run, move: Move, next: Run)
    requires Budgeted(run) && Step(graph, run, move, next)
    requires run.phase == AwaitingStart ==> run.log == []
    ensures Budgeted(next)
  {
    match move
    case SettleStart(persisted, invalid, aborted, expired) => DeliveredSnoc([], StartPersisted);
    case StartNext(refused, sizes) => StartBudget(graph, run, next, refused, sizes);
    case Capture(id, bytes) => RetainedUpdate(run.exact, id, bytes);
    case EndLoop => EndBudget(graph, run, next);
    case _ =>
  }

  lemma StartBudget(graph: Graph, run: Run, next: Run, refused: bool, sizes: seq<Option<nat>>)
    requires Budgeted(run) && NodeStarts(graph, run, next, refused, sizes)
    ensures Budgeted(next)
  {
    var outcome, total := StartCases(graph, run, next, refused, sizes);
    if Launched(graph, run, next, total) {
      DeliveredSnoc(run.log, GatewayCall(run.queue[0], total - run.transferBytes));
    }
  }

  lemma EndBudget(graph: Graph, run: Run, next: Run)
    requires Budgeted(run) && LoopEnds(graph, run, next)
    ensures Budgeted(next)
  {
    DeliveredSnoc(run.log, CompletionWrite(next.phase.status));
    assert RetainedSize(next.exact) == 0;
  }
}
