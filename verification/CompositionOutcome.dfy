/** Whole executions of a composition: the journal protocol, the returned verdict, the gating of
    transitive dependents and termination (src/application/capabilities/capability-composition.ts, execute). */
module CompositionOutcome {
  import opened Foundation
  import opened Sorting
  import opened Digraph
  import opened CompositionGraph
  import opened CompositionRun
  import opened CompositionSafety

  // ---- The journal protocol ----

  /** Between the start record and position `end` there are gateway calls only. */
  ghost predicate OpensThenCalls(log: seq<Event>, end: nat) {
    1 <= end <= |log| && log[0] == StartPersisted && forall i | 1 <= i < end :: log[i].GatewayCall?
  }

  /** The journal and the verdict, phase by phase: nothing before a persisted start; then gateway
      calls; then exactly one completion record; completed iff every node completed and that
      record was persisted. */
  ghost predicate Journaled(graph: Graph, run: Run) {
    match run.phase
    case AwaitingStart => run.log == [] && run.results == map[] && run.exact == map[]
    case Running => OpensThenCalls(run.log, |run.log|)
    case AwaitingSettlement(status) =>
      && Closed(run.log, status) && run.results.Keys == Ids(graph.nodes)
      && (status == Completed <==> AllCompleted(Ids(graph.nodes), run.results))
    case Returned(status, records, settled) =>
      if run.log == [] then status == Unavailable && records == [] && !settled
      else
        && (exists written :: Closed(run.log, written) && status == (if settled then written else Uncertain))
        && run.results.Keys == Ids(graph.nodes) && records == Records(graph, run)
        && (status == Completed <==> settled && AllCompleted(Ids(graph.nodes), run.results))
  }

  ghost predicate Closed(log: seq<Event>, status: Status) {
    |log| >= 2 && OpensThenCalls(log, |log| - 1) && log[|log| - 1] == CompletionWrite(status)
  }

  /** The overall status is completed iff all nodes completed. */
  lemma CompletedStatus(graph: Graph, run: Run)
    requires Ids(graph.nodes) <= run.results.Keys
    ensures OverallStatus(Records(graph, run), run.expired, run.signalAborted) == Completed
       <==> AllCompleted(Ids(graph.nodes), run.results)
  {
    var records := Records(graph, run);
    if forall r | r in records :: r.status == Completed {
      forall id | id in Ids(graph.nodes) ensures run.results[id].status == Completed {
        var n :| n in graph.nodes && n.id == id;
        var i :| 0 <= i < |graph.nodes| && graph.nodes[i] == n;
        assert records[i] in records;
      }
    }
    if AllCompleted(Ids(graph.nodes), run.results) {
      forall i | 0 <= i < |records| ensures records[i].status == Completed {
        assert graph.nodes[i].id in Ids(graph.nodes);
      }
    }
  }

  /** A recorded node for every node of the graph: as many results as nodes leave none out. */
  lemma AllRecorded(graph: Graph, run: Run)
    requires Runnable(graph) && Scheduled(graph, run) && |run.results| >= |graph.nodes|
    ensures run.results.Keys == Ids(graph.nodes)
  {
    UniqueByCount(graph.nodes);
    assert |run.results.Keys| == |run.results|;
    assert run.results.Keys <= Ids(graph.nodes);
    if run.results.Keys != Ids(graph.nodes) {
      SubsetCardinality(run.results.Keys, Ids(graph.nodes));
    }
  }

  lemma EndJournaled(graph: Graph, run: Run, next: Run)
    requires Runnable(graph) && Scheduled(graph, run) && Journaled(graph, run) && LoopEnds(graph, run, next)
    ensures Journaled(graph, next)
  {
    AllRecorded(graph, run);
    CompletedStatus(graph, run);
  }

  lemma StartedJournaled(graph: Graph, run: Run, next: Run, outcome: Outcome, total: nat)
    requires Journaled(graph, run) && (RecordedAs(run, next, outcome, total) || Launched(graph, run, next, total))
    ensures Journaled(graph, next)
  {
  }

  lemma SettledJournaled(graph: Graph, run: Run, next: Run, persisted: bool)
    requires Journaled(graph, run) && CompletionSettles(graph, run, next, persisted)
    ensures Journaled(graph, next)
  {
    assert Records(graph, run) == Records(graph, next);
    assert Closed(next.log, run.phase.status);
  }

  lemma StepJournaled(graph: Graph, run: Run, move: Move, next: Run)
    requires Runnable(graph) && Scheduled(graph, run) && CallsSound(graph, run) && Journaled(graph, run)
    requires Step(graph, run, move, next)
    ensures Journaled(graph, next)
  {
    match move
    case StartNext(refused, sizes) =>
      var outcome, total := StartCases(graph, run, next, refused, sizes);
      StartedJournaled(graph, run, next, outcome, total);
    case EndLoop => EndJournaled(graph, run, next);
    case SettleCompletion(persisted) => SettledJournaled(graph, run, next, persisted);
    case Capture(id, bytes) => CaptureJournaled(graph, run, next, id, bytes);
    case _ =>
  }

  lemma CaptureJournaled(graph: Graph, run: Run, next: Run, id: NodeId, bytes: nat)
    requires Journaled(graph, run) && OutputCaptured(run, next, id, bytes)
    ensures Journaled(graph, next)
  {
    assert next.log == run.log && next.phase == run.phase && next.results == run.results;
    if Ids(graph.nodes) <= run.results.Keys {
      assert Records(graph, run) == Records(graph, next);
    }
  }

  // ---- Executions ----

  ghost predicate Invariant(graph: Graph, run: Run) {
    Scheduled(graph, run) && CallsSound(graph, run) && Budgeted(run) && Journaled(graph, run)
  }

  /** A finite execution from the initial state, in any interleaving. */
  ghost predicate Execution(graph: Graph, states: seq<Run>, moves: seq<Move>) {
    && |states| == |moves| + 1 && states[0] == INITIAL
    && (forall i | 0 <= i < |moves| :: Step(graph, states[i], moves[i], states[i + 1]))
  }

  lemma InitialInvariant(graph: Graph)
    ensures Invariant(graph, INITIAL)
  {
  }

  lemma StepInvariant(graph: Graph, run: Run, move: Move, next: Run)
    requires Runnable(graph) && Invariant(graph, run) && Step(graph, run, move, next)
    ensures Invariant(graph, next)
  {
    StepScheduled(graph, run, move, next);
    StepCalls(graph, run, move, next);
    StepBudget(graph, run, move, next);
    StepJournaled(graph, run, move, next);
  }

  /** The invariants hold in every state of every execution of an admitted graph. */
  lemma {:induction false} ExecutionInvariant(graph: Graph, states: seq<Run>, moves: seq<Move>, i: nat)
    requires Runnable(graph) && Execution(graph, states, moves) && i < |states|
    ensures Invariant(graph, states[i])
  {
    if i == 0 {
      InitialInvariant(graph);
    } else {
      ExecutionInvariant(graph, states, moves, i - 1);
      StepInvariant(graph, states[i - 1], moves[i - 1], states[i]);
    }
  }

  /** A node below a node that did not complete never reaches the gateway, and if it is recorded
      it has no effect. */
  lemma NothingBelowAFailure(graph: Graph, run: Run, above: NodeId, below: NodeId)
    requires Runnable(graph) && Invariant(graph, run)
    requires Reaches(Ids(graph.nodes), Dependents(graph.nodes), above, below)
    requires above !in run.results || run.results[above].status != Completed
    ensures below !in Called(run.log)
    ensures below in run.results ==> run.results[below].effect == NoEffect && run.results[below].status != Completed
  {
    var p :| WalkFromTo(Ids(graph.nodes), Dependents(graph.nodes), p, above, below);
    for i := 1 to |p|
      invariant p[i - 1] !in run.results || run.results[p[i - 1]].status != Completed
      invariant i > 1 ==> p[i - 1] !in Called(run.log)
    {
      Unreached(graph, run, p[i - 1], p[i]);
    }
  }

  lemma Unreached(graph: Graph, run: Run, dependency: NodeId, id: NodeId)
    requires Runnable(graph) && CallsSound(graph, run) && id in Successors(Dependents(graph.nodes), dependency)
    requires dependency !in run.results || run.results[dependency].status != Completed
    ensures id !in Called(run.log)
    ensures id in run.results ==> run.results[id].effect == NoEffect && run.results[id].status != Completed
  {
    DependsOn(graph, dependency, id);
  }

  lemma DependsOn(graph: Graph, dependency: NodeId, id: NodeId)
    requires Runnable(graph) && id in Successors(Dependents(graph.nodes), dependency)
    ensures id in Ids(graph.nodes) && dependency in Deps(graph, id)
  {
    var n :| n in graph.nodes && dependency in n.dependencies && n.id == id;
    NodeOfFinds(graph.nodes, id);
    SameId(graph.nodes, NodeOf(graph.nodes, id), n);
  }

  /** A run that was started and returned has exactly one record per node, in node order, and one
      completion record after all its gateway calls. */
  lemma ReturnedRun(graph: Graph, run: Run)
    requires Invariant(graph, run) && run.phase.Returned? && run.log != []
    ensures |run.phase.records| == |graph.nodes|
    ensures forall i | 0 <= i < |graph.nodes| ::
      graph.nodes[i].id in run.results && run.phase.records[i] == run.results[graph.nodes[i].id]
    ensures exists written :: Closed(run.log, written)
    ensures run.phase.status == Completed <==> run.phase.settled && forall r | r in run.phase.records :: r.status == Completed
  {
    forall i | 0 <= i < |graph.nodes| ensures graph.nodes[i].id in run.results {
      assert graph.nodes[i].id in Ids(graph.nodes);
    }
  }

  // ---- Executions that call nothing ----

  /** Nothing can reach the gateway any more: the run is aborted, or every node is recorded. */
  ghost predicate Barred(graph: Graph, run: Run) {
    run.aborted || (run.results.Keys == Ids(graph.nodes) && run.phase != AwaitingStart)
  }

  lemma BarredStart(graph: Graph, run: Run, next: Run, refused: bool, sizes: seq<Option<nat>>)
    requires Scheduled(graph, run) && Barred(graph, run) && NodeStarts(graph, run, next, refused, sizes)
    ensures Barred(graph, next) && next.log == run.log
  {
    StartsExactly(graph, run, next, refused, sizes);
    assert run.queue[0] in Elements(run.queue);
  }

  lemma BarredComplete(graph: Graph, run: Run, next: Run, id: NodeId, outcome: Outcome)
    requires Scheduled(graph, run) && Barred(graph, run) && NodeCompletes(run, next, id, outcome)
    ensures Barred(graph, next) && next.log == run.log
  {
    assert id in Ids(graph.nodes);
    assert next.results.Keys == run.results.Keys + {id};
  }

  lemma BarredEnd(graph: Graph, run: Run, next: Run)
    requires Barred(graph, run) && LoopEnds(graph, run, next)
    ensures Barred(graph, next) && Called(next.log) == Called(run.log)
  {
    CalledSnoc(run.log, CompletionWrite(next.phase.status));
  }

  lemma BarredStep(graph: Graph, run: Run, move: Move, next: Run)
    requires Scheduled(graph, run) && Step(graph, run, move, next)
    requires Barred(graph, run) && run.phase != AwaitingStart
    ensures Barred(graph, next) && next.phase != AwaitingStart && Called(next.log) == Called(run.log)
  {
    match move
    case StartNext(refused, sizes) => BarredStart(graph, run, next, refused, sizes);
    case Complete(id, outcome) => BarredComplete(graph, run, next, id, outcome);
    case EndLoop => BarredEnd(graph, run, next);
    case _ =>
  }

  /** Once aborted, a run sends no further node to the gateway. */
  lemma {:induction false} BarredForGood(graph: Graph, states: seq<Run>, moves: seq<Move>, i: nat, j: nat)
    requires Runnable(graph) && Execution(graph, states, moves) && i <= j < |states|
    requires Barred(graph, states[i]) && states[i].phase != AwaitingStart
    ensures Barred(graph, states[j]) && states[j].phase != AwaitingStart && Called(states[j].log) == Called(states[i].log)
  {
    if i < j {
      BarredForGood(graph, states, moves, i, j - 1);
      BarredOnce(graph, states, moves, j - 1);
    }
  }

  lemma BarredOnce(graph: Graph, states: seq<Run>, moves: seq<Move>, i: nat)
    requires Runnable(graph) && Execution(graph, states, moves) && i < |moves|
    requires Barred(graph, states[i]) && states[i].phase != AwaitingStart
    ensures Barred(graph, states[i + 1]) && states[i + 1].phase != AwaitingStart
    ensures Called(states[i + 1].log) == Called(states[i].log)
  {
    ExecutionInvariant(graph, states, moves, i);
    BarredStep(graph, states[i], moves[i], states[i + 1]);
  }

  /** A run whose start record was lost, whose caller aborted or whose time was over before it
      began, or whose bindings were invalid, never calls the gateway. */
  lemma HopelessStartCallsNothing(graph: Graph, states: seq<Run>, moves: seq<Move>, j: nat)
    requires Runnable(graph) && Execution(graph, states, moves) && 0 < j < |states| && moves[0].SettleStart?
    requires !moves[0].persisted || moves[0].invalid || moves[0].aborted || moves[0].expired
    ensures Called(states[j].log) == {}
    ensures moves[0].persisted && moves[0].invalid ==>
      forall id | id in Ids(graph.nodes) :: id in states[1].results && states[1].results[id] == Outcome(Unavailable, NoEffect)
  {
    assert Step(graph, states[0], moves[0], states[1]);
    if moves[0].persisted {
      BarredForGood(graph, states, moves, 1, j);
    } else {
      ReturnedStays(graph, states, moves, 1, j);
    }
  }

  lemma {:induction false} ReturnedStays(graph: Graph, states: seq<Run>, moves: seq<Move>, i: nat, j: nat)
    requires Execution(graph, states, moves) && i <= j < |states| && states[i].phase.Returned? && states[i].log == []
    ensures states[j].phase.Returned? && states[j].log == []
  {
    if i < j {
      ReturnedStays(graph, states, moves, i, j - 1);
      assert Step(graph, states[j - 1], moves[j - 1], states[j]);
    }
  }

  // ---- Delivered transfers ----

  /** The sizes of all transfers that moves delivered to the gateway. */
  ghost function SizesDelivered(states: seq<Run>, moves: seq<Move>, n: nat): nat
    requires n <= |moves| && |states| == |moves| + 1
  {
    if n == 0 then 0
    else SizesDelivered(states, moves, n - 1) + SizesOf(states[n - 1], moves[n - 1], states[n])
  }

  /** The sizes delivered by one move: those of a node that it sent to the gateway. */
  ghost function SizesOf(run: Run, move: Move, next: Run): nat {
    if move.StartNext? && |next.log| > |run.log| then Sum(move.sizes) else 0
  }

  lemma StepDelivers(graph: Graph, run: Run, move: Move, next: Run)
    requires Step(graph, run, move, next) && (run.phase == AwaitingStart ==> run.log == [])
    ensures Delivered(next.log) == Delivered(run.log) + SizesOf(run, move, next)
  {
    match move
    case SettleStart(persisted, invalid, aborted, expired) => DeliveredSnoc([], StartPersisted);
    case StartNext(refused, sizes) =>
      StartsExactly(graph, run, next, refused, sizes);
      DeliveredSnoc(run.log, GatewayCall(run.queue[0], Sum(sizes)));
    case EndLoop => DeliveredSnoc(run.log, CompletionWrite(next.phase.status));
    case _ =>
  }

  lemma ReachableStepDelivers(graph: Graph, states: seq<Run>, moves: seq<Move>, n: nat)
    requires Runnable(graph) && Execution(graph, states, moves) && n < |moves|
    ensures Delivered(states[n + 1].log) == Delivered(states[n].log) + SizesOf(states[n], moves[n], states[n + 1])
  {
    ExecutionInvariant(graph, states, moves, n);
    StepDelivers(graph, states[n], moves[n], states[n + 1]);
  }

  lemma {:induction false} AllDelivered(graph: Graph, states: seq<Run>, moves: seq<Move>, n: nat)
    requires Runnable(graph) && Execution(graph, states, moves) && n <= |moves|
    ensures SizesDelivered(states, moves, n) == Delivered(states[n].log)
  {
    if n > 0 {
      AllDelivered(graph, states, moves, n - 1);
      ReachableStepDelivers(graph, states, moves, n - 1);
      OneMoveMore(states, moves, n - 1);
    }
  }

  lemma OneMoveMore(states: seq<Run>, moves: seq<Move>, n: nat)
    requires n < |moves| && |states| == |moves| + 1
    ensures SizesDelivered(states, moves, n + 1) == SizesDelivered(states, moves, n) + SizesOf(states[n], moves[n], states[n + 1])
  {
  }

  /** Over a whole execution, the sizes of all transfers delivered to the gateway total at most
      the composition budget. */
  lemma TransfersWithinBudget(graph: Graph, states: seq<Run>, moves: seq<Move>, n: nat)
    requires Runnable(graph) && Execution(graph, states, moves) && n <= |moves|
    ensures SizesDelivered(states, moves, n) <= MAX_COMPOSITION_BYTES
  {
    AllDelivered(graph, states, moves, n);
    ExecutionInvariant(graph, states, moves, n);
  }

  // ---- Termination ----

  /** The nodes not yet taken up. */
  ghost function IdleOf(all: set<NodeId>, done: set<NodeId>, inFlight: set<NodeId>, queued: set<NodeId>): set<NodeId> {
    all - done - inFlight - queued
  }

  ghost function IdleCount(graph: Graph, run: Run): nat {
    |IdleOf(Ids(graph.nodes), run.results.Keys, run.inFlight, Elements(run.queue))|
  }

  /** Work left: three moves for an idle node, two for a queued one, one for one in flight, and
      three to open, end and settle the run. */
  ghost function Work(graph: Graph, run: Run): nat {
    match run.phase
    case Returned(_, _, _) => 0
    case AwaitingSettlement(_) => 1
    case Running => 2 + 3 * IdleCount(graph, run) + 2 * |run.queue| + |run.inFlight|
    case AwaitingStart => 3 + 3 * |Ids(graph.nodes)|
  }

  /** Captures and interrupts can happen at any time; every other move is progress. */
  predicate Productive(move: Move) { !move.Capture? && !move.Interrupt? }

  /** A round of an admitted graph is never empty. */
  lemma RoundNotEmpty(graph: Graph, run: Run, next: Run)
    requires Runnable(graph) && Scheduled(graph, run) && RoundBegins(graph, run, next)
    ensures next.queue != []
  {
    UniqueByCount(graph.nodes);
    assert |run.results.Keys| == |run.results|;
    assert run.results.Keys != Ids(graph.nodes);
    var n := AcyclicHasReady(graph.nodes, run.results.Keys);
    FirstReadyFinds(graph.nodes, run.results.Keys, graph.maxConcurrent, n);
  }

  lemma IdleTaken(all: set<NodeId>, done: set<NodeId>, queued: set<NodeId>)
    requires queued <= all && queued !! done
    ensures |IdleOf(all, done, {}, queued)| == |IdleOf(all, done, {}, {})| - |queued|
  {
    var idle := IdleOf(all, done, {}, {});
    assert queued <= idle;
    assert IdleOf(all, done, {}, queued) == idle - queued;
  }

  lemma RoundProgress(graph: Graph, run: Run, next: Run)
    requires Runnable(graph) && Scheduled(graph, run) && RoundBegins(graph, run, next)
    ensures Work(graph, next) < Work(graph, run)
  {
    RoundNotEmpty(graph, run, next);
    FirstReadyIsReady(graph.nodes, graph.nodes, run.results.Keys, graph.maxConcurrent);
    RoundWorkLess(graph, run, next);
  }

  lemma RoundWorkLess(graph: Graph, run: Run, next: Run)
    requires run.phase == next.phase == Running && run.queue == [] && run.inFlight == next.inFlight == {}
    requires next.results == run.results && next.queue != [] && NoDuplicates(next.queue)
    requires Elements(next.queue) <= Ids(graph.nodes) && Elements(next.queue) !! run.results.Keys
    ensures Work(graph, next) < Work(graph, run)
  {
    DistinctByCount(next.queue);
    IdleTaken(Ids(graph.nodes), run.results.Keys, Elements(next.queue));
    assert Elements(run.queue) == {};
  }

  lemma StartProgress(graph: Graph, run: Run, next: Run, outcome: Outcome, total: nat)
    requires Scheduled(graph, run) && (RecordedAs(run, next, outcome, total) || Launched(graph, run, next, total))
    ensures Work(graph, next) < Work(graph, run)
  {
    Head(run.queue);
    if Launched(graph, run, next, total) {
      StartWorkLess(graph, run, next);
    } else {
      assert next.results.Keys == run.results.Keys + {run.queue[0]};
      StartWorkLess(graph, run, next);
    }
  }

  lemma StartWorkLess(graph: Graph, run: Run, next: Run)
    requires run.phase == next.phase == Running && run.queue != [] && next.queue == run.queue[1..] && NoDuplicates(run.queue)
    requires
      || (next.results.Keys == run.results.Keys + {run.queue[0]} && next.inFlight == run.inFlight)
      || (next.results == run.results && next.inFlight == run.inFlight + {run.queue[0]} && run.queue[0] !in run.inFlight)
    ensures Work(graph, next) < Work(graph, run)
  {
    IdleStarted(Ids(graph.nodes), run.results.Keys, run.inFlight, run.queue);
  }

  lemma IdleStarted(all: set<NodeId>, done: set<NodeId>, inFlight: set<NodeId>, queue: seq<NodeId>)
    requires queue != [] && NoDuplicates(queue)
    ensures IdleOf(all, done + {queue[0]}, inFlight, Elements(queue[1..])) == IdleOf(all, done, inFlight, Elements(queue))
    ensures IdleOf(all, done, inFlight + {queue[0]}, Elements(queue[1..])) == IdleOf(all, done, inFlight, Elements(queue))
  {
    Head(queue);
  }

  lemma IdleLanded(all: set<NodeId>, done: set<NodeId>, inFlight: set<NodeId>, queued: set<NodeId>, id: NodeId)
    requires id in inFlight
    ensures IdleOf(all, done + {id}, inFlight - {id}, queued) == IdleOf(all, done, inFlight, queued)
    ensures |inFlight - {id}| == |inFlight| - 1
  {
  }

  lemma CompleteProgress(graph: Graph, run: Run, next: Run, id: NodeId, outcome: Outcome)
    requires NodeCompletes(run, next, id, outcome)
    ensures Work(graph, next) < Work(graph, run)
  {
    IdleLanded(Ids(graph.nodes), run.results.Keys, run.inFlight, Elements(run.queue), id);
    assert next.results.Keys == run.results.Keys + {id};
  }

  lemma StartWork(graph: Graph, run: Run, next: Run, persisted: bool, invalid: bool, aborted: bool, expired: bool)
    requires StartSettles(graph, run, next, persisted, invalid, aborted, expired) && run.queue == [] && run.inFlight == {}
    ensures Work(graph, next) < Work(graph, run)
  {
    if persisted { IdleBound(graph, next); }
  }

  lemma IdleBound(graph: Graph, run: Run)
    ensures IdleCount(graph, run) <= |Ids(graph.nodes)|
  {
    SubsetBound(IdleOf(Ids(graph.nodes), run.results.Keys, run.inFlight, Elements(run.queue)), Ids(graph.nodes));
  }

  lemma SameWork(graph: Graph, run: Run, next: Run)
    requires next.phase == run.phase && next.queue == run.queue && next.inFlight == run.inFlight && next.results == run.results
    ensures Work(graph, next) == Work(graph, run)
  {
  }

  lemma ClosingProgress(graph: Graph, run: Run, next: Run, persisted: bool)
    requires LoopEnds(graph, run, next) || CompletionSettles(graph, run, next, persisted)
    ensures Work(graph, next) < Work(graph, run)
  {
  }

  /** Every productive move uses up work. */
  lemma ProductiveMovesUseWork(graph: Graph, run: Run, move: Move, next: Run)
    requires Runnable(graph) && Scheduled(graph, run) && Step(graph, run, move, next) && Productive(move)
    ensures Work(graph, next) < Work(graph, run)
  {
    match move
    case SettleStart(persisted, invalid, aborted, expired) => StartWork(graph, run, next, persisted, invalid, aborted, expired);
    case BeginRound => RoundProgress(graph, run, next);
    case StartNext(refused, sizes) =>
      var outcome, total := StartCases(graph, run, next, refused, sizes);
      StartProgress(graph, run, next, outcome, total);
    case Complete(id, outcome) => CompleteProgress(graph, run, next, id, outcome);
    case EndLoop => ClosingProgress(graph, run, next, false);
    case SettleCompletion(persisted) => ClosingProgress(graph, run, next, persisted);
  }

  /** Captures and interrupts never add work. */
  lemma OtherMovesKeepWork(graph: Graph, run: Run, move: Move, next: Run)
    requires Step(graph, run, move, next) && !Productive(move)
    ensures Work(graph, next) == Work(graph, run)
  {
    SameWork(graph, run, next);
  }

  ghost function ProductiveMoves(moves: seq<Move>): nat {
    if moves == [] then 0
    else ProductiveMoves(moves[..|moves| - 1]) + (if Productive(moves[|moves| - 1]) then 1 else 0)
  }

  /** No execution of n nodes makes more than 3 n + 3 productive moves. */
  lemma {:induction false} ExecutionTerminates(graph: Graph, states: seq<Run>, moves: seq<Move>)
    requires Runnable(graph) && Execution(graph, states, moves)
    ensures ProductiveMoves(moves) + Work(graph, states[|moves|]) <= 3 * |graph.nodes| + 3
  {
    if moves == [] {
      UniqueByCount(graph.nodes);
    } else {
      var n := |moves| - 1;
      assert Execution(graph, states[..n + 1], moves[..n]);
      ExecutionTerminates(graph, states[..n + 1], moves[..n]);
      ExecutionInvariant(graph, states, moves, n);
      if Productive(moves[n]) {
        ProductiveMovesUseWork(graph, states[n], moves[n], states[n + 1]);
      } else {
        OtherMovesKeepWork(graph, states[n], moves[n], states[n + 1]);
      }
    }
  }

  /** Until it has returned, a run always has a productive move: no reachable state is stuck. */
  lemma NeverStuck(graph: Graph, run: Run) returns (move: Move, next: Run)
    requires Runnable(graph) && Invariant(graph, run) && !run.phase.Returned?
    ensures Productive(move) && Step(graph, run, move, next)
  {
    match run.phase
    case AwaitingStart =>
      move, next := SettleStart(false, false, false, false), run.(phase := Returned(Unavailable, [], false));
    case AwaitingSettlement(status) =>
      move, next := SettleCompletion(true), run.(phase := Returned(status, Records(graph, run), true));
    case Running =>
      if run.inFlight != {} {
        var id :| id in run.inFlight;
        move := Complete(id, Outcome(Uncertain, UncertainEffect));
        next := run.(inFlight := run.inFlight - {id}, results := run.results[id := Outcome(Uncertain, UncertainEffect)]);
      } else if run.queue != [] {
        var id := run.queue[0];
        assert id in Elements(run.queue);
        var node := NodeOf(graph.nodes, id);
        var sizes := seq(|node.transfers|, _ => None);
        move := StartNext(true, sizes);
        next := StartNode(run.(queue := run.queue[1..]), id, node, true, sizes);
      } else if |run.results| < |graph.nodes| {
        move, next := BeginRound, run.(queue := FirstReady(graph.nodes, run.results.Keys, graph.maxConcurrent));
      } else {
        AllRecorded(graph, run);
        var status := OverallStatus(Records(graph, run), run.expired, run.signalAborted);
        move := EndLoop;
        next := run.(phase := AwaitingSettlement(status), exact := map[], log := run.log + [CompletionWrite(status)]);
      }
  }
}
