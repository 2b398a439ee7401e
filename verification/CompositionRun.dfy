/** One execution of an admitted capability graph, as a step system
    (src/application/capabilities/capability-composition.ts, execute).

    A round takes the ready nodes and starts them one after another; completions, output captures,
    the caller's abort and the timer interleave freely with those starts and with each other. The
    gateway, the journal and the binding check answer arbitrarily. */
module CompositionRun {
  import opened Foundation
  import opened Sorting
  import opened CompositionGraph

  datatype Status = Completed | Failed | Cancelled | TimedOut | Uncertain | Denied | Unavailable | Malformed | Partial

  datatype Effect = NoEffect | CompletedEffect | PartialEffect | UncertainEffect

  datatype Outcome = Outcome(status: Status, effect: Effect)

  /** What became durable or left the process, in order. */
  datatype Event =
    | StartPersisted
    | GatewayCall(id: NodeId, bytes: nat)
    | CompletionWrite(status: Status)

  datatype Phase =
    | AwaitingStart
    | Running
    | AwaitingSettlement(status: Status)
    /** `settled` says whether the completion record was persisted. */
    | Returned(status: Status, records: seq<Outcome>, settled: bool)

  datatype Run = Run(
    phase: Phase,
    /** Started nodes of the round whose turn has not come yet. */
    queue: seq<NodeId>,
    /** Nodes at the gateway. */
    inFlight: set<NodeId>,
    results: map<NodeId, Outcome>,
    /** Sizes of the retained exact outputs. */
    exact: map<NodeId, nat>,
    transferBytes: nat,
    retainedBytes: nat,
    aborted: bool,
    signalAborted: bool,
    expired: bool,
    log: seq<Event>)

  const INITIAL := Run(AwaitingStart, [], {}, map[], map[], 0, 0, false, false, false, [])

  // ---- The pure parts ----

  /** The strongest effect among the records. */
  function OverallEffect(records: seq<Outcome>): Effect {
    if exists r | r in records :: r.effect == UncertainEffect then UncertainEffect
    else if exists r | r in records :: r.effect == PartialEffect then PartialEffect
    else if exists r | r in records :: r.effect == CompletedEffect then CompletedEffect
    else NoEffect
  }

  function EffectRank(effect: Effect): nat {
    match effect
    case NoEffect => 0
    case CompletedEffect => 1
    case PartialEffect => 2
    case UncertainEffect => 3
  }

  /** The overall effect is the maximum: no record exceeds it, and some record attains it. */
  lemma OverallEffectIsMaximum(records: seq<Outcome>)
    ensures forall r | r in records :: EffectRank(r.effect) <= EffectRank(OverallEffect(records))
    ensures records != [] ==> exists r | r in records :: r.effect == OverallEffect(records)
  {
    if records != [] && OverallEffect(records) == NoEffect {
      assert records[0] in records;
    }
  }

  function OverallStatus(records: seq<Outcome>, expired: bool, signalAborted: bool): Status {
    if forall r | r in records :: r.status == Completed then Completed
    else if exists r | r in records :: r.status == Uncertain then Uncertain
    else if expired then TimedOut
    else if signalAborted then Cancelled
    else Partial
  }

  /** The input transfers of one node: sizes are added up until one is missing or the total is too large. */
  function TransferLoop(total: nat, sizes: seq<Option<nat>>): (r: (nat, bool))
    ensures r.0 >= total
    ensures r.1 ==> sizes == [] || r.0 <= MAX_COMPOSITION_BYTES
    decreases |sizes|
  {
    if sizes == [] then (total, true)
    else if sizes[0].None? then (total, false)
    else if total + sizes[0].value > MAX_COMPOSITION_BYTES then (total + sizes[0].value, false)
    else TransferLoop(total + sizes[0].value, sizes[1..])
  }

  /** What the transfers of one node weigh together. */
  function Sum(sizes: seq<Option<nat>>): nat {
    if sizes == [] then 0 else (if sizes[0].Some? then sizes[0].value else 0) + Sum(sizes[1..])
  }

  ghost predicate AllKnown(sizes: seq<Option<nat>>) {
    forall i | 0 <= i < |sizes| :: sizes[i].Some?
  }

  /** The transfers pass exactly when every size is known and all of them together stay within the
      budget, and then every one of them has been added. */
  lemma {:induction false} TransfersPassExactly(total: nat, sizes: seq<Option<nat>>)
    ensures TransferLoop(total, sizes).1 <==>
      AllKnown(sizes) && (sizes == [] || total + Sum(sizes) <= MAX_COMPOSITION_BYTES)
    ensures TransferLoop(total, sizes).1 ==> TransferLoop(total, sizes).0 == total + Sum(sizes)
    decreases |sizes|
  {
    if sizes != [] && sizes[0].Some? {
      assert sizes == [sizes[0]] + sizes[1..];
      if total + sizes[0].value <= MAX_COMPOSITION_BYTES {
        TransfersPassExactly(total + sizes[0].value, sizes[1..]);
      }
    }
  }

  /** The overall status: completed iff all are; otherwise uncertainty, expiry and the caller's abort
      take precedence in this order, and what is left is partial. */
  lemma OverallStatusExactly(records: seq<Outcome>, expired: bool, signalAborted: bool)
    ensures var status := OverallStatus(records, expired, signalAborted);
      && (status == Completed <==> forall r | r in records :: r.status == Completed)
      && (status == Uncertain <==> exists r | r in records :: r.status == Uncertain)
      && (status == TimedOut <==> expired && (exists r | r in records :: r.status != Completed)
                                  && forall r | r in records :: r.status != Uncertain)
      && (status == Cancelled <==> signalAborted && !expired && (exists r | r in records :: r.status != Completed)
                                   && forall r | r in records :: r.status != Uncertain)
      && status in {Completed, Uncertain, TimedOut, Cancelled, Partial}
  {
  }

  // ---- Steps ----

  function NodeOf(nodes: seq<CapabilityNode>, id: NodeId): CapabilityNode
    requires id in Ids(nodes)
  {
    if nodes[0].id == id then nodes[0] else
      assert nodes == [nodes[0]] + nodes[1..];
      NodeOf(nodes[1..], id)
  }

  /** The start record settles. A duplicate or failed write ends the run; an invalid binding
      fails every node at once. */
  ghost predicate StartSettles(graph: Graph, run: Run, next: Run, persisted: bool, invalid: bool, aborted: bool, expired: bool) {
    && run.phase == AwaitingStart
    && next ==
       if !persisted then run.(phase := Returned(Unavailable, [], false))
       else run.(
         phase := Running,
         aborted := aborted || expired, signalAborted := aborted, expired := expired,
         results := if invalid then map id | id in Ids(graph.nodes) :: Outcome(Unavailable, NoEffect) else map[],
         log := [StartPersisted])
  }

  /** A new round: the first ready nodes, at most `maxConcurrent` of them, once the last round is over. */
  ghost predicate RoundBegins(graph: Graph, run: Run, next: Run) {
    && run.phase == Running && run.queue == [] && run.inFlight == {} && |run.results| < |graph.nodes|
    && next == run.(queue := FirstReady(graph.nodes, run.results.Keys, graph.maxConcurrent))
  }

  function FirstReady(nodes: seq<CapabilityNode>, done: set<NodeId>, limit: nat): seq<NodeId> {
    if nodes == [] || limit == 0 then []
    else if nodes[0].id !in done && Elements(nodes[0].dependencies) <= done
    then [nodes[0].id] + FirstReady(nodes[1..], done, limit - 1)
    else FirstReady(nodes[1..], done, limit)
  }

  predicate IsReady(node: CapabilityNode, done: set<NodeId>) {
    node.id !in done && forall d | d in node.dependencies :: d in done
  }

  /** The ready nodes, in node order. */
  function ReadyIds(nodes: seq<CapabilityNode>, done: set<NodeId>): seq<NodeId> {
    if nodes == [] then []
    else (if IsReady(nodes[0], done) then [nodes[0].id] else []) + ReadyIds(nodes[1..], done)
  }

  /** A round takes the ready nodes in node order, as many as fit. */
  lemma {:induction false} RoundTakesFirstReady(nodes: seq<CapabilityNode>, done: set<NodeId>, limit: nat)
    ensures var ready := ReadyIds(nodes, done);
      FirstReady(nodes, done, limit) == if |ready| <= limit then ready else ready[..limit]
  {
    if nodes != [] {
      var ready := ReadyIds(nodes, done);
      assert Elements(nodes[0].dependencies) <= done <==> forall d | d in nodes[0].dependencies :: d in done;
      if IsReady(nodes[0], done) {
        assert ready == [nodes[0].id] + ReadyIds(nodes[1..], done);
        if limit > 0 { RoundTakesFirstReady(nodes[1..], done, limit - 1); }
      } else {
        assert ready == ReadyIds(nodes[1..], done);
        RoundTakesFirstReady(nodes[1..], done, limit);
      }
    }
  }

  /** A node that is not ready yet, or recorded, is not taken; every ready one is counted. */
  lemma {:induction false} ReadyIdsExactly(nodes: seq<CapabilityNode>, done: set<NodeId>, id: NodeId)
    ensures id in ReadyIds(nodes, done) <==> exists n | n in nodes :: n.id == id && IsReady(n, done)
  {
    if nodes != [] {
      assert nodes == [nodes[0]] + nodes[1..];
      ReadyIdsExactly(nodes[1..], done, id);
    }
  }

  /** The next queued node runs up to its gateway call, or is recorded without one. */
  ghost predicate NodeStarts(graph: Graph, run: Run, next: Run, refused: bool, sizes: seq<Option<nat>>) {
    && run.phase == Running && run.queue != [] && run.queue[0] in Ids(graph.nodes)
    && var id := run.queue[0];
       var node := NodeOf(graph.nodes, id);
       && |sizes| == |node.transfers|
       && (forall i | 0 <= i < |sizes| && sizes[i].Some? ::
             sizes[i].value <= MAX_TRANSFER_BYTES && node.transfers[i].from in run.exact)
       && next == StartNode(run.(queue := run.queue[1..]), id, node, refused, sizes)
  }

  function StartNode(run: Run, id: NodeId, node: CapabilityNode, refused: bool, sizes: seq<Option<nat>>): Run {
    if run.aborted then
      run.(results := run.results[id := Outcome(if run.expired then TimedOut else Cancelled, NoEffect)])
    else if refused || (exists d | d in node.dependencies :: d !in run.results || run.results[d].status != Completed) then
      run.(results := run.results[id := Outcome(Unavailable, NoEffect)])
    else
      var (total, ok) := TransferLoop(run.transferBytes, sizes);
      var counted := run.(transferBytes := total);
      if !ok then counted.(results := run.results[id := Outcome(Unavailable, NoEffect)])
      else counted.(inFlight := run.inFlight + {id}, log := run.log + [GatewayCall(id, total - run.transferBytes)])
  }

  /** What lets a queued node reach the gateway. */
  ghost predicate MayLaunch(run: Run, node: CapabilityNode, refused: bool, sizes: seq<Option<nat>>) {
    && !run.aborted && !refused && (forall d | d in node.dependencies :: d in run.results && run.results[d].status == Completed)
    && AllKnown(sizes) && (sizes == [] || run.transferBytes + Sum(sizes) <= MAX_COMPOSITION_BYTES)
  }

  /** A queued node reaches the gateway, with all its transfers delivered, exactly when nothing stands
      against it; otherwise it is recorded without effect, and an abort says how. */
  lemma StartsExactly(graph: Graph, run: Run, next: Run, refused: bool, sizes: seq<Option<nat>>)
    requires NodeStarts(graph, run, next, refused, sizes)
    ensures var id := run.queue[0];
      if MayLaunch(run, NodeOf(graph.nodes, id), refused, sizes) then
        && next.log == run.log + [GatewayCall(id, Sum(sizes))] && next.inFlight == run.inFlight + {id}
        && next.results == run.results && next.transferBytes == run.transferBytes + Sum(sizes)
      else
        && next.log == run.log && next.inFlight == run.inFlight
        && next.results == run.results[id := Outcome(
             if run.aborted then (if run.expired then TimedOut else Cancelled) else Unavailable, NoEffect)]
  {
    TransfersPassExactly(run.transferBytes, sizes);
  }

  /** A gateway call answers, or throws and is recorded as uncertain. */
  ghost predicate NodeCompletes(run: Run, next: Run, id: NodeId, outcome: Outcome) {
    && run.phase == Running && id in run.inFlight
    && next == run.(inFlight := run.inFlight - {id}, results := run.results[id := outcome])
  }

  /** A called node hands over its exact output; it may do so any number of times, even late. */
  ghost predicate OutputCaptured(run: Run, next: Run, id: NodeId, bytes: nat) {
    && id in Called(run.log) && bytes <= MAX_TRANSFER_BYTES
    && next ==
       if run.retainedBytes + bytes > MAX_COMPOSITION_BYTES then run
       else run.(retainedBytes := run.retainedBytes + bytes, exact := run.exact[id := bytes])
  }

  /** A called node may capture any output up to the transfer bound, at any time. */
  lemma AnyCapture(run: Run, id: NodeId, bytes: nat)
    requires id in Called(run.log) && bytes <= 65_536
    ensures exists next :: OutputCaptured(run, next, id, bytes)
  {
    var next := if run.retainedBytes + bytes > MAX_COMPOSITION_BYTES then run
      else run.(retainedBytes := run.retainedBytes + bytes, exact := run.exact[id := bytes]);
    assert OutputCaptured(run, next, id, bytes);
  }

  /** The head of the queue may start with any answer of the environment: any refusal, and any sizes up
      to the transfer bound for the outputs that are there. */
  lemma AnyStart(graph: Graph, run: Run, refused: bool, sizes: seq<Option<nat>>)
    requires run.phase == Running && run.queue != [] && run.queue[0] in Ids(graph.nodes)
    requires var transfers := NodeOf(graph.nodes, run.queue[0]).transfers;
      |sizes| == |transfers| &&
      forall i | 0 <= i < |sizes| && sizes[i].Some? :: sizes[i].value <= 65_536 && transfers[i].from in run.exact
    ensures exists next :: NodeStarts(graph, run, next, refused, sizes)
  {
    var id := run.queue[0];
    assert NodeStarts(graph, run, StartNode(run.(queue := run.queue[1..]), id, NodeOf(graph.nodes, id), refused, sizes), refused, sizes);
  }

  /** An output is retained exactly when it still fits the budget. */
  lemma RetainsExactly(run: Run, next: Run, id: NodeId, bytes: nat)
    requires OutputCaptured(run, next, id, bytes)
    ensures run.retainedBytes + bytes <= MAX_COMPOSITION_BYTES ==>
      id in next.exact && next.exact[id] == bytes && next.retainedBytes == run.retainedBytes + bytes
    ensures run.retainedBytes + bytes > MAX_COMPOSITION_BYTES ==> next == run
  {
  }

  ghost predicate Interrupted(run: Run, next: Run, timer: bool) {
    && run.phase == Running
    && next == if timer then run.(aborted := true, expired := true) else run.(aborted := true, signalAborted := true)
  }

  ghost function Records(graph: Graph, run: Run): seq<Outcome>
    requires Ids(graph.nodes) <= run.results.Keys
  {
    seq(|graph.nodes|, i requires 0 <= i < |graph.nodes| =>
      assert graph.nodes[i].id in Ids(graph.nodes); run.results[graph.nodes[i].id])
  }

  /** All nodes are recorded: the outputs are dropped and the one completion record is written. */
  ghost predicate LoopEnds(graph: Graph, run: Run, next: Run) {
    && run.phase == Running && run.queue == [] && run.inFlight == {} && |run.results| >= |graph.nodes|
    && Ids(graph.nodes) <= run.results.Keys
    && var status := OverallStatus(Records(graph, run), run.expired, run.signalAborted);
       next == run.(phase := AwaitingSettlement(status), exact := map[], log := run.log + [CompletionWrite(status)])
  }

  ghost predicate CompletionSettles(graph: Graph, run: Run, next: Run, persisted: bool) {
    && run.phase.AwaitingSettlement? && Ids(graph.nodes) <= run.results.Keys
    && next == run.(phase := Returned(if persisted then run.phase.status else Uncertain, Records(graph, run), persisted))
  }

  /** The moves of a run, with the answers of its environment. */
  datatype Move =
    | SettleStart(persisted: bool, invalid: bool, aborted: bool, expired: bool)
    | BeginRound
    | StartNext(refused: bool, sizes: seq<Option<nat>>)
    | Complete(id: NodeId, outcome: Outcome)
    | Capture(id: NodeId, bytes: nat)
    | Interrupt(timer: bool)
    | EndLoop
    | SettleCompletion(persisted: bool)

  ghost predicate Step(graph: Graph, run: Run, move: Move, next: Run) {
    match move
    case SettleStart(persisted, invalid, aborted, expired) => StartSettles(graph, run, next, persisted, invalid, aborted, expired)
    case BeginRound => RoundBegins(graph, run, next)
    case StartNext(refused, sizes) => NodeStarts(graph, run, next, refused, sizes)
    case Complete(id, outcome) => NodeCompletes(run, next, id, outcome)
    case Capture(id, bytes) => OutputCaptured(run, next, id, bytes)
    case Interrupt(timer) => Interrupted(run, next, timer)
    case EndLoop => LoopEnds(graph, run, next)
    case SettleCompletion(persisted) => CompletionSettles(graph, run, next, persisted)
  }

  // ---- History ----

  ghost function Called(log: seq<Event>): set<NodeId> {
    set e | e in log && e.GatewayCall? :: e.id
  }

  /** The transfer bytes delivered to gateway calls so far. */
  ghost function Delivered(log: seq<Event>): nat {
    if log == [] then 0
    else
      var last := log[|log| - 1];
      Delivered(log[..|log| - 1]) + (if last.GatewayCall? then last.bytes else 0)
  }

  ghost function RetainedSize(exact: map<NodeId, nat>): nat {
    if exact == map[] then 0
    else
      var id :| id in exact;
      exact[id] + RetainedSize(exact - {id})
  }
}
