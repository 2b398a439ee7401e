/** Exclusion between live turns and compaction
    (src/application/compression/live-checkpoint.ts, createLiveCheckpoint and guardCheckpointTurn, with
    the action of src/application/compression/product-checkpoint.ts underneath).

    Code between two awaits runs as one step; every other interleaving is possible. */
module LiveCheckpoint {
  import opened Foundation

  /** The captured authority, under the configuration key in force at the capture. `stamp` counts
      the turns begun before the capture. */
  datatype Captured = Captured(key: string, authority: string, stamp: nat)

  // ---- The live object ----

  /** The closure variables of the live checkpoint. */
  datatype Live = Live(active: int, compacting: bool, captured: Option<Captured>)

  class LiveObject {
    var active: int
    var compacting: bool
    var captured: Option<Captured>

    ghost function View(): Live
      reads this
    {
      Live(active, compacting, captured)
    }

    constructor ()
      ensures View() == Live(0, false, None)
    {
      active, compacting, captured := 0, false, None;
    }

    /** The guard of a turn: refused while compacting, otherwise the turn is counted and the
        captured authority forgotten. */
    method GuardTurn() returns (admitted: bool)
      modifies this
      ensures admitted == !old(compacting)
      ensures View() == if admitted then BeginTurn(old(View())) else old(View())
    {
      if compacting {
        return false;
      }
      active := active + 1;
      captured := None;
      return true;
    }

    method FinishTurn()
      modifies this
      ensures View() == EndTurn(old(View()))
    {
      active := active - 1;
    }

    method Capture(capture: Captured)
      modifies this
      ensures View() == old(View()).(captured := Some(capture))
    {
      captured := Some(capture);
    }

    method StartCompaction() returns (accepted: bool)
      modifies this
      ensures accepted == (old(active) == 0 && !old(compacting))
      ensures View() == if accepted then old(View()).(compacting := true) else old(View())
    {
      if active != 0 || compacting {
        return false;
      }
      compacting := true;
      return true;
    }

    method EndCompaction()
      modifies this
      ensures View() == old(View()).(compacting := false)
    {
      compacting := false;
    }

    /** The authority handed to the compaction: only under the key it was captured under. */
    method Authority(key: string) returns (authority: Option<string>)
      ensures authority == HandedOut(View(), key)
    {
      if captured.Some? && captured.value.key == key {
        return Some(captured.value.authority);
      }
      return None;
    }
  }

  function BeginTurn(live: Live): Live { live.(active := live.active + 1, captured := None) }

  function EndTurn(live: Live): Live { live.(active := live.active - 1) }

  function HandedOut(live: Live, key: string): Option<string> {
    if live.captured.Some? && live.captured.value.key == key then Some(live.captured.value.authority) else None
  }

  // ---- All turns, compaction calls and compaction jobs together ----

  /** A job works for a compaction call; it can outlive the call when the call is cut short. */
  datatype Job = Queued | Working(authority: Option<string>)

  /** What a published checkpoint relied on at the moment of its commit. */
  datatype Commit = Commit(turnsInFlight: nat, authority: string, captured: Option<Captured>, begun: nat, key: string)

  datatype State = State(
    live: Live,
    /** The action's own re-entrancy flag. */
    running: bool,
    /** The current configuration key. */
    key: string,
    turns: set<nat>,
    begun: nat,
    calls: set<nat>,
    jobs: map<nat, Job>,
    commits: seq<Commit>)

  ghost predicate Initial(state: State) {
    state == State(Live(0, false, None), false, state.key, {}, 0, {}, map[], [])
  }

  datatype Move =
    | TurnArrives(id: nat)
    | TurnSettles(id: nat)
    | CaptureNow(authority: string)
    | Reconfigure(key: string)
    /** `durable` and admission decide whether the action queues a job at all. */
    | Request(id: nat, queues: bool)
    | JobStarts(id: nat)
    | JobReadsAuthority(id: nat)
    | JobCommits(id: nat)
    | JobEnds(id: nat)
    /** The call returns; its job may be done, never started, or still working. */
    | CallReturns(id: nat)

  ghost predicate Step(s: State, move: Move, t: State) {
    match move
    case TurnArrives(id) =>
      && id !in s.turns
      && t == if s.live.compacting then s
              else s.(live := BeginTurn(s.live), turns := s.turns + {id}, begun := s.begun + 1)
    case TurnSettles(id) => id in s.turns && t == s.(live := EndTurn(s.live), turns := s.turns - {id})
    case CaptureNow(authority) => t == s.(live := s.live.(captured := Some(Captured(s.key, authority, s.begun))))
    case Reconfigure(key) => t == s.(key := key)
    case Request(id, queues) =>
      && id !in s.calls && id !in s.jobs
      && t == if s.live.active != 0 || s.live.compacting then s
              else if queues && !s.running
              then s.(live := s.live.(compacting := true), calls := s.calls + {id}, running := true, jobs := s.jobs[id := Queued])
              else s.(live := s.live.(compacting := true), calls := s.calls + {id})
    case JobStarts(id) => id in s.jobs && s.jobs[id] == Queued && id in s.calls && t == s.(jobs := s.jobs[id := Working(None)])
    case JobReadsAuthority(id) =>
      && id in s.jobs && s.jobs[id].Working?
      && t == s.(jobs := s.jobs[id := Working(HandedOut(s.live, s.key))])
    case JobCommits(id) =>
      && id in s.jobs && s.jobs[id].Working? && s.jobs[id].authority.Some?
      && t == if s.live.active == 0 && HandedOut(s.live, s.key) == s.jobs[id].authority
              then s.(commits := s.commits + [Commit(|s.turns|, s.jobs[id].authority.value, s.live.captured, s.begun, s.key)])
              else s
    case JobEnds(id) => id in s.jobs && s.jobs[id].Working? && t == s.(running := false, jobs := s.jobs - {id})
    case CallReturns(id) =>
      && id in s.calls
      && t == (if id in s.jobs && s.jobs[id] == Queued
               then s.(live := s.live.(compacting := false), calls := s.calls - {id}, running := false, jobs := s.jobs - {id})
               else s.(live := s.live.(compacting := false), calls := s.calls - {id}))
  }

  ghost predicate Execution(states: seq<State>, moves: seq<Move>) {
    && |states| == |moves| + 1 && Initial(states[0])
    && (forall i | 0 <= i < |moves| :: Step(states[i], moves[i], states[i + 1]))
  }

  /** A commit relied on no turn in flight and on an authority captured after the last turn began,
      under the key in force. */
  ghost predicate SoundCommit(commit: Commit) {
    && commit.turnsInFlight == 0
    && commit.captured == Some(Captured(commit.key, commit.authority, commit.begun))
  }

  ghost predicate Invariant(s: State) {
    && s.live.active == |s.turns|
    && (s.live.compacting <==> s.calls != {}) && |s.calls| <= 1
    && (s.live.compacting ==> s.turns == {})
    && (s.running <==> s.jobs != map[]) && |s.jobs| <= 1
    && (forall id | id in s.jobs && s.jobs[id] == Queued :: id in s.calls)
    && (s.live.captured.Some? ==> s.live.captured.value.stamp == s.begun)
    && (forall c | c in s.commits :: SoundCommit(c))
  }

  lemma OneLeft<K, V>(m: map<K, V>, k: K)
    requires k in m && |m| <= 1
    ensures m - {k} == map[] && m.Keys == {k}
  {
    assert |m.Keys| == |m| == 1;
    forall x | x in m ensures x == k {
      assert |m.Keys - {k}| == 0;
      assert x !in m.Keys - {k};
    }
  }

  lemma JobStep(s: State, move: Move, t: State)
    requires Invariant(s) && Step(s, move, t)
    requires move.JobStarts? || move.JobReadsAuthority? || move.JobCommits? || move.JobEnds?
    ensures Invariant(t)
  {
    OneLeft(s.jobs, move.id);
    assert !move.JobEnds? ==> t.jobs.Keys == s.jobs.Keys;
    assert |t.jobs.Keys| == |t.jobs|;
    if move.JobCommits? && s.live.active == 0 && HandedOut(s.live, s.key) == s.jobs[move.id].authority {
      assert SoundCommit(t.commits[|s.commits|]);
    }
  }

  lemma CallStep(s: State, move: Move, t: State)
    requires Invariant(s) && Step(s, move, t) && (move.Request? || move.CallReturns?)
    ensures Invariant(t)
  {
    if move.Request? {
      if t != s {
        assert s.calls == {} && s.turns == {};
        assert |t.calls| == 1;
        if t.jobs != s.jobs {
          assert t.jobs.Keys == {move.id} && |t.jobs.Keys| == |t.jobs|;
        }
      }
    } else {
      assert s.calls == {move.id} by {
        assert |s.calls - {move.id}| == 0;
      }
      if move.id in s.jobs { OneLeft(s.jobs, move.id); }
    }
  }

  lemma StepInvariant(s: State, move: Move, t: State)
    requires Invariant(s) && Step(s, move, t)
    ensures Invariant(t)
  {
    match move
    case TurnArrives(id) =>
    case TurnSettles(id) =>
    case CaptureNow(authority) =>
    case Reconfigure(key) =>
    case Request(id, queues) => CallStep(s, move, t);
    case CallReturns(id) => CallStep(s, move, t);
    case _ => JobStep(s, move, t);
  }

  /** In every interleaving: turns and compaction calls never overlap, at most one call and one job
      exist, `active` counts the turns in flight, and every commit was sound. */
  lemma {:induction false} ExecutionInvariant(states: seq<State>, moves: seq<Move>, i: nat)
    requires Execution(states, moves) && i < |states|
    ensures Invariant(states[i])
  {
    if i > 0 {
      ExecutionInvariant(states, moves, i - 1);
      StepInvariant(states[i - 1], moves[i - 1], states[i]);
    }
  }

  /** Any authority handed out was captured after the most recent turn began and under the current key. */
  lemma AuthorityIsFresh(states: seq<State>, moves: seq<Move>, i: nat)
    requires Execution(states, moves) && i < |states|
    requires HandedOut(states[i].live, states[i].key).Some?
    ensures var s := states[i];
      s.live.captured == Some(Captured(s.key, HandedOut(s.live, s.key).value, s.begun))
  {
    ExecutionInvariant(states, moves, i);
  }

  /** Move `j` captured `authority`, and up to state `i` nothing was captured after it and no turn was admitted. */
  ghost predicate CapturedAt(states: seq<State>, moves: seq<Move>, j: nat, i: nat, authority: string)
    requires j < i < |states| == |moves| + 1
  {
    && moves[j] == CaptureNow(authority)
    && forall m | j < m < i :: !moves[m].CaptureNow? && (moves[m].TurnArrives? ==> states[m].live.compacting)
  }

  lemma {:induction false} CaptureRemembered(states: seq<State>, moves: seq<Move>, i: nat)
    requires Execution(states, moves) && i < |states| && states[i].live.captured.Some?
    ensures var captured := states[i].live.captured.value;
      exists j: nat :: j < i && CapturedAt(states, moves, j, i, captured.authority) && states[j].key == captured.key
  {
    assert Initial(states[0]);
    var captured := states[i].live.captured.value;
    assert Step(states[i - 1], moves[i - 1], states[i]);
    if moves[i - 1].CaptureNow? {
      assert CapturedAt(states, moves, i - 1, i, captured.authority);
    } else {
      CaptureRemembered(states, moves, i - 1);
      var j: nat :| j < i - 1 && CapturedAt(states, moves, j, i - 1, captured.authority) && states[j].key == captured.key;
      assert CapturedAt(states, moves, j, i, captured.authority);
    }
  }

  lemma {:induction false} CaptureKept(states: seq<State>, moves: seq<Move>, j: nat, i: nat, authority: string)
    requires Execution(states, moves) && j < i < |states| && CapturedAt(states, moves, j, i, authority)
    ensures var captured := states[i].live.captured;
      captured.Some? && captured.value.authority == authority && captured.value.key == states[j].key
  {
    assert Step(states[i - 1], moves[i - 1], states[i]);
    if j < i - 1 {
      CaptureKept(states, moves, j, i - 1, authority);
      assert !moves[i - 1].CaptureNow?;
    }
  }

  /** An authority is handed out exactly when it was the last one captured, under the key in force
      now, and no turn has been admitted since. */
  lemma AuthorityHandedOutExactly(states: seq<State>, moves: seq<Move>, i: nat, authority: string)
    requires Execution(states, moves) && i < |states|
    ensures HandedOut(states[i].live, states[i].key) == Some(authority) <==>
      exists j: nat :: j < i && CapturedAt(states, moves, j, i, authority) && states[j].key == states[i].key
  {
    if HandedOut(states[i].live, states[i].key) == Some(authority) {
      CaptureRemembered(states, moves, i);
    }
    if j: nat :| j < i && CapturedAt(states, moves, j, i, authority) && states[j].key == states[i].key {
      CaptureKept(states, moves, j, i, authority);
    }
  }

  /** In every execution a job's commit succeeds exactly when no turn is in flight and the authority
      that it read is still the one handed out. */
  lemma CommitsExactly(states: seq<State>, moves: seq<Move>, i: nat)
    requires Execution(states, moves) && i < |moves| && moves[i].JobCommits?
    ensures var (s, t, id) := (states[i], states[i + 1], moves[i].id);
      && id in s.jobs && s.jobs[id].Working? && s.jobs[id].authority.Some?
      && (if s.turns == {} && HandedOut(s.live, s.key) == s.jobs[id].authority
          then t.commits == s.commits + [Commit(0, s.jobs[id].authority.value, s.live.captured, s.begun, s.key)]
          else t.commits == s.commits)
  {
    ExecutionInvariant(states, moves, i);
    assert Step(states[i], moves[i], states[i + 1]);
    assert states[i].live.active == 0 <==> states[i].turns == {};
  }

  // ---- When a compaction job and a turn overlap ----

  ghost predicate Overlaps(s: State) { s.turns != {} && s.jobs != map[] }

  /** A turn is admitted while the action's own flag is still up. */
  ghost predicate AdmittedOverJob(s: State, move: Move) {
    move.TurnArrives? && !s.live.compacting && s.running
  }

  /** One step: an overlap appears exactly when a turn is admitted over a job. */
  lemma OverlapAppearsExactly(s: State, move: Move, t: State)
    requires Invariant(s) && Step(s, move, t) && !Overlaps(s)
    ensures Overlaps(t) <==> AdmittedOverJob(s, move)
  {
    if move.TurnArrives? && !s.live.compacting {
      assert move.id in t.turns;
    }
    if move.JobStarts? || move.JobReadsAuthority? {
      assert move.id in s.jobs;
    }
  }

  /** Whole executions: turns and compaction jobs never overlap iff no turn is admitted while the
      action is still running. */
  lemma ExclusionHoldsExactly(states: seq<State>, moves: seq<Move>)
    requires Execution(states, moves)
    ensures (forall i | 0 <= i < |states| :: !Overlaps(states[i]))
       <==> (forall i | 0 <= i < |moves| :: !AdmittedOverJob(states[i], moves[i]))
  {
    if forall i | 0 <= i < |moves| :: !AdmittedOverJob(states[i], moves[i]) {
      forall i | 0 <= i < |states| ensures !Overlaps(states[i]) { NoOverlapSoFar(states, moves, i); }
    }
    if i :| 0 <= i < |moves| && AdmittedOverJob(states[i], moves[i]) {
      AdmittedOverlaps(states, moves, i);
    }
  }

  lemma AdmittedOverlaps(states: seq<State>, moves: seq<Move>, i: nat)
    requires Execution(states, moves) && i < |moves| && AdmittedOverJob(states[i], moves[i])
    ensures Overlaps(states[i + 1])
  {
    ExecutionInvariant(states, moves, i);
    assert moves[i].id in states[i + 1].turns;
  }

  lemma {:induction false} NoOverlapSoFar(states: seq<State>, moves: seq<Move>, i: nat)
    requires Execution(states, moves) && i < |states|
    requires forall j | 0 <= j < |moves| :: !AdmittedOverJob(states[j], moves[j])
    ensures !Overlaps(states[i])
  {
    if i > 0 {
      NoOverlapSoFar(states, moves, i - 1);
      StillApart(states, moves, i - 1);
    }
  }

  lemma StillApart(states: seq<State>, moves: seq<Move>, i: nat)
    requires Execution(states, moves) && i < |moves| && !Overlaps(states[i]) && !AdmittedOverJob(states[i], moves[i])
    ensures !Overlaps(states[i + 1])
  {
    ExecutionInvariant(states, moves, i);
    OverlapAppearsExactly(states[i], moves[i], states[i + 1]);
  }

  /** Call `id` returned in move `j` and left its job working, which has not ended up to state `i`. */
  ghost predicate LeftBehind(states: seq<State>, moves: seq<Move>, j: nat, i: nat, id: nat)
    requires j < i < |states| == |moves| + 1
  {
    && moves[j] == CallReturns(id) && id in states[j].jobs && states[j].jobs[id].Working?
    && (forall m | j < m < i :: moves[m] != JobEnds(id))
  }

  /** Some call has left its job behind. */
  ghost predicate JobLeftBehind(states: seq<State>, moves: seq<Move>, i: nat)
    requires i < |states| == |moves| + 1
  {
    exists j: nat, id: nat :: j < i && LeftBehind(states, moves, j, i, id)
  }

  /** A job left behind is still there. */
  lemma {:induction false} LeftBehindStays(states: seq<State>, moves: seq<Move>, j: nat, i: nat, id: nat)
    requires Execution(states, moves) && j < i < |states| && LeftBehind(states, moves, j, i, id)
    ensures id in states[i].jobs && states[i].jobs[id].Working?
  {
    assert Step(states[i - 1], moves[i - 1], states[i]);
    if j < i - 1 {
      LeftBehindStays(states, moves, j, i - 1, id);
      assert moves[i - 1] != JobEnds(id);
    }
  }

  /** A job without its call was left behind by it. */
  lemma {:induction false} OrphanWasLeft(states: seq<State>, moves: seq<Move>, i: nat, id: nat) returns (j: nat)
    requires Execution(states, moves) && i < |states| && id in states[i].jobs && id !in states[i].calls
    ensures j < i && LeftBehind(states, moves, j, i, id)
  {
    assert Initial(states[0]);
    var s, move := states[i - 1], moves[i - 1];
    OrphanStep(s, move, states[i], id);
    if id in s.calls {
      j := i - 1;
    } else {
      j := OrphanWasLeft(states, moves, i - 1, id);
    }
  }

  lemma OrphanStep(s: State, move: Move, t: State, id: nat)
    requires Step(s, move, t) && id in t.jobs && id !in t.calls
    ensures id in s.jobs && move != JobEnds(id)
    ensures id in s.calls ==> move == CallReturns(id) && s.jobs[id].Working?
  {
  }

  /** In a reachable state without a compaction call, the action is running iff a job was left behind. */
  lemma RunningMeansLeftBehind(states: seq<State>, moves: seq<Move>, i: nat)
    requires Execution(states, moves) && i < |states| && !states[i].live.compacting
    ensures states[i].running <==> JobLeftBehind(states, moves, i)
  {
    ExecutionInvariant(states, moves, i);
    if states[i].running {
      var id :| id in states[i].jobs;
      var j := OrphanWasLeft(states, moves, i, id);
    }
    if j: nat, id: nat :| j < i && LeftBehind(states, moves, j, i, id) {
      LeftBehindStays(states, moves, j, i, id);
    }
  }

  /** A turn is admitted between the return of a call that left its job working and the end of that job. */
  ghost predicate AdmittedOverLeftover(states: seq<State>, moves: seq<Move>, i: nat)
    requires i < |moves| && |states| == |moves| + 1
  {
    moves[i].TurnArrives? && !states[i].live.compacting && JobLeftBehind(states, moves, i)
  }

  /** The same exclusion by what callers see: turns and compaction jobs never overlap iff no turn is
      admitted between the return of a call that left its job working and the end of that job. */
  lemma ExclusionHoldsByHistory(states: seq<State>, moves: seq<Move>)
    requires Execution(states, moves)
    ensures (forall i | 0 <= i < |states| :: !Overlaps(states[i]))
       <==> (forall i | 0 <= i < |moves| :: !AdmittedOverLeftover(states, moves, i))
  {
    ExclusionHoldsExactly(states, moves);
    forall i | 0 <= i < |moves| ensures AdmittedOverLeftover(states, moves, i) <==> AdmittedOverJob(states[i], moves[i]) {
      if !states[i].live.compacting { RunningMeansLeftBehind(states, moves, i); }
    }
  }

  /** The exclusion can fail: a job whose call was cut short is still at work when a turn arrives. */
  lemma LeftoverJobMayOverlapTurn()
    ensures exists states: seq<State>, moves, i :: Execution(states, moves) && 0 <= i < |states| && Overlaps(states[i])
  {
    var s0 := State(Live(0, false, None), false, "k", {}, 0, {}, map[], []);
    var s1 := s0.(live := Live(0, true, None), calls := {7}, running := true, jobs := map[7 := Queued]);
    var s2 := s1.(jobs := map[7 := Working(None)]);
    var s3 := s2.(live := Live(0, false, None), calls := {});
    var s4 := s3.(live := Live(1, false, None), turns := {1}, begun := 1);
    var states, moves := [s0, s1, s2, s3, s4], [Request(7, true), JobStarts(7), CallReturns(7), TurnArrives(1)];
    assert Step(s0, Request(7, true), s1);
    assert Step(s1, JobStarts(7), s2) by { assert s1.jobs[7 := Working(None)] == map[7 := Working(None)]; }
    assert Step(s2, CallReturns(7), s3);
    assert Step(s3, TurnArrives(1), s4);
    Chain(s0, s1, s2, s3, s4, Request(7, true), JobStarts(7), CallReturns(7), TurnArrives(1));
    assert 1 in states[4].turns && 7 in states[4].jobs;
  }

  lemma Chain(s0: State, s1: State, s2: State, s3: State, s4: State, a: Move, b: Move, c: Move, d: Move)
    requires Initial(s0) && Step(s0, a, s1) && Step(s1, b, s2) && Step(s2, c, s3) && Step(s3, d, s4)
    ensures Execution([s0, s1, s2, s3, s4], [a, b, c, d])
  {
  }
}
