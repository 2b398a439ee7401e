/** Scratch-resource revisions: concurrent writes and discards over a compare-and-set repository
    (src/application/artifacts/scratch-resources.ts and src/data/artifacts/scratch-resource-repository.ts).

    A write reads and checks, awaits the ingestion of its bytes, and then publishes; between those
    two steps any other call may run. */
module ScratchResources {
  import opened Foundation

  /** Session and name. */
  type ResourceKey = (string, string)

  datatype Activity = Active | Discarded

  datatype Resource = Resource(activity: Activity, current: nat)

  /** The immutable facts of a revision: the stored artifact and the invocation that wrote it. */
  datatype Revision = Revision(artifact: string, invocation: string)

  /** The two tables. */
  datatype Repository = Repository(resources: map<ResourceKey, Resource>, revisions: map<(ResourceKey, nat), Revision>)

  datatype Failure = NotFound | AlreadyDiscarded | Conflict | MalformedInput | MalformedStorage

  datatype Result<T> = Ok(value: T) | Err(failure: Failure)

  /** Revisions are positive safe integers. */
  predicate ValidRevision(n: int) { 1 <= n <= MAX_SAFE_INTEGER }

  // ---- Repository transactions ----

  /** The current revision; None for an unknown name. */
  function Get(repository: Repository, key: ResourceKey): Result<Option<nat>> {
    if key !in repository.resources then Ok(None)
    else if repository.resources[key].activity == Discarded then Err(AlreadyDiscarded)
    else Ok(Some(repository.resources[key].current))
  }

  /** The publish transaction accepts exactly the successor of the expected current revision. */
  predicate PublishAccepts(repository: Repository, key: ResourceKey, expected: Option<nat>, revision: nat) {
    if key !in repository.resources then expected.None? && revision == 1
    else
      && repository.resources[key].activity == Active
      && expected == Some(repository.resources[key].current)
      && revision == repository.resources[key].current + 1
  }

  function Publish(repository: Repository, key: ResourceKey, expected: Option<nat>, revision: nat, content: Revision): Repository {
    if !PublishAccepts(repository, key, expected, revision) then repository
    else Repository(repository.resources[key := Resource(Active, revision)], repository.revisions[(key, revision) := content])
  }

  /** The discard transaction reports an already discarded resource as discarded now. */
  function DiscardAnswer(repository: Repository, key: ResourceKey, expected: nat): Result<nat> {
    if key !in repository.resources then Err(NotFound)
    else if repository.resources[key].activity == Discarded then Ok(repository.resources[key].current)
    else if repository.resources[key].current != expected then Err(Conflict)
    else Ok(expected)
  }

  function Discard(repository: Repository, key: ResourceKey, expected: nat): Repository {
    if DiscardAnswer(repository, key, expected).Ok?
    then repository.(resources := repository.resources[key := repository.resources[key].(activity := Discarded)])
    else repository
  }

  // ---- Calls ----

  /** A write that has passed its checks and awaits ingestion. */
  datatype PendingWrite = PendingWrite(key: ResourceKey, expected: Option<nat>, revision: nat)

  /** The checks of `write` before its await. */
  function CheckWrite(repository: Repository, key: ResourceKey, expected: Option<int>): Result<PendingWrite> {
    if expected.Some? && !ValidRevision(expected.value) then Err(MalformedInput)
    else
      match Get(repository, key)
      case Err(failure) => Err(failure)
      case Ok(current) =>
        if current.None? != expected.None? then Err(Conflict)
        else if current.Some? && current.value != expected.value then Err(Conflict)
        else
          var revision := if current.Some? then current.value + 1 else 1;
          if !ValidRevision(revision) then Err(MalformedStorage)
          else Ok(PendingWrite(key, if expected.Some? then Some(expected.value as nat) else None, revision))
  }

  /** A successful publication, in the order of publication. */
  datatype Publication = Publication(call: nat, key: ResourceKey, expected: Option<nat>, revision: nat, content: Revision)

  datatype State = State(repository: Repository, pending: map<nat, PendingWrite>, published: seq<Publication>)

  const START := State(Repository(map[], map[]), map[], [])

  datatype Move =
    | BeginWrite(call: nat, key: ResourceKey, expected: Option<int>)
    | IngestFails(call: nat)
    | FinishWrite(call: nat, content: Revision)
    | DiscardNow(key: ResourceKey, revision: int)

  /** The effect of a move; a write that is finished or fails is under way. */
  function Apply(state: State, move: Move): State
    requires move.FinishWrite? || move.IngestFails? ==> move.call in state.pending
  {
    match move
    case BeginWrite(call, key, expected) =>
      var checked := CheckWrite(state.repository, key, expected);
      if checked.Ok? then state.(pending := state.pending[call := checked.value]) else state
    case IngestFails(call) => state.(pending := state.pending - {call})
    case FinishWrite(call, content) =>
      var write := state.pending[call];
      State(
        Publish(state.repository, write.key, write.expected, write.revision, content),
        state.pending - {call},
        if PublishAccepts(state.repository, write.key, write.expected, write.revision)
        then state.published + [Publication(call, write.key, write.expected, write.revision, content)]
        else state.published)
    case DiscardNow(key, expected) =>
      if ValidRevision(expected) then state.(repository := Discard(state.repository, key, expected)) else state
  }

  ghost predicate Step(state: State, move: Move, next: State) {
    && (move.BeginWrite? ==> move.call !in state.pending)
    && (move.FinishWrite? || move.IngestFails? ==> move.call in state.pending)
    && next == Apply(state, move)
  }

  ghost predicate Execution(states: seq<State>, moves: seq<Move>) {
    && |states| == |moves| + 1 && states[0] == START
    && (forall i | 0 <= i < |moves| :: Step(states[i], moves[i], states[i + 1]))
  }

  // ---- Invariants ----

  /** A name's stored revisions are exactly 1 .. current. */
  ghost predicate Contiguous(repository: Repository) {
    && (forall key | key in repository.resources :: repository.resources[key].current >= 1)
    && (forall key, n :: (key, n) in repository.revisions <==>
          key in repository.resources && 1 <= n <= repository.resources[key].current)
  }

  /** The revision a write carries, from the revision it expects. */
  function Successor(expected: Option<nat>): nat {
    if expected.Some? then expected.value + 1 else 1
  }

  /** The published revision numbers of one name. */
  ghost function RevisionsOf(published: seq<Publication>, key: ResourceKey): seq<nat> {
    if published == [] then []
    else
      var last := published[|published| - 1];
      RevisionsOf(published[..|published| - 1], key) + (if last.key == key then [last.revision] else [])
  }

  ghost function CurrentOf(repository: Repository, key: ResourceKey): nat {
    if key in repository.resources then repository.resources[key].current else 0
  }

  ghost predicate Invariant(state: State) {
    && Contiguous(state.repository)
    && (forall call | call in state.pending :: state.pending[call].revision == Successor(state.pending[call].expected))
    && (forall p | p in state.published ::
          p.revision == Successor(p.expected) && (p.key, p.revision) in state.repository.revisions &&
          state.repository.revisions[(p.key, p.revision)] == p.content)
    && (forall key :: RevisionsOf(state.published, key) == seq(CurrentOf(state.repository, key), i => i + 1))
  }

  lemma PublishContiguous(repository: Repository, key: ResourceKey, expected: Option<nat>, revision: nat, content: Revision)
    requires Contiguous(repository) && PublishAccepts(repository, key, expected, revision)
    ensures Contiguous(Publish(repository, key, expected, revision, content))
    ensures (key, revision) !in repository.revisions && revision == CurrentOf(repository, key) + 1
  {
  }

  lemma PublishedInvariant(state: State, write: PendingWrite, call: nat, content: Revision)
    requires Invariant(state) && write.revision == Successor(write.expected)
    requires PublishAccepts(state.repository, write.key, write.expected, write.revision)
    ensures Invariant(State(Publish(state.repository, write.key, write.expected, write.revision, content), state.pending,
      state.published + [Publication(call, write.key, write.expected, write.revision, content)]))
  {
    var repository := Publish(state.repository, write.key, write.expected, write.revision, content);
    var published := state.published + [Publication(call, write.key, write.expected, write.revision, content)];
    PublishContiguous(state.repository, write.key, write.expected, write.revision, content);
    assert published[..|state.published|] == state.published;
    forall key ensures RevisionsOf(published, key) == seq(CurrentOf(repository, key), i => i + 1) {
      assert RevisionsOf(state.published, key) == seq(CurrentOf(state.repository, key), i => i + 1);
    }
  }

  lemma StepInvariant(state: State, move: Move, next: State)
    requires Invariant(state) && Step(state, move, next)
    ensures Invariant(next)
  {
    match move
    case FinishWrite(call, content) =>
      var write := state.pending[call];
      if PublishAccepts(state.repository, write.key, write.expected, write.revision) {
        PublishedInvariant(state.(pending := state.pending - {call}), write, call, content);
      }
    case DiscardNow(key, expected) =>
      forall k ensures CurrentOf(next.repository, k) == CurrentOf(state.repository, k) {
      }
    case _ =>
  }

  lemma {:induction false} ExecutionInvariant(states: seq<State>, moves: seq<Move>, i: nat)
    requires Execution(states, moves) && i < |states|
    ensures Invariant(states[i])
  {
    if i > 0 {
      ExecutionInvariant(states, moves, i - 1);
      StepInvariant(states[i - 1], moves[i - 1], states[i]);
    }
  }

  // ---- What the invariants mean over whole executions ----

  /** A published revision is never changed and never removed, and a discarded name stays discarded. */
  lemma {:induction false} RevisionsAreImmutable(states: seq<State>, moves: seq<Move>, i: nat, j: nat)
    requires Execution(states, moves) && i <= j < |states|
    ensures forall r | r in states[i].repository.revisions ::
      r in states[j].repository.revisions && states[j].repository.revisions[r] == states[i].repository.revisions[r]
    ensures forall key | key in states[i].repository.resources && states[i].repository.resources[key].activity == Discarded ::
      key in states[j].repository.resources && states[j].repository.resources[key] == states[i].repository.resources[key]
    ensures states[i].published <= states[j].published
  {
    if i < j {
      RevisionsAreImmutable(states, moves, i, j - 1);
      ExecutionInvariant(states, moves, j - 1);
      StepKeepsRevisions(states[j - 1], moves[j - 1], states[j]);
    }
  }

  lemma StepKeepsRevisions(state: State, move: Move, next: State)
    requires Invariant(state) && Step(state, move, next)
    ensures forall r | r in state.repository.revisions ::
      r in next.repository.revisions && next.repository.revisions[r] == state.repository.revisions[r]
    ensures forall key | key in state.repository.resources && state.repository.resources[key].activity == Discarded ::
      key in next.repository.resources && next.repository.resources[key] == state.repository.resources[key]
    ensures state.published <= next.published
  {
    if move.FinishWrite? {
      var write := state.pending[move.call];
      if PublishAccepts(state.repository, write.key, write.expected, write.revision) {
        PublishContiguous(state.repository, write.key, write.expected, write.revision, move.content);
      }
    }
  }

  lemma {:induction false} RevisionPosition(published: seq<Publication>, key: ResourceKey, at: nat) returns (n: nat)
    requires at < |published| && published[at].key == key
    ensures n < |RevisionsOf(published, key)| && RevisionsOf(published, key)[n] == published[at].revision
    ensures n == |RevisionsOf(published[..at], key)|
    ensures RevisionsOf(published[..at], key) <= RevisionsOf(published, key)
  {
    var init := published[..|published| - 1];
    if at == |published| - 1 {
      n := |RevisionsOf(init, key)|;
    } else {
      n := RevisionPosition(init, key, at);
      assert init[..at] == published[..at];
    }
  }

  /** Of all the writes that start from one expected revision of a name, at most one is published. */
  lemma OneWinnerPerRevision(states: seq<State>, moves: seq<Move>, i: nat, a: nat, b: nat)
    requires Execution(states, moves) && i < |states|
    requires a < b < |states[i].published| && states[i].published[a].key == states[i].published[b].key
    ensures states[i].published[a].expected != states[i].published[b].expected
    ensures states[i].published[a].revision < states[i].published[b].revision
  {
    ExecutionInvariant(states, moves, i);
    var published := states[i].published;
    var key := published[a].key;
    assert published[a] in published && published[b] in published;
    var m := RevisionPosition(published, key, a);
    var n := RevisionPosition(published, key, b);
    var m' := RevisionPosition(published[..b], key, a);
    assert published[..b][..a] == published[..a];
    assert RevisionsOf(published, key) == seq(CurrentOf(states[i].repository, key), k => k + 1);
  }

  /** Despite the await in between, every publication carries the successor of what its caller expected. */
  lemma EveryPublicationSucceedsItsExpectation(states: seq<State>, moves: seq<Move>, i: nat, at: nat)
    requires Execution(states, moves) && i < |states| && at < |states[i].published|
    ensures var p := states[i].published[at];
      && p.revision == Successor(p.expected)
      && (p.key, p.revision) in states[i].repository.revisions
      && states[i].repository.revisions[(p.key, p.revision)] == p.content
  {
    ExecutionInvariant(states, moves, i);
    assert states[i].published[at] in states[i].published;
  }

  // ---- Which writes succeed ----

  /** The name stands at the revision that the caller expects: unknown for none, else active at it. */
  predicate StandsAt(repository: Repository, key: ResourceKey, expected: Option<int>) {
    if expected.None? then key !in repository.resources
    else key in repository.resources && repository.resources[key] == Resource(Active, repository.resources[key].current)
         && repository.resources[key].current == expected.value
  }

  /** A write passes its checks exactly when the name stands at the expected revision and a safe next
      one is left; otherwise the answer says what was wrong. */
  lemma WriteAdmittedExactly(repository: Repository, key: ResourceKey, expected: Option<int>)
    requires Contiguous(repository)
    ensures var (checked, malformed) := (CheckWrite(repository, key, expected), expected.Some? && !ValidRevision(expected.value));
      && (checked.Ok? <==> !malformed && StandsAt(repository, key, expected) && (expected.Some? ==> expected.value < MAX_SAFE_INTEGER))
      && (checked.Ok? ==>
            && checked.value.key == key && (checked.value.expected.Some? <==> expected.Some?)
            && (expected.Some? ==> checked.value.expected.value == expected.value)
            && checked.value.revision == (if expected.Some? then expected.value + 1 else 1))
      && (checked == Err(MalformedInput) <==> malformed)
      && (checked == Err(AlreadyDiscarded) <==>
            !malformed && key in repository.resources && repository.resources[key].activity == Discarded)
      && (checked == Err(MalformedStorage) <==> StandsAt(repository, key, expected) && expected == Some(MAX_SAFE_INTEGER))
  {
  }

  /** The publish transaction by itself compares and sets: it accepts exactly the next revision of a
      name that stands at the expected one. */
  lemma PublishComparesExactly(repository: Repository, key: ResourceKey, expected: Option<nat>, revision: nat)
    ensures PublishAccepts(repository, key, expected, revision) <==>
      StandsAt(repository, key, expected) && revision == (if expected.Some? then expected.value + 1 else 1)
  {
  }

  /** In every execution a write that finishes is published exactly when the name still stands where
      it stood at the start, and then exactly its content becomes the next revision. */
  lemma FinishedWritePublishesExactly(states: seq<State>, moves: seq<Move>, i: nat)
    requires Execution(states, moves) && i < |moves| && moves[i].FinishWrite?
    ensures moves[i].call in states[i].pending
    ensures var (before, after, write) := (states[i], states[i + 1], states[i].pending[moves[i].call]);
      if StandsAt(before.repository, write.key, write.expected) then
        && after.published == before.published + [Publication(moves[i].call, write.key, write.expected, write.revision, moves[i].content)]
        && after.repository.resources == before.repository.resources[write.key := Resource(Active, write.revision)]
        && after.repository.revisions == before.repository.revisions[(write.key, write.revision) := moves[i].content]
      else after.published == before.published && after.repository == before.repository
  {
    ExecutionInvariant(states, moves, i);
    assert Step(states[i], moves[i], states[i + 1]);
  }

  // ---- Discard ----

  /** The refusals of a discard: unknown names are not found, and an active name at another revision conflicts. */
  lemma DiscardRefusedExactly(repository: Repository, key: ResourceKey, expected: nat)
    ensures DiscardAnswer(repository, key, expected) == Err(NotFound) <==> key !in repository.resources
    ensures DiscardAnswer(repository, key, expected) == Err(Conflict) <==>
      key in repository.resources && repository.resources[key].activity == Active && repository.resources[key].current != expected
    ensures DiscardAnswer(repository, key, expected).Ok? ==>
      key in repository.resources && DiscardAnswer(repository, key, expected).value == repository.resources[key].current
  {
  }


  /** Compare-and-set: a discard of this name is accepted exactly under its current revision. */
  ghost predicate ComparesOnDiscard(repository: Repository, key: ResourceKey)
    requires key in repository.resources
  {
    forall expected: nat :: DiscardAnswer(repository, key, expected).Ok? <==> repository.resources[key].current == expected
  }

  /** Compare-and-set holds for the names that are still active, and for no others. */
  lemma ComparesWhileActive(repository: Repository, key: ResourceKey)
    requires key in repository.resources
    ensures ComparesOnDiscard(repository, key) <==> repository.resources[key].activity == Active
  {
    if repository.resources[key].activity == Discarded {
      assert DiscardAnswer(repository, key, repository.resources[key].current + 1).Ok?;
    }
  }

  /** Move `j` discards an active name under its current revision. */
  ghost predicate Discards(states: seq<State>, moves: seq<Move>, j: nat, key: ResourceKey)
    requires j < |moves| <= |states|
  {
    && moves[j].DiscardNow? && moves[j].key == key && ValidRevision(moves[j].revision)
    && key in states[j].repository.resources
    && states[j].repository.resources[key] == Resource(Active, moves[j].revision)
  }

  /** A name is discarded iff some earlier discard met it active and at the expected revision. */
  lemma {:induction false} DiscardedByAnEarlierDiscard(states: seq<State>, moves: seq<Move>, i: nat, key: ResourceKey)
    requires Execution(states, moves) && i < |states| && key in states[i].repository.resources
    ensures states[i].repository.resources[key].activity == Discarded <==> exists j: nat :: j < i && Discards(states, moves, j, key)
  {
    if i > 0 {
      ActivityStep(states[i - 1], moves[i - 1], states[i], key);
      if key in states[i - 1].repository.resources {
        DiscardedByAnEarlierDiscard(states, moves, i - 1, key);
        if Discards(states, moves, i - 1, key) {
          assert states[i].repository.resources[key].activity == Discarded;
        }
      } else {
        NotDiscardedBefore(states, moves, i - 1, key);
      }
    }
  }

  /** What one step does to a name: it is discarded exactly by an accepted discard, and then for good. */
  lemma ActivityStep(state: State, move: Move, next: State, key: ResourceKey)
    requires Step(state, move, next)
    ensures key in state.repository.resources ==> key in next.repository.resources
    ensures key in next.repository.resources && key !in state.repository.resources ==>
      next.repository.resources[key].activity == Active
    ensures key in state.repository.resources ==>
      (next.repository.resources[key].activity == Discarded <==>
        || state.repository.resources[key].activity == Discarded
        || (move.DiscardNow? && move.key == key && ValidRevision(move.revision) &&
            state.repository.resources[key] == Resource(Active, move.revision)))
  {
  }

  lemma {:induction false} NotDiscardedBefore(states: seq<State>, moves: seq<Move>, i: nat, key: ResourceKey)
    requires Execution(states, moves) && i < |states| && key !in states[i].repository.resources
    ensures forall j: nat | j <= i && j < |moves| :: !Discards(states, moves, j, key)
  {
    if i > 0 {
      ActivityStep(states[i - 1], moves[i - 1], states[i], key);
      NotDiscardedBefore(states, moves, i - 1, key);
    }
  }

  /** After an accepted discard the name stays hidden in every later state, with all its revisions kept. */
  lemma DiscardHidesForGood(states: seq<State>, moves: seq<Move>, i: nat, j: nat)
    requires Execution(states, moves) && i < j < |states|
    requires moves[i].DiscardNow? && ValidRevision(moves[i].revision)
    requires DiscardAnswer(states[i].repository, moves[i].key, moves[i].revision).Ok?
    ensures Get(states[j].repository, moves[i].key) == Err(AlreadyDiscarded)
    ensures forall r | r in states[i].repository.revisions ::
      r in states[j].repository.revisions && states[j].repository.revisions[r] == states[i].repository.revisions[r]
  {
    var key := moves[i].key;
    assert Step(states[i], moves[i], states[i + 1]);
    assert states[i + 1].repository.resources[key].activity == Discarded;
    RevisionsAreImmutable(states, moves, i + 1, j);
  }

  /** In every execution, `discard` keeps its compare-and-set promise for a name iff no earlier
      discard of that name was accepted. */
  lemma CompareAndSetKeptExactly(states: seq<State>, moves: seq<Move>, i: nat, key: ResourceKey)
    requires Execution(states, moves) && i < |states| && key in states[i].repository.resources
    ensures ComparesOnDiscard(states[i].repository, key) <==> !exists j: nat :: j < i && Discards(states, moves, j, key)
  {
    ComparesWhileActive(states[i].repository, key);
    DiscardedByAnEarlierDiscard(states, moves, i, key);
  }

  /** The promise fails: two writes and a discard leave a name for which a discard that still
      expects the first revision is answered with success. */
  lemma StaleDiscardSucceeds() returns (states: seq<State>, moves: seq<Move>)
    ensures Execution(states, moves) && |moves| == 6 && moves[5].DiscardNow?
    ensures var (before, key) := (states[5].repository, moves[5].key);
      && key in before.resources && before.resources[key].current > moves[5].revision >= 1
      && DiscardAnswer(before, key, moves[5].revision).Ok?
  {
    var key: ResourceKey := ("session", "notes");
    var write := Revision("artifact", "invocation");
    moves := [BeginWrite(0, key, None), FinishWrite(0, write), BeginWrite(1, key, Some(1)), FinishWrite(1, write),
              DiscardNow(key, 2), DiscardNow(key, 1)];
    var s1 := Apply(START, moves[0]);
    var s2 := Apply(s1, moves[1]);
    var s3 := Apply(s2, moves[2]);
    var s4 := Apply(s3, moves[3]);
    var s5 := Apply(s4, moves[4]);
    var s6 := Apply(s5, moves[5]);
    assert s4.repository.resources[key] == Resource(Active, 2);
    assert s5.repository.resources[key] == Resource(Discarded, 2);
    states := [START, s1, s2, s3, s4, s5, s6];
  }
}
