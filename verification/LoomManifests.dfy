/** Loom manifests: an in-memory map in front of a write-once persistent map
    (src/application/compression/loom.ts, storeManifest, loadManifest, ingest and adopt, over
    src/data/artifacts/loom-manifest-repository.ts).

    Storing and loading run without an await, so within one process each is one step; other processes
    may insert into the shared persistence at any time, also between the read and the insert of a store. */
module LoomManifests {
  import opened Foundation

  datatype Manifest = Manifest(id: string, content: string)

  type Manifests = map<string, Manifest>

  datatype StoreAnswer = Stored(manifest: Manifest) | Conflict | StoreUnavailable

  datatype LoadAnswer = Loaded(manifest: Option<Manifest>) | LoadUnavailable

  // ---- One port ----

  /** Two maps agree where both are defined and the first is contained in the second. */
  ghost predicate SubMap(small: Manifests, big: Manifests) {
    forall id | id in small :: id in big && big[id] == small[id]
  }

  ghost predicate Keyed(manifests: Manifests) {
    forall id | id in manifests :: manifests[id].id == id
  }

  /** The persistent, write-once table. Reads and writes can fail. */
  class Persistence {
    var rows: Manifests

    constructor ()
      ensures rows == map[]
    {
      rows := map[];
    }

    /** Inserts unless the id is taken, by whatever manifest. */
    method Insert(manifest: Manifest, available: bool) returns (answer: StoreAnswer)
      modifies this
      ensures answer == if !available then StoreUnavailable else if manifest.id in old(rows) then Conflict else Stored(manifest)
      ensures rows == if answer.Stored? then old(rows)[manifest.id := manifest] else old(rows)
    {
      if !available {
        return StoreUnavailable;
      }
      if manifest.id in rows {
        return Conflict;
      }
      rows := rows[manifest.id := manifest];
      return Stored(manifest);
    }
  }

  class LoomPort {
    var manifests: Manifests
    const persistence: Persistence?

    constructor (persistence: Persistence?)
      ensures this.persistence == persistence && manifests == map[]
    {
      this.persistence := persistence;
      manifests := map[];
    }

    /** Everything this port may answer from. */
    ghost function Known(): Manifests
      reads this, persistence
    {
      if persistence == null then manifests else persistence.rows
    }

    ghost predicate Valid()
      reads this, persistence
    {
      Keyed(Known()) && SubMap(manifests, Known())
    }

    /** A known id answers by equality; a new one is persisted first and then remembered. */
    method Store(manifest: Manifest, readable: bool, writable: bool) returns (answer: StoreAnswer)
      requires Valid()
      modifies this, persistence
      ensures Valid() && SubMap(old(Known()), Known())
      ensures manifest.id in old(manifests) || (manifest.id in old(Known()) && readable) ==>
        answer == (if old(Known())[manifest.id] == manifest then Stored(manifest) else Conflict) && Known() == old(Known())
      ensures manifest.id !in old(Known()) ==>
        answer == (if persistence == null || (readable && writable) then Stored(manifest) else StoreUnavailable) &&
        Known() == if answer.Stored? then old(Known())[manifest.id := manifest] else old(Known())
      ensures answer.Stored? ==> answer.manifest == manifest && manifest.id in Known() && Known()[manifest.id] == manifest
      ensures persistence != null ==>
        (answer, manifests, persistence.rows) == StoreEffect(old(manifests), old(Known()), manifest, readable, writable, None)
    {
      if manifest.id in manifests {
        return if manifests[manifest.id] == manifest then Stored(manifests[manifest.id]) else Conflict;
      }
      if persistence != null {
        if !readable {
          return StoreUnavailable;
        }
        if manifest.id in persistence.rows {
          var existing := persistence.rows[manifest.id];
          manifests := manifests[existing.id := existing];
          return if existing == manifest then Stored(existing) else Conflict;
        }
        answer := persistence.Insert(manifest, writable);
        if !answer.Stored? {
          return;
        }
      }
      manifests := manifests[manifest.id := manifest];
      return Stored(manifest);
    }

    /** Answers from memory, then from persistence, remembering what it finds. */
    method Load(id: string, readable: bool) returns (answer: LoadAnswer)
      requires Valid()
      modifies this
      ensures Valid() && Known() == old(Known()) && SubMap(old(manifests), manifests)
      ensures answer ==
        if id in old(manifests) then Loaded(Some(Known()[id]))
        else if persistence != null && !readable then LoadUnavailable
        else Loaded(if id in Known() then Some(Known()[id]) else None)
      ensures persistence != null ==> (answer, manifests) == LoadEffect(old(manifests), old(Known()), id, readable)
    {
      if id in manifests {
        return Loaded(Some(manifests[id]));
      }
      if persistence == null {
        return Loaded(None);
      }
      if !readable {
        return LoadUnavailable;
      }
      if id in persistence.rows {
        manifests := manifests[id := persistence.rows[id]];
        return Loaded(Some(persistence.rows[id]));
      }
      return Loaded(None);
    }
  }

  // ---- Many ports over one persistence ----

  /** One port's memory. */
  type Cache = Manifests

  datatype State = State(
    rows: Manifests,
    caches: seq<Cache>,
    /** Every manifest ever answered, by any port. */
    answered: seq<Manifest>)

  ghost predicate Initial(state: State) {
    state.rows == map[] && state.answered == [] && forall i | 0 <= i < |state.caches| :: state.caches[i] == map[]
  }

  datatype Move =
    /** `raced` is what another process inserted under the same id between the read and the insert. */
    | StoreAt(port: nat, manifest: Manifest, readable: bool, writable: bool, raced: Option<Manifest>)
    | LoadAt(port: nat, id: string, readable: bool)
    | ForeignInsert(manifest: Manifest)

  function Insert(rows: Manifests, manifest: Manifest): Manifests {
    if manifest.id in rows then rows else rows[manifest.id := manifest]
  }

  /** A store's answer and its effect on the port's memory and on the persistence. */
  function StoreEffect(cache: Cache, rows: Manifests, manifest: Manifest, readable: bool, writable: bool, raced: Option<Manifest>)
    : (StoreAnswer, Cache, Manifests)
  {
    var id := manifest.id;
    if id in cache then (if cache[id] == manifest then Stored(manifest) else Conflict, cache, rows)
    else if !readable then (StoreUnavailable, cache, rows)
    else if id in rows then (if rows[id] == manifest then Stored(manifest) else Conflict, cache[id := rows[id]], rows)
    else
      var now := if raced.Some? && raced.value.id == id then Insert(rows, raced.value) else rows;
      if !writable then (StoreUnavailable, cache, now)
      else if id in now then (Conflict, cache, now)
      else (Stored(manifest), cache[id := manifest], now[id := manifest])
  }

  function LoadEffect(cache: Cache, rows: Manifests, id: string, readable: bool): (LoadAnswer, Cache) {
    if id in cache then (Loaded(Some(cache[id])), cache)
    else if !readable then (LoadUnavailable, cache)
    else if id in rows then (Loaded(Some(rows[id])), cache[id := rows[id]])
    else (Loaded(None), cache)
  }

  ghost predicate Step(s: State, move: Move, t: State) {
    match move
    case StoreAt(port, manifest, readable, writable, raced) =>
      && port < |s.caches|
      && var (answer, cache, rows) := StoreEffect(s.caches[port], s.rows, manifest, readable, writable, raced);
         t == State(rows, s.caches[port := cache], if answer.Stored? then s.answered + [answer.manifest] else s.answered)
    case LoadAt(port, id, readable) =>
      && port < |s.caches|
      && var (answer, cache) := LoadEffect(s.caches[port], s.rows, id, readable);
         t == State(s.rows, s.caches[port := cache],
                    if answer.Loaded? && answer.manifest.Some? then s.answered + [answer.manifest.value] else s.answered)
    case ForeignInsert(manifest) => t == s.(rows := Insert(s.rows, manifest))
  }

  ghost predicate Execution(states: seq<State>, moves: seq<Move>) {
    && |states| == |moves| + 1 && Initial(states[0])
    && (forall i | 0 <= i < |moves| :: Step(states[i], moves[i], states[i + 1]))
  }

  /** Every memory is a sub-map of the persistence, and every answer is what is persisted. */
  ghost predicate Invariant(s: State) {
    && Keyed(s.rows)
    && (forall i | 0 <= i < |s.caches| :: SubMap(s.caches[i], s.rows))
    && (forall m | m in s.answered :: m.id in s.rows && s.rows[m.id] == m)
  }

  lemma StoreEffectSound(cache: Cache, rows: Manifests, manifest: Manifest, readable: bool, writable: bool, raced: Option<Manifest>)
    requires Keyed(rows) && SubMap(cache, rows)
    ensures var (answer, cache', rows') := StoreEffect(cache, rows, manifest, readable, writable, raced);
      && Keyed(rows') && SubMap(cache', rows') && SubMap(rows, rows')
      && (answer.Stored? ==> answer.manifest == manifest && manifest.id in rows' && rows'[manifest.id] == manifest)
  {
  }

  lemma LoadEffectSound(cache: Cache, rows: Manifests, id: string, readable: bool)
    requires Keyed(rows) && SubMap(cache, rows)
    ensures var (answer, cache') := LoadEffect(cache, rows, id, readable);
      && SubMap(cache', rows)
      && (answer.Loaded? && answer.manifest.Some? ==> id in rows && rows[id] == answer.manifest.value)
  {
  }

  lemma StepInvariant(s: State, move: Move, t: State)
    requires Invariant(s) && Step(s, move, t)
    ensures Invariant(t) && SubMap(s.rows, t.rows)
  {
    match move
    case StoreAt(port, manifest, readable, writable, raced) =>
      StoreEffectSound(s.caches[port], s.rows, manifest, readable, writable, raced);
    case LoadAt(port, id, readable) =>
      LoadEffectSound(s.caches[port], s.rows, id, readable);
    case ForeignInsert(manifest) =>
  }

  lemma {:induction false} ExecutionInvariant(states: seq<State>, moves: seq<Move>, i: nat)
    requires Execution(states, moves) && i < |states|
    ensures Invariant(states[i])
  {
    if i > 0 {
      ExecutionInvariant(states, moves, i - 1);
      StepInvariant(states[i - 1], moves[i - 1], states[i]);
    }
  }

  /** What is persisted stays persisted, unchanged. */
  lemma {:induction false} RowsAreWriteOnce(states: seq<State>, moves: seq<Move>, i: nat, j: nat)
    requires Execution(states, moves) && i <= j < |states|
    ensures SubMap(states[i].rows, states[j].rows)
    ensures |states[i].answered| <= |states[j].answered| && states[i].answered == states[j].answered[..|states[i].answered|]
  {
    if i < j {
      RowsAreWriteOnce(states, moves, i, j - 1);
      ExecutionInvariant(states, moves, j - 1);
      StepInvariant(states[j - 1], moves[j - 1], states[j]);
    }
  }

  /** One id always answers with the same manifest, whichever port is asked and however it was stored. */
  lemma OneManifestPerId(states: seq<State>, moves: seq<Move>, i: nat, a: nat, b: nat)
    requires Execution(states, moves) && i < |states|
    requires a < |states[i].answered| && b < |states[i].answered| && states[i].answered[a].id == states[i].answered[b].id
    ensures states[i].answered[a] == states[i].answered[b]
  {
    ExecutionInvariant(states, moves, i);
    assert states[i].answered[a] in states[i].answered && states[i].answered[b] in states[i].answered;
  }

  /** Storing an id that is persisted already changes nothing and answers by equality: the same
      manifest again is accepted, a different one is a conflict, whenever memory or a read can tell. */
  lemma StoreAgain(states: seq<State>, moves: seq<Move>, i: nat, port: nat, manifest: Manifest, readable: bool, writable: bool, raced: Option<Manifest>)
    requires Execution(states, moves) && i < |states| && port < |states[i].caches| && manifest.id in states[i].rows
    requires manifest.id in states[i].caches[port] || readable
    ensures var (answer, cache, rows) := StoreEffect(states[i].caches[port], states[i].rows, manifest, readable, writable, raced);
      && rows == states[i].rows
      && answer == (if states[i].rows[manifest.id] == manifest then Stored(manifest) else Conflict)
  {
    ExecutionInvariant(states, moves, i);
  }

  /** A conflict although the very same manifest is now persisted. */
  ghost predicate RefusesEqual(cache: Cache, rows: Manifests, manifest: Manifest, readable: bool, writable: bool, raced: Option<Manifest>) {
    var (answer, _, now) := StoreEffect(cache, rows, manifest, readable, writable, raced);
    answer == Conflict && manifest.id in now && now[manifest.id] == manifest
  }

  /** The store lost a race for a new id to another process that stored the same manifest. */
  predicate LosesToEqual(rows: Manifests, manifest: Manifest, readable: bool, writable: bool, raced: Option<Manifest>) {
    manifest.id !in rows && readable && writable && raced == Some(manifest)
  }

  lemma EqualRefusedByRace(cache: Cache, rows: Manifests, manifest: Manifest, readable: bool, writable: bool, raced: Option<Manifest>)
    requires Keyed(rows) && SubMap(cache, rows)
    ensures RefusesEqual(cache, rows, manifest, readable, writable, raced) <==> LosesToEqual(rows, manifest, readable, writable, raced)
  {
    if manifest.id in cache {
      assert rows[manifest.id] == cache[manifest.id];
    }
  }

  /** In every reachable state, equal stores are idempotent except in a lost race: a manifest equal
      to the persisted one is refused as a conflict iff another process inserted it between the
      read and the insert. */
  lemma EqualStoreRefusedExactly(states: seq<State>, moves: seq<Move>, i: nat, port: nat, manifest: Manifest, readable: bool, writable: bool, raced: Option<Manifest>)
    requires Execution(states, moves) && i < |states| && port < |states[i].caches|
    ensures RefusesEqual(states[i].caches[port], states[i].rows, manifest, readable, writable, raced)
       <==> LosesToEqual(states[i].rows, manifest, readable, writable, raced)
  {
    ExecutionInvariant(states, moves, i);
    EqualRefusedByRace(states[i].caches[port], states[i].rows, manifest, readable, writable, raced);
  }

  /** The race happens: an execution in which a store is answered with a conflict while the same
      manifest is persisted, and storing it again succeeds. */
  lemma RaceRefusesEqual() returns (states: seq<State>, moves: seq<Move>)
    ensures Execution(states, moves) && |moves| == 2
    ensures moves[0].StoreAt? && moves[1].StoreAt? && moves[0].manifest == moves[1].manifest
    ensures states[1].answered == [] && moves[0].manifest.id in states[1].rows
    ensures states[1].rows[moves[0].manifest.id] == moves[0].manifest && states[2].answered == [moves[0].manifest]
  {
    var m := Manifest("m", "text");
    var rows: Manifests := map["m" := m];
    var none: Manifests := map[];
    var s0, s1, s2 := State(none, [none], []), State(rows, [none], []), State(rows, [rows], [m]);
    moves := [StoreAt(0, m, true, true, Some(m)), StoreAt(0, m, true, true, None)];
    states := [s0, s1, s2];
    assert Insert(none, m) == rows && none["m" := m] == rows;
    assert StoreEffect(none, none, m, true, true, Some(m)) == (Conflict, none, rows);
    assert StoreEffect(none, rows, m, true, true, None) == (Stored(m), rows, rows);
    assert [none][0 := none] == [none] && [none][0 := rows] == [rows];
    assert Step(s0, moves[0], s1) && Step(s1, moves[1], s2);
  }

  // ---- Members ----

  datatype MemberError = MalformedId | NotIngested | NotAvailable

  /** How the artifact store answers for one member; only adoption meets restricted ones. */
  datatype MemberCheck = Good(stored: string) | Bad(error: MemberError) | Restricted

  datatype Member = Member(required: bool, check: MemberCheck)

  datatype Commit = Committed(members: seq<(string, bool)>) | Refused(error: MemberError) | RefusedSecret

  /** The stored members, in request order. */
  function StoredMembers(members: seq<Member>): seq<(string, bool)> {
    if members == [] then []
    else
      var last := members[|members| - 1];
      StoredMembers(members[..|members| - 1]) + (if last.check.Good? then [(last.check.stored, last.required)] else [])
  }

  /** Exactly the stored members are committed, each as often as it was requested. */
  lemma {:induction false} StoredMembersExactly(members: seq<Member>, stored: string, required: bool)
    ensures multiset(StoredMembers(members))[(stored, required)] == multiset(members)[Member(required, Good(stored))]
  {
    if members != [] {
      StoredMembersExactly(members[..|members| - 1], stored, required);
      assert members == members[..|members| - 1] + [members[|members| - 1]];
    }
  }

  /** The stored members keep the order of the request. */
  lemma {:induction false} StoredMembersInOrder(a: seq<Member>, b: seq<Member>)
    ensures StoredMembers(a + b) == StoredMembers(a) + StoredMembers(b)
  {
    if b == [] {
      assert a + b == a;
    } else {
      assert (a + b)[..|a + b| - 1] == a + b[..|b| - 1];
      StoredMembersInOrder(a, b[..|b| - 1]);
    }
  }

  /** The member loop of `ingest` and `adopt`: a manifest is only committed when every required
      member is stored and none is restricted, and then it holds exactly the stored members. */
  method CommitMembers(members: seq<Member>) returns (commit: Commit)
    ensures commit.Committed? <==> forall m | m in members :: !m.check.Restricted? && (m.required ==> m.check.Good?)
    ensures commit.Committed? ==> commit.members == StoredMembers(members)
  {
    var committed: seq<(string, bool)> := [];
    for i := 0 to |members|
      invariant committed == StoredMembers(members[..i])
      invariant forall j | 0 <= j < i :: !members[j].check.Restricted? && (members[j].required ==> members[j].check.Good?)
    {
      assert members[..i + 1][..i] == members[..i];
      assert members[i] in members;
      match members[i].check {
        case Restricted => return RefusedSecret;
        case Bad(error) =>
          if members[i].required {
            return Refused(error);
          }
        case Good(stored) => committed := committed + [(stored, members[i].required)];
      }
    }
    assert members[..|members|] == members;
    return Committed(committed);
  }
}
