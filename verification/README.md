# Verified models of Falryn's planner, scheduler and session protocols

A Dafny 4.11 project that models the most intricate logic of the Falryn repository and proves what
that logic is for. `dafny verify dfyconfig.toml` checks everything.

**The roadmap delivery planner** (`tools/governance/roadmap-governance.ts`). A snapshot of issues and
milestones goes through about thirty checks; only a report without diagnostics publishes a delivery
sequence, built by Kahn's algorithm over a priority frontier. The project models every function on that
path: the depth-first cycle search and the started-child search with their shared mutable sets, the
worklist of transitive dependents, the release catalog, the two edge-building loops, the frontier loop,
the eight-level comparator, the closing filter and all the checks. Each loop is a method proved against a
definition that mentions no search (walks, reachability, greedy orders, ranks), and the results are
joined across functions: a report without diagnostics implies that nothing is held back, nothing is left
over and nothing is filtered out, so the published sequence is exactly the open leaves, each once,
prerequisites first, work in progress before work not begun, in the one order that the facts determine.

**The capability composition scheduler** (`src/application/capabilities/capability-composition.ts` with
`src/domain/capabilities/composition.ts`). Graph admission is proved to accept exactly the well-formed
acyclic graphs. One execution is a step system in which completions, repeated output captures, aborts
and timers interleave freely; its invariants hold in every reachable state, every execution makes at most
3 n + 3 productive moves, and no reachable state is stuck. A second layer runs any number of executions
together under the shared one-shot admission.

**Smaller protocols**, each over all interleavings: scratch revisions over a compare-and-set repository,
checkpoint-source paging, exclusion between live turns and compaction, the device-code polling loop of
section 3.5 of RFC 8628 with its set of active attempts, and Loom manifests in front of a write-once
table.

## Where the code falls short of its promise

Each of these is a concrete run of the code as it is, together with a theorem that says for all inputs or
all runs exactly when the promise is kept.

- The paging loop of `checkpointEvents` does not always end (`CheckpointSource.StuckExamples`).
  `PagingEndsExactly` proves that it ends iff the stream is not `Stuck`, which is a condition on the stored
  events: for some k, events 1 to k are present without a gap and within the limits, they stop short of
  `through`, event k + 1 is past it, and at least 64 events follow the first k. Gap-free streams with
  `through >= 1` are never stuck.
- `discard` compares revisions only for names that are still active. `StaleDiscardSucceeds` is a run in which
  a discard that expects the first revision of a name at revision 2 succeeds;
  `CompareAndSetKeptExactly` proves that in every run the promise holds for a name iff no earlier discard of
  it was accepted.
- Section 3.5 of RFC 8628 asks that a slow-down lengthen the interval of this and all later polls. The code
  takes over whatever interval an answer names (`SlowDownNotHonoured` is a run that shortens it at once, and
  undoes a longer one); `SlowDownHonouredExactly` proves that all later polls wait at least a given longer time iff
  the slow-down itself names that much and no later answer names less.
- The polling loop need not end under a clock that is set back again and again: `SetBackClockPollsForever` is
  such a clock, although it waits out every wait. `SurvivesExactly` proves how much set-back the loop can use: some
  clock that is set back by at most s milliseconds lets it reach an n-th poll iff n is less than the milliseconds left at its
  start plus s. So the loop ends whenever the total set-back is bounded (`RunDeviceCode`), and that no poll is made at or after the
  limit needs no assumption on the clock at all (`PollRounds`).
- A compaction call that is cut short can leave its job at work while a turn runs
  (`LeftoverJobMayOverlapTurn`). `ExclusionHoldsByHistory` proves that turns and jobs never overlap in a run iff no turn
  is admitted between the return of a call that left its job working and the end of that job, and `ExclusionHoldsExactly` says
  the same by the action's own `running` flag. Calls and turns never overlap, and a leftover job
  cannot commit while a turn is in flight.
- Two processes that store the same new Loom manifest at the same time do not both succeed
  (`RaceRefusesEqual`). `EqualStoreRefusedExactly` proves that in every reachable state a store is refused although
  the persisted manifest is equal iff the id was new, both accesses worked and another process inserted the same
  manifest in between.

## Files

| file | contents |
|---|---|
| `Foundation`, `Text`, `Sorting`, `Digraph` | options, UTF-8 text order, sorting, walks and reachability |
| `Roadmap`, `RoadmapStatus`, `ReleaseVersion`, `ReleaseCatalog` | issues, derived status, version keys, the catalog |
| `DependencyCycle`, `DependentCounts`, `DependencyGraph`, `DeliveryOrder`, `DeliverySequence` | the graph algorithms of the planner |
| `RoadmapChecks`, `PlanningRules`, `RoadmapAnalysis` | the checks, what they ask in positive terms, and the report |
| `CleanReport`, `FrontierOrder`, `ListingOrder` | what a clean report guarantees, the order of the entries by the recorded facts, and that listing order does not matter |
| `CompositionGraph`, `CompositionRun`, `CompositionSafety`, `CompositionOutcome`, `CompositionAdmission` | admission, steps, invariants, whole executions, the service |
| `ScratchResources`, `CheckpointSource`, `LiveCheckpoint`, `DeviceLogin`, `LoomManifests` | the smaller protocols |

## Model

| member | source | states |
|---|---|---|
| Text.TextOrder | tools/governance/roadmap-governance.ts:220-222 | The text comparator is a strict total order on every set of strings |
| Text.CompareTextIsByteOrder | tools/governance/roadmap-governance.ts:220-222 | Comparing scalar values gives exactly the byte order of the UTF-8 encodings |
| Text.KeyNamesIssue | tools/governance/roadmap-governance.ts:53-55 | Two issue keys are equal iff repository and number are |
| Text.LeadingZeros | tools/governance/roadmap-governance.ts:141-144 | Leading zeros of a major version number do not count |
| RoadmapStatus.StartedSearch.HasStartedChild | tools/governance/roadmap-governance.ts:164-185 | The search with one shared visited set answers true only below a real start; false leaves every newly visited issue without a started link and with all its parents below already visited, on cyclic hierarchies too |
| RoadmapStatus.ComputeStatus | tools/governance/roadmap-governance.ts:151-162 | The status equals its definition by reachability: an open parent is In Progress iff a started link lies one or more sub-issue links below it |
| RoadmapStatus.StatusByFacts | tools/governance/roadmap-governance.ts:146-185 | Done iff closed; an open leaf is In Progress iff it has an open closing pull request; an open parent iff below it there is a closed issue, one with an open closing pull request, or a link to an unknown issue reported closed |
| RoadmapStatus.StatusMonotone | tools/governance/roadmap-governance.ts:146-185 | With the same hierarchy and at least the same started links an open parent never falls back from In Progress |
| ReleaseVersion.KeyOrderIsDecimalOrder | tools/governance/roadmap-governance.ts:136-144 | Release keys order titles by whole major number and then digit by digit with zero padding |
| ReleaseVersion.TitleVersionExactly | tools/governance/roadmap-governance.ts:141-144 | A title carries a version iff it reads v, digits, a point, digits and then nothing or white space, and then those digits are major and minor |
| ReleaseVersion.SpacesByCode | tools/governance/roadmap-governance.ts:142-142 | The white space that may follow a version, by code point |
| ReleaseVersion.TitleOrder | tools/governance/roadmap-governance.ts:136-144 | Titles v<n>.<digits> are ordered by the number n and then by the digits after the point |
| ReleaseVersion.DocumentedOrder | tools/governance/roadmap-governance.ts:136-140 | v0.35 falls between v0.3 and v0.4 |
| ReleaseVersion.FractionOrder | tools/governance/roadmap-governance.ts:136-144 | Numeric order of fractions is their digit-by-digit order |
| ReleaseCatalog.DuplicateTitles | tools/governance/roadmap-governance.ts:439-447 | One repository's scan is silent iff its titles are distinct |
| ReleaseCatalog.ClassifyAccepts | tools/governance/roadmap-governance.ts:452-473 | A title is accepted iff it is versioned and stands in every repository with one state, and then it carries its own key and that state |
| ReleaseCatalog.AcceptTitles | tools/governance/roadmap-governance.ts:451-473 | The collected releases are exactly the catalogued titles, each once; a problem is reported iff some title is left out |
| ReleaseCatalog.SharedOrders | tools/governance/roadmap-governance.ts:474-481 | The scan of adjacent pairs reports a tie iff any two releases share a version key |
| ReleaseCatalog.BuildCatalog | tools/governance/roadmap-governance.ts:434-490 | The catalog holds exactly the catalogued titles, ranked 0, 1, ... by version key and text; no problem is reported iff the milestones are sound |
| ReleaseCatalog.CatalogUnique | tools/governance/roadmap-governance.ts:434-490 | Without duplicate titles the milestones determine the catalog, whatever the order of repositories and milestones |
| ReleaseCatalog.SoundCatalogOrder | tools/governance/roadmap-governance.ts:428-490 | Without a catalog problem every title is catalogued and rank order is version order |
| ReleaseCatalog.CataloguedEverywhere | tools/governance/roadmap-governance.ts:458-472 | A catalogued release is a milestone of every repository, in the catalogued state |
| DependencyCycle.CycleSearch.Visit | tools/governance/roadmap-governance.ts:232-256 | A cycle returned is a closed walk along real edges without another repeated node; otherwise path and visiting are restored, the key and all below it are visited, and visited nodes stand after their successors in finishing order |
| DependencyCycle.FindCycle | tools/governance/roadmap-governance.ts:224-264 | Sound and complete: a cycle found is simple and real, and none is found iff no node reaches itself |
| DependentCounts.Reachable | tools/governance/roadmap-governance.ts:272-281 | One key's worklist ends, with exactly the nodes the key reaches |
| DependentCounts.TransitiveDependentCounts | tools/governance/roadmap-governance.ts:266-285 | Every key's count is the size of its reachable set inside the graph |
| DependentCounts.CountsFallAlongEdges | tools/governance/roadmap-governance.ts:266-285 | On an acyclic graph the count strictly falls along every edge and every walk |
| DependencyGraph.Connect | tools/governance/roadmap-governance.ts:299-305 | Adds the declared edge once and keeps indegrees equal to the number of predecessors plus outside blockers |
| DependencyGraph.AddBlocker | tools/governance/roadmap-governance.ts:307-313 | A blocker inside the graph becomes an edge, an open one outside it a count that nothing clears, a closed one outside it nothing |
| DependencyGraph.BuildGraph | tools/governance/roadmap-governance.ts:292-331 | The loops build exactly the dependency graph by definition, with exact indegrees |
| DependencyGraph.OpenEdges | tools/governance/roadmap-governance.ts:929-946 | The graph searched for cycles is the graph that is delivered |
| DependencyGraph.PlanPredecessors | tools/governance/roadmap-governance.ts:306-331 | The predecessors of an issue are its blockers and sub-issues inside the graph |
| DependencyGraph.WaitsExactlyFor | tools/governance/roadmap-governance.ts:306-331 | An issue waits exactly for the issues that it names as blockers or sub-issues |
| DependencyGraph.OutsideCountZero | tools/governance/roadmap-governance.ts:310-312 | Nothing outside holds an issue back iff none of its open blockers lies outside the graph |
| DeliveryOrder.GreedyComplete | tools/governance/roadmap-governance.ts:373-389 | On an acyclic graph with nothing held back, the greedy order is a topological order of all nodes |
| DeliveryOrder.GreedyUnique | tools/governance/roadmap-governance.ts:373-389 | The graph and the comparator determine the greedy order |
| DeliveryOrder.GreedyIsLexicographicallyLeast | tools/governance/roadmap-governance.ts:373-389 | Every other topological order first differs where the greedy order holds the smaller node |
| DeliveryOrder.PreferredSourcesFirst | tools/governance/roadmap-governance.ts:339-342 | Sources that sort before all other nodes are delivered before all other nodes |
| DeliveryOrder.Unlock | tools/governance/roadmap-governance.ts:381-388 | Delivering a key leaves exact counts and a frontier that lists exactly the ready nodes, in order |
| DeliveryOrder.Deliver | tools/governance/roadmap-governance.ts:373-389 | The frontier loop ends with the greedy order: each position holds the least node whose predecessors are all delivered, and none is left |
| DeliverySequence.KeyOrderStrict | tools/governance/roadmap-governance.ts:335-372 | The eight-level comparator is a strict total order on the issues |
| FrontierOrder.ComparesByFacts | tools/governance/roadmap-governance.ts:335-372 | The comparator puts an issue first iff the facts do, level by level: begun work, P0, release rank, place among the open priorities, more dependents, age, repository bytes, number |
| FrontierOrder.CatalogIsRanked | tools/governance/roadmap-governance.ts:187-191 | In a catalog of fewer than 2 to the power of 53 releases no rank reaches the default for unknown releases, and no release is unnamed |
| FrontierOrder.ReadyLeavesByFacts | tools/governance/roadmap-governance.ts:335-389 | Of two published leaves that were ready at the same position, the one that precedes by these facts is published first |
| FrontierOrder.UnblockedLeavesByFacts | tools/governance/roadmap-governance.ts:335-389 | Leaves without an open prerequisite are published in the order of these facts |
| FrontierOrder.EntryFacts | tools/governance/roadmap-governance.ts:391-423 | Every published entry repeats the title, release, priority, readiness, status, dependents and cross-release facts of the open leaf it names |
| FrontierOrder.PlannedLaterByFacts | tools/governance/roadmap-governance.ts:314-323 | A blocker is a cross-release prerequisite iff both releases are named and the blocked issue's is the earlier one |
| DeliverySequence.ActiveIsInProgressLeaf | tools/governance/roadmap-governance.ts:333-334 | The comparator's active test is a leaf with In Progress status |
| DeliverySequence.Publish | tools/governance/roadmap-governance.ts:391-426 | The closing loop publishes exactly the publishable keys, in order, numbered from 1 |
| DeliverySequence.Sequence | tools/governance/roadmap-governance.ts:287-427 | The result is the numbered, filtered greedy order of the dependency graph, for every input |
| DeliverySequence.EntryAt | tools/governance/roadmap-governance.ts:411-423 | Entry i is numbered i + 1 and carries the facts of the publishable issue it names |
| DeliverySequence.EntriesKeepOrder | tools/governance/roadmap-governance.ts:391-426 | Entries stand in the order of the keys they come from |
| DeliverySequence.EntryExists | tools/governance/roadmap-governance.ts:391-426 | Every publishable delivered key has an entry |
| RoadmapChecks.CheckReadiness | tools/governance/roadmap-governance.ts:659-726 | Names exactly the codes that readiness, evidence and status call for |
| RoadmapChecks.CheckIssue | tools/governance/roadmap-governance.ts:552-834 | The codes of one managed issue are exactly its violations, open or closed |
| RoadmapChecks.CheckRelations | tools/governance/roadmap-governance.ts:836-927 | The codes of one issue's parent, children and blockers are exactly the relation violations |
| PlanningRules.WellPlannedExactly | tools/governance/roadmap-governance.ts:552-834 | An issue draws no diagnostic of its own iff it is well planned: one assignee, one work type, an area, an open ranked release, an approved priority; a leaf placed, with evidence for its readiness and at most one live pull request, a parent a root without any; open blockers known and none under work in progress; a closed issue historical |
| PlanningRules.ReadinessExactly | tools/governance/roadmap-governance.ts:659-726 | For an owned, scheduled and placed issue the readiness checks come down to the evidence, and a leaf with an open pull request must be a checked-off Ready one |
| PlanningRules.EvidenceByFacts | tools/governance/roadmap-governance.ts:675-695 | The evidence for Ready is complete metadata, an open catalogued release, a place in the hierarchy and a non-empty checklist without an unchecked item |
| PlanningRules.OwnedExactly | tools/governance/roadmap-governance.ts:577-599 | The metadata checks ask for one assignee, exactly one label that is bug or starts with type:, and a label that starts with area: |
| PlanningRules.DeclaredEarlierExactly | tools/governance/roadmap-governance.ts:193-213 | An early release is declared iff both releases are ranked, the child's is lower and the exception reads word for word as required |
| PlanningRules.WellLinkedExactly | tools/governance/roadmap-governance.ts:836-927 | Relations draw no diagnostic iff parent and children are Roadmap issues in the reported state that name each other, releases agree or declare an exception, and known blockers are sound |
| RoadmapAnalysis.Diagnose | tools/governance/roadmap-governance.ts:534-957 | A code is reported iff the audited facts violate it |
| RoadmapAnalysis.Analyze | tools/governance/roadmap-governance.ts:534-977 | Names exactly the violated codes; without any, publishes the filtered greedy order, otherwise nothing |
| CleanReport.NoViolationExactly | tools/governance/roadmap-governance.ts:534-977 | No code is violated iff fields match, milestones are sound, every managed issue is well planned and well linked, and the graph is acyclic |
| CleanReport.OpenBlockersInside | tools/governance/roadmap-governance.ts:803-868 | On a clean report every open blocker of an open managed issue is itself one |
| CleanReport.NothingHeld | tools/governance/roadmap-governance.ts:307-313 | On a clean report the increment for open blockers outside the graph is never taken |
| CleanReport.LeavesPublishable | tools/governance/roadmap-governance.ts:391-411 | On a clean report the closing filter drops no leaf |
| CleanReport.CleanOrderTopological | tools/governance/roadmap-governance.ts:373-389 | On a clean report the loop delivers every open managed issue, prerequisites first |
| CleanReport.CleanOrderLeast | tools/governance/roadmap-governance.ts:335-389 | On a clean report the delivered order is the lexicographically least topological order |
| CleanReport.SequenceIsExactlyTheOpenLeaves | tools/governance/roadmap-governance.ts:287-427 | On a clean report the sequence names exactly the open managed leaves, each once, numbered from 1 |
| CleanReport.PrerequisitesComeFirst | tools/governance/roadmap-governance.ts:287-427 | A leaf that another one transitively waits for stands before it |
| CleanReport.BlockersComeFirst | tools/governance/roadmap-governance.ts:287-427 | A published leaf that directly blocks another one stands before it |
| CleanReport.ActiveLeavesAreSources | tools/governance/roadmap-governance.ts:746-761 | On a clean report a leaf in progress has no predecessor in the graph |
| CleanReport.ActiveFirst | tools/governance/roadmap-governance.ts:333-389 | On a clean report every active leaf is delivered before everything that is not active |
| CleanReport.InProgressBeforeTodo | tools/governance/roadmap-governance.ts:333-426 | On a clean report every In Progress entry stands before every Todo entry |
| CleanReport.HierarchyIsReciprocalAndFlat | tools/governance/roadmap-governance.ts:617-624 | On a clean report an open managed issue with a parent has no sub-issues and is listed by that managed parent and no other managed issue |
| CleanReport.ChildReleaseNotLater | tools/governance/roadmap-governance.ts:886-911 | On a clean report a child's release equals its parent's or has a strictly lower rank |
| ListingOrder.SequenceIgnoresListingOrder | tools/governance/roadmap-governance.ts:287-490 | Two listings of the same facts, with issues, relations, pull requests, repositories and milestones in any order, give the same catalog, order and entries |
| ListingOrder.VerdictIgnoresListingOrder | tools/governance/roadmap-governance.ts:534-977 | Two listings of the same facts are both without diagnostics or both with some |
| ListingOrder.PublishedSequenceUnique | tools/governance/roadmap-governance.ts:967-976 | If one listing of the facts is clean, so is every other, and they publish the same entries |
| CleanReport.CleanSequenceSound | tools/governance/roadmap-governance.ts:534-977 | All guarantees of a clean sequence together, for every clean set of issues |
| CleanReport.PublishReport | tools/governance/roadmap-governance.ts:967-976 | End to end: no diagnostic iff the facts call for none; a sequence is published only then, has all of these guarantees and is the one that the facts determine |
| CompositionGraph.CheckNodes | src/domain/capabilities/composition.ts:142-157 | The running checks pass iff the edge bound holds and every node is locally well formed |
| CompositionGraph.SettlesInLayers | src/domain/capabilities/composition.ts:158-165 | The layering succeeds iff the dependency graph is acyclic |
| CompositionGraph.ParseGraph | src/domain/capabilities/composition.ts:130-167 | A graph is accepted iff its encoding fits, it has the schema's bounds (1 to 64 nodes, concurrency 1 to 16, timeout, names, versions and transfer paths) and it is well formed: unique ids, bounded edges, known dependencies, distinct targets, acyclic; otherwise the reason names the first fault |
| CompositionGraph.IdentifierByNumbers | src/domain/capabilities/composition.ts:10-15 | A name has 1 to 128 UTF-16 code units, and an input key is none of the three reserved names |
| CompositionGraph.Utf16Encodes | src/domain/capabilities/composition.ts:10-15 | The code units that the bounds count are a proper UTF-16 encoding |
| CompositionGraph.TransferByNumbers | src/domain/capabilities/composition.ts:32-41 | A transfer has proper names and a path of at most 16 input keys |
| CompositionGraph.NodeByNumbers | src/domain/capabilities/composition.ts:23-44 | A node has proper names, a positive version and at most 128 dependencies and 128 transfers |
| CompositionGraph.GraphByNumbers | src/domain/capabilities/composition.ts:17-48 | A graph has a proper name, concurrency 1 to 16, at most 30 minutes and 1 to 64 nodes |
| CompositionRun.OverallEffectIsMaximum | src/application/capabilities/capability-composition.ts:57-61 | The overall effect is the strongest effect that some record has |
| CompositionRun.TransfersPassExactly | src/application/capabilities/capability-composition.ts:271-292 | A node's transfers pass iff every size is known and all of them together stay within the budget, and then each has been added |
| CompositionRun.StartsExactly | src/application/capabilities/capability-composition.ts:262-300 | A queued node reaches the gateway, with all its transfers, iff there is no abort or refusal, all dependencies completed and the transfers pass; otherwise it is recorded without effect, as timed out, cancelled or unavailable |
| CompositionRun.RoundTakesFirstReady | src/application/capabilities/capability-composition.ts:248-252 | A round takes the ready nodes in node order, as many as fit |
| CompositionRun.ReadyIdsExactly | src/application/capabilities/capability-composition.ts:248-251 | A node is ready iff it is not recorded and all its dependencies are |
| CompositionRun.AnyStart | src/application/capabilities/capability-composition.ts:271-292 | A queued node may start under any refusal and with any transfer sizes within the bound |
| CompositionRun.AnyCapture | src/application/capabilities/capability-composition.ts:309-316 | A called node may capture an output of any size within the bound, at any time |
| CompositionRun.OverallStatusExactly | src/application/capabilities/capability-composition.ts:343-351 | Each overall status is described by the records, the timer and the caller's abort |
| CompositionRun.RetainsExactly | src/application/capabilities/capability-composition.ts:309-316 | An output is retained iff it still fits the budget |
| CompositionSafety.StepScheduled | src/application/capabilities/capability-composition.ts:247-333 | Every move keeps queued, in-flight and recorded nodes distinct, their dependencies recorded, and at most maxConcurrent started |
| CompositionSafety.StepCalls | src/application/capabilities/capability-composition.ts:253-333 | Every move keeps: a node is called at most once, only with all dependencies completed, and a recorded node that was never called has no effect |
| CompositionSafety.StepBudget | src/application/capabilities/capability-composition.ts:271-316 | Every move keeps delivered transfer bytes and retained outputs within the composition budget, also when a node captures repeatedly |
| CompositionSafety.RetainedUpdate | src/application/capabilities/capability-composition.ts:309-316 | Overwriting a retained output never adds more than the new size |
| CompositionOutcome.StepJournaled | src/application/capabilities/capability-composition.ts:189-372 | Every move keeps the journal protocol: a persisted start, then calls, then one completion record; completed iff all completed and that record persisted |
| CompositionOutcome.ExecutionInvariant | src/application/capabilities/capability-composition.ts:154-373 | All four invariants hold in every state of every execution of an admitted graph |
| CompositionOutcome.TransfersWithinBudget | src/application/capabilities/capability-composition.ts:271-292 | Over a whole execution the sizes of all delivered transfers total at most the composition budget |
| CompositionOutcome.BarredForGood | src/application/capabilities/capability-composition.ts:263-264 | Once aborted, or with every node recorded, a run sends no further node to the gateway |
| CompositionOutcome.HopelessStartCallsNothing | src/application/capabilities/capability-composition.ts:203-246 | A run whose start record was lost, which was aborted or out of time before it began, or whose bindings were invalid never calls the gateway |
| CompositionOutcome.NothingBelowAFailure | src/application/capabilities/capability-composition.ts:263-269 | A transitive dependent of a node that did not complete never reaches the gateway and has no effect |
| CompositionOutcome.ReturnedRun | src/application/capabilities/capability-composition.ts:339-372 | A started run that returned has one record per node in node order and one completion record; it is completed iff that record persisted and every node completed |
| CompositionOutcome.ProductiveMovesUseWork | src/application/capabilities/capability-composition.ts:247-333 | Every move except captures and interrupts strictly uses up work |
| CompositionOutcome.ExecutionTerminates | src/application/capabilities/capability-composition.ts:154-373 | No execution of n nodes makes more than 3 n + 3 productive moves |
| CompositionOutcome.NeverStuck | src/application/capabilities/capability-composition.ts:247-372 | Until it has returned, a reachable run has a productive move |
| CompositionAdmission.ServiceSafe | src/application/capabilities/capability-composition.ts:162-172 | In every interleaving of any number of executions, one execution per graph id, at most 512 ids, and every execution sound |
| CompositionAdmission.StartsExactlyOnce | src/application/capabilities/capability-composition.ts:159-172 | A call starts iff its graph is accepted and current and its id is new and within the bound, and the id stays admitted for good |
| CompositionAdmission.CallsFollowPersistedStart | src/application/capabilities/capability-composition.ts:189-207 | No gateway call precedes that execution's persisted start record |
| CompositionAdmission.BatchAcceptedExactly | src/application/capabilities/capability-composition.ts:383-398 | A batch is accepted iff its encoding fits, it holds 1 to 64 distinct calls under proper names and its concurrency is 1 to 16 |
| CompositionAdmission.BatchAnswersItems | src/application/capabilities/capability-composition.ts:399-414 | Each batch item gets its own node's outcome, or uncertainty when the completion record was lost |
| CompositionAdmission.RefusedBatchAnswers | src/application/capabilities/capability-composition.ts:404-414 | A batch whose run did not start has every item answered as unavailable, without effect |
| ScratchResources.ExecutionInvariant | src/application/artifacts/scratch-resources.ts:199-267 | In every interleaving a name's published revisions are exactly 1 .. current, in order |
| ScratchResources.WriteAdmittedExactly | src/application/artifacts/scratch-resources.ts:208-228 | A write passes its checks iff the name stands at the expected revision and a safe next one is left; each refusal is described |
| ScratchResources.FinishedWritePublishesExactly | src/data/artifacts/scratch-resource-repository.ts:159-214 | In every run a finished write is published iff the name still stands where it stood at the start, and then exactly its content is the next revision |
| ScratchResources.PublishComparesExactly | src/data/artifacts/scratch-resource-repository.ts:160-191 | The publish transaction accepts exactly the next revision of a name that stands at the expected one |
| ScratchResources.RevisionsAreImmutable | src/data/artifacts/scratch-resource-repository.ts:159-214 | A published revision never changes or disappears, and a discarded name stays discarded |
| ScratchResources.OneWinnerPerRevision | src/application/artifacts/scratch-resources.ts:199-267 | Of all writes from one expected revision of a name at most one is published |
| ScratchResources.EveryPublicationSucceedsItsExpectation | src/application/artifacts/scratch-resources.ts:225-263 | Despite the await, every publication carries the successor of what its caller expected, and its content is stored |
| ScratchResources.ComparesWhileActive | src/data/artifacts/scratch-resource-repository.ts:239-268 | For a known name, discards are accepted exactly under the current revision iff the name is still active |
| ScratchResources.DiscardedByAnEarlierDiscard | src/data/artifacts/scratch-resource-repository.ts:247-256 | In every run a name is discarded iff an earlier discard met it active and at the expected revision |
| ScratchResources.CompareAndSetKeptExactly | src/application/artifacts/scratch-resources.ts:288-306 | In every run discard keeps its compare-and-set promise for a name iff no earlier discard of it was accepted |
| ScratchResources.DiscardHidesForGood | src/data/artifacts/scratch-resource-repository.ts:215-268 | After an accepted discard the name is answered as discarded in every later state, and all its revisions are kept |
| ScratchResources.DiscardRefusedExactly | src/data/artifacts/scratch-resource-repository.ts:247-249 | A discard is refused as not found or as a conflict exactly for an unknown name or an active one at another revision |
| ScratchResources.StaleDiscardSucceeds | src/data/artifacts/scratch-resource-repository.ts:247-256 | A run of two writes and a discard after which a discard that expects the first revision succeeds |
| CheckpointSource.PagingEndsExactly | src/application/compression/checkpoint-source.ts:39-59 | The paging loop ends iff the stored events are not stuck: no accepted gap-free prefix stops short of the bound with the next event past it and a full page after it |
| CheckpointSource.StuckForever | src/application/compression/checkpoint-source.ts:39-59 | On a stuck stream the loop continues after every number of rounds |
| CheckpointSource.GapFreeNotStuck | src/application/compression/checkpoint-source.ts:39-59 | A gap-free stream with a bound of at least 1 is never stuck |
| CheckpointSource.StuckExamples | src/application/compression/checkpoint-source.ts:47-49 | A bound below the first event, and a gap before the bound, each hang the loop |
| CheckpointSource.ScanPage | src/application/compression/checkpoint-source.ts:46-53 | The loop over one page accepts exactly what the scan by definition accepts |
| CheckpointSource.ReadPage | src/application/compression/checkpoint-source.ts:40-58 | One round reads the right page and stops exactly when the definition stops |
| CheckpointSource.CheckpointEvents | src/application/compression/checkpoint-source.ts:28-65 | Over a stream to which events may be appended between pages, and which never gets it stuck, the loop ends with the answer by definition for the stream as its last page found it |
| CheckpointSource.GrowingAnswer | src/application/compression/checkpoint-source.ts:28-65 | On a gap-free stream that grows meanwhile the answer is the prefix 1 .. n of everything stored from then on |
| CheckpointSource.GapFreeSource | src/application/compression/checkpoint-source.ts:28-65 | On a gap-free stream the answer is exactly the prefix 1 .. n, given iff that prefix exists, is not empty, fits the limits and is authorized |
| CheckpointSource.ActiveSet | src/application/compression/checkpoint-source.ts:80-90 | The running set ends with exactly the activities that have a start and no later completion |
| CheckpointSource.CollectRecords | src/application/compression/checkpoint-source.ts:96-128 | The answer equals its definition by reading the eligible events in order, each within the bytes left |
| CheckpointSource.SourceRecordsExactly | src/application/compression/checkpoint-source.ts:96-128 | Records are returned iff there are 1 to 64 eligible events and each can be read within the bytes left; they are exactly those events in order, within the byte limit |
| CheckpointSource.BuildSource | src/application/compression/checkpoint-source.ts:67-145 | Refused as busy iff something is unfinished; otherwise exactly what reading the eligible history of the requested events gives, with its refusal if it fails |
| CheckpointSource.DigestCoversExactly | src/application/compression/checkpoint-source.ts:136-142 | The digest input holds every event except checkpoints, each as often as it occurs |
| CheckpointSource.EligibleExactly | src/application/compression/checkpoint-source.ts:98-104 | The eligible events are the history events that are neither checkpoints nor restore points |
| CheckpointSource.OrderIsKept | src/application/compression/checkpoint-source.ts:98-142 | Digest input and eligible history keep the order of the events |
| CheckpointSource.CheckpointsAreInvisible | src/application/compression/checkpoint-source.ts:98-143 | Appending a checkpoint event changes neither digest input, nor eligible history, nor what is unfinished |
| LiveCheckpoint.LiveObject.GuardTurn | src/application/compression/live-checkpoint.ts:101-115 | A turn is refused while compacting; otherwise it is counted and the captured authority is forgotten |
| LiveCheckpoint.LiveObject.StartCompaction | src/application/compression/live-checkpoint.ts:84-96 | A compaction is accepted iff no turn and no compaction is under way |
| LiveCheckpoint.ExecutionInvariant | src/application/compression/live-checkpoint.ts:27-115 | In every interleaving turns and compaction calls never overlap, at most one call and one job exist, active counts the turns in flight, and every commit relied on fresh authority with no turn in flight |
| LiveCheckpoint.AuthorityIsFresh | src/application/compression/live-checkpoint.ts:34-83 | Authority handed out was captured after the most recent turn began and under the current key |
| LiveCheckpoint.AuthorityHandedOutExactly | src/application/compression/live-checkpoint.ts:31-83 | In every run an authority is handed out iff it was the last one captured, under the key in force now, with no turn admitted since |
| LiveCheckpoint.CommitsExactly | src/application/compression/product-checkpoint.ts:424-433 | In every run a commit succeeds iff no turn is in flight and the authority it read is still the one handed out |
| LiveCheckpoint.OverlapAppearsExactly | src/application/compression/product-checkpoint.ts:452-507 | One step makes a turn and a job overlap iff it admits a turn while the action is running and no call is |
| LiveCheckpoint.ExclusionHoldsExactly | src/application/compression/product-checkpoint.ts:452-507 | In every run turns and compaction jobs never overlap iff no turn is admitted while the action is running |
| LiveCheckpoint.ExclusionHoldsByHistory | src/application/compression/product-checkpoint.ts:452-507 | The same by what callers see: iff no turn is admitted between the return of a call that left its job working and the end of that job |
| LiveCheckpoint.LeftoverJobMayOverlapTurn | src/application/compression/product-checkpoint.ts:504-506 | A run in which a job whose call was cut short is at work when a turn arrives |
| DeviceLogin.PollInterval | src/application/authentication/authorized-provider-login.ts:682-687 | An interval is usable iff it is within bounds, and then it is at least one millisecond and not below the request |
| DeviceLogin.PollRounds | src/application/authentication/authorized-provider-login.ts:353-395 | Whatever the clock does, every poll is made before the limit, with the interval the answer before it left in force, and the loop ends in the first round that ends it |
| DeviceLogin.RoundPollsExactly | src/application/authentication/authorized-provider-login.ts:354-369 | A round polls iff it is not aborted and both clock readings are before the limit |
| DeviceLogin.AnswerEndsExactly | src/application/authentication/authorized-provider-login.ts:375-393 | An answer leaves the loop running iff it settles nothing and names no unusable interval, and says which interval is then in force |
| DeviceLogin.EndsExactly | src/application/authentication/authorized-provider-login.ts:354-395 | Cancelled, expired, invalid and finished each mean what the last round shows |
| DeviceLogin.RunDeviceCode | src/application/authentication/authorized-provider-login.ts:353-395 | Whenever the clock's total set-back is bounded the loop ends, each poll waits out the interval in force after the answer before but for that set-back, and there are fewer polls than milliseconds left and milliseconds set back |
| DeviceLogin.PollsWithin | src/application/authentication/authorized-provider-login.ts:353-395 | Whatever the clock does, as long as waits are waited out, there are fewer polls than milliseconds left at the start and set back together |
| DeviceLogin.HonestPolls | src/application/authentication/authorized-provider-login.ts:353-395 | The polls are well spaced and bounded under a clock with bounded set-back |
| DeviceLogin.AttemptDeviceCode | src/application/authentication/authorized-provider-login.ts:313-396 | A whole attempt never polls at or after its own deadline and less than once per millisecond of its lifetime and of set-back, so less than 600 000 times under a clock that is never set back |
| DeviceLogin.SetBackClockPollsForever | src/application/authentication/authorized-provider-login.ts:353-395 | A clock that waits out every wait and, once the limit is near, is set back by a millisecond a round keeps the loop polling for ever |
| DeviceLogin.SurvivesExactly | src/application/authentication/authorized-provider-login.ts:353-395 | The loop can reach an n-th poll under a set-back of at most s iff n is less than the milliseconds left at its start plus s |
| DeviceLogin.SlowDownLastsExactly | src/application/authentication/authorized-provider-login.ts:375-392 | From a slow-down on, the interval in force stays at or above a longer one iff the slow-down names at least that much and no later answer names less |
| DeviceLogin.SlowDownHonouredExactly | src/application/authentication/authorized-provider-login.ts:375-392 | The same for the polls that a run makes |
| DeviceLogin.SlowDownNotHonoured | src/application/authentication/authorized-provider-login.ts:385-392 | An honest run in which a later answer undoes a slow-down and another slow-down shortens the interval |
| DeviceLogin.LoginGate.Begin | src/application/authentication/authorized-provider-login.ts:70-91 | An attempt is admitted iff its profile is idle, there is room and the method resolves; then the profile is active |
| DeviceLogin.AttemptsAreBounded | src/application/authentication/authorized-provider-login.ts:62-97 | In every interleaving at most eight attempts are under way, never two for one profile, and the active set is exactly their profiles |
| LoomManifests.Persistence.Insert | src/data/artifacts/loom-manifest-repository.ts:60-87 | A taken id is a conflict, by whatever manifest; a free one is inserted |
| LoomManifests.LoomPort.Store | src/application/compression/loom.ts:216-249 | A known id answers by equality and changes nothing; a new one is persisted before it is remembered; memory stays a sub-map |
| LoomManifests.LoomPort.Load | src/application/compression/loom.ts:251-271 | Answers what is known, from memory or persistence, and changes no manifest |
| LoomManifests.ExecutionInvariant | src/application/compression/loom.ts:216-271 | Over any run of ports and foreign inserts every memory is a sub-map of the persistence and every answer is what is persisted |
| LoomManifests.RowsAreWriteOnce | src/data/artifacts/loom-manifest-repository.ts:42-89 | What is persisted stays persisted, unchanged |
| LoomManifests.OneManifestPerId | src/application/compression/loom.ts:530-541 | An id always answers with the same manifest, whichever port is asked |
| LoomManifests.StoreAgain | src/application/compression/loom.ts:232-236 | Storing a persisted id again is accepted iff the manifest is equal, and changes nothing |
| LoomManifests.EqualStoreRefusedExactly | src/application/compression/loom.ts:216-249 | In every reachable state a store is a conflict although the persisted manifest is equal iff the id was new, both accesses worked and another process inserted the same manifest in between |
| LoomManifests.RaceRefusesEqual | src/application/compression/loom.ts:237-246 | A run in which a store that loses the race to an equal manifest is a conflict, and storing it again succeeds |
| LoomManifests.CommitMembers | src/application/compression/loom.ts:363-528 | Members are committed iff every required one is stored and none is restricted, and then exactly the stored ones, in order |
| LoomManifests.StoredMembersExactly | src/application/compression/loom.ts:379-421 | Exactly the stored members are committed, each with its required flag and as often as requested |
| LoomManifests.StoredMembersInOrder | src/application/compression/loom.ts:379-421 | The committed members keep the order of the request |

## Left out

Roadmap planner:

- Diagnostics are modelled as codes: their messages, addressees and final sorting, and the liveness decisions of the report, are not.
- Markdown bodies are given by what the patterns read off them; the regular expressions are not modelled.
- The match of the organization's planning fields with their contract is one given fact of the snapshot.
- RoadmapAnalysis.Analyze: requires distinct issue identities, which the snapshot parser enforces (`tools/governance/roadmap-governance/parsing.ts`, lines 283 to 292).
- ReleaseVersion.KeyOrderIsDecimalOrder: keys are exact rationals, because rounding of long decimals to a JavaScript number is not the point; two titles that differ beyond the sixteenth digit could tie in the code.
- Strings are sequences of Unicode scalar values; lone surrogates are not modelled. `createdAt` is an integer instant, so an unparsable date is not modelled.
- The map iteration orders of the code are arbitrary enumerations here, which is more general.

Composition scheduler:

- CompositionGraph.ParseGraph: the size of the encoding is a given number, and the parts of the schema that fix types (the version literal, the generation, effect classes, inputs as records) are not modelled.
- Binding and input checks, the gateway and the journal answer arbitrarily.
- `execute` is a step relation over its state and not a loop, because its callbacks interleave; a round's nodes may be interrupted between their starts, which allows more than the code does.
- Provenance digests, binding digests, terminal records and invocation ids are not modelled; hashes of distinct graph ids are taken as distinct.
- Whether the gateway and the journal ever answer is left to the environment, so termination is a bound on moves together with the absence of stuck states.

Smaller protocols:

- CheckpointSource.CheckpointEvents: the store answers every read; storage failures are not modelled.
- CheckpointSource.BuildSource: the history reader is a function of the event and the bytes left, so the integrity checks inside it are not modelled; the digest is represented by its input.
- CheckpointSource.CollectRecords: an unreadable record is one refusal here; the code passes on the reader's own reason.
- ScratchResources: names, media types, sizes, artifact storage, cancellation, storage failures, `read`, `list` and the read-back after a publication are not modelled.
- LiveCheckpoint: the content of an authority, the checks that make a capture a no-op, and the checks of sources and artifacts at commit are not modelled; the durable-session test and admission are one given choice.
- DeviceLogin.RunDeviceCode: relies on the clock port's promise that a wait does not end early, and on a bound on how far the clock is set back in total, which the port does not give. Non-integer intervals are not modelled.
- DeviceLogin.AttemptDeviceCode: the checks of the provider's start answer other than its interval, and presenting the code, are not modelled.
- PKCE, token exchange, credential placement, refresh and revoke are not modelled.
- LoomManifests: retrieval, planning, caching, redaction and the validation of a manifest before it is stored are not modelled; manifest equality is equality of values, and stored rows always parse.

Not modelled at all, because they would only add easy members or are input and output: the command line, process start, the issue-readiness and CI tools, the benchmark comparison, Hush, Brief and the model catalogs.
