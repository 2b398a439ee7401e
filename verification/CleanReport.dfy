/** What a governance report without diagnostics guarantees about the delivery sequence and the
    hierarchy (tools/governance/roadmap-governance.ts, analyzeRoadmapGovernance and sequence together). */
module CleanReport {
  import opened Text
  import opened Sorting
  import opened Digraph
  import opened Roadmap
  import opened ReleaseVersion
  import opened ReleaseCatalog
  import opened DependentCounts
  import opened DeliveryOrder
  import opened DependencyGraph
  import opened DeliverySequence
  import opened RoadmapChecks
  import opened PlanningRules
  import opened RoadmapAnalysis

  /** Every managed issue is well planned and well linked, and the open dependencies have no cycle. */
  ghost predicate Clean(all: Issues, releases: Catalog) {
    && WellKeyed(all)
    && (forall k | k in all && all[k].planning.Some? :: WellPlanned(all[k], all, releases) && WellLinked(all[k], all, releases))
    && Acyclic(OpenManaged(all).Keys, PlanEdges(OpenManaged(all)))
  }

  /** The snapshot as a whole: sound milestones, matching fields and clean issues. */
  ghost predicate CleanSnapshot(snapshot: Snapshot, releases: Catalog) {
    snapshot.fieldsMatch && SoundMilestones(snapshot.milestones, ReleaseOrderKey) && Clean(IssueMap(snapshot.issues), releases)
  }

  /** No code is violated iff the snapshot is clean. */
  lemma NoViolationExactly(snapshot: Snapshot, releases: Catalog)
    requires UniqueIdentities(snapshot.issues)
    requires forall issue | issue in snapshot.issues :: issue.Key() in IssueMap(snapshot.issues)
    ensures (forall c :: !Violation(c, snapshot, releases)) <==> CleanSnapshot(snapshot, releases)
  {
    if forall c :: !Violation(c, snapshot, releases) {
      NoViolationMeansClean(snapshot, releases);
    }
    if CleanSnapshot(snapshot, releases) {
      forall c ensures !Violation(c, snapshot, releases) { CleanMeansNoViolation(snapshot, releases, c); }
    }
  }

  lemma NoViolationMeansClean(snapshot: Snapshot, releases: Catalog)
    requires forall issue | issue in snapshot.issues :: issue.Key() in IssueMap(snapshot.issues)
    requires forall c :: !Violation(c, snapshot, releases)
    ensures CleanSnapshot(snapshot, releases)
  {
    var all := IssueMap(snapshot.issues);
    IssueMapKeyed(snapshot.issues);
    assert !Violation(ReleaseCatalogInvalid, snapshot, releases);
    assert !Violation(PlanningFieldInvalid, snapshot, releases);
    assert !Violation(DependencyCycleFound, snapshot, releases);
    forall k | k in all && all[k].planning.Some? ensures WellPlanned(all[k], all, releases) && WellLinked(all[k], all, releases) {
      CleanIssue(snapshot, releases, all[k]);
    }
  }

  lemma CleanIssue(snapshot: Snapshot, releases: Catalog, issue: Issue)
    requires forall other | other in snapshot.issues :: other.Key() in IssueMap(snapshot.issues)
    requires issue in snapshot.issues && issue.planning.Some? && forall c :: !Violation(c, snapshot, releases)
    ensures WellPlanned(issue, IssueMap(snapshot.issues), releases) && WellLinked(issue, IssueMap(snapshot.issues), releases)
  {
    var all := IssueMap(snapshot.issues);
    forall c ensures !IssueViolation(c, issue, all, releases) && !RelationViolation(c, issue, all, releases) {
      assert !Violation(c, snapshot, releases);
    }
    WellPlannedExactly(issue, all, releases);
    WellLinkedExactly(issue, all, releases);
  }

  lemma CleanMeansNoViolation(snapshot: Snapshot, releases: Catalog, c: Code)
    requires UniqueIdentities(snapshot.issues) && CleanSnapshot(snapshot, releases)
    requires forall issue | issue in snapshot.issues :: issue.Key() in IssueMap(snapshot.issues)
    ensures !Violation(c, snapshot, releases)
  {
    var all := IssueMap(snapshot.issues);
    IssueMapHolds(snapshot.issues);
    forall issue | issue in snapshot.issues && issue.planning.Some?
      ensures !IssueViolation(c, issue, all, releases) && !RelationViolation(c, issue, all, releases)
    {
      assert all[issue.Key()] == issue;
      WellMeansNoViolation(issue, all, releases, c);
    }
  }

  lemma WellMeansNoViolation(issue: Issue, all: Issues, releases: Catalog, c: Code)
    requires issue.planning.Some? && issue.Key() in all && WellPlanned(issue, all, releases) && WellLinked(issue, all, releases)
    ensures !IssueViolation(c, issue, all, releases) && !RelationViolation(c, issue, all, releases)
  {
    WellPlannedExactly(issue, all, releases);
    WellLinkedExactly(issue, all, releases);
  }

  /** Every open blocker of an open managed issue is itself an open managed issue. */
  lemma OpenBlockersInside(all: Issues, releases: Catalog, key: IssueKey, blocker: Relation)
    requires Clean(all, releases) && key in OpenManaged(all)
    requires blocker in OpenManaged(all)[key].blockedBy && blocker.state == Open
    ensures blocker.Key() in OpenManaged(all)
  {
    assert WellPlanned(all[key], all, releases) && WellLinked(all[key], all, releases);
    assert SoundBlocker(blocker, all);
  }

  /** The increment for open blockers outside the graph is never taken. */
  lemma NothingHeld(all: Issues, releases: Catalog)
    requires Clean(all, releases)
    ensures Held(Outside(OpenManaged(all))) == {}
  {
    var open := OpenManaged(all);
    forall k | k in open ensures Outside(open)[k] == 0 {
      forall r | r in open[k].blockedBy ensures r.Key() in open || r.state != Open {
        if r.state == Open { OpenBlockersInside(all, releases, k, r); }
      }
      OutsideCountZero(open, open[k].blockedBy);
    }
  }

  /** The final filter drops no leaf. */
  lemma LeavesPublishable(all: Issues, releases: Catalog, key: IssueKey)
    requires Clean(all, releases) && key in OpenManaged(all) && all[key].IsLeaf()
    ensures Publishable(OpenManaged(all)[key], releases)
  {
    assert WellPlanned(all[key], all, releases);
  }

  /** On a clean report the whole graph is delivered, prerequisites first. */
  lemma CleanOrderTopological(all: Issues, releases: Catalog, ordered: seq<IssueKey>)
    requires Clean(all, releases) && DeliveredOrder(OpenManaged(all), releases, ordered)
    ensures Topological(OpenManaged(all).Keys, PlanEdges(OpenManaged(all)), ordered)
  {
    var open := OpenManaged(all);
    NothingHeld(all, releases);
    GreedyComplete(open.Keys, PlanEdges(open), KeyOrder(open, ReachCounts(open.Keys, PlanEdges(open)), releases), ordered);
  }

  /** On a clean report the delivered order is the lexicographically least of all topological orders. */
  lemma CleanOrderLeast(all: Issues, releases: Catalog, ordered: seq<IssueKey>, other: seq<IssueKey>)
    requires Clean(all, releases) && DeliveredOrder(OpenManaged(all), releases, ordered)
    requires Topological(OpenManaged(all).Keys, PlanEdges(OpenManaged(all)), other)
    ensures ordered == other || exists i ::
      0 <= i < |ordered| && i < |other| && ordered[..i] == other[..i] &&
      KeyOrder(OpenManaged(all), ReachCounts(OpenManaged(all).Keys, PlanEdges(OpenManaged(all))), releases)(ordered[i], other[i]) < 0
  {
    var open := OpenManaged(all);
    var edges := PlanEdges(open);
    var counts := ReachCounts(open.Keys, edges);
    NothingHeld(all, releases);
    KeyOrderStrict(open, counts, releases);
    GreedyIsLexicographicallyLeast(open.Keys, edges, KeyOrder(open, counts, releases), ordered, other);
  }

  /** An open managed issue without sub-issues. */
  predicate OpenLeaf(all: Issues, k: IssueKey) {
    k in all && all[k].planning.Some? && all[k].state == Open && all[k].subIssues == []
  }

  /** The delivery sequence is exactly the open managed leaves, each once, numbered from 1. */
  lemma SequenceIsExactlyTheOpenLeaves(all: Issues, releases: Catalog, ordered: seq<IssueKey>)
    requires Clean(all, releases) && DeliveredOrder(OpenManaged(all), releases, ordered)
    requires Elements(ordered) <= OpenManaged(all).Keys
    ensures var open := OpenManaged(all);
      var entries := PublishedEntries(open, releases, ordered);
      && (forall k :: OpenLeaf(all, k) <==> exists i | 0 <= i < |entries| :: entries[i].Key() == k)
      && (forall i, j | 0 <= i < j < |entries| :: entries[i].Key() != entries[j].Key())
      && (forall i | 0 <= i < |entries| :: entries[i].position == i + 1)
  {
    var open := OpenManaged(all);
    var counts := ReachCounts(open.Keys, PlanEdges(open));
    var entries := PublishedEntries(open, releases, ordered);
    CleanOrderTopological(all, releases, ordered);
    forall k | OpenLeaf(all, k) ensures exists i | 0 <= i < |entries| :: entries[i].Key() == k {
      LeavesPublishable(all, releases, k);
      assert k in Elements(ordered);
      var i := EntryExists(open, releases, counts, ordered, k);
    }
    forall i | 0 <= i < |entries| ensures OpenLeaf(all, entries[i].Key()) && entries[i].position == i + 1 {
      var a := EntryAt(open, releases, counts, ordered, i);
    }
    forall i, j | 0 <= i < j < |entries| ensures entries[i].Key() != entries[j].Key() {
      var a, b := EntriesKeepOrder(open, releases, counts, ordered, i, j);
    }
  }

  /** A leaf that another one transitively waits for is delivered before it. */
  lemma PrerequisitesComeFirst(all: Issues, releases: Catalog, ordered: seq<IssueKey>, i: nat, j: nat)
    requires Clean(all, releases) && DeliveredOrder(OpenManaged(all), releases, ordered)
    requires Elements(ordered) <= OpenManaged(all).Keys
    requires i < |PublishedEntries(OpenManaged(all), releases, ordered)|
    requires j < |PublishedEntries(OpenManaged(all), releases, ordered)|
    requires var entries := PublishedEntries(OpenManaged(all), releases, ordered);
      Reaches(OpenManaged(all).Keys, PlanEdges(OpenManaged(all)), entries[i].Key(), entries[j].Key())
    ensures i < j
  {
    var open := OpenManaged(all);
    var counts := ReachCounts(open.Keys, PlanEdges(open));
    CleanOrderTopological(all, releases, ordered);
    var a := EntryAt(open, releases, counts, ordered, i);
    var b := EntryAt(open, releases, counts, ordered, j);
    TopologicalReach(open.Keys, PlanEdges(open), ordered, a, b);
    EntryOrder(open, releases, counts, ordered, i, j, a, b);
  }

  /** A published leaf that directly blocks another one is published before it. */
  lemma BlockersComeFirst(all: Issues, releases: Catalog, ordered: seq<IssueKey>, i: nat, j: nat)
    requires Clean(all, releases) && DeliveredOrder(OpenManaged(all), releases, ordered)
    requires Elements(ordered) <= OpenManaged(all).Keys
    requires i < |PublishedEntries(OpenManaged(all), releases, ordered)|
    requires j < |PublishedEntries(OpenManaged(all), releases, ordered)|
    requires var entries := PublishedEntries(OpenManaged(all), releases, ordered);
      entries[j].Key() in all && exists r | r in all[entries[j].Key()].blockedBy :: r.Key() == entries[i].Key()
    ensures i < j
  {
    var open := OpenManaged(all);
    var counts := ReachCounts(open.Keys, PlanEdges(open));
    var a := EntryAt(open, releases, counts, ordered, i);
    var b := EntryAt(open, releases, counts, ordered, j);
    PlanPredecessors(open, ordered[b]);
    EdgeReaches(open.Keys, PlanEdges(open), ordered[a], ordered[b]);
    PrerequisitesComeFirst(all, releases, ordered, i, j);
  }

  /** Active leaves have no predecessors, so nothing can be delivered before them. */
  lemma ActiveLeavesAreSources(all: Issues, releases: Catalog, key: IssueKey)
    requires Clean(all, releases) && key in OpenManaged(all) && IsActive(all[key])
    ensures Predecessors(OpenManaged(all).Keys, PlanEdges(OpenManaged(all)), key) == {}
  {
    var open := OpenManaged(all);
    var issue := all[key];
    PlanPredecessors(open, key);
    assert WellPlanned(issue, all, releases);
    forall r | r in issue.blockedBy ensures r.Key() !in open {
      assert EffectiveState(r, all) != Open;
    }
  }

  /** In the delivered order every active leaf precedes everything that is not active. */
  lemma ActiveFirst(all: Issues, releases: Catalog, ordered: seq<IssueKey>, a: nat, b: nat)
    requires Clean(all, releases) && DeliveredOrder(OpenManaged(all), releases, ordered)
    requires a < |ordered| && b < |ordered| && ordered[a] in OpenManaged(all) && ordered[b] in OpenManaged(all)
    requires IsActive(all[ordered[a]]) && !IsActive(all[ordered[b]])
    ensures a < b
  {
    NothingHeld(all, releases);
    var open := OpenManaged(all);
    var active := set k | k in open && IsActive(open[k]);
    forall k | k in active ensures Predecessors(open.Keys, PlanEdges(open), k) == {} {
      ActiveLeavesAreSources(all, releases, k);
    }
    ActiveFirstIn(open, releases, ordered, active, a, b);
  }

  lemma ActiveFirstIn(open: Issues, releases: Catalog, ordered: seq<IssueKey>, active: set<IssueKey>, a: nat, b: nat)
    requires WellKeyed(open) && DeliveredOrder(open, releases, ordered) && Held(Outside(open)) == {}
    requires active == set k | k in open && IsActive(open[k])
    requires forall k | k in active :: Predecessors(open.Keys, PlanEdges(open), k) == {}
    requires a < |ordered| && b < |ordered| && ordered[a] in active && ordered[b] !in active
    ensures a < b
  {
    var counts := ReachCounts(open.Keys, PlanEdges(open));
    KeyOrderStrict(open, counts, releases);
    ActiveSortsFirst(open, counts, releases, active);
    PreferredSourcesFirst(open.Keys, PlanEdges(open), {}, KeyOrder(open, counts, releases), ordered, active, a, b);
  }

  /** Every In Progress leaf comes before every Todo leaf. */
  lemma InProgressBeforeTodo(all: Issues, releases: Catalog, ordered: seq<IssueKey>, i: nat, j: nat)
    requires Clean(all, releases) && DeliveredOrder(OpenManaged(all), releases, ordered)
    requires Elements(ordered) <= OpenManaged(all).Keys
    requires i < |PublishedEntries(OpenManaged(all), releases, ordered)|
    requires j < |PublishedEntries(OpenManaged(all), releases, ordered)|
    requires PublishedEntries(OpenManaged(all), releases, ordered)[i].status == InProgress
    requires PublishedEntries(OpenManaged(all), releases, ordered)[j].status == Todo
    ensures i < j
  {
    var open := OpenManaged(all);
    var counts := ReachCounts(open.Keys, PlanEdges(open));
    var a := EntryAt(open, releases, counts, ordered, i);
    var b := EntryAt(open, releases, counts, ordered, j);
    ActiveFirst(all, releases, ordered, a, b);
    OrderWithin(open, releases, ordered);
    EntryOrder(open, releases, counts, ordered, i, j, a, b);
  }

  /** The open hierarchy is reciprocal and two-level: an open managed issue with a parent has no
      sub-issues, its parent is managed and lists it, and no other managed issue does. */
  lemma HierarchyIsReciprocalAndFlat(all: Issues, releases: Catalog, key: IssueKey)
    requires Clean(all, releases) && key in OpenManaged(all) && all[key].parent.Some?
    ensures all[key].IsLeaf()
    ensures var above := all[key].parent.value.Key();
      && above in all && all[above].planning.Some? && RoadmapChecks.Lists(all[above], key)
      && (forall k | k in all && all[k].planning.Some? && RoadmapChecks.Lists(all[k], key) :: k == above)
  {
    var issue := all[key];
    assert WellPlanned(issue, all, releases) && WellLinked(issue, all, releases);
    forall k | k in all && all[k].planning.Some? && RoadmapChecks.Lists(all[k], key) ensures k == issue.parent.value.Key() {
      ListedByParentOnly(all, releases, key, k);
    }
  }

  lemma ListedByParentOnly(all: Issues, releases: Catalog, key: IssueKey, k: IssueKey)
    requires Clean(all, releases) && key in all && k in all && all[k].planning.Some? && RoadmapChecks.Lists(all[k], key)
    requires key in OpenManaged(all) && all[key].parent.Some?
    ensures k == all[key].parent.value.Key()
  {
    var r :| r in all[k].subIssues && r.Key() == key;
    assert WellLinked(all[k], all, releases) && ChildPlanned(all[k], all[r.Key()], releases);
  }

  /** A child is planned for its parent's release or for a strictly earlier one. */
  lemma ChildReleaseNotLater(all: Issues, releases: Catalog, key: IssueKey, child: Relation)
    requires Clean(all, releases) && key in all && all[key].planning.Some? && child in all[key].subIssues
    ensures child.Key() in all && all[child.Key()].TargetRelease().Some? && all[key].TargetRelease().Some?
    ensures var (below, above) := (all[child.Key()].TargetRelease(), all[key].TargetRelease());
      below == above ||
      (below.value in releases && above.value in releases && releases[below.value].rank < releases[above.value].rank)
  {
    assert WellLinked(all[key], all, releases) && ChildPlanned(all[key], all[child.Key()], releases);
  }

  /** The sequence is the numbered, filtered greedy order that the audited facts call for. */
  ghost predicate Delivers(snapshot: Snapshot, entries: seq<DeliveryEntry>) {
    exists releases: Catalog, ordered: seq<IssueKey> :: DeliversBy(snapshot, releases, ordered, entries)
  }

  ghost predicate DeliversBy(snapshot: Snapshot, releases: Catalog, ordered: seq<IssueKey>, entries: seq<DeliveryEntry>) {
    var open := OpenManaged(IssueMap(snapshot.issues));
    && CatalogOf(snapshot.milestones, ReleaseOrderKey, releases)
    && DeliveredOrder(open, releases, ordered) && Elements(ordered) <= open.Keys
    && entries == PublishedEntries(open, releases, ordered)
  }

  /** What every reader of a clean report may rely on, of all audited issues. */
  ghost predicate SoundSequence(all: Issues, entries: seq<DeliveryEntry>) {
    && (forall k :: OpenLeaf(all, k) <==> exists i | 0 <= i < |entries| :: entries[i].Key() == k)
    && (forall i, j | 0 <= i < j < |entries| :: entries[i].Key() != entries[j].Key())
    && (forall i | 0 <= i < |entries| :: entries[i].position == i + 1)
    && (forall i, j | 0 <= i < |entries| && 0 <= j < |entries| &&
          Reaches(OpenManaged(all).Keys, PlanEdges(OpenManaged(all)), entries[i].Key(), entries[j].Key()) :: i < j)
    && (forall i, j | 0 <= i < |entries| && 0 <= j < |entries| &&
          entries[i].status == InProgress && entries[j].status == Todo :: i < j)
  }

  lemma CleanSequenceSound(all: Issues, releases: Catalog, ordered: seq<IssueKey>)
    requires Clean(all, releases) && DeliveredOrder(OpenManaged(all), releases, ordered)
    requires Elements(ordered) <= OpenManaged(all).Keys
    ensures SoundSequence(all, PublishedEntries(OpenManaged(all), releases, ordered))
  {
    var open := OpenManaged(all);
    var entries := PublishedEntries(open, releases, ordered);
    SequenceIsExactlyTheOpenLeaves(all, releases, ordered);
    forall i, j | 0 <= i < |entries| && 0 <= j < |entries| &&
      Reaches(open.Keys, PlanEdges(open), entries[i].Key(), entries[j].Key())
      ensures i < j
    {
      PrerequisitesComeFirst(all, releases, ordered, i, j);
    }
    forall i, j | 0 <= i < |entries| && 0 <= j < |entries| && entries[i].status == InProgress && entries[j].status == Todo
      ensures i < j
    {
      InProgressBeforeTodo(all, releases, ordered, i, j);
    }
  }

  /** The facts call for no diagnostic at all. */
  ghost predicate CallsForNothing(snapshot: Snapshot) {
    exists releases: Catalog :: CatalogOf(snapshot.milestones, ReleaseOrderKey, releases) && CleanSnapshot(snapshot, releases)
  }

  lemma OneCatalogDecides(snapshot: Snapshot, releases: Catalog)
    requires CatalogOf(snapshot.milestones, ReleaseOrderKey, releases)
    ensures CallsForNothing(snapshot) <==> CleanSnapshot(snapshot, releases)
  {
    if CallsForNothing(snapshot) {
      var other :| CatalogOf(snapshot.milestones, ReleaseOrderKey, other) && CleanSnapshot(snapshot, other);
      SameCatalog(snapshot.milestones, ReleaseOrderKey, releases, other);
    }
  }

  /** The report end to end: it is without diagnostics iff the facts call for none, and publishes a
      sequence only then; that sequence is sound and the one that the facts determine. */
  method PublishReport(snapshot: Snapshot) returns (report: Report)
    requires UniqueIdentities(snapshot.issues)
    ensures report.diagnostics == [] <==> CallsForNothing(snapshot)
    ensures report.diagnostics != [] ==> report.deliverySequence == []
    ensures report.diagnostics == [] ==> SoundSequence(IssueMap(snapshot.issues), report.deliverySequence)
    ensures report.diagnostics == [] ==> Delivers(snapshot, report.deliverySequence)
  {
    ghost var releases: Catalog, ordered: seq<IssueKey>;
    report, releases, ordered := Analyze(snapshot);
    NoViolationExactly(snapshot, releases);
    OneCatalogDecides(snapshot, releases);
    NoCodes(report.diagnostics);
    if report.diagnostics == [] {
      assert DeliversBy(snapshot, releases, ordered, report.deliverySequence);
      CleanSequenceSound(IssueMap(snapshot.issues), releases, ordered);
    }
  }

  lemma NoCodes(codes: seq<Code>)
    ensures codes == [] <==> forall c :: c !in codes
  {
    if codes != [] { assert codes[0] in codes; }
  }
}
