/** What the frontier comparator and the published entries say about the recorded facts, without
    naming the functions that compute them (tools/governance/roadmap-governance.ts, sequence). */
module FrontierOrder {
  import opened Foundation
  import opened Text
  import opened Sorting
  import opened Digraph
  import opened Roadmap
  import opened ReleaseVersion
  import opened ReleaseCatalog
  import opened DependentCounts
  import opened DeliveryOrder
  import opened DependencyGraph
  import opened DeliverySequence
  import opened PlanningRules
  import opened RoadmapAnalysis
  import opened CleanReport

  // ---- The eight levels ----

  /** An open leaf whose work has begun. */
  predicate Begun(x: Issue) { x.subIssues == [] && x.state == Open && OpenPr in x.closingPullRequests }

  function PriorityOf(x: Issue): Option<string> { if x.planning.Some? then x.planning.value.priority else None }

  function ReleaseOf(x: Issue): Option<string> { if x.planning.Some? then x.planning.value.release else None }

  predicate Planned(x: Issue, releases: Catalog) { ReleaseOf(x).Some? && ReleaseOf(x).value in releases }

  /** Planned for a release of lower rank, or planned where the other one is not. */
  predicate EarlierRelease(x: Issue, y: Issue, releases: Catalog) {
    && Planned(x, releases)
    && (Planned(y, releases) ==> releases[ReleaseOf(x).value].rank < releases[ReleaseOf(y).value].rank)
  }

  /** Of the open priorities the one of `x` comes earlier, or only `x` has one. */
  ghost predicate HigherPriority(x: Issue, y: Issue) {
    exists i | 0 <= i < |OPEN_PRIORITIES| ::
      PriorityOf(x) == Some(OPEN_PRIORITIES[i]) && forall j | 0 <= j <= i :: PriorityOf(y) != Some(OPEN_PRIORITIES[j])
  }

  /** Begun work first, then P0, the earlier release, the higher priority, more dependents, the older
      issue, the smaller repository name and the smaller number; each level only breaks the ties of
      those before it. `m` and `n` count the transitive dependents. */
  ghost predicate Precedes(x: Issue, y: Issue, m: nat, n: nat, releases: Catalog) {
    if Begun(x) != Begun(y) then Begun(x)
    else if (PriorityOf(x) == Some("P0")) != (PriorityOf(y) == Some("P0")) then PriorityOf(x) == Some("P0")
    else if EarlierRelease(x, y, releases) || EarlierRelease(y, x, releases) then EarlierRelease(x, y, releases)
    else if HigherPriority(x, y) || HigherPriority(y, x) then HigherPriority(x, y)
    else if m != n then m > n
    else if x.createdAt != y.createdAt then x.createdAt < y.createdAt
    else if x.repository != y.repository then CompareBytes(Encode(x.repository), Encode(y.repository)) < 0
    else x.number < y.number
  }

  /** Ranks are ordinary numbers, and no release is unnamed. */
  ghost predicate Ranked(releases: Catalog) {
    "" !in releases && forall t | t in releases :: releases[t].rank < MAX_SAFE_INTEGER
  }

  lemma CatalogIsRanked(repositories: seq<Repository>, releases: Catalog)
    requires CatalogOf(repositories, ReleaseOrderKey, releases) && |releases| <= MAX_SAFE_INTEGER
    ensures Ranked(releases)
  {
    assert ReleaseOrderKey("").None?;
    assert !Catalogued(repositories, ReleaseOrderKey, "");
    assert "" !in releases.Keys;
    forall t | t in releases ensures releases[t].rank < MAX_SAFE_INTEGER {
      var earlier := Earlier(releases, ReleaseOrderKey, t);
      assert t !in earlier by { CompareTextZero(t, t); }
      SubsetCardinality(earlier, releases.Keys);
      assert |releases.Keys| == |releases|;
    }
  }

  lemma ReleaseLevel(x: Issue, y: Issue, releases: Catalog)
    requires Ranked(releases) || (Planned(x, releases) && Planned(y, releases))
    ensures ReleaseRank(Some(ReleaseOrEmpty(x)), releases) < ReleaseRank(Some(ReleaseOrEmpty(y)), releases)
       <==> EarlierRelease(x, y, releases)
  {
  }

  lemma PriorityLevel(x: Issue, y: Issue)
    ensures PriorityRank(Priority(x)) < PriorityRank(Priority(y)) <==> HigherPriority(x, y)
  {
    assert OPEN_PRIORITIES[0] == "P0" && OPEN_PRIORITIES[1] == "P1" && OPEN_PRIORITIES[2] == "P2" && OPEN_PRIORITIES[3] == "P3";
    PlaceOf(x);
    PlaceOf(y);
    var i := PriorityRank(Priority(x));
    if i < PriorityRank(Priority(y)) {
      assert PriorityOf(x) == Some(OPEN_PRIORITIES[i]);
    }
  }

  /** The rank of a priority is its place among the open ones. */
  lemma PlaceOf(x: Issue)
    ensures forall i | 0 <= i < |OPEN_PRIORITIES| :: PriorityRank(Priority(x)) == i <==> PriorityOf(x) == Some(OPEN_PRIORITIES[i])
    ensures 0 <= PriorityRank(Priority(x)) < |OPEN_PRIORITIES| || PriorityRank(Priority(x)) == MAX_SAFE_INTEGER
  {
    assert OPEN_PRIORITIES[0] == "P0" && OPEN_PRIORITIES[1] == "P1" && OPEN_PRIORITIES[2] == "P2" && OPEN_PRIORITIES[3] == "P3";
  }

  /** The comparator puts `x` first exactly when the facts do. */
  lemma ComparesByFacts(x: Issue, y: Issue, m: nat, n: nat, releases: Catalog)
    requires Ranked(releases) || (Planned(x, releases) && Planned(y, releases))
    ensures CompareIssues(x, y, m, n, releases) < 0 <==> Precedes(x, y, m, n, releases)
  {
    ReleaseLevel(x, y, releases);
    ReleaseLevel(y, x, releases);
    PriorityLevel(x, y);
    PriorityLevel(y, x);
    CompareTextZero(x.repository, y.repository);
    CompareTextIsByteOrder(x.repository, y.repository);
  }

  // ---- Published entries ----

  lemma CleanIsPlanned(all: Issues, releases: Catalog, key: IssueKey)
    requires Clean(all, releases) && key in all && all[key].planning.Some? && all[key].state == Open
    ensures Planned(all[key], releases)
  {
    assert WellPlanned(all[key], all, releases);
  }

  /** Every published entry repeats the facts of the open leaf it names. */
  lemma EntryFacts(all: Issues, releases: Catalog, ordered: seq<IssueKey>, i: nat) returns (key: IssueKey)
    requires Clean(all, releases) && DeliveredOrder(OpenManaged(all), releases, ordered)
    requires Elements(ordered) <= OpenManaged(all).Keys && i < |PublishedEntries(OpenManaged(all), releases, ordered)|
    ensures key in all && all[key].planning.Some? && all[key].state == Open && all[key].subIssues == []
    ensures var (e, x) := (PublishedEntries(OpenManaged(all), releases, ordered)[i], all[key]);
      && e.Key() == key && e.position == i + 1
      && e.repository == x.repository && e.issueNumber == x.number && e.title == x.title
      && x.planning.value.release == Some(e.targetRelease) && x.planning.value.priority == Some(e.priority)
      && x.planning.value.readiness == Some(e.readiness)
      && e.status == (if OpenPr in x.closingPullRequests then InProgress else Todo)
      && e.openTransitiveDependents == |ReachSet(OpenManaged(all).Keys, PlanEdges(OpenManaged(all)), key)|
      && (e.crossReleasePrerequisite <==> BlocksEarlierRelease(all, releases, key))
  {
    var open := OpenManaged(all);
    var a := EntryAt(open, releases, ReachCounts(open.Keys, PlanEdges(open)), ordered, i);
    key := ordered[a];
    CrossReleaseByFacts(all, releases, key);
  }

  /** On any graph, clean or not: a blocker is planned later when both releases are named and the
      blocked issue's is the earlier one. */
  lemma PlannedLaterByFacts(blocker: Issue, issue: Issue, releases: Catalog)
    requires Ranked(releases)
    ensures PlannedLater(blocker, issue, releases) <==> ReleaseOf(blocker).Some? && EarlierRelease(issue, blocker, releases)
  {
  }

  /** An open managed issue of a release of lower rank is blocked by `key`. */
  ghost predicate BlocksEarlierRelease(all: Issues, releases: Catalog, key: IssueKey)
    requires key in all
  {
    exists k, r ::
      && k in all && all[k].planning.Some? && all[k].state == Open && r in all[k].blockedBy && r.Key() == key
      && Planned(all[k], releases) && Planned(all[key], releases)
      && releases[ReleaseOf(all[k]).value].rank < releases[ReleaseOf(all[key]).value].rank
  }

  lemma CrossReleaseByFacts(all: Issues, releases: Catalog, key: IssueKey)
    requires Clean(all, releases) && key in OpenManaged(all)
    ensures key in CrossReleasePrerequisites(OpenManaged(all), releases) <==> BlocksEarlierRelease(all, releases, key)
  {
    var open := OpenManaged(all);
    forall k, r: Relation | k in open && r.Key() == key
      ensures PlannedLater(open[r.Key()], open[k], releases) <==>
        releases[ReleaseOf(all[k]).value].rank < releases[ReleaseOf(all[key]).value].rank
    {
      CleanIsPlanned(all, releases, k);
      CleanIsPlanned(all, releases, key);
    }
    forall k | k in open ensures Planned(all[k], releases) { CleanIsPlanned(all, releases, k); }
  }

  /** Of two published leaves that became ready before the same position of the delivered order, the
      one that precedes by the facts is published first. */
  lemma ReadyLeavesByFacts(all: Issues, releases: Catalog, ordered: seq<IssueKey>, p: nat, i: nat, j: nat)
    requires Clean(all, releases) && DeliveredOrder(OpenManaged(all), releases, ordered)
    requires Elements(ordered) <= OpenManaged(all).Keys && p <= |ordered|
    requires i < |PublishedEntries(OpenManaged(all), releases, ordered)|
    requires j < |PublishedEntries(OpenManaged(all), releases, ordered)| && i != j
    requires var (entries, ready) := (PublishedEntries(OpenManaged(all), releases, ordered),
        Ready(OpenManaged(all).Keys, PlanEdges(OpenManaged(all)), {}, Elements(ordered[..p])));
      entries[i].Key() in ready && entries[j].Key() in ready
    ensures var entries := PublishedEntries(OpenManaged(all), releases, ordered);
      entries[i].Key() in all && entries[j].Key() in all &&
      (i < j <==> Precedes(all[entries[i].Key()], all[entries[j].Key()],
                           entries[i].openTransitiveDependents, entries[j].openTransitiveDependents, releases))
  {
    var open := OpenManaged(all);
    var counts := ReachCounts(open.Keys, PlanEdges(open));
    var a := EntryAt(open, releases, counts, ordered, i);
    var b := EntryAt(open, releases, counts, ordered, j);
    PositionsAgree(open, releases, ordered, i, j, a, b);
    ReadyKeysByFacts(all, releases, ordered, p, a, b);
  }

  lemma ReadyKeysByFacts(all: Issues, releases: Catalog, ordered: seq<IssueKey>, p: nat, a: nat, b: nat)
    requires Clean(all, releases) && DeliveredOrder(OpenManaged(all), releases, ordered)
    requires p <= |ordered| && a < |ordered| && b < |ordered| && a != b
    requires var ready := Ready(OpenManaged(all).Keys, PlanEdges(OpenManaged(all)), {}, Elements(ordered[..p]));
      ordered[a] in ready && ordered[b] in ready
    ensures var counts := ReachCounts(OpenManaged(all).Keys, PlanEdges(OpenManaged(all)));
      a < b <==> Precedes(all[ordered[a]], all[ordered[b]], counts[ordered[a]], counts[ordered[b]], releases)
  {
    var open := OpenManaged(all);
    var counts := ReachCounts(open.Keys, PlanEdges(open));
    NothingHeld(all, releases);
    KeyOrderStrict(open, counts, releases);
    ReadyTogether(open.Keys, PlanEdges(open), {}, KeyOrder(open, counts, releases), ordered, p, a, b);
    KeysByFacts(all, releases, counts, ordered[a], ordered[b]);
  }

  lemma KeysByFacts(all: Issues, releases: Catalog, counts: map<IssueKey, nat>, k: IssueKey, m: IssueKey)
    requires Clean(all, releases) && k in OpenManaged(all) && m in OpenManaged(all) && k in counts && m in counts
    ensures KeyOrder(OpenManaged(all), counts, releases)(k, m) < 0 <==> Precedes(all[k], all[m], counts[k], counts[m], releases)
  {
    CleanIsPlanned(all, releases, k);
    CleanIsPlanned(all, releases, m);
    ComparesByFacts(all[k], all[m], counts[k], counts[m], releases);
  }

  lemma PositionsAgree(open: Issues, releases: Catalog, ordered: seq<IssueKey>, i: nat, j: nat, a: nat, b: nat)
    requires WellKeyed(open) && DeliveredOrder(open, releases, ordered) && Elements(ordered) <= open.Keys
    requires i < |PublishedEntries(open, releases, ordered)| && j < |PublishedEntries(open, releases, ordered)| && i != j
    requires a < |ordered| && b < |ordered|
    requires PublishedEntries(open, releases, ordered)[i].Key() == ordered[a]
    requires PublishedEntries(open, releases, ordered)[j].Key() == ordered[b]
    ensures a != b && (i < j <==> a < b)
  {
    var counts := ReachCounts(open.Keys, PlanEdges(open));
    OrderWithin(open, releases, ordered);
    if i < j {
      var x, y := EntriesKeepOrder(open, releases, counts, ordered, i, j);
    } else {
      var y, x := EntriesKeepOrder(open, releases, counts, ordered, j, i);
    }
  }

  /** Leaves without an open prerequisite are published in the order of the facts. */
  lemma UnblockedLeavesByFacts(all: Issues, releases: Catalog, ordered: seq<IssueKey>, i: nat, j: nat)
    requires Clean(all, releases) && DeliveredOrder(OpenManaged(all), releases, ordered)
    requires Elements(ordered) <= OpenManaged(all).Keys
    requires i < |PublishedEntries(OpenManaged(all), releases, ordered)|
    requires j < |PublishedEntries(OpenManaged(all), releases, ordered)| && i != j
    requires var entries := PublishedEntries(OpenManaged(all), releases, ordered);
      Free(all, entries[i].Key()) && Free(all, entries[j].Key())
    ensures var entries := PublishedEntries(OpenManaged(all), releases, ordered);
      i < j <==> Precedes(all[entries[i].Key()], all[entries[j].Key()],
                          entries[i].openTransitiveDependents, entries[j].openTransitiveDependents, releases)
  {
    var k := EntryFacts(all, releases, ordered, i);
    var m := EntryFacts(all, releases, ordered, j);
    FreeIsReady(all, k);
    FreeIsReady(all, m);
    assert Elements(ordered[..0]) == {};
    ReadyLeavesByFacts(all, releases, ordered, 0, i, j);
  }

  /** No open managed issue blocks the issue. */
  ghost predicate Free(all: Issues, key: IssueKey) {
    && key in all
    && forall r | r in all[key].blockedBy && r.Key() in all :: all[r.Key()].planning.None? || all[r.Key()].state == Closed
  }

  lemma FreeIsReady(all: Issues, key: IssueKey)
    requires Free(all, key) && all[key].planning.Some? && all[key].state == Open && all[key].subIssues == []
    ensures key in Ready(OpenManaged(all).Keys, PlanEdges(OpenManaged(all)), {}, {})
  {
    PlanPredecessors(OpenManaged(all), key);
  }
}
