/** The published sequence depends on the audited facts alone, not on the order in which issues,
    relations, pull requests, repositories or milestones are listed
    (tools/governance/roadmap-governance.ts, releaseCatalog and sequence). */
module ListingOrder {
  import opened Text
  import opened Sorting
  import opened Digraph
  import opened Roadmap
  import opened RoadmapStatus
  import opened ReleaseVersion
  import opened ReleaseCatalog
  import opened DependentCounts
  import opened DeliveryOrder
  import opened DependencyGraph
  import opened DeliverySequence
  import opened RoadmapChecks
  import opened PlanningRules
  import opened RoadmapAnalysis
  import opened CleanReport

  /** The same issue; its lists may be in another order. */
  ghost predicate SameIssue(x: Issue, y: Issue) {
    && y == x.(assignees := y.assignees, labels := y.labels, subIssues := y.subIssues, blockedBy := y.blockedBy,
               closingPullRequests := y.closingPullRequests)
    && multiset(x.assignees) == multiset(y.assignees) && multiset(x.labels) == multiset(y.labels)
    && Elements(x.subIssues) == Elements(y.subIssues) && Elements(x.blockedBy) == Elements(y.blockedBy)
    && multiset(x.closingPullRequests) == multiset(y.closingPullRequests)
  }

  ghost predicate SameIssues(a: Issues, b: Issues) {
    a.Keys == b.Keys && forall k | k in a :: SameIssue(a[k], b[k])
  }

  ghost predicate Alike(issues: seq<Issue>, others: seq<Issue>) {
    forall x | x in issues :: exists y | y in others :: SameIssue(x, y)
  }

  /** Two listings of the same facts. */
  ghost predicate SameFacts(a: Snapshot, b: Snapshot) {
    && a.fieldsMatch == b.fieldsMatch && SameRepositories(a.milestones, b.milestones)
    && Alike(a.issues, b.issues) && Alike(b.issues, a.issues)
  }

  lemma SameMaps(a: Snapshot, b: Snapshot)
    requires SameFacts(a, b) && UniqueIdentities(a.issues) && UniqueIdentities(b.issues)
    ensures SameIssues(IssueMap(a.issues), IssueMap(b.issues))
  {
    IssueMapKeyed(a.issues);
    IssueMapKeyed(b.issues);
    IssueMapHolds(a.issues);
    IssueMapHolds(b.issues);
    var m, n := IssueMap(a.issues), IssueMap(b.issues);
    forall k | k in m ensures k in n && SameIssue(m[k], n[k]) {
      var y :| y in b.issues && SameIssue(m[k], y);
      assert y.Key() == k;
    }
    forall k | k in n ensures k in m {
      var x :| x in a.issues && SameIssue(n[k], x);
      assert x.Key() == k;
    }
  }

  lemma SameOpen(a: Issues, b: Issues)
    requires SameIssues(a, b)
    ensures SameIssues(OpenManaged(a), OpenManaged(b))
  {
  }

  lemma SameKeys(x: seq<Relation>, y: seq<Relation>)
    requires Elements(x) == Elements(y)
    ensures Keys(x) == Keys(y) && (x == [] <==> y == [])
  {
    forall r ensures r in x <==> r in y { assert r in Elements(x) <==> r in Elements(y); }
    if x != [] { assert x[0] in y; }
    if y != [] { assert y[0] in x; }
  }

  lemma SamePlan(a: Issues, b: Issues)
    requires SameIssues(a, b)
    ensures PlanEdges(a) == PlanEdges(b)
  {
    forall k | k in a ensures Prerequisites(a[k]) == Prerequisites(b[k]) {
      SameKeys(a[k].blockedBy, b[k].blockedBy);
      SameKeys(a[k].subIssues, b[k].subIssues);
    }
    assert AllDeclared(a) == AllDeclared(b);
  }

  lemma SameHeld(a: Issues, b: Issues)
    requires SameIssues(a, b)
    ensures Held(Outside(a)) == Held(Outside(b))
  {
    forall k | k in a ensures Outside(a)[k] == 0 <==> Outside(b)[k] == 0 {
      OutsideCountZero(a, a[k].blockedBy);
      OutsideCountZero(b, b[k].blockedBy);
      forall r ensures r in a[k].blockedBy <==> r in b[k].blockedBy {
        assert r in Elements(a[k].blockedBy) <==> r in Elements(b[k].blockedBy);
      }
    }
  }

  lemma SameActivity(x: Issue, y: Issue)
    requires SameIssue(x, y)
    ensures IsActive(x) <==> IsActive(y)
    ensures x.IsLeaf() <==> y.IsLeaf()
    ensures x.HasOpenPullRequest() <==> y.HasOpenPullRequest()
    ensures x.Key() == y.Key() && x.TargetRelease() == y.TargetRelease() && Priority(x) == Priority(y)
  {
    SameKeys(x.subIssues, y.subIssues);
    assert OpenPr in multiset(x.closingPullRequests) <==> OpenPr in multiset(y.closingPullRequests);
  }

  lemma SameComparator(a: Issues, b: Issues, counts: map<IssueKey, nat>, releases: Catalog, left: IssueKey, right: IssueKey)
    requires SameIssues(a, b)
    ensures KeyOrder(a, counts, releases)(left, right) == KeyOrder(b, counts, releases)(left, right)
  {
    if left in a && right in a {
      SameActivity(a[left], b[left]);
      SameActivity(a[right], b[right]);
    }
  }

  lemma SameGreedy(nodes: set<Node>, edges: Edges, held: set<Node>, f: Comparator, g: Comparator, order: seq<Node>)
    requires forall x, y :: f(x, y) == g(x, y)
    requires GreedyOrder(nodes, edges, held, f, order)
    ensures GreedyOrder(nodes, edges, held, g, order)
  {
    forall i | 0 <= i < |order| ensures Least(g, order[i], Ready(nodes, edges, held, Elements(order[..i]))) {
      assert Least(f, order[i], Ready(nodes, edges, held, Elements(order[..i])));
    }
  }

  /** The delivered order of either listing is a delivered order of the other. */
  lemma SameDelivered(a: Issues, b: Issues, releases: Catalog, ordered: seq<IssueKey>)
    requires SameIssues(a, b) && DeliveredOrder(b, releases, ordered)
    ensures DeliveredOrder(a, releases, ordered)
  {
    SamePlan(a, b);
    SameHeld(a, b);
    var counts := ReachCounts(a.Keys, PlanEdges(a));
    forall x, y ensures KeyOrder(b, counts, releases)(x, y) == KeyOrder(a, counts, releases)(x, y) {
      SameComparator(a, b, counts, releases, x, y);
    }
    SameGreedy(a.Keys, PlanEdges(a), Held(Outside(a)), KeyOrder(b, counts, releases), KeyOrder(a, counts, releases), ordered);
  }

  lemma SameCross(a: Issues, b: Issues, releases: Catalog)
    requires SameIssues(a, b)
    ensures CrossReleasePrerequisites(a, releases) == CrossReleasePrerequisites(b, releases)
  {
    forall k, r | k in a ensures r in a[k].blockedBy <==> r in b[k].blockedBy {
      assert r in Elements(a[k].blockedBy) <==> r in Elements(b[k].blockedBy);
    }
    forall k, r: Relation | k in a && r.Key() in a
      ensures PlannedLater(a[r.Key()], a[k], releases) <==> PlannedLater(b[r.Key()], b[k], releases)
    {
    }
  }

  lemma SameEntry(x: Issue, y: Issue, releases: Catalog, position: nat, dependents: nat, cross: bool)
    requires SameIssue(x, y)
    ensures Publishable(x, releases) <==> Publishable(y, releases)
    ensures Publishable(x, releases) ==>
      EntryFor(x, releases, position, dependents, cross) == EntryFor(y, releases, position, dependents, cross)
  {
    SameActivity(x, y);
  }

  lemma {:induction false} SameEntries(a: Issues, b: Issues, releases: Catalog, counts: map<IssueKey, nat>, ordered: seq<IssueKey>)
    requires SameIssues(a, b) && Elements(ordered) <= a.Keys <= counts.Keys
    ensures Entries(a, releases, counts, ordered) == Entries(b, releases, counts, ordered)
  {
    if ordered != [] {
      var init, last := ordered[..|ordered| - 1], ordered[|ordered| - 1];
      ElementsSnoc(ordered);
      SameEntries(a, b, releases, counts, init);
      SameCross(a, b, releases);
      SameEntry(a[last], b[last], releases, |Entries(a, releases, counts, init)| + 1, counts[last],
        last in CrossReleasePrerequisites(a, releases));
    }
  }

  /** Two listings of the same facts give the same catalog, the same order and the same entries. */
  lemma SequenceIgnoresListingOrder(a: Snapshot, b: Snapshot, releasesA: Catalog, releasesB: Catalog,
                                    orderedA: seq<IssueKey>, orderedB: seq<IssueKey>,
                                    entriesA: seq<DeliveryEntry>, entriesB: seq<DeliveryEntry>)
    requires SameFacts(a, b) && UniqueIdentities(a.issues) && UniqueIdentities(b.issues)
    requires TitlesDistinct(a.milestones) && TitlesDistinct(b.milestones)
    requires DeliversBy(a, releasesA, orderedA, entriesA) && DeliversBy(b, releasesB, orderedB, entriesB)
    ensures releasesA == releasesB && orderedA == orderedB && entriesA == entriesB
  {
    CatalogUnique(a.milestones, b.milestones, ReleaseOrderKey, releasesA, releasesB);
    SameMaps(a, b);
    IssueMapKeyed(a.issues);
    var open, other := OpenManaged(IssueMap(a.issues)), OpenManaged(IssueMap(b.issues));
    SameOpen(IssueMap(a.issues), IssueMap(b.issues));
    SameDelivered(open, other, releasesB, orderedB);
    SameOrder(open, releasesA, orderedA, orderedB);
    SamePlan(open, other);
    SameEntries(open, other, releasesA, ReachCounts(open.Keys, PlanEdges(open)), orderedA);
  }

  lemma SameOrder(open: Issues, releases: Catalog, orderedA: seq<IssueKey>, orderedB: seq<IssueKey>)
    requires WellKeyed(open) && DeliveredOrder(open, releases, orderedA) && DeliveredOrder(open, releases, orderedB)
    ensures orderedA == orderedB
  {
    var edges := PlanEdges(open);
    var counts := ReachCounts(open.Keys, edges);
    KeyOrderStrict(open, counts, releases);
    GreedyUnique(open.Keys, edges, Held(Outside(open)), KeyOrder(open, counts, releases), orderedA, orderedB);
  }

  // ---- Diagnostics do not depend on the order either ----

  lemma {:induction false} WorkTypesWithout(labels: seq<string>, i: nat)
    requires i < |labels|
    ensures WorkTypeLabels(labels) == WorkTypeLabels(labels[..i] + labels[i + 1..]) + (if IsWorkType(labels[i]) then 1 else 0)
    decreases i
  {
    if i > 0 {
      var rest := labels[..i] + labels[i + 1..];
      WorkTypesWithout(labels[1..], i - 1);
      assert labels[1..][..i - 1] + labels[1..][i..] == rest[1..] && rest[0] == labels[0];
    } else {
      assert labels[..0] + labels[1..] == labels[1..];
    }
  }

  lemma {:induction false} SameWorkTypes(x: seq<string>, y: seq<string>)
    requires multiset(x) == multiset(y)
    ensures WorkTypeLabels(x) == WorkTypeLabels(y)
  {
    if x == [] {
      assert |multiset(y)| == |y| && |multiset(x)| == 0;
    } else {
      var i := Counterpart(x, y);
      WorkTypesWithout(y, i);
      SameWorkTypes(x[1..], y[..i] + y[i + 1..]);
    }
  }

  lemma Counterpart<T(!new)>(x: seq<T>, y: seq<T>) returns (i: nat)
    requires multiset(x) == multiset(y) && x != []
    ensures i < |y| && y[i] == x[0] && multiset(x[1..]) == multiset(y[..i] + y[i + 1..])
  {
    i := IndexIn(y, x[0]) by { assert x[0] in multiset(x); }
    Without(y, i);
    assert x == [x[0]] + x[1..];
    assert multiset(x) == multiset(x[1..]) + multiset{x[0]};
    Cancel(multiset(x[1..]), multiset(y[..i] + y[i + 1..]), x[0]);
  }

  lemma Cancel<T(!new)>(a: multiset<T>, b: multiset<T>, e: T)
    requires a + multiset{e} == b + multiset{e}
    ensures a == b
  {
    forall z ensures a[z] == b[z] { assert (a + multiset{e})[z] == (b + multiset{e})[z]; }
  }

  lemma IndexIn<T>(y: seq<T>, e: T) returns (i: nat)
    requires e in multiset(y)
    ensures i < |y| && y[i] == e
  {
    i :| i < |y| && y[i] == e;
  }

  lemma Without<T>(s: seq<T>, i: nat)
    requires i < |s|
    ensures multiset(s) == multiset(s[..i] + s[i + 1..]) + multiset{s[i]}
  {
    assert s == s[..i] + [s[i]] + s[i + 1..];
  }

  lemma SameOwned(x: Issue, y: Issue)
    requires SameIssue(x, y)
    ensures Owned(x) <==> Owned(y)
  {
    assert |multiset(x.assignees)| == |x.assignees| && |multiset(y.assignees)| == |y.assignees|;
    SameWorkTypes(x.labels, y.labels);
    OwnedExactly(x);
    OwnedExactly(y);
    forall name ensures name in x.labels <==> name in y.labels {
      assert name in multiset(x.labels) <==> name in multiset(y.labels);
    }
  }

  lemma SamePullRequests(x: Issue, y: Issue)
    requires SameIssue(x, y)
    ensures LeafDelivery(x) <==> LeafDelivery(y)
    ensures x.closingPullRequests == [] <==> y.closingPullRequests == []
  {
    forall pr ensures pr in x.closingPullRequests <==> pr in y.closingPullRequests {
      assert pr in multiset(x.closingPullRequests) <==> pr in multiset(y.closingPullRequests);
    }
    assert |multiset(x.closingPullRequests)| == |x.closingPullRequests|;
    assert |multiset(y.closingPullRequests)| == |y.closingPullRequests|;
  }

  lemma SameStarted(a: Issues, b: Issues, key: IssueKey)
    requires SameIssues(a, b) && key in a
    ensures HasStartedLink(a, key) <==> HasStartedLink(b, key)
  {
    forall r ensures r in a[key].subIssues <==> r in b[key].subIssues {
      assert r in Elements(a[key].subIssues) <==> r in Elements(b[key].subIssues);
    }
    forall r ensures StartedLink(a, r) <==> StartedLink(b, r) {
      if r.Key() in a { SameActivity(a[r.Key()], b[r.Key()]); }
    }
  }

  lemma SameChildEdges(a: Issues, b: Issues)
    requires SameIssues(a, b)
    ensures ChildEdges(a) == ChildEdges(b)
  {
    forall k | k in a ensures ChildEdges(a)[k] == ChildEdges(b)[k] { SameKeys(a[k].subIssues, b[k].subIssues); }
  }

  lemma SameStatus(a: Issues, b: Issues, key: IssueKey)
    requires SameIssues(a, b) && key in a && a[key].Key() == key
    ensures b[key].Key() == key && StatusOf(a, a[key]) == StatusOf(b, b[key])
  {
    SameActivity(a[key], b[key]);
    SameChildEdges(a, b);
    forall t | t in a ensures HasStartedLink(a, t) <==> HasStartedLink(b, t) { SameStarted(a, b, t); }
  }

  lemma SameUnblocked(a: Issues, b: Issues, key: IssueKey)
    requires SameIssues(a, b) && key in a && a[key].Key() == key && Unblocked(a[key], a)
    ensures b[key].Key() == key && Unblocked(b[key], b)
  {
    SameStatus(a, b, key);
    forall r ensures r in a[key].blockedBy <==> r in b[key].blockedBy {
      assert r in Elements(a[key].blockedBy) <==> r in Elements(b[key].blockedBy);
    }
    forall r ensures EffectiveState(r, a) == EffectiveState(r, b) {
      if r.Key() in a { SameActivity(a[r.Key()], b[r.Key()]); }
    }
  }

  lemma SameDeclaration(x: Issue, y: Issue, p: Issue, q: Issue, releases: Catalog)
    requires SameIssue(x, y) && SameIssue(p, q)
    ensures DeclaresEarlyPrerequisite(x, p, releases) <==> DeclaresEarlyPrerequisite(y, q, releases)
  {
  }

  lemma SamePlanning(a: Issues, b: Issues, releases: Catalog, key: IssueKey)
    requires SameIssues(a, b) && key in a && a[key].Key() == key && a[key].planning.Some? && WellPlanned(a[key], a, releases)
    ensures b[key].Key() == key && b[key].planning.Some? && WellPlanned(b[key], b, releases)
  {
    var x, y := a[key], b[key];
    SameActivity(x, y);
    if x.state == Open {
      SameOwned(x, y);
      SamePullRequests(x, y);
      SameUnblocked(a, b, key);
      if x.parent.Some? && x.parent.value.Key() in a {
        SameDeclaration(x, y, a[x.parent.value.Key()], b[x.parent.value.Key()], releases);
      }
    }
  }

  lemma SameTarget(a: Issues, b: Issues, relation: Relation)
    requires SameIssues(a, b)
    ensures ManagedTarget(relation, a) <==> ManagedTarget(relation, b)
    ensures SoundBlocker(relation, a) <==> SoundBlocker(relation, b)
  {
  }

  lemma SameListing(x: Issue, y: Issue, key: IssueKey)
    requires SameIssue(x, y)
    ensures RoadmapChecks.Lists(x, key) <==> RoadmapChecks.Lists(y, key)
  {
    forall r ensures r in x.subIssues <==> r in y.subIssues {
      assert r in Elements(x.subIssues) <==> r in Elements(y.subIssues);
    }
  }

  lemma SameLinks(a: Issues, b: Issues, releases: Catalog, key: IssueKey)
    requires SameIssues(a, b) && key in a && WellLinked(a[key], a, releases)
    ensures WellLinked(b[key], b, releases)
  {
    var x, y := a[key], b[key];
    if x.parent.Some? {
      SameTarget(a, b, x.parent.value);
      SameListing(a[x.parent.value.Key()], b[x.parent.value.Key()], x.Key());
    }
    forall child | child in y.subIssues ensures ManagedTarget(child, b) && ChildPlanned(y, b[child.Key()], releases) {
      assert child in Elements(x.subIssues);
      SameTarget(a, b, child);
      SameDeclaration(a[child.Key()], b[child.Key()], x, y, releases);
    }
    forall blocker | blocker in y.blockedBy ensures SoundBlocker(blocker, b) {
      assert blocker in Elements(x.blockedBy);
      SameTarget(a, b, blocker);
    }
  }

  lemma SameClean(a: Issues, b: Issues, releases: Catalog)
    requires SameIssues(a, b) && Clean(a, releases)
    ensures Clean(b, releases)
  {
    SameOpen(a, b);
    SamePlan(OpenManaged(a), OpenManaged(b));
    forall k | k in b ensures b[k].Key() == k { SameActivity(a[k], b[k]); }
    forall k | k in b && b[k].planning.Some? ensures WellPlanned(b[k], b, releases) && WellLinked(b[k], b, releases) {
      assert WellPlanned(a[k], a, releases) && WellLinked(a[k], a, releases);
      SamePlanning(a, b, releases, k);
      SameLinks(a, b, releases, k);
    }
  }

  lemma SameVerdict(a: Snapshot, b: Snapshot)
    requires SameFacts(a, b) && UniqueIdentities(a.issues) && UniqueIdentities(b.issues) && CallsForNothing(a)
    ensures CallsForNothing(b)
  {
    var releases :| CatalogOf(a.milestones, ReleaseOrderKey, releases) && CleanSnapshot(a, releases);
    SoundInAnyOrder(a.milestones, b.milestones, ReleaseOrderKey);
    CatalogIgnoresOrder(b.milestones, a.milestones, ReleaseOrderKey, releases);
    SameMaps(a, b);
    SameClean(IssueMap(a.issues), IssueMap(b.issues), releases);
  }

  /** Two listings of the same facts are both without diagnostics or both with some. */
  lemma VerdictIgnoresListingOrder(a: Snapshot, b: Snapshot)
    requires SameFacts(a, b) && UniqueIdentities(a.issues) && UniqueIdentities(b.issues)
    ensures CallsForNothing(a) <==> CallsForNothing(b)
  {
    if CallsForNothing(a) { SameVerdict(a, b); }
    if CallsForNothing(b) { SameVerdict(b, a); }
  }

  /** If one listing of the facts is clean, every other one publishes the same entries. */
  lemma PublishedSequenceUnique(a: Snapshot, b: Snapshot, entriesA: seq<DeliveryEntry>, entriesB: seq<DeliveryEntry>)
    requires SameFacts(a, b) && UniqueIdentities(a.issues) && UniqueIdentities(b.issues)
    requires CallsForNothing(a) && Delivers(a, entriesA) && Delivers(b, entriesB)
    ensures CallsForNothing(b) && entriesA == entriesB
  {
    SameVerdict(a, b);
    var releasesA, orderedA :| DeliversBy(a, releasesA, orderedA, entriesA);
    var releasesB, orderedB :| DeliversBy(b, releasesB, orderedB, entriesB);
    SoundInAnyOrder(a.milestones, b.milestones, ReleaseOrderKey);
    SequenceIgnoresListingOrder(a, b, releasesA, releasesB, orderedA, orderedB, entriesA, entriesB);
  }
}
