/** The delivery sequence: the frontier comparator, the release and priority ranks, and the
    entries published for the delivered leaves (tools/governance/roadmap-governance.ts, sequence). */
module DeliverySequence {
  import opened Foundation
  import opened Text
  import opened Sorting
  import opened Roadmap
  import opened RoadmapStatus
  import opened ReleaseCatalog
  import opened DependentCounts
  import opened DeliveryOrder
  import opened DependencyGraph

  function ReleaseRank(name: Option<string>, releases: Catalog): int {
    if name.Some? && name.value in releases then releases[name.value].rank else MAX_SAFE_INTEGER
  }

  function PriorityRank(priority: string): int {
    match priority
    case "P0" => 0
    case "P1" => 1
    case "P2" => 2
    case "P3" => 3
    case _ => MAX_SAFE_INTEGER
  }

  function Priority(issue: Issue): string {
    if issue.planning.Some? && issue.planning.value.priority.Some? then issue.planning.value.priority.value else ""
  }

  function ReleaseOrEmpty(issue: Issue): string {
    if issue.TargetRelease().Some? then issue.TargetRelease().value else ""
  }

  /** An open leaf with an open closing pull request. */
  predicate IsActive(issue: Issue) {
    issue.IsLeaf() && issue.state == Open && issue.HasOpenPullRequest()
  }

  lemma ActiveIsInProgressLeaf(allIssues: Issues, issue: Issue)
    requires issue.Key() in allIssues
    ensures IsActive(issue) <==> issue.IsLeaf() && StatusOf(allIssues, issue) == InProgress
  {
  }

  function Number(b: bool): int { if b then 1 else 0 }

  /** The eight levels of the frontier order: active leaves, P0, release, priority, unlocked
      dependents, age, repository and number. */
  function CompareIssues(left: Issue, right: Issue, leftCount: nat, rightCount: nat, releases: Catalog): int {
    var active := Number(IsActive(right)) - Number(IsActive(left));
    if active != 0 then active else
    var p0 := Number(Priority(right) == "P0") - Number(Priority(left) == "P0");
    if p0 != 0 then p0 else
    var release := ReleaseRank(Some(ReleaseOrEmpty(left)), releases) - ReleaseRank(Some(ReleaseOrEmpty(right)), releases);
    if release != 0 then release else
    var priority := PriorityRank(Priority(left)) - PriorityRank(Priority(right));
    if priority != 0 then priority else
    var dependents := rightCount - leftCount;
    if dependents != 0 then dependents else
    var created := left.createdAt - right.createdAt;
    if created != 0 then created else
    var repository := CompareText(left.repository, right.repository);
    if repository != 0 then repository else left.number - right.number
  }

  function CompareKeys(issues: Issues, counts: map<IssueKey, nat>, releases: Catalog, left: IssueKey, right: IssueKey): int {
    if left !in issues || right !in issues then CompareText(left, right)
    else
      CompareIssues(issues[left], issues[right],
        if left in counts then counts[left] else 0, if right in counts then counts[right] else 0, releases)
  }

  lemma CompareIssuesFlip(a: Issue, b: Issue, m: nat, n: nat, releases: Catalog)
    ensures CompareIssues(a, b, m, n, releases) <= 0 <==> CompareIssues(b, a, n, m, releases) >= 0
    ensures CompareIssues(a, b, m, n, releases) == 0 ==> a.Key() == b.Key()
  {
    CompareTextFlip(a.repository, b.repository);
    CompareTextZero(a.repository, b.repository);
  }

  lemma CompareIssuesTransitive(a: Issue, b: Issue, c: Issue, m: nat, n: nat, o: nat, releases: Catalog)
    requires CompareIssues(a, b, m, n, releases) <= 0 && CompareIssues(b, c, n, o, releases) <= 0
    ensures CompareIssues(a, c, m, o, releases) <= 0
  {
    CompareTextZero(a.repository, b.repository);
    CompareTextZero(b.repository, c.repository);
    if CompareText(a.repository, b.repository) <= 0 && CompareText(b.repository, c.repository) <= 0 {
      CompareTextTransitive(a.repository, b.repository, c.repository);
    }
  }

  /** The comparator as the function value handed to the sorts. */
  function KeyOrder(issues: Issues, counts: map<IssueKey, nat>, releases: Catalog): Comparator {
    (a, b) => CompareKeys(issues, counts, releases, a, b)
  }

  /** The frontier comparator is a strict total order on the issues. */
  lemma KeyOrderStrict(issues: Issues, counts: map<IssueKey, nat>, releases: Catalog)
    requires WellKeyed(issues)
    ensures StrictOrder(KeyOrder(issues, counts, releases), issues.Keys)
  {
    var cmp := KeyOrder(issues, counts, releases);
    var count := (k: IssueKey) => if k in counts then counts[k] else 0;
    forall a, b | a in issues.Keys && b in issues.Keys
      ensures cmp(a, b) <= 0 <==> cmp(b, a) >= 0
      ensures cmp(a, b) == 0 <==> a == b
    {
      CompareIssuesFlip(issues[a], issues[b], count(a), count(b), releases);
      CompareTextZero(issues[a].repository, issues[a].repository);
    }
    forall a, b, c | a in issues.Keys && b in issues.Keys && c in issues.Keys && cmp(a, b) <= 0 && cmp(b, c) <= 0
      ensures cmp(a, c) <= 0
    {
      CompareIssuesTransitive(issues[a], issues[b], issues[c], count(a), count(b), count(c), releases);
    }
  }

  /** Active leaves sort before everything else. */
  lemma ActiveSortsFirst(issues: Issues, counts: map<IssueKey, nat>, releases: Catalog, active: set<IssueKey>)
    requires active == set k | k in issues && IsActive(issues[k])
    ensures forall a, b | a in active && b in issues.Keys && b !in active :: KeyOrder(issues, counts, releases)(a, b) < 0
  {
    forall a, b | a in active && b in issues.Keys && b !in active ensures KeyOrder(issues, counts, releases)(a, b) < 0 {
      assert IsActive(issues[a]) && !IsActive(issues[b]);
    }
  }

  // ---- Published entries ----

  datatype DeliveryEntry = DeliveryEntry(
    position: nat,
    repository: string,
    issueNumber: nat,
    title: string,
    targetRelease: string,
    priority: string,
    readiness: string,
    status: Status,
    openTransitiveDependents: nat,
    crossReleasePrerequisite: bool)
  {
    function Key(): IssueKey { KeyOf(repository, issueNumber) }
  }

  /** The filter after the loop: only fully planned leaves of an open release are published. */
  predicate Publishable(issue: Issue, releases: Catalog) {
    && issue.planning.Some? && issue.IsLeaf() && issue.state == Open
    && issue.TargetRelease().Some?
    && issue.TargetRelease().value in releases && releases[issue.TargetRelease().value].state == Open
    && IsOneOf(issue.planning.value.priority, OPEN_PRIORITIES)
    && IsOneOf(issue.planning.value.readiness, LEAF_READINESS)
  }

  function LeafStatus(issue: Issue): Status {
    if issue.HasOpenPullRequest() then InProgress else Todo
  }

  /** Blockers of an issue that is planned for an earlier release than they are. */
  function CrossReleasePrerequisites(issues: Issues, releases: Catalog): set<IssueKey> {
    set k, r | k in issues && r in issues[k].blockedBy && r.Key() in issues && PlannedLater(issues[r.Key()], issues[k], releases) :: r.Key()
  }

  predicate PlannedLater(blocker: Issue, issue: Issue, releases: Catalog) {
    && blocker.TargetRelease().Some? && issue.TargetRelease().Some?
    && ReleaseRank(blocker.TargetRelease(), releases) > ReleaseRank(issue.TargetRelease(), releases)
  }

  function EntryFor(issue: Issue, releases: Catalog, position: nat, dependents: nat, cross: bool): DeliveryEntry
    requires Publishable(issue, releases)
  {
    DeliveryEntry(position, issue.repository, issue.number, issue.title, issue.TargetRelease().value,
      issue.planning.value.priority.value, issue.planning.value.readiness.value, LeafStatus(issue), dependents, cross)
  }

  /** The entries of a delivered order: its publishable keys, in the same order, numbered from 1. */
  ghost function Entries(issues: Issues, releases: Catalog, counts: map<IssueKey, nat>, ordered: seq<IssueKey>): seq<DeliveryEntry>
    requires Elements(ordered) <= issues.Keys <= counts.Keys
  {
    if ordered == [] then []
    else
      var last := ordered[|ordered| - 1];
      ElementsSnoc(ordered);
      var before := Entries(issues, releases, counts, ordered[..|ordered| - 1]);
      if Publishable(issues[last], releases)
      then before + [EntryFor(issues[last], releases, |before| + 1, counts[last], last in CrossReleasePrerequisites(issues, releases))]
      else before
  }

  /** The greedy delivery order of the open managed issues. */
  ghost predicate DeliveredOrder(issues: Issues, releases: Catalog, ordered: seq<IssueKey>) {
    var edges := PlanEdges(issues);
    GreedyOrder(issues.Keys, edges, Held(Outside(issues)),
                KeyOrder(issues, ReachCounts(issues.Keys, edges), releases), ordered)
  }

  ghost function PublishedEntries(issues: Issues, releases: Catalog, ordered: seq<IssueKey>): seq<DeliveryEntry>
    requires Elements(ordered) <= issues.Keys
  {
    Entries(issues, releases, ReachCounts(issues.Keys, PlanEdges(issues)), ordered)
  }

  lemma OrderWithin(issues: Issues, releases: Catalog, ordered: seq<IssueKey>)
    requires DeliveredOrder(issues, releases, ordered)
    ensures Elements(ordered) <= issues.Keys && NoDuplicates(ordered)
  {
    var edges := PlanEdges(issues);
    GreedyDistinct(issues.Keys, edges, Held(Outside(issues)), KeyOrder(issues, ReachCounts(issues.Keys, edges), releases), ordered);
  }

  /** The closing loop: filters and numbers the delivered keys. */
  method Publish(issues: Issues, allIssues: Issues, releases: Catalog, counts: map<IssueKey, nat>, ordered: seq<IssueKey>)
    returns (result: seq<DeliveryEntry>)
    requires WellKeyed(issues) && WellKeyed(allIssues)
    requires forall k | k in issues :: k in allIssues && allIssues[k] == issues[k]
    requires Elements(ordered) <= issues.Keys <= counts.Keys
    ensures result == Entries(issues, releases, counts, ordered)
  {
    result := [];
    var cross := CrossReleasePrerequisites(issues, releases);
    for i := 0 to |ordered|
      invariant Elements(ordered[..i]) <= issues.Keys
      invariant result == Entries(issues, releases, counts, ordered[..i])
    {
      ElementsTake(ordered, i);
      assert ordered[..i + 1][..i] == ordered[..i];
      var issue := issues[ordered[i]];
      var status := ComputeStatus(allIssues, issue);
      if issue.planning.Some? && issue.subIssues == [] && issue.TargetRelease().Some?
         && issue.TargetRelease().value in releases && releases[issue.TargetRelease().value].state == Open
         && IsOneOf(issue.planning.value.priority, OPEN_PRIORITIES)
         && IsOneOf(issue.planning.value.readiness, LEAF_READINESS)
         && (status == Todo || status == InProgress)
      {
        result := result + [EntryFor(issue, releases, |result| + 1, counts[ordered[i]], ordered[i] in cross)];
      }
    }
    assert ordered[..|ordered|] == ordered;
  }

  /** The published sequence is the numbered, filtered greedy order. */
  method Sequence(issues: Issues, allIssues: Issues, releases: Catalog)
    returns (result: seq<DeliveryEntry>, ghost ordered: seq<IssueKey>)
    requires WellKeyed(issues) && WellKeyed(allIssues)
    requires forall k | k in issues :: k in allIssues && allIssues[k] == issues[k]
    ensures DeliveredOrder(issues, releases, ordered) && Elements(ordered) <= issues.Keys
    ensures result == PublishedEntries(issues, releases, ordered)
  {
    var edges, indegree := BuildGraph(issues);
    var counts := TransitiveDependentCounts(issues.Keys, edges);
    KeyOrderStrict(issues, counts, releases);
    EdgesInside(issues);
    var delivered := Deliver(issues.Keys, edges, Outside(issues), KeyOrder(issues, counts, releases), indegree);
    ordered := delivered;
    OrderWithin(issues, releases, ordered);
    result := Publish(issues, allIssues, releases, counts, delivered);
  }

  lemma EdgesInside(issues: Issues)
    ensures forall k | k in PlanEdges(issues) :: PlanEdges(issues)[k] <= issues.Keys
  {
  }

  // ---- What the published entries are ----

  /** Entry `i` is numbered i + 1 and describes the publishable issue it names. */
  lemma {:induction false} EntryAt(issues: Issues, releases: Catalog, counts: map<IssueKey, nat>, ordered: seq<IssueKey>, i: nat)
    returns (a: nat)
    requires WellKeyed(issues) && Elements(ordered) <= issues.Keys <= counts.Keys
    requires i < |Entries(issues, releases, counts, ordered)|
    ensures a < |ordered| && ordered[a] in issues && Publishable(issues[ordered[a]], releases)
    ensures var e := Entries(issues, releases, counts, ordered)[i];
      e.Key() == ordered[a] &&
      e == EntryFor(issues[ordered[a]], releases, i + 1, counts[ordered[a]], ordered[a] in CrossReleasePrerequisites(issues, releases))
  {
    ElementsSnoc(ordered);
    var init := ordered[..|ordered| - 1];
    if i < |Entries(issues, releases, counts, init)| {
      a := EntryAt(issues, releases, counts, init, i);
    } else {
      a := |ordered| - 1;
    }
  }

  /** The entries keep the order of the keys. */
  lemma {:induction false} EntriesKeepOrder(issues: Issues, releases: Catalog, counts: map<IssueKey, nat>, ordered: seq<IssueKey>, i: nat, j: nat)
    returns (a: nat, b: nat)
    requires WellKeyed(issues) && Elements(ordered) <= issues.Keys <= counts.Keys
    requires i < j < |Entries(issues, releases, counts, ordered)|
    ensures a < b < |ordered|
    ensures Entries(issues, releases, counts, ordered)[i].Key() == ordered[a]
    ensures Entries(issues, releases, counts, ordered)[j].Key() == ordered[b]
  {
    ElementsSnoc(ordered);
    var init := ordered[..|ordered| - 1];
    var before := Entries(issues, releases, counts, init);
    if j < |before| {
      a, b := EntriesKeepOrder(issues, releases, counts, init, i, j);
    } else {
      a := EntryAt(issues, releases, counts, init, i);
      b := |ordered| - 1;
    }
  }

  /** Entries stand as their keys stand in the order. */
  lemma EntryOrder(issues: Issues, releases: Catalog, counts: map<IssueKey, nat>, ordered: seq<IssueKey>, i: nat, j: nat, a: nat, b: nat)
    requires WellKeyed(issues) && Elements(ordered) <= issues.Keys <= counts.Keys && NoDuplicates(ordered)
    requires i < |Entries(issues, releases, counts, ordered)| && j < |Entries(issues, releases, counts, ordered)|
    requires a < b < |ordered|
    requires Entries(issues, releases, counts, ordered)[i].Key() == ordered[a]
    requires Entries(issues, releases, counts, ordered)[j].Key() == ordered[b]
    ensures i < j
  {
    if j < i {
      var b', a' := EntriesKeepOrder(issues, releases, counts, ordered, j, i);
    }
  }

  /** Every publishable key of the order has an entry. */
  lemma {:induction false} EntryExists(issues: Issues, releases: Catalog, counts: map<IssueKey, nat>, ordered: seq<IssueKey>, key: IssueKey)
    returns (i: nat)
    requires WellKeyed(issues) && Elements(ordered) <= issues.Keys <= counts.Keys
    requires key in ordered && Publishable(issues[key], releases)
    ensures i < |Entries(issues, releases, counts, ordered)|
    ensures Entries(issues, releases, counts, ordered)[i].Key() == key
  {
    ElementsSnoc(ordered);
    var init := ordered[..|ordered| - 1];
    var before := Entries(issues, releases, counts, init);
    if key in init {
      i := EntryExists(issues, releases, counts, init, key);
    } else {
      i := |before|;
    }
  }
}
