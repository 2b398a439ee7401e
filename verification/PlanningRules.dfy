/** What the governance checks ask of an issue, said positively: the closed form of an issue that
    draws no diagnostic (tools/governance/roadmap-governance.ts, the two issue loops of
    analyzeRoadmapGovernance). */
module PlanningRules {
  import opened Foundation
  import opened Text
  import opened Roadmap
  import opened RoadmapStatus
  import opened ReleaseCatalog
  import opened DeliverySequence
  import opened RoadmapChecks

  // ---- One issue by itself ----

  /** The release is catalogued under an ordinary rank. */
  predicate HasRank(name: Option<string>, releases: Catalog) {
    name.Some? && name.value in releases && releases[name.value].rank != MAX_SAFE_INTEGER
  }

  /** The issue is planned for an earlier release than its parent, and its release exception says so
      word for word. */
  predicate DeclaredEarlier(issue: Issue, parent: Issue, releases: Catalog) {
    && issue.planning.Some? && parent.planning.Some?
    && HasRank(issue.planning.value.release, releases) && HasRank(parent.planning.value.release, releases)
    && var (own, above) := (issue.planning.value.release.value, parent.planning.value.release.value);
       && releases[own].rank < releases[above].rank
       && issue.planning.value.releaseException
          == Some("early-prerequisite-v1; parent " + parent.repository + "#" + Decimal(parent.number) + "; child " + own + "; parent " + above + ".")
  }

  /** A release exception, if there is one, matches the parent and both releases. */
  ghost predicate SoundException(issue: Issue, all: Issues, releases: Catalog)
    requires issue.planning.Some?
  {
    issue.planning.value.releaseException.Some? ==>
      issue.parent.Some? && issue.parent.value.Key() in all &&
      DeclaredEarlier(issue, all[issue.parent.value.Key()], releases)
  }

  predicate StartsWith(name: string, prefix: string) { |name| >= |prefix| && name[..|prefix|] == prefix }

  predicate NamesWork(name: string) { name == "bug" || StartsWith(name, "type:") }

  ghost predicate OneWork(labels: seq<string>) {
    exists i | 0 <= i < |labels| :: NamesWork(labels[i]) && forall j | 0 <= j < |labels| && NamesWork(labels[j]) :: j == i
  }

  /** One assignee, exactly one label that names a kind of work, and at least one area. */
  ghost predicate Owned(issue: Issue) {
    && |issue.assignees| == 1 && OneWork(issue.labels)
    && (exists i | 0 <= i < |issue.labels| :: StartsWith(issue.labels[i], "area:"))
  }

  /** A catalogued, ranked and open release. */
  predicate Scheduled(issue: Issue, releases: Catalog) {
    && issue.planning.Some? && HasRank(issue.planning.value.release, releases)
    && releases[issue.planning.value.release.value].state == Open
  }

  /** P0 to P3, and P0 only with approval. */
  predicate Prioritized(issue: Issue)
    requires issue.planning.Some?
  {
    && issue.planning.value.priority in [Some("P0"), Some("P1"), Some("P2"), Some("P3")]
    && (issue.planning.value.priority == Some("P0") ==> issue.body.p0Approval)
  }

  /** A leaf stands below a parent or alone, and shows the evidence for its readiness; with an open
      pull request only a Ready leaf with every item of a non-empty checklist checked will do. */
  predicate LeafReady(issue: Issue)
    requires issue.planning.Some?
  {
    var (readiness, checklist) := (issue.planning.value.readiness, issue.body.readyChecklist);
    && (issue.parent.Some? || issue.body.standalone)
    && (|| (readiness == Some("Ready") && checklist.Some? && checklist.value.checked > 0 && checklist.value.unchecked == 0)
        || (readiness == Some("Needs Planning") && OpenPr !in issue.closingPullRequests)
        || (readiness == Some("Needs Decision") && issue.body.decisionRequest && OpenPr !in issue.closingPullRequests))
  }

  /** At most one open pull request, none merged, and none closed unless one is open. */
  predicate LeafDelivery(issue: Issue) {
    && multiset(issue.closingPullRequests)[OpenPr] <= 1 && MergedPr !in issue.closingPullRequests
    && (ClosedPr in issue.closingPullRequests ==> OpenPr in issue.closingPullRequests)
  }

  /** A parent is a root with Parent readiness and without pull requests of its own. */
  predicate ParentReady(issue: Issue)
    requires issue.planning.Some?
  {
    issue.parent.None? && issue.planning.value.readiness == Some("Parent") && issue.closingPullRequests == []
  }

  /** A blocker counts as closed by its own record, or by the link when it has none. */
  predicate BlockerClosed(blocker: Relation, all: Issues) {
    if blocker.Key() in all then all[blocker.Key()].state == Closed else blocker.state == Closed
  }

  /** Open blockers are known, and all blockers of work in progress are closed. */
  ghost predicate Unblocked(issue: Issue, all: Issues)
    requires issue.Key() in all
  {
    && (forall r | r in issue.blockedBy && r.state == Open :: r.Key() in all)
    && (StatusOf(all, issue) == InProgress ==> forall r | r in issue.blockedBy :: BlockerClosed(r, all))
  }

  // ---- These terms are those of the checks ----

  lemma {:induction false} NoWork(labels: seq<string>)
    ensures WorkTypeLabels(labels) == 0 <==> forall i | 0 <= i < |labels| :: !NamesWork(labels[i])
  {
    if labels != [] {
      NoWork(labels[1..]);
      assert forall i | 0 < i < |labels| :: labels[i] == labels[1..][i - 1];
    }
  }

  lemma {:induction false} OneWorkExactly(labels: seq<string>)
    ensures WorkTypeLabels(labels) == 1 <==> OneWork(labels)
  {
    if labels != [] {
      var rest := labels[1..];
      NoWork(rest);
      OneWorkExactly(rest);
      assert forall i | 0 < i < |labels| :: labels[i] == rest[i - 1];
      if NamesWork(labels[0]) {
        if WorkTypeLabels(rest) == 0 { assert forall j | 0 <= j < |labels| && NamesWork(labels[j]) :: j == 0; }
      } else {
        OneWorkBehind(labels);
      }
    }
  }

  lemma OneWorkBehind(labels: seq<string>)
    requires labels != [] && !NamesWork(labels[0])
    ensures OneWork(labels) <==> OneWork(labels[1..])
  {
    var rest := labels[1..];
    assert forall i | 0 < i < |labels| :: labels[i] == rest[i - 1];
    if OneWork(rest) {
      var i :| 0 <= i < |rest| && NamesWork(rest[i]) && forall j | 0 <= j < |rest| && NamesWork(rest[j]) :: j == i;
      assert NamesWork(labels[i + 1]);
    }
    if OneWork(labels) {
      var i :| 0 <= i < |labels| && NamesWork(labels[i]) && forall j | 0 <= j < |labels| && NamesWork(labels[j]) :: j == i;
      assert NamesWork(rest[i - 1]);
      forall j | 0 <= j < |rest| && NamesWork(rest[j]) ensures j == i - 1 { assert NamesWork(labels[j + 1]); }
    }
  }

  lemma OwnedExactly(issue: Issue)
    ensures Owned(issue) <==> |issue.assignees| == 1 && WorkTypeLabels(issue.labels) == 1 && HasArea(issue.labels)
  {
    OneWorkExactly(issue.labels);
    if name :| name in issue.labels && "area:" <= name {
      var i :| 0 <= i < |issue.labels| && issue.labels[i] == name;
      assert StartsWith(issue.labels[i], "area:");
    }
    if i :| 0 <= i < |issue.labels| && StartsWith(issue.labels[i], "area:") {
      assert issue.labels[i] in issue.labels && "area:" <= issue.labels[i];
    }
  }

  lemma ScheduledExactly(issue: Issue, releases: Catalog)
    ensures Scheduled(issue, releases) <==>
      InOpenRelease(issue, releases) && ReleaseRank(issue.TargetRelease(), releases) != MAX_SAFE_INTEGER
  {
  }

  lemma PrioritizedExactly(issue: Issue)
    requires issue.planning.Some?
    ensures issue.planning.value.priority in [Some("P0"), Some("P1"), Some("P2"), Some("P3")]
       <==> IsOneOf(issue.planning.value.priority, OPEN_PRIORITIES)
  {
    var known := [Some("P0"), Some("P1"), Some("P2"), Some("P3")];
    assert forall i | 0 <= i < 4 :: known[i] == Some(OPEN_PRIORITIES[i]);
  }

  /** The declaration that the checks look for. */
  lemma DeclaredEarlierExactly(issue: Issue, parent: Issue, releases: Catalog)
    requires issue.planning.Some?
    ensures DeclaresEarlyPrerequisite(issue, parent, releases) <==> DeclaredEarlier(issue, parent, releases)
  {
    if parent.planning.Some? && issue.planning.value.release.Some? && parent.planning.value.release.Some? {
      var (own, above) := (issue.planning.value.release.value, parent.planning.value.release.value);
      assert "early-prerequisite-v1; parent " + (parent.repository + "#" + Decimal(parent.number)) + "; child " + own + "; parent " + above + "."
        == "early-prerequisite-v1; parent " + parent.repository + "#" + Decimal(parent.number) + "; child " + own + "; parent " + above + ".";
    }
  }

  lemma BlockersExactly(issue: Issue, all: Issues)
    ensures !HasOpenBlocker(issue, all) <==> forall r | r in issue.blockedBy :: BlockerClosed(r, all)
  {
    forall r ensures EffectiveState(r, all) == Closed <==> BlockerClosed(r, all) {
    }
  }

  /** An issue that draws no diagnostic of its own. */
  ghost predicate WellPlanned(issue: Issue, all: Issues, releases: Catalog)
    requires issue.planning.Some? && issue.Key() in all
  {
    if issue.state == Closed then
      && issue.planning.value.priority in [Some("P0"), Some("P1"), Some("P2"), Some("P3"), Some("Historical")]
      && issue.planning.value.readiness == Some("Historical")
    else
      && SoundException(issue, all, releases) && Owned(issue) && Scheduled(issue, releases) && Prioritized(issue)
      && (if issue.IsLeaf() then LeafReady(issue) && LeafDelivery(issue) else ParentReady(issue))
      && Unblocked(issue, all)
  }

  lemma MetadataExactly(issue: Issue, all: Issues, releases: Catalog)
    requires issue.planning.Some?
    ensures (forall c :: !MetadataViolation(c, issue, all, releases)) <==> SoundException(issue, all, releases) && Owned(issue)
  {
    OwnedExactly(issue);
    if issue.parent.Some? && issue.parent.value.Key() in all {
      DeclaredEarlierExactly(issue, all[issue.parent.value.Key()], releases);
    }
    if forall c :: !MetadataViolation(c, issue, all, releases) {
      assert !MetadataViolation(ReleaseExceptionInvalid, issue, all, releases);
      assert !MetadataViolation(AssigneeCount, issue, all, releases);
      assert !MetadataViolation(WorkTypeCount, issue, all, releases);
      assert !MetadataViolation(AreaMissing, issue, all, releases);
    }
  }

  /** Placed in the hierarchy: below a parent, above sub-issues, or declared to stand alone. */
  predicate Placed(issue: Issue) {
    if issue.IsLeaf() then issue.parent.Some? || issue.body.standalone else issue.parent.None?
  }

  lemma PlacementExactly(issue: Issue, releases: Catalog)
    ensures (forall c :: !PlacementViolation(c, issue, releases)) <==> Scheduled(issue, releases) && Placed(issue)
  {
    ScheduledExactly(issue, releases);
    if forall c :: !PlacementViolation(c, issue, releases) {
      assert !PlacementViolation(TargetReleaseMissing, issue, releases);
      assert !PlacementViolation(TargetReleaseClosed, issue, releases);
      assert !PlacementViolation(TargetReleaseOrderUnknown, issue, releases);
      assert !PlacementViolation(HierarchyDepthInvalid, issue, releases);
      assert !PlacementViolation(PlanningRelationshipMissing, issue, releases);
    }
  }

  lemma PriorityExactly(issue: Issue)
    requires issue.planning.Some?
    ensures (forall c :: !PriorityViolation(c, issue)) <==> Prioritized(issue)
  {
    PrioritizedExactly(issue);
    if forall c :: !PriorityViolation(c, issue) {
      assert !PriorityViolation(OpenHistoricalPriority, issue);
      assert !PriorityViolation(PriorityInvalid, issue);
      assert !PriorityViolation(P0ApprovalMissing, issue);
    }
  }

  /** What the evidence for Ready consists of. */
  lemma EvidenceByFacts(issue: Issue, releases: Catalog)
    ensures CompleteMetadata(issue, releases) <==>
      && Owned(issue) && issue.planning.Some? && issue.planning.value.release.Some?
      && issue.planning.value.release.value in releases && releases[issue.planning.value.release.value].state == Open
      && (issue.parent.Some? || issue.body.standalone)
    ensures CheckedOff(issue.body.readyChecklist) <==>
      issue.body.readyChecklist.Some? && issue.body.readyChecklist.value.checked >= 1 && issue.body.readyChecklist.value.unchecked == 0
  {
    OwnedExactly(issue);
  }

  /** The readiness checks of an owned, scheduled and placed issue come down to the evidence. */
  lemma ReadinessExactly(issue: Issue, status: Status, releases: Catalog)
    requires issue.planning.Some? && Owned(issue) && Scheduled(issue, releases) && Placed(issue)
    requires issue.IsLeaf() ==> (status == InProgress <==> issue.HasOpenPullRequest())
    ensures (forall c :: !ReadinessViolation(c, issue, status, releases)) <==>
      if issue.IsLeaf() then LeafReady(issue) else issue.planning.value.readiness == Some("Parent")
  {
    OwnedExactly(issue);
    ScheduledExactly(issue, releases);
    if forall c :: !ReadinessViolation(c, issue, status, releases) {
      assert !ReadinessViolation(ReadinessInvalid, issue, status, releases);
      assert !ReadinessViolation(ParentReadinessInvalid, issue, status, releases);
      assert !ReadinessViolation(ReadinessEvidenceMismatch, issue, status, releases);
      assert !ReadinessViolation(DecisionEvidenceMissing, issue, status, releases);
      assert !ReadinessViolation(InProgressReadinessInvalid, issue, status, releases);
    }
  }

  lemma DeliveryExactly(issue: Issue, all: Issues)
    requires issue.Key() in all
    ensures (forall c :: !DeliveryViolation(c, issue, StatusOf(all, issue), all)) <==>
      (if issue.IsLeaf() then LeafDelivery(issue) else issue.closingPullRequests == []) && Unblocked(issue, all)
  {
    BlockersExactly(issue, all);
    var status := StatusOf(all, issue);
    if forall c :: !DeliveryViolation(c, issue, status, all) {
      assert !DeliveryViolation(MultipleActiveClosingPrs, issue, status, all);
      assert !DeliveryViolation(ParentClosingPrForbidden, issue, status, all);
      assert !DeliveryViolation(InProgressBlocked, issue, status, all);
      assert !DeliveryViolation(AbandonedClosingPr, issue, status, all);
      assert !DeliveryViolation(OpenIssueMergedClosingPr, issue, status, all);
      assert !DeliveryViolation(ExternalOpenBlocker, issue, status, all);
    }
  }

  lemma ClosedExactly(issue: Issue)
    requires issue.planning.Some?
    ensures (forall c :: !ClosedViolation(c, issue)) <==>
      && issue.planning.value.priority in [Some("P0"), Some("P1"), Some("P2"), Some("P3"), Some("Historical")]
      && issue.planning.value.readiness == Some("Historical")
  {
    PrioritizedExactly(issue);
    if forall c :: !ClosedViolation(c, issue) {
      assert !ClosedViolation(PriorityInvalid, issue);
      assert !ClosedViolation(ClosedReadinessInvalid, issue);
    }
  }

  /** An issue draws no diagnostic of its own iff it is well planned. */
  lemma WellPlannedExactly(issue: Issue, all: Issues, releases: Catalog)
    requires issue.planning.Some? && issue.Key() in all
    ensures (forall c :: !IssueViolation(c, issue, all, releases)) <==> WellPlanned(issue, all, releases)
  {
    if issue.state == Closed {
      ClosedExactly(issue);
      forall c ensures IssueViolation(c, issue, all, releases) <==> ClosedViolation(c, issue) {
      }
    } else {
      OpenParts(issue, all, releases);
      MetadataExactly(issue, all, releases);
      PlacementExactly(issue, releases);
      PriorityExactly(issue);
      DeliveryExactly(issue, all);
      if Owned(issue) && Scheduled(issue, releases) && Placed(issue) {
        ReadinessExactly(issue, StatusOf(all, issue), releases);
      }
    }
  }

  lemma OpenParts(issue: Issue, all: Issues, releases: Catalog)
    requires issue.planning.Some? && issue.Key() in all && issue.state == Open
    ensures (forall c :: !IssueViolation(c, issue, all, releases)) <==>
      && (forall c :: !MetadataViolation(c, issue, all, releases)) && (forall c :: !PlacementViolation(c, issue, releases))
      && (forall c :: !PriorityViolation(c, issue))
      && (forall c :: !ReadinessViolation(c, issue, StatusOf(all, issue), releases))
      && (forall c :: !DeliveryViolation(c, issue, StatusOf(all, issue), all))
  {
    var status := StatusOf(all, issue);
    forall c ensures IssueViolation(c, issue, all, releases) <==>
      MetadataViolation(c, issue, all, releases) || PlacementViolation(c, issue, releases) || PriorityViolation(c, issue)
      || ReadinessViolation(c, issue, status, releases) || DeliveryViolation(c, issue, status, all)
    {
    }
  }

  // ---- The relations of one issue ----

  /** The target is a Roadmap issue in the reported state. */
  predicate ManagedTarget(relation: Relation, all: Issues) {
    && relation.Key() in all && all[relation.Key()].planning.Some?
    && relation.state == all[relation.Key()].state
  }

  /** A child has its parent's release or declares an earlier one, and while open names its parent. */
  predicate ChildPlanned(issue: Issue, child: Issue, releases: Catalog) {
    && issue.TargetRelease().Some? && child.TargetRelease().Some?
    && (child.TargetRelease() == issue.TargetRelease() || DeclaredEarlier(child, issue, releases))
    && (child.state == Open ==> child.parent.Some? && child.parent.value.Key() == issue.Key())
  }

  /** A known blocker is in the reported state, and in the Roadmap while open. */
  predicate SoundBlocker(blocker: Relation, all: Issues) {
    blocker.Key() in all ==>
      blocker.state == all[blocker.Key()].state && (blocker.state == Open ==> all[blocker.Key()].planning.Some?)
  }

  /** An issue whose relations draw no diagnostic. */
  ghost predicate WellLinked(issue: Issue, all: Issues, releases: Catalog) {
    && (issue.parent.Some? ==>
          && ManagedTarget(issue.parent.value, all)
          && exists r | r in all[issue.parent.value.Key()].subIssues :: r.Key() == issue.Key())
    && (forall child | child in issue.subIssues :: ManagedTarget(child, all) && ChildPlanned(issue, all[child.Key()], releases))
    && (forall blocker | blocker in issue.blockedBy :: SoundBlocker(blocker, all))
  }

  lemma LinkExactly(relation: Relation, kind: LinkKind, all: Issues)
    ensures (forall c :: !LinkViolation(c, relation, kind, all)) <==>
      if kind == BlockerLink then SoundBlocker(relation, all) else ManagedTarget(relation, all)
  {
    if forall c :: !LinkViolation(c, relation, kind, all) {
      assert !LinkViolation(RelationshipTargetMissing, relation, kind, all);
      assert !LinkViolation(RelationshipStateMismatch, relation, kind, all);
    }
  }

  lemma ParentExactly(issue: Issue, all: Issues)
    ensures (forall c :: !ParentViolation(c, issue, all)) <==>
      (issue.parent.Some? ==>
        ManagedTarget(issue.parent.value, all) && RoadmapChecks.Lists(all[issue.parent.value.Key()], issue.Key()))
  {
    if issue.parent.Some? {
      LinkExactly(issue.parent.value, ParentLink, all);
      if forall c :: !ParentViolation(c, issue, all) {
        assert forall c :: !ParentViolation(c, issue, all) ==> !LinkViolation(c, issue.parent.value, ParentLink, all);
        assert !ParentViolation(HierarchyNotReciprocal, issue, all);
      }
    }
  }

  lemma ChildExactly(issue: Issue, child: Relation, all: Issues, releases: Catalog)
    ensures (forall c :: !ChildViolation(c, issue, child, all, releases)) <==>
      ManagedTarget(child, all) && ChildPlanned(issue, all[child.Key()], releases)
  {
    if child.Key() in all && all[child.Key()].planning.Some? { DeclaredEarlierExactly(all[child.Key()], issue, releases); }
    LinkExactly(child, ChildLink, all);
    if forall c :: !ChildViolation(c, issue, child, all, releases) {
      assert forall c :: !ChildViolation(c, issue, child, all, releases) ==> !LinkViolation(c, child, ChildLink, all);
      assert !ChildViolation(HierarchyTargetReleaseMissing, issue, child, all, releases);
      assert !ChildViolation(HierarchyTargetReleaseMismatch, issue, child, all, releases);
      assert !ChildViolation(HierarchyNotReciprocal, issue, child, all, releases);
    }
  }

  lemma RelationParts(issue: Issue, all: Issues, releases: Catalog)
    ensures (forall c :: !RelationViolation(c, issue, all, releases)) <==>
      && (forall c :: !ParentViolation(c, issue, all))
      && (forall child | child in issue.subIssues :: forall c :: !ChildViolation(c, issue, child, all, releases))
      && (forall blocker | blocker in issue.blockedBy :: forall c :: !LinkViolation(c, blocker, BlockerLink, all))
  {
    if forall c :: !RelationViolation(c, issue, all, releases) {
      forall c ensures !ParentViolation(c, issue, all) { assert !RelationViolation(c, issue, all, releases); }
      forall child, c | child in issue.subIssues ensures !ChildViolation(c, issue, child, all, releases) {
        assert !RelationViolation(c, issue, all, releases);
      }
      forall blocker, c | blocker in issue.blockedBy ensures !LinkViolation(c, blocker, BlockerLink, all) {
        assert !RelationViolation(c, issue, all, releases);
      }
    }
  }

  /** An issue's relations draw no diagnostic iff it is well linked. */
  lemma WellLinkedExactly(issue: Issue, all: Issues, releases: Catalog)
    ensures (forall c :: !RelationViolation(c, issue, all, releases)) <==> WellLinked(issue, all, releases)
  {
    RelationParts(issue, all, releases);
    ParentExactly(issue, all);
    forall child ensures (forall c :: !ChildViolation(c, issue, child, all, releases)) <==>
      ManagedTarget(child, all) && ChildPlanned(issue, all[child.Key()], releases)
    {
      ChildExactly(issue, child, all, releases);
    }
    forall blocker ensures (forall c :: !LinkViolation(c, blocker, BlockerLink, all)) <==> SoundBlocker(blocker, all) {
      LinkExactly(blocker, BlockerLink, all);
    }
  }
}
