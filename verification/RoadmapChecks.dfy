/** The checks that one issue and its native relations must pass
    (tools/governance/roadmap-governance.ts, the two issue loops of analyzeRoadmapGovernance). */
module RoadmapChecks {
  import opened Foundation
  import opened Text
  import opened Roadmap
  import opened RoadmapStatus
  import opened ReleaseCatalog
  import opened DeliverySequence

  datatype Code =
    | PlanningFieldInvalid
    | ReleaseCatalogInvalid
    | ReleaseExceptionInvalid
    | AssigneeCount
    | WorkTypeCount
    | AreaMissing
    | TargetReleaseMissing
    | TargetReleaseClosed
    | TargetReleaseOrderUnknown
    | HierarchyDepthInvalid
    | PlanningRelationshipMissing
    | OpenHistoricalPriority
    | PriorityInvalid
    | P0ApprovalMissing
    | ReadinessInvalid
    | ParentReadinessInvalid
    | ReadinessEvidenceMismatch
    | DecisionEvidenceMissing
    | InProgressReadinessInvalid
    | ClosedReadinessInvalid
    | MultipleActiveClosingPrs
    | ParentClosingPrForbidden
    | InProgressBlocked
    | AbandonedClosingPr
    | OpenIssueMergedClosingPr
    | ExternalOpenBlocker
    | RelationshipTargetMissing
    | RelationshipStateMismatch
    | HierarchyNotReciprocal
    | HierarchyTargetReleaseMissing
    | HierarchyTargetReleaseMismatch
    | DependencyCycleFound

  predicate IsWorkType(name: string) { name == "bug" || "type:" <= name }

  function WorkTypeLabels(labels: seq<string>): nat {
    if labels == [] then 0 else WorkTypeLabels(labels[1..]) + (if IsWorkType(labels[0]) then 1 else 0)
  }

  predicate HasArea(labels: seq<string>) { exists name | name in labels :: "area:" <= name }

  predicate InOpenRelease(issue: Issue, releases: Catalog) {
    && issue.TargetRelease().Some? && issue.TargetRelease().value in releases
    && releases[issue.TargetRelease().value].state == Open
  }

  predicate InClosedRelease(issue: Issue, releases: Catalog) {
    && issue.TargetRelease().Some? && issue.TargetRelease().value in releases
    && releases[issue.TargetRelease().value].state == Closed
  }

  /** The exact declaration by which a child may be planned for an earlier release than its parent. */
  predicate DeclaresEarlyPrerequisite(issue: Issue, parent: Issue, releases: Catalog) {
    var (child, above) := (issue.TargetRelease(), parent.TargetRelease());
    && child.Some? && above.Some?
    && ReleaseRank(child, releases) != MAX_SAFE_INTEGER && ReleaseRank(above, releases) != MAX_SAFE_INTEGER
    && ReleaseRank(child, releases) < ReleaseRank(above, releases)
    && issue.planning.value.releaseException
       == Some("early-prerequisite-v1; parent " + parent.Key() + "; child " + child.value + "; parent " + above.value + ".")
  }

  function EffectiveState(relation: Relation, allIssues: Issues): IssueState {
    if relation.Key() in allIssues then allIssues[relation.Key()].state else relation.state
  }

  predicate HasOpenBlocker(issue: Issue, allIssues: Issues) {
    exists r | r in issue.blockedBy :: EffectiveState(r, allIssues) == Open
  }

  predicate CompleteMetadata(issue: Issue, releases: Catalog) {
    && |issue.assignees| == 1 && WorkTypeLabels(issue.labels) == 1 && HasArea(issue.labels)
    && InOpenRelease(issue, releases)
    && (issue.parent.Some? || issue.body.standalone)
  }

  predicate CheckedOff(checklist: Option<Checklist>) {
    checklist.Some? && checklist.value.checked > 0 && checklist.value.unchecked == 0
  }

  // ---- One open managed issue ----

  /** Which diagnostics an open issue's metadata call for. */
  ghost predicate MetadataViolation(code: Code, issue: Issue, allIssues: Issues, releases: Catalog)
    requires issue.planning.Some?
  {
    match code
    case ReleaseExceptionInvalid =>
      issue.planning.value.releaseException.Some? &&
      !(issue.parent.Some? && issue.parent.value.Key() in allIssues &&
        DeclaresEarlyPrerequisite(issue, allIssues[issue.parent.value.Key()], releases))
    case AssigneeCount => |issue.assignees| != 1
    case WorkTypeCount => WorkTypeLabels(issue.labels) != 1
    case AreaMissing => !HasArea(issue.labels)
    case _ => false
  }

  method CheckMetadata(issue: Issue, allIssues: Issues, releases: Catalog) returns (codes: seq<Code>)
    requires issue.planning.Some?
    ensures forall c :: c in codes <==> MetadataViolation(c, issue, allIssues, releases)
  {
    codes := [];
    if issue.planning.value.releaseException.Some? {
      if issue.parent.None? || issue.parent.value.Key() !in allIssues
         || !DeclaresEarlyPrerequisite(issue, allIssues[issue.parent.value.Key()], releases)
      {
        codes := codes + [ReleaseExceptionInvalid];
      }
    }
    if |issue.assignees| != 1 { codes := codes + [AssigneeCount]; }
    if WorkTypeLabels(issue.labels) != 1 { codes := codes + [WorkTypeCount]; }
    if !HasArea(issue.labels) { codes := codes + [AreaMissing]; }
  }

  /** Which diagnostics an open issue's release and place in the hierarchy call for. */
  ghost predicate PlacementViolation(code: Code, issue: Issue, releases: Catalog) {
    match code
    case TargetReleaseMissing => issue.TargetRelease().None?
    case TargetReleaseClosed => InClosedRelease(issue, releases)
    case TargetReleaseOrderUnknown =>
      issue.TargetRelease().Some? && !InClosedRelease(issue, releases) &&
      ReleaseRank(issue.TargetRelease(), releases) == MAX_SAFE_INTEGER
    case HierarchyDepthInvalid => issue.parent.Some? && !issue.IsLeaf()
    case PlanningRelationshipMissing => issue.parent.None? && issue.IsLeaf() && !issue.body.standalone
    case _ => false
  }

  method CheckPlacement(issue: Issue, releases: Catalog) returns (codes: seq<Code>)
    ensures forall c :: c in codes <==> PlacementViolation(c, issue, releases)
  {
    codes := [];
    if issue.TargetRelease().None? {
      codes := codes + [TargetReleaseMissing];
    } else if issue.TargetRelease().value in releases && releases[issue.TargetRelease().value].state == Closed {
      codes := codes + [TargetReleaseClosed];
    } else if ReleaseRank(issue.TargetRelease(), releases) == MAX_SAFE_INTEGER {
      codes := codes + [TargetReleaseOrderUnknown];
    }
    if issue.parent.Some? && |issue.subIssues| > 0 { codes := codes + [HierarchyDepthInvalid]; }
    if issue.parent.None? && |issue.subIssues| == 0 && !issue.body.standalone {
      codes := codes + [PlanningRelationshipMissing];
    }
  }

  /** Which diagnostics an open issue's priority calls for. */
  ghost predicate PriorityViolation(code: Code, issue: Issue)
    requires issue.planning.Some?
  {
    var priority := issue.planning.value.priority;
    match code
    case OpenHistoricalPriority => priority == Some("Historical")
    case PriorityInvalid => priority != Some("Historical") && !IsOneOf(priority, OPEN_PRIORITIES)
    case P0ApprovalMissing => priority == Some("P0") && !issue.body.p0Approval
    case _ => false
  }

  method CheckPriority(issue: Issue) returns (codes: seq<Code>)
    requires issue.planning.Some?
    ensures forall c :: c in codes <==> PriorityViolation(c, issue)
  {
    codes := [];
    var priority := issue.planning.value.priority;
    if priority == Some("Historical") {
      codes := [OpenHistoricalPriority];
    } else if !IsOneOf(priority, OPEN_PRIORITIES) {
      codes := [PriorityInvalid];
    } else if priority == Some("P0") && !issue.body.p0Approval {
      codes := [P0ApprovalMissing];
    }
  }

  /** Which diagnostics an open issue's readiness calls for. */
  ghost predicate ReadinessViolation(code: Code, issue: Issue, status: Status, releases: Catalog)
    requires issue.planning.Some?
  {
    var readiness := issue.planning.value.readiness;
    match code
    case ReadinessInvalid =>
      !IsOneOf(readiness, READINESS_VALUES) || (issue.IsLeaf() && !IsOneOf(readiness, LEAF_READINESS))
    case ParentReadinessInvalid => IsOneOf(readiness, READINESS_VALUES) && !issue.IsLeaf() && readiness != Some("Parent")
    case ReadinessEvidenceMismatch =>
      issue.IsLeaf() && readiness == Some("Ready") &&
      !(CompleteMetadata(issue, releases) && CheckedOff(issue.body.readyChecklist))
    case DecisionEvidenceMissing => issue.IsLeaf() && readiness == Some("Needs Decision") && !issue.body.decisionRequest
    case InProgressReadinessInvalid => issue.IsLeaf() && status == InProgress && readiness != Some("Ready")
    case _ => false
  }

  method CheckReadiness(issue: Issue, status: Status, releases: Catalog) returns (codes: seq<Code>)
    requires issue.planning.Some?
    ensures forall c :: c in codes <==> ReadinessViolation(c, issue, status, releases)
  {
    codes := [];
    var readiness := issue.planning.value.readiness;
    if !IsOneOf(readiness, READINESS_VALUES) {
      codes := [ReadinessInvalid];
    } else if |issue.subIssues| > 0 && readiness != Some("Parent") {
      codes := [ParentReadinessInvalid];
    } else if issue.subIssues == [] && readiness == Some("Ready") {
      if !CompleteMetadata(issue, releases) || !CheckedOff(issue.body.readyChecklist) {
        codes := [ReadinessEvidenceMismatch];
      }
    } else if issue.subIssues == [] && readiness == Some("Needs Decision") && !issue.body.decisionRequest {
      codes := [DecisionEvidenceMissing];
    } else if issue.subIssues == [] && readiness != Some("Ready") && readiness != Some("Needs Planning")
              && readiness != Some("Needs Decision")
    {
      codes := [ReadinessInvalid];
    }
    if issue.subIssues == [] && status == InProgress && readiness != Some("Ready") {
      codes := codes + [InProgressReadinessInvalid];
    }
  }

  /** Which diagnostics an open issue's pull requests and blockers call for. */
  ghost predicate DeliveryViolation(code: Code, issue: Issue, status: Status, allIssues: Issues) {
    match code
    case MultipleActiveClosingPrs => multiset(issue.closingPullRequests)[OpenPr] > 1
    case ParentClosingPrForbidden => !issue.IsLeaf() && issue.closingPullRequests != []
    case InProgressBlocked => status == InProgress && HasOpenBlocker(issue, allIssues)
    case AbandonedClosingPr => issue.IsLeaf() && !issue.HasOpenPullRequest() && ClosedPr in issue.closingPullRequests
    case OpenIssueMergedClosingPr => MergedPr in issue.closingPullRequests
    case ExternalOpenBlocker => exists r | r in issue.blockedBy :: r.state == Open && r.Key() !in allIssues
    case _ => false
  }

  method CheckDelivery(issue: Issue, status: Status, allIssues: Issues) returns (codes: seq<Code>)
    ensures forall c :: c in codes <==> DeliveryViolation(c, issue, status, allIssues)
  {
    codes := [];
    if multiset(issue.closingPullRequests)[OpenPr] > 1 { codes := codes + [MultipleActiveClosingPrs]; }
    if |issue.subIssues| > 0 && |issue.closingPullRequests| > 0 { codes := codes + [ParentClosingPrForbidden]; }
    if status == InProgress && HasOpenBlocker(issue, allIssues) { codes := codes + [InProgressBlocked]; }
    if issue.subIssues == [] && !issue.HasOpenPullRequest() && ClosedPr in issue.closingPullRequests {
      codes := codes + [AbandonedClosingPr];
    }
    if MergedPr in issue.closingPullRequests { codes := codes + [OpenIssueMergedClosingPr]; }
    var external := CheckExternalBlockers(issue.blockedBy, allIssues);
    codes := codes + external;
  }

  method CheckExternalBlockers(blockers: seq<Relation>, allIssues: Issues) returns (codes: seq<Code>)
    ensures forall c :: c in codes <==>
      c == ExternalOpenBlocker && exists r | r in blockers :: r.state == Open && r.Key() !in allIssues
  {
    codes := [];
    for i := 0 to |blockers|
      invariant forall c :: c in codes <==>
        c == ExternalOpenBlocker && exists j | 0 <= j < i :: blockers[j].state == Open && blockers[j].Key() !in allIssues
    {
      if blockers[i].state == Open && blockers[i].Key() !in allIssues {
        codes := codes + [ExternalOpenBlocker];
      }
    }
  }

  /** A closed managed issue keeps only its historical facts. */
  ghost predicate ClosedViolation(code: Code, issue: Issue)
    requires issue.planning.Some?
  {
    match code
    case PriorityInvalid => !IsOneOf(issue.planning.value.priority, CLOSED_PRIORITIES)
    case ClosedReadinessInvalid => issue.planning.value.readiness != Some("Historical")
    case _ => false
  }

  ghost predicate IssueViolation(code: Code, issue: Issue, allIssues: Issues, releases: Catalog)
    requires issue.planning.Some? && issue.Key() in allIssues
  {
    if issue.state == Open then
      var status := StatusOf(allIssues, issue);
      || MetadataViolation(code, issue, allIssues, releases)
      || PlacementViolation(code, issue, releases)
      || PriorityViolation(code, issue)
      || ReadinessViolation(code, issue, status, releases)
      || DeliveryViolation(code, issue, status, allIssues)
    else ClosedViolation(code, issue)
  }

  method CheckIssue(issue: Issue, allIssues: Issues, releases: Catalog) returns (codes: seq<Code>)
    requires issue.planning.Some?
    requires WellKeyed(allIssues) && issue.Key() in allIssues && allIssues[issue.Key()] == issue
    ensures forall c :: c in codes <==> IssueViolation(c, issue, allIssues, releases)
  {
    codes := [];
    var status := ComputeStatus(allIssues, issue);
    if issue.state == Open {
      var metadata := CheckMetadata(issue, allIssues, releases);
      var placement := CheckPlacement(issue, releases);
      var priority := CheckPriority(issue);
      var readiness := CheckReadiness(issue, status, releases);
      var delivery := CheckDelivery(issue, status, allIssues);
      codes := metadata + placement + priority + readiness + delivery;
    } else {
      if !IsOneOf(issue.planning.value.priority, CLOSED_PRIORITIES) { codes := codes + [PriorityInvalid]; }
      if issue.planning.value.readiness != Some("Historical") { codes := codes + [ClosedReadinessInvalid]; }
    }
  }

  // ---- The native relations of one managed issue ----

  datatype LinkKind = ParentLink | ChildLink | BlockerLink

  /** What a relation's target calls for: it must be a known Roadmap issue in the reported state,
      unless it is a closed or unknown blocker. */
  ghost predicate LinkViolation(code: Code, relation: Relation, kind: LinkKind, allIssues: Issues) {
    var known := relation.Key() in allIssues;
    match code
    case RelationshipTargetMissing =>
      if known then allIssues[relation.Key()].planning.None? && (kind != BlockerLink || relation.state == Open)
      else kind != BlockerLink
    case RelationshipStateMismatch => known && relation.state != allIssues[relation.Key()].state
    case _ => false
  }

  method ValidateRelation(relation: Relation, kind: LinkKind, allIssues: Issues) returns (codes: seq<Code>)
    ensures forall c :: c in codes <==> LinkViolation(c, relation, kind, allIssues)
  {
    codes := [];
    if relation.Key() !in allIssues {
      if kind != BlockerLink { codes := codes + [RelationshipTargetMissing]; }
      return;
    }
    var target := allIssues[relation.Key()];
    if target.planning.None? && (kind != BlockerLink || relation.state == Open) {
      codes := codes + [RelationshipTargetMissing];
    }
    if relation.state != target.state { codes := codes + [RelationshipStateMismatch]; }
  }

  predicate Lists(parent: Issue, key: IssueKey) {
    exists r | r in parent.subIssues :: r.Key() == key
  }

  ghost predicate ParentViolation(code: Code, issue: Issue, allIssues: Issues) {
    issue.parent.Some? &&
    (|| LinkViolation(code, issue.parent.value, ParentLink, allIssues)
     || (code == HierarchyNotReciprocal && issue.parent.value.Key() in allIssues &&
         !Lists(allIssues[issue.parent.value.Key()], issue.Key())))
  }

  ghost predicate ChildViolation(code: Code, issue: Issue, child: Relation, allIssues: Issues, releases: Catalog) {
    || LinkViolation(code, child, ChildLink, allIssues)
    || (child.Key() in allIssues &&
        var target := allIssues[child.Key()];
        match code
        case HierarchyTargetReleaseMissing => issue.TargetRelease().None? || target.TargetRelease().None?
        case HierarchyTargetReleaseMismatch =>
          issue.TargetRelease().Some? && target.TargetRelease().Some? &&
          target.TargetRelease() != issue.TargetRelease() && !DeclaresEarlyPrerequisite(target, issue, releases)
        case HierarchyNotReciprocal =>
          target.state == Open && !(target.parent.Some? && target.parent.value.Key() == issue.Key())
        case _ => false)
  }

  ghost predicate RelationViolation(code: Code, issue: Issue, allIssues: Issues, releases: Catalog) {
    || ParentViolation(code, issue, allIssues)
    || (exists child | child in issue.subIssues :: ChildViolation(code, issue, child, allIssues, releases))
    || (exists blocker | blocker in issue.blockedBy :: LinkViolation(code, blocker, BlockerLink, allIssues))
  }

  method CheckChild(issue: Issue, child: Relation, allIssues: Issues, releases: Catalog) returns (codes: seq<Code>)
    ensures forall c :: c in codes <==> ChildViolation(c, issue, child, allIssues, releases)
  {
    codes := ValidateRelation(child, ChildLink, allIssues);
    if child.Key() in allIssues {
      var target := allIssues[child.Key()];
      if issue.TargetRelease().None? || target.TargetRelease().None? {
        codes := codes + [HierarchyTargetReleaseMissing];
      } else if target.TargetRelease() != issue.TargetRelease() && !DeclaresEarlyPrerequisite(target, issue, releases) {
        codes := codes + [HierarchyTargetReleaseMismatch];
      }
      if target.state == Open && (target.parent.None? || target.parent.value.Key() != issue.Key()) {
        codes := codes + [HierarchyNotReciprocal];
      }
    }
  }

  method CheckRelations(issue: Issue, allIssues: Issues, releases: Catalog) returns (codes: seq<Code>)
    ensures forall c :: c in codes <==> RelationViolation(c, issue, allIssues, releases)
  {
    codes := [];
    if issue.parent.Some? {
      codes := ValidateRelation(issue.parent.value, ParentLink, allIssues);
      if issue.parent.value.Key() in allIssues && !Lists(allIssues[issue.parent.value.Key()], issue.Key()) {
        codes := codes + [HierarchyNotReciprocal];
      }
    }
    for i := 0 to |issue.subIssues|
      invariant forall c :: c in codes <==>
        (ParentViolation(c, issue, allIssues) ||
         exists j | 0 <= j < i :: ChildViolation(c, issue, issue.subIssues[j], allIssues, releases))
    {
      var found := CheckChild(issue, issue.subIssues[i], allIssues, releases);
      codes := codes + found;
    }
    ghost var before := codes;
    for i := 0 to |issue.blockedBy|
      invariant forall c :: c in codes <==>
        (c in before || exists j | 0 <= j < i :: LinkViolation(c, issue.blockedBy[j], BlockerLink, allIssues))
    {
      var found := ValidateRelation(issue.blockedBy[i], BlockerLink, allIssues);
      codes := codes + found;
    }
  }
}
