/** The governed Roadmap: issues, their planning facts and native relations
    (tools/governance/roadmap-governance/contracts.ts). */
module Roadmap {
  import opened Foundation
  import opened Text

  datatype IssueState = Open | Closed

  datatype PullRequestState = OpenPr | ClosedPr | MergedPr

  datatype Status = Todo | InProgress | Done

  datatype Relation = Relation(repository: string, number: nat, state: IssueState) {
    function Key(): IssueKey { KeyOf(repository, number) }
  }

  datatype Planning = Planning(
    priority: Option<string>,
    readiness: Option<string>,
    release: Option<string>,
    releaseException: Option<string>)

  datatype Checklist = Checklist(checked: nat, unchecked: nat)

  /** What the governance patterns read off an issue's Markdown body. */
  datatype Body = Body(
    standalone: bool,
    p0Approval: bool,
    decisionRequest: bool,
    readyChecklist: Option<Checklist>)

  datatype Issue = Issue(
    repository: string,
    number: nat,
    title: string,
    body: Body,
    state: IssueState,
    createdAt: int,
    assignees: seq<string>,
    labels: seq<string>,
    parent: Option<Relation>,
    subIssues: seq<Relation>,
    blockedBy: seq<Relation>,
    closingPullRequests: seq<PullRequestState>,
    planning: Option<Planning>)
  {
    function Key(): IssueKey { KeyOf(repository, number) }

    /** A leaf is implemented directly; a parent routes through its sub-issues. */
    predicate IsLeaf() { subIssues == [] }

    predicate HasOpenPullRequest() { OpenPr in closingPullRequests }

    function TargetRelease(): Option<string> {
      if planning.Some? then planning.value.release else None
    }
  }

  type Issues = map<IssueKey, Issue>

  ghost predicate WellKeyed(issues: Issues) {
    forall k | k in issues :: issues[k].Key() == k
  }

  const OPEN_PRIORITIES: seq<string> := ["P0", "P1", "P2", "P3"]
  const CLOSED_PRIORITIES: seq<string> := OPEN_PRIORITIES + ["Historical"]
  const LEAF_READINESS: seq<string> := ["Ready", "Needs Planning", "Needs Decision"]
  const READINESS_VALUES: seq<string> := LEAF_READINESS + ["Parent", "Historical"]

  predicate IsOneOf(value: Option<string>, values: seq<string>) {
    value.Some? && value.value in values
  }
}
