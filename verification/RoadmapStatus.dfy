/** Derived status (tools/governance/roadmap-governance.ts, roadmapStatus and hasStartedChild). */
module RoadmapStatus {
  import opened Text
  import opened Digraph
  import opened Roadmap

  /** The hierarchy as a graph: an edge from each issue to each of its sub-issues. */
  ghost function ChildEdges(issues: Issues): Edges {
    map k | k in issues :: set r | r in issues[k].subIssues :: r.Key()
  }

  /** A sub-issue link that has started by itself: to a closed issue, to one with an open
      closing pull request, or to an unknown issue that the link reports closed. */
  predicate StartedLink(issues: Issues, link: Relation) {
    if link.Key() in issues
    then issues[link.Key()].state == Closed || issues[link.Key()].HasOpenPullRequest()
    else link.state == Closed
  }

  ghost predicate HasStartedLink(issues: Issues, key: IssueKey)
    requires key in issues
  {
    exists r | r in issues[key].subIssues :: StartedLink(issues, r)
  }

  /** A started issue lies one or more sub-issue links below `key`. */
  ghost predicate StartedBelow(issues: Issues, key: IssueKey)
    requires key in issues
  {
    exists t | t in issues ::
      (t == key || Reaches(issues.Keys, ChildEdges(issues), key, t)) && HasStartedLink(issues, t)
  }

  /** The status by definition: plain reachability, without any search. */
  ghost function StatusOf(issues: Issues, issue: Issue): Status
    requires issue.Key() in issues
  {
    if issue.state == Closed then Done
    else if issue.IsLeaf() then (if issue.HasOpenPullRequest() then InProgress else Todo)
    else if StartedBelow(issues, issue.Key()) then InProgress
    else Todo
  }

  /** A link that gave nothing: not started, and any parent behind it already visited. */
  ghost predicate QuietLink(issues: Issues, link: Relation, visited: set<IssueKey>) {
    && !StartedLink(issues, link)
    && (link.Key() in issues && !issues[link.Key()].IsLeaf() ==> link.Key() in visited)
  }

  ghost predicate Quiet(issues: Issues, key: IssueKey, visited: set<IssueKey>) {
    key in issues && forall r | r in issues[key].subIssues :: QuietLink(issues, r, visited)
  }

  /** The depth-first search shares one set of visited issues between all branches. */
  class StartedSearch {
    const issues: Issues
    var visiting: set<IssueKey>

    constructor (issues: Issues)
      ensures this.issues == issues && visiting == {}
    {
      this.issues, visiting := issues, {};
    }

    /** True only below a real start; false leaves every newly visited issue quiet. */
    method HasStartedChild(issue: Issue) returns (started: bool)
      requires WellKeyed(issues) && issue.Key() in issues && issues[issue.Key()] == issue
      modifies this
      ensures started ==> StartedBelow(issues, issue.Key())
      ensures !started ==> old(visiting) + {issue.Key()} <= visiting
      ensures !started ==> forall k | k in visiting - old(visiting) :: Quiet(issues, k, visiting)
      decreases issues.Keys - visiting
    {
      var key := issue.Key();
      if key in visiting {
        return false;
      }
      visiting := visiting + {key};
      for i := 0 to |issue.subIssues|
        invariant old(visiting) + {key} <= visiting
        invariant forall k | k in visiting - old(visiting) - {key} :: Quiet(issues, k, visiting)
        invariant forall j | 0 <= j < i :: QuietLink(issues, issue.subIssues[j], visiting)
      {
        var relation := issue.subIssues[i];
        if StartedLink(issues, relation) {
          assert HasStartedLink(issues, key);
          return true;
        }
        if relation.Key() in issues && !issues[relation.Key()].IsLeaf() {
          assert key in old(issues.Keys - visiting);
          ghost var before := visiting;
          var below := HasStartedChild(issues[relation.Key()]);
          if below {
            ChildStarted(issues, key, relation);
            return true;
          }
          QuietGrows(issues, before, visiting);
        }
      }
      return false;
    }
  }

  lemma QuietGrows(issues: Issues, visited: set<IssueKey>, more: set<IssueKey>)
    requires visited <= more
    ensures forall k | Quiet(issues, k, visited) :: Quiet(issues, k, more)
    ensures forall r | QuietLink(issues, r, visited) :: QuietLink(issues, r, more)
  {
  }

  lemma ChildStarted(issues: Issues, key: IssueKey, link: Relation)
    requires key in issues && link in issues[key].subIssues
    requires link.Key() in issues && StartedBelow(issues, link.Key())
    ensures StartedBelow(issues, key)
  {
    var edges := ChildEdges(issues);
    var t :| t in issues && (t == link.Key() || Reaches(issues.Keys, edges, link.Key(), t)) && HasStartedLink(issues, t);
    EdgeReaches(issues.Keys, edges, key, link.Key());
    if t != link.Key() {
      ReachesTransitive(issues.Keys, edges, key, link.Key(), t);
    }
  }

  /** If everything visited is quiet, nothing below a visited issue has started. */
  lemma QuietMeansNotStarted(issues: Issues, key: IssueKey, visited: set<IssueKey>)
    requires key in issues && key in visited && forall k | k in visited :: Quiet(issues, k, visited)
    ensures !StartedBelow(issues, key)
  {
    var edges := ChildEdges(issues);
    var closed := visited + set k | k in issues && issues[k].IsLeaf();
    forall k | k in closed ensures Successors(edges, k) * issues.Keys <= closed {
    }
    forall t | t in issues && (t == key || Reaches(issues.Keys, edges, key, t))
      ensures !HasStartedLink(issues, t)
    {
      if t != key {
        ClosedUnderReach(issues.Keys, edges, closed, key, t);
      }
    }
  }

  /** The search computes the status by definition, on every hierarchy including cyclic ones. */
  method ComputeStatus(issues: Issues, issue: Issue) returns (status: Status)
    requires WellKeyed(issues) && issue.Key() in issues && issues[issue.Key()] == issue
    ensures status == StatusOf(issues, issue)
    ensures issue.state == Open && issue.subIssues != [] ==> (status == InProgress <==> WorkBegunBelow(issues, issue.Key()))
  {
    StatusByFacts(issues, issue);
    if issue.state == Closed {
      return Done;
    }
    if issue.subIssues == [] {
      return if issue.HasOpenPullRequest() then InProgress else Todo;
    }
    var search := new StartedSearch(issues);
    var started := search.HasStartedChild(issue);
    if !started {
      QuietMeansNotStarted(issues, issue.Key(), search.visiting);
    }
    return if started then InProgress else Todo;
  }

  /** One or more sub-issue links below `key` there is a closed issue, an issue with an open closing
      pull request, or a link to an unknown issue that the link reports closed. */
  ghost predicate WorkBegunBelow(issues: Issues, key: IssueKey)
    requires key in issues
  {
    exists t, r ::
      && t in issues && (t == key || Reaches(issues.Keys, ChildEdges(issues), key, t)) && r in issues[t].subIssues
      && (if r.Key() in issues
          then issues[r.Key()].state == Closed || OpenPr in issues[r.Key()].closingPullRequests
          else r.state == Closed)
  }

  /** The status by the recorded facts alone. */
  lemma StatusByFacts(issues: Issues, issue: Issue)
    requires issue.Key() in issues
    ensures StatusOf(issues, issue) == Done <==> issue.state == Closed
    ensures issue.state == Open && issue.subIssues == [] ==>
      (StatusOf(issues, issue) == InProgress <==> OpenPr in issue.closingPullRequests)
    ensures issue.state == Open && issue.subIssues != [] ==>
      (StatusOf(issues, issue) == InProgress <==> WorkBegunBelow(issues, issue.Key()))
  {
    var key := issue.Key();
    if StartedBelow(issues, key) {
      var t :| t in issues && (t == key || Reaches(issues.Keys, ChildEdges(issues), key, t)) && HasStartedLink(issues, t);
      var r :| r in issues[t].subIssues && StartedLink(issues, r);
      assert WorkBegunBelow(issues, key);
    }
    if WorkBegunBelow(issues, key) {
      var t, r :| t in issues && (t == key || Reaches(issues.Keys, ChildEdges(issues), key, t)) && r in issues[t].subIssues
        && (if r.Key() in issues then issues[r.Key()].state == Closed || OpenPr in issues[r.Key()].closingPullRequests
            else r.state == Closed);
      assert StartedLink(issues, r) && HasStartedLink(issues, t);
    }
  }

  /** `later` has the same hierarchy as `earlier` and at least the same started links. */
  ghost predicate MoreStarted(earlier: Issues, later: Issues) {
    && earlier.Keys == later.Keys
    && (forall k | k in earlier :: later[k].subIssues == earlier[k].subIssues)
    && (forall k, r | k in earlier && r in earlier[k].subIssues && StartedLink(earlier, r) :: StartedLink(later, r))
  }

  /** Starting more work never takes an open parent back from In Progress to Todo. */
  lemma StatusMonotone(earlier: Issues, later: Issues, key: IssueKey)
    requires WellKeyed(earlier) && WellKeyed(later) && MoreStarted(earlier, later) && key in earlier
    requires later[key].state == Open && !later[key].IsLeaf()
    requires StatusOf(earlier, earlier[key]) == InProgress
    ensures StatusOf(later, later[key]) == InProgress
  {
    assert ChildEdges(earlier) == ChildEdges(later);
    var t :| t in earlier && (t == key || Reaches(earlier.Keys, ChildEdges(earlier), key, t)) && HasStartedLink(earlier, t);
    assert HasStartedLink(later, t);
  }
}
