/** The whole governance report, and what a report without diagnostics guarantees
    (tools/governance/roadmap-governance.ts, analyzeRoadmapGovernance). */
module RoadmapAnalysis {
  import opened Text
  import opened Sorting
  import opened Digraph
  import opened Roadmap
  import opened ReleaseVersion
  import opened ReleaseCatalog
  import opened DependencyCycle
  import opened DependencyGraph
  import opened DeliverySequence
  import opened RoadmapChecks

  /** The audited facts. Whether the organization's planning fields match their contract is given. */
  datatype Snapshot = Snapshot(milestones: seq<Repository>, issues: seq<Issue>, fieldsMatch: bool)

  datatype Report = Report(diagnostics: seq<Code>, deliverySequence: seq<DeliveryEntry>)

  ghost predicate UniqueIdentities(issues: seq<Issue>) {
    forall i, j | 0 <= i < j < |issues| :: issues[i].Key() != issues[j].Key()
  }

  /** Issues by key; a later issue replaces an earlier one with the same key. */
  function IssueMap(issues: seq<Issue>): Issues {
    if issues == [] then map[]
    else
      var last := issues[|issues| - 1];
      IssueMap(issues[..|issues| - 1])[last.Key() := last]
  }

  lemma {:induction false} IssueMapKeyed(issues: seq<Issue>)
    ensures WellKeyed(IssueMap(issues))
    ensures forall k | k in IssueMap(issues) :: IssueMap(issues)[k] in issues
  {
    if issues != [] {
      IssueMapKeyed(issues[..|issues| - 1]);
    }
  }

  lemma {:induction false} IssueMapHolds(issues: seq<Issue>)
    requires UniqueIdentities(issues)
    ensures forall issue | issue in issues :: issue.Key() in IssueMap(issues) && IssueMap(issues)[issue.Key()] == issue
  {
    if issues != [] {
      var init, last := issues[..|issues| - 1], issues[|issues| - 1];
      IssueMapHolds(init);
      assert forall issue | issue in init :: issue.Key() != last.Key();
      assert issues == init + [last];
    }
  }

  function OpenManaged(all: Issues): Issues {
    map k | k in all && all[k].planning.Some? && all[k].state == Open :: all[k]
  }

  /** The report's verdict by definition: which codes the audited facts call for. */
  ghost predicate Violation(code: Code, snapshot: Snapshot, releases: Catalog)
    requires forall issue | issue in snapshot.issues :: issue.Key() in IssueMap(snapshot.issues)
  {
    var all := IssueMap(snapshot.issues);
    || (code == ReleaseCatalogInvalid && !SoundMilestones(snapshot.milestones, ReleaseOrderKey))
    || (code == PlanningFieldInvalid && !snapshot.fieldsMatch)
    || (exists issue | issue in snapshot.issues :: issue.planning.Some? &&
          (IssueViolation(code, issue, all, releases) || RelationViolation(code, issue, all, releases)))
    || (code == DependencyCycleFound && !Acyclic(OpenManaged(all).Keys, PlanEdges(OpenManaged(all))))
  }

  /** Checks every managed issue, first by itself and then through its relations. */
  method CheckIssues(issues: seq<Issue>, all: Issues, releases: Catalog) returns (codes: seq<Code>)
    requires WellKeyed(all) && forall issue | issue in issues :: issue.Key() in all && all[issue.Key()] == issue
    ensures forall c :: c in codes <==>
      (exists issue | issue in issues :: issue.planning.Some? &&
        (IssueViolation(c, issue, all, releases) || RelationViolation(c, issue, all, releases)))
  {
    var own := CheckOwnFacts(issues, all, releases);
    var related := CheckAllRelations(issues, all, releases);
    codes := own + related;
  }

  /** The codes name exactly the violations of the first `n` issues by themselves. */
  ghost predicate OwnCodes(codes: seq<Code>, issues: seq<Issue>, n: nat, all: Issues, releases: Catalog)
    requires n <= |issues| && forall issue | issue in issues :: issue.Key() in all
  {
    forall c :: c in codes <==>
      (exists j | 0 <= j < n :: issues[j].planning.Some? && IssueViolation(c, issues[j], all, releases))
  }

  /** The codes name exactly the violations of the relations of the first `n` issues. */
  ghost predicate RelationCodes(codes: seq<Code>, issues: seq<Issue>, n: nat, all: Issues, releases: Catalog)
    requires n <= |issues|
  {
    forall c :: c in codes <==>
      (exists j | 0 <= j < n :: issues[j].planning.Some? && RelationViolation(c, issues[j], all, releases))
  }

  lemma OneIssueMore(codes: seq<Code>, found: seq<Code>, issues: seq<Issue>, n: nat, all: Issues, releases: Catalog)
    requires n < |issues| && forall issue | issue in issues :: issue.Key() in all
    requires OwnCodes(codes, issues, n, all, releases)
    requires forall c :: c in found <==> issues[n].planning.Some? && IssueViolation(c, issues[n], all, releases)
    ensures OwnCodes(codes + found, issues, n + 1, all, releases)
  {
    forall c ensures c in codes + found <==>
      (exists j | 0 <= j < n + 1 :: issues[j].planning.Some? && IssueViolation(c, issues[j], all, releases))
    {
      if c in found { assert issues[n].planning.Some? && IssueViolation(c, issues[n], all, releases); }
    }
  }

  lemma OneRelationMore(codes: seq<Code>, found: seq<Code>, issues: seq<Issue>, n: nat, all: Issues, releases: Catalog)
    requires n < |issues| && RelationCodes(codes, issues, n, all, releases)
    requires forall c :: c in found <==> issues[n].planning.Some? && RelationViolation(c, issues[n], all, releases)
    ensures RelationCodes(codes + found, issues, n + 1, all, releases)
  {
    forall c ensures c in codes + found <==>
      (exists j | 0 <= j < n + 1 :: issues[j].planning.Some? && RelationViolation(c, issues[j], all, releases))
    {
      if c in found { assert issues[n].planning.Some? && RelationViolation(c, issues[n], all, releases); }
    }
  }

  method CheckOwnFacts(issues: seq<Issue>, all: Issues, releases: Catalog) returns (codes: seq<Code>)
    requires WellKeyed(all) && forall issue | issue in issues :: issue.Key() in all && all[issue.Key()] == issue
    ensures OwnCodes(codes, issues, |issues|, all, releases)
  {
    codes := [];
    for i := 0 to |issues|
      invariant OwnCodes(codes, issues, i, all, releases)
    {
      var found := [];
      if issues[i].planning.Some? {
        found := CheckIssue(issues[i], all, releases);
      }
      OneIssueMore(codes, found, issues, i, all, releases);
      codes := codes + found;
    }
  }

  method CheckAllRelations(issues: seq<Issue>, all: Issues, releases: Catalog) returns (codes: seq<Code>)
    ensures RelationCodes(codes, issues, |issues|, all, releases)
  {
    codes := [];
    for i := 0 to |issues|
      invariant RelationCodes(codes, issues, i, all, releases)
    {
      var found := [];
      if issues[i].planning.Some? {
        found := CheckRelations(issues[i], all, releases);
      }
      OneRelationMore(codes, found, issues, i, all, releases);
      codes := codes + found;
    }
  }

  method CheckMilestones(milestones: seq<Repository>) returns (codes: seq<Code>, catalog: Catalog)
    ensures CatalogOf(milestones, ReleaseOrderKey, catalog)
    ensures forall c :: c in codes <==> c == ReleaseCatalogInvalid && !SoundMilestones(milestones, ReleaseOrderKey)
  {
    var problems: seq<Problem>;
    catalog, problems := BuildCatalog(milestones, ReleaseOrderKey);
    codes := seq(|problems|, _ => ReleaseCatalogInvalid);
    assert problems != [] ==> codes[0] == ReleaseCatalogInvalid;
  }

  method CheckGraph(issues: Issues) returns (codes: seq<Code>)
    ensures forall c :: c in codes <==> c == DependencyCycleFound && !Acyclic(issues.Keys, PlanEdges(issues))
  {
    var edges := OpenEdges(issues);
    var cycle := FindCycle(issues.Keys, edges);
    codes := if cycle.Some? then [DependencyCycleFound] else [];
  }

  /** Collects the diagnostics of the catalog, the planning fields, the issues and the graph. */
  method Diagnose(snapshot: Snapshot, all: Issues) returns (diagnostics: seq<Code>, catalog: Catalog)
    requires all == IssueMap(snapshot.issues) && WellKeyed(all)
    requires forall issue | issue in snapshot.issues :: issue.Key() in all && all[issue.Key()] == issue
    ensures CatalogOf(snapshot.milestones, ReleaseOrderKey, catalog)
    ensures forall c :: c in diagnostics <==> Violation(c, snapshot, catalog)
  {
    var unsound, codes, cycle: seq<Code>;
    unsound, catalog := CheckMilestones(snapshot.milestones);
    codes := CheckIssues(snapshot.issues, all, catalog);
    cycle := CheckGraph(OpenManaged(all));
    var fields := if snapshot.fieldsMatch then [] else [PlanningFieldInvalid];
    diagnostics := unsound + fields + codes + cycle;
    InAnyOf(unsound, fields, codes, cycle);
  }

  lemma InAnyOf(a: seq<Code>, b: seq<Code>, c: seq<Code>, d: seq<Code>)
    ensures forall x :: x in a + b + c + d <==> x in a || x in b || x in c || x in d
  {
    forall x ensures x in a + b + c + d <==> x in a || x in b || x in c || x in d {
    }
  }

  /** The report names exactly the violated codes, and publishes a sequence only without any. */
  method Analyze(snapshot: Snapshot) returns (report: Report, ghost releases: Catalog, ghost ordered: seq<IssueKey>)
    requires UniqueIdentities(snapshot.issues)
    ensures forall issue | issue in snapshot.issues :: issue.Key() in IssueMap(snapshot.issues)
    ensures CatalogOf(snapshot.milestones, ReleaseOrderKey, releases)
    ensures forall c :: c in report.diagnostics <==> Violation(c, snapshot, releases)
    ensures report.diagnostics != [] ==> report.deliverySequence == []
    ensures report.diagnostics == [] ==>
      var open := OpenManaged(IssueMap(snapshot.issues));
      && DeliveredOrder(open, releases, ordered) && Elements(ordered) <= open.Keys
      && report.deliverySequence == PublishedEntries(open, releases, ordered)
  {
    var all := IssueMap(snapshot.issues);
    IssueMapKeyed(snapshot.issues);
    IssueMapHolds(snapshot.issues);
    var diagnostics, catalog := Diagnose(snapshot, all);
    releases, ordered := catalog, [];
    var sequence := [];
    if diagnostics == [] {
      sequence, ordered := Sequence(OpenManaged(all), all, catalog);
    }
    report := Report(diagnostics, sequence);
  }
}
