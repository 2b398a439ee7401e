/** The release catalog built from every repository's milestones
    (tools/governance/roadmap-governance.ts, releaseCatalog).

    The version key of a title is a parameter, `orderKey`; the governance report
    passes ReleaseVersion.ReleaseOrderKey. */
module ReleaseCatalog {
  import opened Foundation
  import opened Text
  import opened Sorting
  import opened Roadmap

  type OrderKey = string -> Option<real>

  datatype Milestone = Milestone(title: string, state: IssueState)

  datatype Repository = Repository(name: string, milestones: seq<Milestone>)

  datatype Release = Release(title: string, key: real, state: IssueState)

  datatype Entry = Entry(rank: nat, state: IssueState)

  type Catalog = map<string, Entry>

  datatype Problem =
    | DuplicateMilestone(repository: string, title: string)
    | Unversioned(title: string)
    | Missing(title: string)
    | MixedState(title: string)
    | SharedOrder(previous: string, current: string)
    | NoReleases

  function AllTitles(repositories: seq<Repository>): set<string> {
    set r, m | r in repositories && m in r.milestones :: m.title
  }

  /** The state of the first milestone with this title. */
  function StateIn(milestones: seq<Milestone>, title: string): Option<IssueState> {
    if milestones == [] then None
    else if milestones[0].title == title then Some(milestones[0].state)
    else StateIn(milestones[1..], title)
  }

  predicate InEvery(repositories: seq<Repository>, title: string, state: IssueState) {
    forall r | r in repositories :: StateIn(r.milestones, title) == Some(state)
  }

  /** The title is versioned and stands in every repository with one state. */
  ghost predicate Catalogued(repositories: seq<Repository>, orderKey: OrderKey, title: string) {
    orderKey(title).Some? && exists state :: InEvery(repositories, title, state)
  }

  ghost predicate DistinctTitles(milestones: seq<Milestone>) {
    forall i, j | 0 <= i < j < |milestones| :: milestones[i].title != milestones[j].title
  }

  /** What the milestones must satisfy for the catalog to carry no diagnostic. */
  ghost predicate SoundMilestones(repositories: seq<Repository>, orderKey: OrderKey) {
    && AllTitles(repositories) != {}
    && (forall r | r in repositories :: DistinctTitles(r.milestones))
    && (forall t | t in AllTitles(repositories) :: Catalogued(repositories, orderKey, t))
    && (forall t, u | t in AllTitles(repositories) && u in AllTitles(repositories) && orderKey(t) == orderKey(u) :: t == u)
  }

  /** Title `t` precedes `u`: by version key, and by text when the keys tie. */
  predicate Before(orderKey: OrderKey, t: string, u: string) {
    && orderKey(t).Some? && orderKey(u).Some?
    && (orderKey(t).value < orderKey(u).value || (orderKey(t) == orderKey(u) && CompareText(t, u) < 0))
  }

  /** The catalog holds exactly the catalogued titles, each with its common state;
      the ranks are 0, 1, ... in the order above. */
  ghost predicate CatalogOf(repositories: seq<Repository>, orderKey: OrderKey, catalog: Catalog) {
    && catalog.Keys == (set t | t in AllTitles(repositories) && Catalogued(repositories, orderKey, t))
    && (forall t | t in catalog :: InEvery(repositories, t, catalog[t].state))
    && (forall t | t in catalog :: catalog[t].rank == |Earlier(catalog, orderKey, t)|)
    && (forall t, u | t in catalog && u in catalog :: catalog[t].rank < catalog[u].rank <==> Before(orderKey, t, u))
  }

  ghost function Earlier(catalog: Catalog, orderKey: OrderKey, t: string): set<string> {
    set u | u in catalog && Before(orderKey, u, t)
  }

  /** The same repository with its milestones listed in some order. */
  ghost predicate SameRepository(r: Repository, q: Repository) {
    r.name == q.name && multiset(r.milestones) == multiset(q.milestones)
  }

  /** Every repository of either list has its like in the other. */
  ghost predicate SameRepositories(repositories: seq<Repository>, others: seq<Repository>) {
    Included(repositories, others) && Included(others, repositories)
  }

  ghost predicate Included(repositories: seq<Repository>, others: seq<Repository>) {
    forall r | r in repositories :: exists q | q in others :: SameRepository(r, q)
  }

  ghost predicate TitlesDistinct(repositories: seq<Repository>) {
    forall r | r in repositories :: DistinctTitles(r.milestones)
  }

  /** Without duplicate titles a state is found iff that milestone is listed. */
  lemma {:induction false} StateInExactly(milestones: seq<Milestone>, title: string, state: IssueState)
    requires DistinctTitles(milestones)
    ensures StateIn(milestones, title) == Some(state) <==> Milestone(title, state) in milestones
  {
    if milestones != [] {
      var head, rest := milestones[0], milestones[1..];
      assert milestones == [head] + rest;
      assert forall m | m in rest :: m.title != head.title;
      StateInExactly(rest, title, state);
    }
  }

  lemma SameStates(r: Repository, q: Repository, title: string, state: IssueState)
    requires SameRepository(r, q) && DistinctTitles(r.milestones) && DistinctTitles(q.milestones)
    ensures StateIn(r.milestones, title) == Some(state) <==> StateIn(q.milestones, title) == Some(state)
  {
    StateInExactly(r.milestones, title, state);
    StateInExactly(q.milestones, title, state);
    assert Milestone(title, state) in multiset(r.milestones) <==> Milestone(title, state) in multiset(q.milestones);
  }

  /** The milestones determine the catalog, in whatever order repositories and milestones are listed. */
  lemma CatalogUnique(repositories: seq<Repository>, others: seq<Repository>, orderKey: OrderKey, a: Catalog, b: Catalog)
    requires SameRepositories(repositories, others) && TitlesDistinct(repositories) && TitlesDistinct(others)
    requires CatalogOf(repositories, orderKey, a) && CatalogOf(others, orderKey, b)
    ensures a == b
  {
    CatalogIgnoresOrder(repositories, others, orderKey, b);
    SameCatalog(repositories, orderKey, a, b);
  }

  lemma CatalogIgnoresOrder(repositories: seq<Repository>, others: seq<Repository>, orderKey: OrderKey, catalog: Catalog)
    requires SameRepositories(repositories, others) && TitlesDistinct(repositories) && TitlesDistinct(others)
    requires CatalogOf(others, orderKey, catalog)
    ensures CatalogOf(repositories, orderKey, catalog)
  {
    TitlesIncluded(repositories, others);
    TitlesIncluded(others, repositories);
    forall t, state ensures InEvery(repositories, t, state) <==> InEvery(others, t, state) {
      InEveryIncluded(repositories, others, t, state);
      InEveryIncluded(others, repositories, t, state);
    }
    SameTerms(repositories, others, orderKey, catalog);
  }

  lemma SameTerms(repositories: seq<Repository>, others: seq<Repository>, orderKey: OrderKey, catalog: Catalog)
    requires AllTitles(repositories) == AllTitles(others) && CatalogOf(others, orderKey, catalog)
    requires forall t, state :: InEvery(repositories, t, state) <==> InEvery(others, t, state)
    ensures CatalogOf(repositories, orderKey, catalog)
  {
    forall t ensures Catalogued(repositories, orderKey, t) <==> Catalogued(others, orderKey, t) {
    }
  }

  lemma TitlesIncluded(repositories: seq<Repository>, others: seq<Repository>)
    requires Included(repositories, others)
    ensures AllTitles(repositories) <= AllTitles(others)
  {
    forall t | t in AllTitles(repositories) ensures t in AllTitles(others) {
      var r, m :| r in repositories && m in r.milestones && m.title == t;
      var q :| q in others && SameRepository(r, q);
      assert m in multiset(r.milestones) && m in multiset(q.milestones);
    }
  }

  /** Distinct titles stay distinct in any order. */
  lemma DistinctInAnyOrder(milestones: seq<Milestone>, others: seq<Milestone>)
    requires multiset(milestones) == multiset(others) && DistinctTitles(milestones)
    ensures DistinctTitles(others)
  {
    forall i, j | 0 <= i < j < |others| ensures others[i].title != others[j].title {
      assert others[i] in multiset(others) && others[j] in multiset(others);
      if others[i] == others[j] {
        TwiceListed(others, i, j);
        OnceListed(milestones, others[i]);
      }
    }
  }

  lemma TwiceListed(milestones: seq<Milestone>, i: nat, j: nat)
    requires i < j < |milestones| && milestones[i] == milestones[j]
    ensures multiset(milestones)[milestones[i]] >= 2
  {
    assert milestones == milestones[..j] + [milestones[j]] + milestones[j + 1..];
    assert milestones[i] in milestones[..j];
  }

  lemma {:induction false} OnceListed(milestones: seq<Milestone>, m: Milestone)
    requires DistinctTitles(milestones)
    ensures multiset(milestones)[m] <= 1
  {
    if milestones != [] {
      var init, last := milestones[..|milestones| - 1], milestones[|milestones| - 1];
      assert milestones == init + [last];
      OnceListed(init, m);
      if m == last {
        assert forall i | 0 <= i < |init| :: init[i].title != last.title;
        assert m !in init;
      }
    }
  }

  lemma TitlesDistinctAlike(repositories: seq<Repository>, others: seq<Repository>)
    requires Included(others, repositories) && TitlesDistinct(repositories)
    ensures TitlesDistinct(others)
  {
    forall q | q in others ensures DistinctTitles(q.milestones) {
      var r :| r in repositories && SameRepository(q, r);
      DistinctInAnyOrder(r.milestones, q.milestones);
    }
  }

  /** Sound milestones are sound in any order. */
  lemma SoundInAnyOrder(repositories: seq<Repository>, others: seq<Repository>, orderKey: OrderKey)
    requires SameRepositories(repositories, others) && SoundMilestones(repositories, orderKey)
    ensures SoundMilestones(others, orderKey) && TitlesDistinct(repositories) && TitlesDistinct(others)
  {
    TitlesDistinctAlike(repositories, others);
    AllCataloguedAlike(repositories, others, orderKey);
    TermsSound(repositories, others, orderKey);
  }

  lemma AllCataloguedAlike(repositories: seq<Repository>, others: seq<Repository>, orderKey: OrderKey)
    requires SameRepositories(repositories, others) && TitlesDistinct(repositories) && TitlesDistinct(others)
    requires forall t | t in AllTitles(repositories) :: Catalogued(repositories, orderKey, t)
    ensures AllTitles(repositories) == AllTitles(others)
    ensures forall t | t in AllTitles(others) :: Catalogued(others, orderKey, t)
  {
    TitlesIncluded(repositories, others);
    TitlesIncluded(others, repositories);
    forall t | t in AllTitles(others) ensures Catalogued(others, orderKey, t) {
      CataloguedAlike(repositories, others, orderKey, t);
    }
  }

  lemma CataloguedAlike(repositories: seq<Repository>, others: seq<Repository>, orderKey: OrderKey, t: string)
    requires Included(others, repositories) && TitlesDistinct(repositories) && TitlesDistinct(others)
    requires Catalogued(repositories, orderKey, t)
    ensures Catalogued(others, orderKey, t)
  {
    var state :| InEvery(repositories, t, state);
    InEveryIncluded(others, repositories, t, state);
  }

  lemma TermsSound(repositories: seq<Repository>, others: seq<Repository>, orderKey: OrderKey)
    requires AllTitles(repositories) == AllTitles(others) && SoundMilestones(repositories, orderKey) && TitlesDistinct(others)
    requires forall t | t in AllTitles(others) :: Catalogued(others, orderKey, t)
    ensures SoundMilestones(others, orderKey)
  {
    forall t, u | t in AllTitles(others) && u in AllTitles(others) && orderKey(t) == orderKey(u) ensures t == u {
      assert t in AllTitles(repositories) && u in AllTitles(repositories);
    }
  }

  lemma InEveryIncluded(repositories: seq<Repository>, others: seq<Repository>, t: string, state: IssueState)
    requires Included(repositories, others) && TitlesDistinct(repositories) && TitlesDistinct(others)
    ensures InEvery(others, t, state) ==> InEvery(repositories, t, state)
  {
    forall r | r in repositories ensures InEvery(others, t, state) ==> StateIn(r.milestones, t) == Some(state) {
      var q :| q in others && SameRepository(r, q);
      SameStates(r, q, t, state);
    }
  }

  lemma SameCatalog(repositories: seq<Repository>, orderKey: OrderKey, a: Catalog, b: Catalog)
    requires CatalogOf(repositories, orderKey, a) && CatalogOf(repositories, orderKey, b)
    ensures a == b
  {
    forall t | t in a ensures a[t] == b[t] {
      assert Earlier(a, orderKey, t) == Earlier(b, orderKey, t);
      assert InEvery(repositories, t, a[t].state) && InEvery(repositories, t, b[t].state);
      var r, m :| r in repositories && m in r.milestones && m.title == t;
      assert StateIn(r.milestones, t) == Some(a[t].state);
    }
  }

  method DuplicateTitles(repository: Repository) returns (problems: seq<Problem>)
    ensures problems == [] <==> DistinctTitles(repository.milestones)
  {
    problems := [];
    var milestones, seen := repository.milestones, {};
    for i := 0 to |milestones|
      invariant seen == set j | 0 <= j < i :: milestones[j].title
      invariant problems == [] <==> DistinctTitles(milestones[..i])
    {
      if milestones[i].title in seen {
        var j :| 0 <= j < i && milestones[j].title == milestones[i].title;
        assert milestones[..i + 1][j].title == milestones[..i + 1][i].title;
        problems := problems + [DuplicateMilestone(repository.name, milestones[i].title)];
      } else {
        assert milestones[..i + 1] == milestones[..i] + [milestones[i]];
      }
      assert !DistinctTitles(milestones[..i]) ==> !DistinctTitles(milestones[..i + 1]) by {
        if a, b :| 0 <= a < b < i && milestones[..i][a].title == milestones[..i][b].title {
          assert milestones[..i + 1][a].title == milestones[..i + 1][b].title;
        }
      }
      seen := seen + {milestones[i].title};
    }
    assert milestones[..|milestones|] == milestones;
  }

  datatype Classified = Accepted(release: Release) | Rejected(problem: Problem)

  /** One title's entry, or the reason it stays out. */
  function Classify(repositories: seq<Repository>, orderKey: OrderKey, title: string): Classified
    requires repositories != []
  {
    if orderKey(title).None? then Rejected(Unversioned(title))
    else if exists r | r in repositories :: StateIn(r.milestones, title).None? then Rejected(Missing(title))
    else
      var state := StateIn(repositories[0].milestones, title).value;
      if exists r | r in repositories :: StateIn(r.milestones, title) != Some(state) then Rejected(MixedState(title))
      else Accepted(Release(title, orderKey(title).value, state))
  }

  /** A release carries its title's key and common state. */
  ghost predicate Faithful(repositories: seq<Repository>, orderKey: OrderKey, release: Release) {
    orderKey(release.title) == Some(release.key) && InEvery(repositories, release.title, release.state)
  }

  lemma ClassifyAccepts(repositories: seq<Repository>, orderKey: OrderKey, title: string)
    requires repositories != []
    ensures var c := Classify(repositories, orderKey, title);
      && (c.Accepted? <==> Catalogued(repositories, orderKey, title))
      && (c.Accepted? ==> c.release.title == title && Faithful(repositories, orderKey, c.release))
  {
    assert repositories[0] in repositories;
    var c := Classify(repositories, orderKey, title);
    if Catalogued(repositories, orderKey, title) {
      var state :| InEvery(repositories, title, state);
      assert StateIn(repositories[0].milestones, title) == Some(state);
    } else if c.Accepted? {
      assert InEvery(repositories, title, c.release.state);
    }
  }

  ghost function ReleaseTitles(releases: seq<Release>): set<string> {
    set r | r in releases :: r.title
  }

  /** The collected releases are those of `titles`: each once, each faithful. */
  ghost predicate Collected(repositories: seq<Repository>, orderKey: OrderKey, titles: set<string>, releases: seq<Release>) {
    && (forall r | r in releases :: Faithful(repositories, orderKey, r))
    && (forall r, q | r in releases && q in releases && r.title == q.title :: r == q)
    && NoDuplicates(releases)
    && ReleaseTitles(releases) == set t | t in titles && Catalogued(repositories, orderKey, t)
  }

  /** The accepted titles in enumeration order, and one problem for each of the others. */
  method AcceptTitles(repositories: seq<Repository>, orderKey: OrderKey, titles: seq<string>)
    returns (releases: seq<Release>, problems: seq<Problem>)
    requires titles != [] ==> repositories != []
    requires NoDuplicates(titles)
    ensures Collected(repositories, orderKey, Elements(titles), releases)
    ensures problems == [] <==> forall t | t in titles :: Catalogued(repositories, orderKey, t)
  {
    releases, problems := [], [];
    for i := 0 to |titles|
      invariant Collected(repositories, orderKey, Elements(titles[..i]), releases)
      invariant problems == [] <==> forall t | t in titles[..i] :: Catalogued(repositories, orderKey, t)
    {
      var title := titles[i];
      ElementsTake(titles, i);
      assert titles[..i + 1] == titles[..i] + [title] && title !in Elements(titles[..i]);
      ClassifyAccepts(repositories, orderKey, title);
      match Classify(repositories, orderKey, title) {
        case Accepted(release) =>
          Collect(repositories, orderKey, Elements(titles[..i]), releases, release);
          releases := releases + [release];
        case Rejected(problem) =>
          problems := problems + [problem];
      }
    }
    assert titles[..|titles|] == titles;
  }

  lemma Collect(repositories: seq<Repository>, orderKey: OrderKey, titles: set<string>, releases: seq<Release>, release: Release)
    requires Collected(repositories, orderKey, titles, releases) && release.title !in titles
    requires Faithful(repositories, orderKey, release) && Catalogued(repositories, orderKey, release.title)
    ensures Collected(repositories, orderKey, titles + {release.title}, releases + [release])
  {
    forall r | r in releases ensures r.title != release.title {
      assert r.title in ReleaseTitles(releases);
    }
    assert ReleaseTitles(releases + [release]) == ReleaseTitles(releases) + {release.title};
  }

  function CompareReleases(left: Release, right: Release): int {
    if left.key < right.key then -1
    else if right.key < left.key then 1
    else CompareText(left.title, right.title)
  }

  lemma ReleaseOrder(dom: set<Release>)
    ensures Preorder(CompareReleases, dom)
  {
    forall a, b | a in dom && b in dom ensures CompareReleases(a, b) <= 0 <==> CompareReleases(b, a) >= 0 {
      CompareTextFlip(a.title, b.title);
    }
    forall a, b, c | a in dom && b in dom && c in dom && CompareReleases(a, b) <= 0 && CompareReleases(b, c) <= 0
      ensures CompareReleases(a, c) <= 0
    {
      if a.key == b.key == c.key { CompareTextTransitive(a.title, b.title, c.title); }
    }
  }

  /** The adjacent-pair scan of the sorted releases reports a tie iff any two releases tie. */
  method SharedOrders(releases: seq<Release>) returns (problems: seq<Problem>)
    requires Sorted(CompareReleases, releases)
    ensures problems == [] <==> forall i, j | 0 <= i < j < |releases| :: releases[i].key != releases[j].key
  {
    problems := [];
    if releases == [] {
      return;
    }
    for index := 1 to |releases|
      invariant problems == [] <==> forall i | 0 < i < index :: releases[i - 1].key != releases[i].key
    {
      if releases[index - 1].key == releases[index].key {
        problems := problems + [SharedOrder(releases[index - 1].title, releases[index].title)];
      }
    }
    if problems == [] {
      forall i, j | 0 <= i < j < |releases| ensures releases[i].key != releases[j].key {
        SortedPairwise(CompareReleases, releases, i, i + 1);
        assert releases[(i + 1) - 1].key != releases[i + 1].key;
        if i + 1 < j { SortedPairwise(CompareReleases, releases, i + 1, j); }
      }
    } else {
      var i :| 0 < i < |releases| && releases[i - 1].key == releases[i].key;
      assert releases[i - 1].key == releases[i].key;
    }
  }

  /** Ranks are positions in the sorted releases. */
  method RankReleases(releases: seq<Release>) returns (catalog: Catalog)
    requires TitledApart(releases)
    ensures catalog.Keys == ReleaseTitles(releases)
    ensures forall i | 0 <= i < |releases| :: releases[i].title in catalog && catalog[releases[i].title] == Entry(i, releases[i].state)
  {
    catalog := map[];
    for i := 0 to |releases|
      invariant catalog.Keys == ReleaseTitles(releases[..i])
      invariant forall j | 0 <= j < i :: releases[j].title in catalog && catalog[releases[j].title] == Entry(j, releases[j].state)
    {
      NextTitle(releases, i);
      catalog := catalog[releases[i].title := Entry(i, releases[i].state)];
    }
    assert releases[..|releases|] == releases;
  }

  lemma NextTitle(releases: seq<Release>, i: nat)
    requires i < |releases| && TitledApart(releases)
    ensures ReleaseTitles(releases[..i + 1]) == ReleaseTitles(releases[..i]) + {releases[i].title}
    ensures releases[i].title !in ReleaseTitles(releases[..i])
  {
    assert releases[..i + 1] == releases[..i] + [releases[i]];
  }

  ghost predicate TitledApart(releases: seq<Release>) {
    forall i, j | 0 <= i < j < |releases| :: releases[i].title != releases[j].title
  }

  lemma RanksFollowOrder(repositories: seq<Repository>, orderKey: OrderKey, releases: seq<Release>, catalog: Catalog, t: string, u: string)
    requires forall r | r in releases :: Faithful(repositories, orderKey, r)
    requires Sorted(CompareReleases, releases) && t in catalog && u in catalog
    requires catalog[t].rank < |releases| && releases[catalog[t].rank].title == t
    requires catalog[u].rank < |releases| && releases[catalog[u].rank].title == u
    ensures catalog[t].rank < catalog[u].rank <==> Before(orderKey, t, u)
  {
    var i, j := catalog[t].rank, catalog[u].rank;
    assert releases[i] in releases && releases[j] in releases;
    CompareTextFlip(t, u);
    CompareTextZero(t, u);
    if i < j {
      SortedPairwise(CompareReleases, releases, i, j);
      assert i != j ==> t != u;
    } else if j < i {
      SortedPairwise(CompareReleases, releases, j, i);
    }
  }

  lemma CatalogFollows(repositories: seq<Repository>, orderKey: OrderKey, releases: seq<Release>, catalog: Catalog)
    requires Collected(repositories, orderKey, AllTitles(repositories), releases) && Sorted(CompareReleases, releases)
    requires catalog.Keys == ReleaseTitles(releases) && TitledApart(releases)
    requires forall i | 0 <= i < |releases| :: releases[i].title in catalog && catalog[releases[i].title] == Entry(i, releases[i].state)
    ensures CatalogOf(repositories, orderKey, catalog)
  {
    forall t | t in catalog
      ensures catalog[t].rank < |releases| && releases[catalog[t].rank].title == t && InEvery(repositories, t, catalog[t].state)
    {
      var r :| r in releases && r.title == t;
      var i :| 0 <= i < |releases| && releases[i] == r;
      assert catalog[releases[i].title] == Entry(i, releases[i].state);
    }
    forall t, u | t in catalog && u in catalog ensures catalog[t].rank < catalog[u].rank <==> Before(orderKey, t, u) {
      RanksFollowOrder(repositories, orderKey, releases, catalog, t, u);
    }
    forall t | t in catalog ensures catalog[t].rank == |Earlier(catalog, orderKey, t)| {
      EarlierTitles(orderKey, releases, catalog, t);
    }
  }

  lemma EarlierTitles(orderKey: OrderKey, releases: seq<Release>, catalog: Catalog, t: string)
    requires catalog.Keys == ReleaseTitles(releases) && TitledApart(releases) && t in catalog
    requires forall i | 0 <= i < |releases| :: releases[i].title in catalog && catalog[releases[i].title] == Entry(i, releases[i].state)
    requires catalog[t].rank <= |releases|
    requires forall u | u in catalog :: catalog[u].rank < catalog[t].rank <==> Before(orderKey, u, t)
    ensures catalog[t].rank == |Earlier(catalog, orderKey, t)|
  {
    var prefix := releases[..catalog[t].rank];
    forall u ensures u in Earlier(catalog, orderKey, t) <==> u in ReleaseTitles(prefix) {
      if u in catalog {
        var r :| r in releases && r.title == u;
        var i :| 0 <= i < |releases| && releases[i] == r;
        assert catalog[releases[i].title] == Entry(i, releases[i].state);
        assert i < catalog[t].rank ==> releases[i] == prefix[i];
      }
    }
    assert Earlier(catalog, orderKey, t) == ReleaseTitles(prefix);
    TitleCount(prefix);
  }

  lemma {:induction false} TitleCount(releases: seq<Release>)
    requires TitledApart(releases)
    ensures |ReleaseTitles(releases)| == |releases|
  {
    if releases != [] {
      LastTitle(releases);
      TitleCount(releases[..|releases| - 1]);
    }
  }

  lemma LastTitle(releases: seq<Release>)
    requires TitledApart(releases) && releases != []
    ensures var init := releases[..|releases| - 1];
      TitledApart(init) && |ReleaseTitles(releases)| == |ReleaseTitles(init)| + 1
  {
    NextTitle(releases, |releases| - 1);
    assert releases[..|releases|] == releases;
  }

  lemma SortedCollected(repositories: seq<Repository>, orderKey: OrderKey, titles: set<string>, releases: seq<Release>)
    requires Collected(repositories, orderKey, titles, releases)
    ensures var sorted := Sort(CompareReleases, releases);
      Collected(repositories, orderKey, titles, sorted) && Sorted(CompareReleases, sorted) && TitledApart(sorted)
  {
    ReleaseOrder(Elements(releases));
    SortSorts(CompareReleases, releases, Elements(releases));
    var sorted := Sort(CompareReleases, releases);
    forall r ensures r in sorted <==> r in releases {
      assert r in Elements(sorted) <==> r in Elements(releases);
    }
    assert forall i | 0 <= i < |sorted| :: sorted[i] in releases;
  }

  /** Builds the catalog. The problems are empty exactly for sound milestones. */
  method BuildCatalog(repositories: seq<Repository>, orderKey: OrderKey) returns (catalog: Catalog, problems: seq<Problem>)
    ensures CatalogOf(repositories, orderKey, catalog)
    ensures problems == [] <==> SoundMilestones(repositories, orderKey)
  {
    var duplicates := [];
    for i := 0 to |repositories|
      invariant duplicates == [] <==> forall r | r in repositories[..i] :: DistinctTitles(r.milestones)
    {
      assert repositories[..i + 1] == repositories[..i] + [repositories[i]];
      var found := DuplicateTitles(repositories[i]);
      duplicates := duplicates + found;
    }
    assert repositories[..|repositories|] == repositories;
    var titles := Enumerate(AllTitles(repositories));
    assert titles != [] ==> titles[0] in Elements(titles);
    var releases, rejected := AcceptTitles(repositories, orderKey, titles);
    SortedCollected(repositories, orderKey, AllTitles(repositories), releases);
    releases := Sort(CompareReleases, releases);
    var shared := SharedOrders(releases);
    problems := duplicates + rejected + shared + (if releases == [] then [NoReleases] else []);
    catalog := RankReleases(releases);
    CatalogFollows(repositories, orderKey, releases, catalog);
    SoundIff(repositories, orderKey, releases, duplicates == [], rejected == [], shared == []) by {
      assert forall t :: t in titles <==> t in Elements(titles);
    }
  }

  lemma SoundIff(repositories: seq<Repository>, orderKey: OrderKey, releases: seq<Release>, unique: bool, complete: bool, distinct: bool)
    requires Collected(repositories, orderKey, AllTitles(repositories), releases)
    requires unique <==> forall r | r in repositories :: DistinctTitles(r.milestones)
    requires complete <==> forall t | t in AllTitles(repositories) :: Catalogued(repositories, orderKey, t)
    requires distinct <==> forall i, j | 0 <= i < j < |releases| :: releases[i].key != releases[j].key
    ensures unique && complete && distinct && releases != [] <==> SoundMilestones(repositories, orderKey)
  {
    if complete {
      assert ReleaseTitles(releases) == AllTitles(repositories);
      if releases != [] { assert releases[0].title in ReleaseTitles(releases); }
      if distinct {
        forall t, u | t in ReleaseTitles(releases) && u in ReleaseTitles(releases) && orderKey(t) == orderKey(u) ensures t == u {
          var i :| 0 <= i < |releases| && releases[i].title == t;
          var j :| 0 <= j < |releases| && releases[j].title == u;
          assert releases[i] in releases && releases[j] in releases;
        }
      } else {
        var i, j :| 0 <= i < j < |releases| && releases[i].key == releases[j].key;
        assert releases[i] in releases && releases[j] in releases;
        assert releases[i].title in ReleaseTitles(releases) && releases[j].title in ReleaseTitles(releases);
      }
    }
  }

  /** Without a catalog problem, every title is catalogued and the ranks are the version order. */
  lemma SoundCatalogOrder(repositories: seq<Repository>, orderKey: OrderKey, catalog: Catalog, t: string, u: string)
    requires CatalogOf(repositories, orderKey, catalog) && SoundMilestones(repositories, orderKey)
    requires t in AllTitles(repositories) && u in AllTitles(repositories)
    ensures t in catalog && u in catalog && orderKey(t).Some? && orderKey(u).Some?
    ensures catalog[t].rank < catalog[u].rank <==> orderKey(t).value < orderKey(u).value
  {
    assert Catalogued(repositories, orderKey, t) && Catalogued(repositories, orderKey, u);
    assert t in catalog.Keys && u in catalog.Keys;
    CompareTextZero(t, u);
    assert catalog[t].rank < catalog[u].rank <==> Before(orderKey, t, u);
  }

  /** A catalogued release stands in every repository, with the catalogued state. */
  lemma CataloguedEverywhere(repositories: seq<Repository>, orderKey: OrderKey, catalog: Catalog, t: string, r: Repository)
    requires CatalogOf(repositories, orderKey, catalog) && t in catalog && r in repositories
    ensures Milestone(t, catalog[t].state) in r.milestones
  {
    assert InEvery(repositories, t, catalog[t].state);
    StateInMember(r.milestones, t);
  }

  lemma {:induction false} StateInMember(milestones: seq<Milestone>, title: string)
    requires StateIn(milestones, title).Some?
    ensures Milestone(title, StateIn(milestones, title).value) in milestones
  {
    if milestones[0].title != title { StateInMember(milestones[1..], title); }
  }
}
