/** From a repo path back to its ID, and the listing it inverts: internal/chainguard/client.go. */
module RepoResolve {
  import opened Core
  import opened Sorting
  import opened Paths
  import opened GroupWalk

  datatype ResolveError = RepoNotFound | ListingFailed

  /** A request filters by name, unless the name is empty: that is the request that lists everything. */
  predicate Selects(filter: string, name: string) { filter == "" || name == filter }

  /** The first item of the filtered listing. */
  function FindGroup(groups: seq<Group>, name: string): Option<Group> {
    if groups == [] then None
    else if Selects(name, groups[0].name) then Some(groups[0]) else FindGroup(groups[1..], name)
  }

  function FindRepo(repos: seq<Repo>, name: string): Option<Repo> {
    if repos == [] then None
    else if Selects(name, repos[0].name) then Some(repos[0]) else FindRepo(repos[1..], name)
  }

  function ResolveSubgroup(org: Org, parent: string, name: string): Result<string, ResolveError> {
    match org.groups(parent)
    case Err(_) => Err(ListingFailed)
    case Ok(groups) =>
      match FindGroup(groups, name)
      case None => Err(RepoNotFound)
      case Some(g) => Ok(g.id)
  }

  /** Follow subgroup names from `id`. */
  function Follow(org: Org, id: string, segs: seq<string>): Result<string, ResolveError>
    decreases |segs|
  {
    if segs == [] then Ok(id)
    else
      match ResolveSubgroup(org, id, segs[0])
      case Err(e) => Err(e)
      case Ok(next) => Follow(org, next, segs[1..])
  }

  function Resolve(org: Org, root: string, path: string): Result<string, ResolveError> {
    var segs := Split(path);
    match Follow(org, root, segs[..|segs| - 1])
    case Err(e) => Err(e)
    case Ok(parent) =>
      match org.repos(parent)
      case Err(_) => Err(ListingFailed)
      case Ok(repos) =>
        match FindRepo(repos, segs[|segs| - 1])
        case None => Err(RepoNotFound)
        case Some(r) => Ok(r.id)
  }

  class Client {
    const org: Org
    const orgUIDP: string

    constructor (org: Org, orgUIDP: string)
      ensures this.org == org && this.orgUIDP == orgUIDP
    {
      this.org, this.orgUIDP := org, orgUIDP;
    }

    method ResolveRepoUIDP(repoName: string) returns (r: Result<string, ResolveError>)
      ensures r == Resolve(org, orgUIDP, repoName)
    {
      var segments := Split(repoName);
      var inner := segments[..|segments| - 1];
      var parent := orgUIDP;
      var i := 0;
      while i < |inner|
        invariant 0 <= i <= |inner|
        invariant Follow(org, orgUIDP, inner) == Follow(org, parent, inner[i..])
      {
        var next := ResolveSubgroup(org, parent, inner[i]);
        if next.Err? {
          return Err(next.error);
        }
        assert inner[i..][1..] == inner[i + 1..];
        parent := next.value;
        i := i + 1;
      }
      var repos := org.repos(parent);
      if repos.Err? {
        return Err(ListingFailed);
      }
      var found := FindRepo(repos.value, segments[|segments| - 1]);
      return if found.None? then Err(RepoNotFound) else Ok(found.value.id);
    }

    /** The listing, in ascending order. */
    method ListAllRepos() returns (r: Result<seq<string>, WalkError>)
      ensures r == ListedRepos(org, orgUIDP)
      ensures r.Ok? ==> forall i, j :: 0 <= i < j < |r.value| ==> !BytewiseBefore(r.value[j], r.value[i])
      ensures r.Ok? ==> WalkRepos(org, orgUIDP).Ok? && multiset(r.value) == multiset(WalkRepos(org, orgUIDP).value)
      ensures r.Err? ==> WalkRepos(org, orgUIDP) == Err(r.error)
    {
      var walked := RunWalk(org, orgUIDP);
      if walked.Err? {
        return walked;
      }
      SortedBytewise(walked.value);
      return Ok(Sort(walked.value, StringLess));
    }
  }

  function ListedRepos(org: Org, root: string): Result<seq<string>, WalkError> {
    match WalkRepos(org, root)
    case Err(e) => Err(e)
    case Ok(out) => Ok(Sort(out, StringLess))
  }

  lemma SortedBytewise(s: seq<string>)
    ensures forall i, j :: 0 <= i < j < |Sort(s, StringLess)| ==>
      !BytewiseBefore(Sort(s, StringLess)[j], Sort(s, StringLess)[i])
  {
    var out := Sort(s, StringLess);
    StringOrder();
    SortAscending(s, StringLess);
    forall i, j | 0 <= i < j < |out| ensures !BytewiseBefore(out[j], out[i]) {
      StringLessMeaning(out[j], out[i]);
    }
  }

  // ---------- what resolving means ----------

  /** The first of the groups with this name; of all of them, when the name is empty. */
  ghost predicate FirstGroup(groups: seq<Group>, name: string, id: string) {
    exists q :: 0 <= q < |groups| && groups[q].id == id && (name == "" || groups[q].name == name)
      && forall j :: 0 <= j < q ==> name != "" && groups[j].name != name
  }

  ghost predicate FirstRepo(repos: seq<Repo>, name: string, id: string) {
    exists q :: 0 <= q < |repos| && repos[q].id == id && (name == "" || repos[q].name == name)
      && forall j :: 0 <= j < q ==> name != "" && repos[j].name != name
  }

  /** `ids` starts at `id`, and each further one is the first group of the next name under the one before. */
  ghost predicate Chain(org: Org, id: string, segs: seq<string>, ids: seq<string>) {
    && 1 <= |ids| <= |segs| + 1 && ids[0] == id
    && forall m :: 0 <= m < |ids| - 1 ==> org.groups(ids[m]).Ok? && FirstGroup(org.groups(ids[m]).value, segs[m], ids[m + 1])
  }

  lemma {:induction false} FindGroupFirst(groups: seq<Group>, name: string)
    ensures FindGroup(groups, name).Some? ==> FirstGroup(groups, name, FindGroup(groups, name).value.id)
    ensures FindGroup(groups, name).None? ==> NoGroup(groups, name)
  {
    if groups != [] && !Selects(name, groups[0].name) {
      FindGroupFirst(groups[1..], name);
      if FindGroup(groups, name).Some? {
        var id := FindGroup(groups, name).value.id;
        var q :| 0 <= q < |groups| - 1 && groups[1..][q].id == id && (name == "" || groups[1..][q].name == name)
          && forall j :: 0 <= j < q ==> name != "" && groups[1..][j].name != name;
        assert groups[q + 1].id == id;
        assert forall j :: 1 <= j <= q ==> groups[j] == groups[1..][j - 1];
      }
    } else if groups != [] {
      assert groups[0].id == FindGroup(groups, name).value.id;
    }
  }

  lemma {:induction false} FindRepoFirst(repos: seq<Repo>, name: string)
    ensures FindRepo(repos, name).Some? ==> FirstRepo(repos, name, FindRepo(repos, name).value.id)
    ensures FindRepo(repos, name).None? ==> NoRepo(repos, name)
  {
    if repos != [] && !Selects(name, repos[0].name) {
      FindRepoFirst(repos[1..], name);
      if FindRepo(repos, name).Some? {
        var id := FindRepo(repos, name).value.id;
        var q :| 0 <= q < |repos| - 1 && repos[1..][q].id == id && (name == "" || repos[1..][q].name == name)
          && forall j :: 0 <= j < q ==> name != "" && repos[1..][j].name != name;
        assert repos[q + 1].id == id;
        assert forall j :: 1 <= j <= q ==> repos[j] == repos[1..][j - 1];
      }
    } else if repos != [] {
      assert repos[0].id == FindRepo(repos, name).value.id;
    }
  }

  /** The chain breaks off at a group whose subgroups cannot be listed. */
  ghost predicate Unlistable(org: Org, segs: seq<string>, ids: seq<string>) {
    ids != [] && |ids| <= |segs| && org.groups(ids[|ids| - 1]).Err?
  }

  ghost predicate NoGroup(groups: seq<Group>, name: string) {
    forall g :: g in groups ==> name != "" && g.name != name
  }

  ghost predicate NoRepo(repos: seq<Repo>, name: string) {
    forall r :: r in repos ==> name != "" && r.name != name
  }

  /** The chain breaks off at a group that has no subgroup of the next name. */
  ghost predicate Missing(org: Org, segs: seq<string>, ids: seq<string>) {
    && ids != [] && |ids| <= |segs| && org.groups(ids[|ids| - 1]).Ok?
    && NoGroup(org.groups(ids[|ids| - 1]).value, segs[|ids| - 1])
  }

  lemma {:induction false} FollowMeaning(org: Org, id: string, segs: seq<string>) returns (ids: seq<string>)
    ensures Chain(org, id, segs, ids)
    ensures match Follow(org, id, segs)
      case Ok(x) => |ids| == |segs| + 1 && ids[|segs|] == x
      case Err(ListingFailed) => Unlistable(org, segs, ids)
      case Err(RepoNotFound) => Missing(org, segs, ids)
    decreases |segs|
  {
    ids := [id];
    if segs != [] && org.groups(id).Ok? {
      FindGroupFirst(org.groups(id).value, segs[0]);
      var next := ResolveSubgroup(org, id, segs[0]);
      if next.Ok? {
        var rest := FollowMeaning(org, next.value, segs[1..]);
        ids := [id] + rest;
        forall m | 0 <= m < |ids| - 1
          ensures org.groups(ids[m]).Ok? && FirstGroup(org.groups(ids[m]).value, segs[m], ids[m + 1])
        {
          assert m > 0 ==> ids[m] == rest[m - 1] && ids[m + 1] == rest[m] && segs[m] == segs[1..][m - 1];
        }
        assert ids[|ids| - 1] == rest[|rest| - 1];
        if |rest| <= |segs| - 1 {
          assert segs[|ids| - 1] == segs[1..][|rest| - 1];
          MissingFurther(org, id, segs, rest);
        }
      } else {
        assert next.error.RepoNotFound? ==> Missing(org, segs, ids);
      }
    }
  }

  lemma MissingFurther(org: Org, id: string, segs: seq<string>, rest: seq<string>)
    requires 1 <= |rest| < |segs|
    ensures Missing(org, segs[1..], rest) ==> Missing(org, segs, [id] + rest)
  {
    var ids := [id] + rest;
    assert ids[|ids| - 1] == rest[|rest| - 1] && segs[|ids| - 1] == segs[1..][|rest| - 1];
  }

  /**
   What resolving a path answers, and why. The names but the last are followed from group to
   group, each time to the first match; the repo is the first match of the last name where they
   lead. A listing on the way that fails, the repos' own included, is a failure; a name with no
   match is not found.
   */
  lemma ResolveMeaning(org: Org, root: string, path: string) returns (ids: seq<string>)
    ensures var segs := Split(path);
      var inner, last := segs[..|segs| - 1], segs[|segs| - 1];
      && Chain(org, root, inner, ids)
      && match Resolve(org, root, path)
         case Ok(x) =>
           |ids| == |segs| && org.repos(ids[|ids| - 1]).Ok? && FirstRepo(org.repos(ids[|ids| - 1]).value, last, x)
         case Err(ListingFailed) =>
           Unlistable(org, inner, ids) || (|ids| == |segs| && org.repos(ids[|ids| - 1]).Err?)
         case Err(RepoNotFound) =>
           || Missing(org, inner, ids)
           || (|ids| == |segs| && org.repos(ids[|ids| - 1]).Ok? && NoRepo(org.repos(ids[|ids| - 1]).value, last))
  {
    var segs := Split(path);
    var inner, last := segs[..|segs| - 1], segs[|segs| - 1];
    ids := FollowMeaning(org, root, inner);
    var parent := Follow(org, root, inner);
    if parent.Ok? && org.repos(parent.value).Ok? {
      FindRepoFirst(org.repos(parent.value).value, last);
    }
  }

  // ---------- naming hypotheses ----------

  predicate GoodName(name: string) { name != "" && '/' !in name }

  /** Names are non-empty, free of slashes and distinct among siblings. */
  ghost predicate WellNamed(org: Org, id: string) {
    && (org.groups(id).Ok? ==>
          var gs := org.groups(id).value;
          && (forall i :: 0 <= i < |gs| ==> GoodName(gs[i].name))
          && (forall i, j :: 0 <= i < j < |gs| ==> gs[i].name != gs[j].name))
    && (org.repos(id).Ok? ==>
          var rs := org.repos(id).value;
          && (forall i :: 0 <= i < |rs| ==> GoodName(rs[i].name))
          && (forall i, j :: 0 <= i < j < |rs| ==> rs[i].name != rs[j].name))
  }

  ghost predicate AllWellNamed(org: Org, vs: seq<Visit>) {
    forall v :: v in vs ==> WellNamed(org, v.id)
  }

  lemma {:induction false} FindGroupMeaning(groups: seq<Group>, name: string)
    ensures FindGroup(groups, name).Some? ==>
      FindGroup(groups, name).value in groups && Selects(name, FindGroup(groups, name).value.name)
    ensures FindGroup(groups, name).None? <==> forall g :: g in groups ==> !Selects(name, g.name)
  {
    if groups != [] {
      FindGroupMeaning(groups[1..], name);
    }
  }

  lemma {:induction false} FindRepoMeaning(repos: seq<Repo>, name: string)
    ensures FindRepo(repos, name).Some? ==>
      FindRepo(repos, name).value in repos && Selects(name, FindRepo(repos, name).value.name)
    ensures FindRepo(repos, name).None? <==> forall r :: r in repos ==> !Selects(name, r.name)
  {
    if repos != [] {
      FindRepoMeaning(repos[1..], name);
    }
  }

  // ---------- visits and names ----------

  lemma {:induction false} UnfoldGroupsMember(org: Org, groups: seq<Group>, segs: seq<string>, v: Visit)
    requires |segs| <= MAX_GROUP_DEPTH
    ensures v in UnfoldGroups(org, groups, segs)
       <==> exists g :: g in groups && v in Unfold(org, Visit(g.id, segs + [g.name]))
  {
    if groups != [] {
      UnfoldGroupsMember(org, groups[1..], segs, v);
    }
  }

  /** The subgroup of `start` a later visit was reached through. */
  lemma ChildOf(org: Org, start: Visit, v: Visit) returns (g: Group)
    requires v in Unfold(org, start) && v != start
    ensures |start.segs| <= MAX_GROUP_DEPTH && org.groups(start.id).Ok? && g in org.groups(start.id).value
    ensures var child := Visit(g.id, start.segs + [g.name]);
      v in Unfold(org, child) && forall w :: w in Unfold(org, child) ==> w in Unfold(org, start)
  {
    var groups := org.groups(start.id).value;
    assert v in UnfoldGroups(org, groups, start.segs);
    UnfoldGroupsMember(org, groups, start.segs, v);
    g :| g in groups && v in Unfold(org, Visit(g.id, start.segs + [g.name]));
    forall w | w in Unfold(org, Visit(g.id, start.segs + [g.name])) ensures w in Unfold(org, start) {
      UnfoldGroupsMember(org, groups, start.segs, w);
    }
  }

  lemma FindGroupUnique(groups: seq<Group>, g: Group)
    requires g in groups && g.name != ""
    requires forall i, j :: 0 <= i < j < |groups| ==> groups[i].name != groups[j].name
    ensures FindGroup(groups, g.name) == Some(g)
  {
    FindGroupMeaning(groups, g.name);
    var f := FindGroup(groups, g.name).value;
    var i :| 0 <= i < |groups| && groups[i] == g;
    var j :| 0 <= j < |groups| && groups[j] == f;
    assert i == j;
  }

  /** Every visit is reached by following its own names. */
  lemma {:induction false} VisitsAreFollowed(org: Org, start: Visit, v: Visit)
    requires v in Unfold(org, start) && AllWellNamed(org, Unfold(org, start))
    ensures start.segs <= v.segs && Follow(org, start.id, v.segs[|start.segs|..]) == Ok(v.id)
    ensures forall i :: |start.segs| <= i < |v.segs| ==> GoodName(v.segs[i])
    decreases MAX_GROUP_DEPTH + 1 - |start.segs|
  {
    if v != start {
      assert start == Unfold(org, start)[0];
      assert WellNamed(org, start.id);
      var g := ChildOf(org, start, v);
      var child := Visit(g.id, start.segs + [g.name]);
      VisitsAreFollowed(org, child, v);
      FindGroupUnique(org.groups(start.id).value, g);
      FollowStep(org, start, child, v, g);
    }
  }

  lemma FollowStep(org: Org, start: Visit, child: Visit, v: Visit, g: Group)
    requires child == Visit(g.id, start.segs + [g.name]) && child.segs <= v.segs
    requires ResolveSubgroup(org, start.id, g.name) == Ok(g.id)
    ensures Follow(org, start.id, v.segs[|start.segs|..]) == Follow(org, child.id, v.segs[|child.segs|..])
    ensures v.segs[|start.segs|] == g.name && start.segs <= v.segs
  {
    var rel := v.segs[|start.segs|..];
    assert v.segs[|start.segs|] == child.segs[|start.segs|] == g.name;
    assert rel[0] == g.name && rel[1..] == v.segs[|child.segs|..];
  }

  /**
   Every group a chain of subgroup names leads to is visited, if nothing lies too deep; under
   the very names of the chain, unless one of them is empty.
   */
  lemma {:induction false} FollowedAreVisits(org: Org, start: Visit, segs: seq<string>)
    requires Follow(org, start.id, segs).Ok?
    requires forall v :: v in Unfold(org, start) ==> Listable(org, v)
    ensures Follow(org, start.id, segs).value in Ids(Unfold(org, start))
    ensures "" !in segs ==> Visit(Follow(org, start.id, segs).value, start.segs + segs) in Unfold(org, start)
    decreases |segs|
  {
    var vs := Unfold(org, start);
    assert vs[0] == start && start in vs && Listable(org, start);
    if segs == [] {
      assert start.segs + [] == start.segs;
    } else {
      var groups := org.groups(start.id).value;
      FindGroupMeaning(groups, segs[0]);
      var g := FindGroup(groups, segs[0]).value;
      var child := Visit(g.id, start.segs + [g.name]);
      forall w | w in Unfold(org, child) ensures w in vs {
        UnfoldGroupsMember(org, groups, start.segs, w);
      }
      FollowedAreVisits(org, child, segs[1..]);
      if "" !in segs {
        assert segs[0] in segs;
        assert child.segs + segs[1..] == start.segs + segs;
      }
    }
  }

  /** With good names a path is the slash-join of its names, and splits back into them. */
  lemma {:induction false} PathOfGoodNames(segs: seq<string>)
    requires segs != [] && forall seg :: seg in segs ==> GoodName(seg)
    ensures PathOf(segs) == Join(segs) && PathOf(segs) != "" && Split(PathOf(segs)) == segs
  {
    var init, last := segs[..|segs| - 1], segs[|segs| - 1];
    assert segs == init + [last];
    if init == [] {
      assert segs == [last];
    } else {
      PathOfGoodNames(init);
      JoinSnoc(init, last);
      assert |PathOf(segs)| > |PathOf(init)|;
    }
    assert GoodName(segs[|segs| - 1]);
    SplitJoin(segs);
  }

  lemma UnderIsSnoc(segs: seq<string>, name: string)
    ensures Under(PathOf(segs), name) == PathOf(segs + [name])
  {
    assert (segs + [name])[..|segs|] == segs;
  }

  // ---------- the listing ----------

  ghost predicate Lists(org: Org, v: Visit, r: Repo, path: string) {
    org.repos(v.id).Ok? && r in org.repos(v.id).value && path == PathOf(v.segs + [r.name])
  }

  lemma {:induction false} RepoPathsMember(prefix: string, repos: seq<Repo>, path: string)
    ensures path in RepoPaths(prefix, repos) <==> exists r :: r in repos && path == Under(prefix, r.name)
  {
    if repos != [] {
      var init, last := repos[..|repos| - 1], repos[|repos| - 1];
      RepoPathsMember(prefix, init, path);
      assert forall r :: r in repos <==> r in init || r == last;
      assert path in RepoPaths(prefix, repos) <==> path in RepoPaths(prefix, init) || path == Under(prefix, last.name);
      assert last in repos;
    }
  }

  lemma {:induction false} EmittedMember(org: Org, vs: seq<Visit>, path: string)
    ensures path in Emitted(org, vs) <==> exists v, r :: v in vs && Lists(org, v, r, path)
  {
    if vs != [] {
      var v := vs[0];
      EmittedMember(org, vs[1..], path);
      if org.repos(v.id).Ok? {
        var repos := org.repos(v.id).value;
        RepoPathsMember(PathOf(v.segs), repos, path);
        forall r ensures r in repos && path == Under(PathOf(v.segs), r.name) <==> Lists(org, v, r, path) {
          UnderIsSnoc(v.segs, r.name);
        }
      }
      assert forall w :: w in vs <==> w == v || w in vs[1..];
    }
  }

  ghost predicate Distinct(s: seq<string>) {
    forall i, j :: 0 <= i < j < |s| ==> s[i] != s[j]
  }

  lemma DistinctConcat(a: seq<string>, b: seq<string>)
    requires Distinct(a) && Distinct(b) && forall x :: x in a ==> x !in b
    ensures Distinct(a + b)
  {
    forall i, j | 0 <= i < j < |a + b| ensures (a + b)[i] != (a + b)[j] {
      if i < |a| <= j {
        assert a[i] in a && b[j - |a|] in b;
      }
    }
  }

  /** Paths of good names determine the names. */
  lemma PathOfInjective(a: seq<string>, b: seq<string>, x: string, y: string)
    requires forall seg :: seg in a + [x] ==> GoodName(seg)
    requires forall seg :: seg in b + [y] ==> GoodName(seg)
    requires PathOf(a + [x]) == PathOf(b + [y])
    ensures a == b && x == y
  {
    PathOfGoodNames(a + [x]);
    PathOfGoodNames(b + [y]);
    assert a == (a + [x])[..|a + [x]| - 1] && b == (b + [y])[..|b + [y]| - 1];
    assert x == (a + [x])[|a|] && y == (b + [y])[|b|];
  }

  lemma {:induction false} RepoPathsDistinct(segs: seq<string>, repos: seq<Repo>)
    requires forall seg :: seg in segs ==> GoodName(seg)
    requires forall i :: 0 <= i < |repos| ==> GoodName(repos[i].name)
    requires forall i, j :: 0 <= i < j < |repos| ==> repos[i].name != repos[j].name
    ensures Distinct(RepoPaths(PathOf(segs), repos))
  {
    if repos != [] {
      var init, last := repos[..|repos| - 1], repos[|repos| - 1];
      RepoPathsDistinct(segs, init);
      forall path | path in RepoPaths(PathOf(segs), init) ensures path != Under(PathOf(segs), last.name) {
        RepoPathsMember(PathOf(segs), init, path);
        var r :| r in init && path == Under(PathOf(segs), r.name);
        UnderIsSnoc(segs, r.name);
        UnderIsSnoc(segs, last.name);
        if path == Under(PathOf(segs), last.name) {
          PathOfInjective(segs, segs, r.name, last.name);
        }
      }
      DistinctConcat(RepoPaths(PathOf(segs), init), [Under(PathOf(segs), last.name)]);
    }
  }

  ghost predicate Named(org: Org, v: Visit) {
    WellNamed(org, v.id) && forall seg :: seg in v.segs ==> GoodName(seg)
  }

  lemma {:induction false} EmittedDistinct(org: Org, vs: seq<Visit>)
    requires forall v :: v in vs ==> Named(org, v)
    requires forall i, j :: 0 <= i < j < |vs| ==> vs[i].segs != vs[j].segs
    ensures Distinct(Emitted(org, vs))
  {
    if vs != [] {
      var v := vs[0];
      EmittedDistinct(org, vs[1..]);
      assert v in vs && Named(org, v);
      if org.repos(v.id).Ok? {
        var repos := org.repos(v.id).value;
        RepoPathsDistinct(v.segs, repos);
        forall path | path in RepoPaths(PathOf(v.segs), repos) ensures path !in Emitted(org, vs[1..]) {
          RepoPathsMember(PathOf(v.segs), repos, path);
          EmittedMember(org, vs[1..], path);
          var r :| r in repos && path == Under(PathOf(v.segs), r.name);
          UnderIsSnoc(v.segs, r.name);
          if w, q :| w in vs[1..] && Lists(org, w, q, path) {
            assert Named(org, w);
            PathOfInjective(v.segs, w.segs, r.name, q.name);
            assert false;
          }
        }
        DistinctConcat(RepoPaths(PathOf(v.segs), repos), Emitted(org, vs[1..]));
      }
    }
  }

  /** In a successful, well-named walk visits carry good names, and names determine the visit. */
  lemma VisitsNamed(org: Org, root: string)
    requires var vs := Unfold(org, Visit(root, [])); Walkable(org, vs, {}) && AllWellNamed(org, vs)
    ensures var vs := Unfold(org, Visit(root, []));
      && (forall v :: v in vs ==> Named(org, v) && Follow(org, root, v.segs) == Ok(v.id))
      && (forall i, j :: 0 <= i < j < |vs| ==> vs[i].segs != vs[j].segs)
  {
    var start := Visit(root, []);
    var vs := Unfold(org, start);
    forall v | v in vs ensures Named(org, v) && Follow(org, root, v.segs) == Ok(v.id) {
      VisitsAreFollowed(org, start, v);
      assert v.segs[0..] == v.segs;
    }
    forall i, j | 0 <= i < j < |vs| ensures vs[i].segs != vs[j].segs {
      assert vs[i] in vs && vs[j] in vs;
    }
  }

  lemma ResolveListed(org: Org, root: string, v: Visit, r: Repo, path: string)
    requires Follow(org, root, v.segs) == Ok(v.id) && Named(org, v) && Lists(org, v, r, path)
    ensures Resolve(org, root, path) == Ok(r.id)
  {
    var segs := v.segs + [r.name];
    PathOfGoodNames(segs);
    assert segs[..|segs| - 1] == v.segs;
    var repos := org.repos(v.id).value;
    FindRepoMeaning(repos, r.name);
    var f := FindRepo(repos, r.name).value;
    var i :| 0 <= i < |repos| && repos[i] == r;
    var j :| 0 <= j < |repos| && repos[j] == f;
    assert i == j;
  }

  /** Whatever resolves, resolves to the ID of a repo that is listed; under its own path unless a segment is empty. */
  lemma ResolvedIsListed(org: Org, root: string, path: string) returns (v: Visit, r: Repo)
    requires Walkable(org, Unfold(org, Visit(root, [])), {})
    requires Resolve(org, root, path).Ok?
    ensures v in Unfold(org, Visit(root, [])) && org.repos(v.id).Ok? && r in org.repos(v.id).value
    ensures Resolve(org, root, path) == Ok(r.id)
    ensures "" !in Split(path) ==> Lists(org, v, r, path)
  {
    var start := Visit(root, []);
    var segs := Split(path);
    var inner, last := segs[..|segs| - 1], segs[|segs| - 1];
    FollowedAreVisits(org, start, inner);
    v :| v in Unfold(org, start) && v.id == Follow(org, root, inner).value;
    FindRepoMeaning(org.repos(v.id).value, last);
    r := FindRepo(org.repos(v.id).value, last).value;
    if "" !in segs {
      assert [] + inner == inner && last in segs;
      v := Visit(v.id, inner);
      assert segs == v.segs + [r.name];
      PathOfGoodNames(segs);
      JoinSplit(path);
    }
  }

  lemma NoEmptySegment(segs: seq<string>)
    requires segs != [] && forall seg :: seg in segs ==> GoodName(seg)
    ensures "" !in Split(PathOf(segs))
  {
    PathOfGoodNames(segs);
  }

  /** What resolves without an empty segment was listed, however the repos are named. */
  lemma ResolvableIsListed(org: Org, root: string, path: string)
    requires WalkRepos(org, root).Ok? && Resolve(org, root, path).Ok? && "" !in Split(path)
    ensures path in ListedRepos(org, root).value
  {
    WalkExact(org, root);
    var v, r := ResolvedIsListed(org, root, path);
    EmittedMember(org, Unfold(org, Visit(root, [])), path);
    SortElements(WalkRepos(org, root).value, StringLess);
  }

  /**
   Listing and resolving are inverse: when the walk succeeds and names are good, the listing is
   strictly ascending, a listed path resolves to the ID of the repo that was listed under it,
   and a path that resolves was listed exactly when it has no empty segment.
   */
  lemma ListResolveInverse(org: Org, root: string)
    requires WalkRepos(org, root).Ok?
    requires AllWellNamed(org, Unfold(org, Visit(root, [])))
    ensures ListedRepos(org, root).Ok? && StrictlyAscending(ListedRepos(org, root).value, StringLess)
    ensures var out := ListedRepos(org, root).value; forall i, j :: 0 <= i < j < |out| ==> BytewiseBefore(out[i], out[j])
    ensures forall path :: path in ListedRepos(org, root).value <==> Resolve(org, root, path).Ok? && "" !in Split(path)
    ensures forall v, r, path :: v in Unfold(org, Visit(root, [])) && Lists(org, v, r, path)
              ==> path in ListedRepos(org, root).value && Resolve(org, root, path) == Ok(r.id)
  {
    WalkExact(org, root);
    VisitsNamed(org, root);
    var vs := Unfold(org, Visit(root, []));
    var paths := Emitted(org, vs);
    EmittedDistinct(org, vs);
    StringOrder();
    SortStrict(paths, StringLess);
    StrictStringsBytewise(Sort(paths, StringLess));
    SortElements(paths, StringLess);
    forall v, r, path | v in vs && Lists(org, v, r, path)
      ensures path in paths && Resolve(org, root, path) == Ok(r.id) && "" !in Split(path)
    {
      EmittedMember(org, vs, path);
      ResolveListed(org, root, v, r, path);
      NoEmptySegment(v.segs + [r.name]);
    }
    forall path ensures path in paths <==> Resolve(org, root, path).Ok? && "" !in Split(path) {
      EmittedMember(org, vs, path);
      if Resolve(org, root, path).Ok? && "" !in Split(path) {
        ResolvableIsListed(org, root, path);
      }
    }
  }

  /** For the names a query accepts, being listed and resolving are the same. */
  lemma AcceptedListedIffResolves(org: Org, root: string, path: string)
    requires WalkRepos(org, root).Ok? && RepoNameOk(path)
    requires AllWellNamed(org, Unfold(org, Visit(root, [])))
    ensures path in ListedRepos(org, root).value <==> Resolve(org, root, path).Ok?
  {
    ListResolveInverse(org, root);
    assert "" !in Split(path);
  }

  /** A root with the single repo `nginx`. */
  function OneRepo(): Org {
    Org((id: string) => Ok(if id == "root" then [Repo("1", "nginx")] else []), (id: string) => Ok([]))
  }

  lemma OneRepoWellNamed()
    ensures AllWellNamed(OneRepo(), Unfold(OneRepo(), Visit("root", [])))
  {
    forall v | v in Unfold(OneRepo(), Visit("root", [])) ensures WellNamed(OneRepo(), v.id) {
      assert v.id == "root";
      assert GoodName("nginx");
    }
  }

  lemma OneRepoListing()
    ensures ListedRepos(OneRepo(), "root") == Ok(["nginx"])
  {
    var repos := [Repo("1", "nginx")];
    var out := ["nginx"];
    assert repos[..0] == [] && out[1..] == [];
    assert RepoPaths("", repos) == out;
    assert WalkRepos(OneRepo(), "root") == Ok(out);
    assert Sort(out, StringLess) == Insert(out[0], [], StringLess) == out;
  }

  /** The empty path resolves, to a repo listed under another path. */
  lemma EmptyPathResolves()
    ensures AllWellNamed(OneRepo(), Unfold(OneRepo(), Visit("root", [])))
    ensures ListedRepos(OneRepo(), "root") == Ok(["nginx"])
    ensures Resolve(OneRepo(), "root", "") == Resolve(OneRepo(), "root", "nginx") == Ok("1")
  {
    OneRepoWellNamed();
    OneRepoListing();
    SplitFirst("nginx", "");
    assert [""][..0] == [] && ["nginx"][..0] == [];
  }
}
