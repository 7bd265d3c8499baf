/** A committed snapshot says what the live server would have said at the same instant. */
module LiveSnapshot {
  import opened Core
  import opened Sorting
  import opened Paths
  import opened ApkFormat
  import opened ApkReleases
  import opened Rewind
  import opened RepoReleases
  import opened Windows
  import opened Disks
  import opened Generate
  import ApkStore
  import GroupWalk
  import RepoResolve

  /** The frozen instant, the two ages, the limit on package tasks and the output path. */
  datatype Options = Options(now: Time, minAge: int, maxAge: int, limit: int, output: Output)

  type Sources = map<string, Source>

  /** The run `snapshot` starts for these sources. */
  ghost function SnapshotPlan(sources: Sources, o: Options): Plan {
    Plan(map n | n in sources :: PackageNames(sources[n]),
         (n: string, pkg: string) =>
           if n in sources then SourceAnswer(sources[n], pkg, CutoffFor(o.now, o.minAge), "") else Err(NotFound),
         (pkg: string) => FeedPath(pkg),
         o.limit,
         CutoffFor(o.now, o.maxAge),
         o.output)
  }

  /** What the live answer at the same instant leaves within the maximum age. */
  ghost function LivePublished(src: Source, pkg: string, o: Options): seq<Release> {
    var live := LiveAnswer(src, pkg, o.now, o.minAge, "");
    if live.Ok? then AgeLimited(live.value, CutoffFor(o.now, o.maxAge)) else []
  }

  lemma KeptIsLive(sources: Sources, o: Options, n: string, pkg: string)
    ensures Kept(SnapshotPlan(sources, o), n, pkg) == if n in sources then LivePublished(sources[n], pkg, o) else []
  {
  }

  /** A datasource answers only for names it accepts, and those are their own feed paths. */
  lemma PublishedIsAccepted(src: Source, pkg: string, o: Options)
    requires LivePublished(src, pkg, o) != []
    ensures ApkNameOk(pkg) || RepoNameOk(pkg)
    ensures FeedPath(pkg) == Some(pkg)
  {
    AcceptedNamesAreFeedPaths(pkg);
  }

  /** What is published was listed: the listing misses nothing the live server answers. */
  lemma PublishesIffLive(sources: Sources, o: Options, n: string, pkg: string, path: string)
    requires n in sources && PackageNames(sources[n]).Ok?
    ensures Publishes(SnapshotPlan(sources, o), n, pkg, path) <==> path == pkg && LivePublished(sources[n], pkg, o) != []
  {
    KeptIsLive(sources, o, n, pkg);
    if LivePublished(sources[n], pkg, o) != [] {
      PublishedIsAccepted(sources[n], pkg, o);
      AnsweredIsListed(sources[n], pkg, CutoffFor(o.now, o.minAge));
    }
  }

  /** Every package that is published has a path of its own. */
  lemma SnapshotOwnPaths(sources: Sources, o: Options)
    ensures OwnPaths(SnapshotPlan(sources, o))
  {
    var p := SnapshotPlan(sources, o);
    forall n, a, b, path | Publishes(p, n, a, path) && Publishes(p, n, b, path) ensures a == b {
      assert n in sources && PackageNames(sources[n]).Ok?;
      PublishesIffLive(sources, o, n, a, path);
      PublishesIffLive(sources, o, n, b, path);
    }
  }

  /** `dir` holds exactly what the live server would have answered. */
  ghost predicate MirrorsLive(src: Source, o: Options, dir: Dir) {
    forall pkg ::
      && (pkg in dir <==> LivePublished(src, pkg, o) != [])
      && (pkg in dir ==> dir[pkg] == Whole(LivePublished(src, pkg, o)))
  }

  lemma ExactMirrorsLive(sources: Sources, o: Options, n: string, dir: Dir)
    requires n in sources && PackageNames(sources[n]).Ok? && Exact(SnapshotPlan(sources, o), n, dir)
    ensures MirrorsLive(sources[n], o, dir)
  {
    var p := SnapshotPlan(sources, o);
    forall pkg
      ensures pkg in dir <==> LivePublished(sources[n], pkg, o) != []
      ensures pkg in dir ==> dir[pkg] == Whole(LivePublished(sources[n], pkg, o))
    {
      KeptIsLive(sources, o, n, pkg);
      PublishesIffLive(sources, o, n, pkg, pkg);
      if pkg in dir {
        var q :| Publishes(p, n, q, pkg);
        PublishesIffLive(sources, o, n, q, pkg);
      }
      if Publishes(p, n, pkg, pkg) {
        assert Published(p, n, dir, pkg);
      }
    }
  }

  lemma ExactTreeMirrorsLive(sources: Sources, o: Options, tree: Tree, counts: map<string, (nat, nat)>)
    requires ExactTree(SnapshotPlan(sources, o), tree, counts)
    ensures tree.Keys == sources.Keys && forall n :: n in sources ==> MirrorsLive(sources[n], o, tree[n])
  {
    var p := SnapshotPlan(sources, o);
    forall n | n in sources ensures MirrorsLive(sources[n], o, tree[n]) {
      assert n in p.packages && p.packages[n] == PackageNames(sources[n]);
      ExactMirrorsLive(sources, o, n, tree[n]);
    }
  }

  /** The maximum age does not rule the release out. */
  predicate NotTooOld(r: Release, o: Options) {
    o.maxAge <= 0 || o.now == o.maxAge || r.timestamp == 0 || r.timestamp >= o.now - o.maxAge
  }

  /** The file takes these positions of the live answer: all that are not too old. */
  ghost predicate FilePick(file: seq<Release>, live: seq<Release>, o: Options, pick: seq<nat>) {
    PickedFrom(file, live, pick) && forall i :: 0 <= i < |live| ==> (i in pick <==> NotTooOld(live[i], o))
  }

  /**
   The file under this name: there exactly when the live answer has a release that is not too
   old, and then complete, with exactly those releases, once each and in the live order.
   */
  ghost predicate FileHolds(src: Source, o: Options, dir: Dir, pkg: string) {
    var live := LiveAnswer(src, pkg, o.now, o.minAge, "");
    && (pkg in dir <==> live.Ok? && exists r :: r in live.value && NotTooOld(r, o))
    && (pkg in dir ==> dir[pkg].Whole? && exists pick :: FilePick(dir[pkg].releases, live.value, o, pick))
  }

  lemma KeptIsPicked(live: seq<Release>, o: Options) returns (pick: seq<nat>)
    ensures FilePick(AgeLimited(live, CutoffFor(o.now, o.maxAge)), live, o, pick)
  {
    var cutoff := CutoffFor(o.now, o.maxAge);
    AgeLimitedMeaning(live, cutoff);
    if cutoff == 0 {
      pick := seq(|live|, i => i);
      forall i | 0 <= i < |live| ensures i in pick {
        assert pick[i] == i;
      }
    } else {
      pick :| YoungPick(AgeLimited(live, cutoff), live, cutoff, pick);
    }
  }

  lemma SomePicked(file: seq<Release>, live: seq<Release>, o: Options, pick: seq<nat>)
    requires FilePick(file, live, o, pick)
    ensures file != [] <==> exists r :: r in live && NotTooOld(r, o)
  {
    if file != [] {
      assert pick[0] in pick;
      assert live[pick[0]] in live && NotTooOld(live[pick[0]], o);
    }
    if r :| r in live && NotTooOld(r, o) {
      var i :| 0 <= i < |live| && live[i] == r;
      assert i in pick;
    }
  }

  lemma MirrorMeaning(src: Source, o: Options, dir: Dir, pkg: string)
    requires MirrorsLive(src, o, dir)
    ensures FileHolds(src, o, dir, pkg)
  {
    var live := LiveAnswer(src, pkg, o.now, o.minAge, "");
    if live.Ok? {
      var pick := KeptIsPicked(live.value, o);
      SomePicked(LivePublished(src, pkg, o), live.value, o, pick);
    }
  }

  /** The run has committed this tree at the output. */
  ghost predicate Wrote(o: Options, s: State, tree: Tree) {
    s.stage == Committed && Target(o.output) in s.disk && s.disk[Target(o.output)] == Holding(tree)
  }

  /**
   Agreement: in every run that commits, and for every name at all, a source has a file under
   that name exactly when the live answer at the same instant leaves something within the
   maximum age, and the file then holds just that.
   */
  lemma LiveAndSnapshotAgree(sources: Sources, o: Options, run: seq<State>, i: nat)
    requires IsRun(SnapshotPlan(sources, o), run) && i < |run| && run[i].stage == Committed
    ensures exists tree :: Wrote(o, run[i], tree)
    ensures forall tree :: Wrote(o, run[i], tree) ==>
      tree.Keys == sources.Keys && forall n :: n in sources ==> MirrorsLive(sources[n], o, tree[n])
    ensures forall tree, n, pkg :: Wrote(o, run[i], tree) && n in sources ==> FileHolds(sources[n], o, tree[n], pkg)
  {
    SnapshotOwnPaths(sources, o);
    OutputAllOrNothing(SnapshotPlan(sources, o), run, i);
    var tree := run[i].disk[Target(o.output)].tree;
    assert Wrote(o, run[i], tree);
    ExactTreeMirrorsLive(sources, o, tree, run[i].counts);
    forall n, pkg | n in sources ensures FileHolds(sources[n], o, tree[n], pkg) {
      MirrorMeaning(sources[n], o, tree[n], pkg);
    }
  }

  /** With both windows active every release of a committed snapshot lies inside both. */
  lemma PublishedWithinWindows(sources: Sources, o: Options, run: seq<State>, i: nat, tree: Tree, n: string,
                               path: string, r: Release)
    requires IsRun(SnapshotPlan(sources, o), run) && i < |run| && Wrote(o, run[i], tree)
    requires 0 < o.minAge <= MAX_INT64 && 0 < o.maxAge <= MAX_INT64
    requires n in tree && path in tree[n] && tree[n][path].Whole? && r in tree[n][path].releases
    ensures InWindows(r.timestamp, o.now, o.minAge, o.maxAge)
  {
    LiveAndSnapshotAgree(sources, o, run, i);
    assert MirrorsLive(sources[n], o, tree[n]);
    BothWindows(sources[n], path, o.now, o.minAge, o.maxAge, r);
  }

  /**
   From feed to file: the published list of an apk package is a function of the set of raw
   entries alone, whatever the feeds' order, the map orders and the interleaving.
   */
  lemma ApkFileFromRawEntries(sources: Sources, o: Options, run: seq<State>, i: nat, tree: Tree, n: string, pkg: string,
                              feeds: seq<ApkStore.Feed>)
    requires IsRun(SnapshotPlan(sources, o), run) && i < |run| && Wrote(o, run[i], tree)
    requires n in sources && sources[n].ApkSource? && ApkStore.Installed(sources[n].releases, feeds)
    ensures var raw := RawAnswer(ApkStore.Raw(feeds), sources[n].archs, pkg, CutoffFor(o.now, o.minAge), "");
      var published := if raw.Ok? then AgeLimited(raw.value, CutoffFor(o.now, o.maxAge)) else [];
      && n in tree && (pkg in tree[n] <==> published != []) && (pkg in tree[n] ==> tree[n][pkg] == Whole(published))
  {
    EndToEnd(feeds, sources[n].releases, sources[n].archs, pkg, CutoffFor(o.now, o.minAge), "");
    LiveAndSnapshotAgree(sources, o, run, i);
    assert MirrorsLive(sources[n], o, tree[n]);
  }

  // ---------- when a snapshot commits ----------

  /** Both publish, and `b` is, or lies below, the path of `a`'s file. */
  ghost predicate InTheWay(src: Source, o: Options, a: string, b: string) {
    LivePublished(src, a, o) != [] && LivePublished(src, b, o) != [] && (b == FileOf(a) || FileOf(a) + "/" <= b)
  }

  /** The source is asked for this name, as it is listed, and its backend fails. */
  ghost predicate FailsOn(src: Source, o: Options, pkg: string)
    requires PackageNames(src).Ok?
  {
    pkg in PackageNames(src).value && LiveAnswer(src, pkg, o.now, o.minAge, "") == Err(BackendFailure)
  }

  /**
   The source cannot be listed, fails to answer for a listed name, publishes a release whose
   time cannot be encoded, or needs a file where it needs a directory.
   */
  ghost predicate SourceFails(src: Source, o: Options) {
    || PackageNames(src).Err?
    || (exists pkg :: FailsOn(src, o, pkg))
    || (exists pkg :: !Encodable(LivePublished(src, pkg, o)))
    || (exists a, b :: InTheWay(src, o, a, b))
  }

  /** When a repo source fails on a name: it is listed and accepted, and the backend fails on it. */
  lemma FailsOnIff(src: Source, o: Options, pkg: string)
    requires src.RepoSource? && PackageNames(src).Ok?
    ensures FailsOn(src, o, pkg) <==>
        pkg in PackageNames(src).value && RepoNameOk(pkg) && BackendFails(src, pkg, CutoffFor(o.now, o.minAge))
  {
    RepoSourceMeaning(src, pkg, CutoffFor(o.now, o.minAge), "");
  }

  /** So a listed repo whose tags cannot be listed blocks every snapshot. */
  lemma UnlistableTagsFail(src: Source, o: Options, pkg: string, id: string)
    requires src.RepoSource? && PackageNames(src).Ok? && pkg in PackageNames(src).value && RepoNameOk(pkg)
    requires RepoResolve.Resolve(src.org, src.root, pkg) == Ok(id) && src.tags(id).Err?
    ensures SourceFails(src, o)
  {
    FailsOnIff(src, o, pkg);
  }

  lemma SomeCollideIff(sources: Sources, o: Options, n: string)
    requires n in sources && PackageNames(sources[n]).Ok?
    ensures (exists a, b :: Collide(SnapshotPlan(sources, o), n, a, b)) <==> (exists a, b :: InTheWay(sources[n], o, a, b))
  {
    var p := SnapshotPlan(sources, o);
    forall a, b ensures Collide(p, n, a, b) <==> InTheWay(sources[n], o, a, b) {
      CollideIff(sources, o, n, a, b);
    }
  }

  lemma PublishedContendIff(src: Source, o: Options, a: string, b: string)
    requires LivePublished(src, a, o) != [] && LivePublished(src, b, o) != []
    ensures Contends(a, b) <==> InTheWay(src, o, a, b)
  {
    PublishedIsAccepted(src, a, o);
    PublishedIsAccepted(src, b, o);
    AcceptedNamesContendIff(a, b);
  }

  lemma CollideIff(sources: Sources, o: Options, n: string, a: string, b: string)
    requires n in sources && PackageNames(sources[n]).Ok?
    ensures Collide(SnapshotPlan(sources, o), n, a, b) <==> InTheWay(sources[n], o, a, b)
  {
    var p := SnapshotPlan(sources, o);
    if x, y :| Publishes(p, n, a, x) && Publishes(p, n, b, y) && Contends(x, y) {
      PublishesIffLive(sources, o, n, a, x);
      PublishesIffLive(sources, o, n, b, y);
      PublishedContendIff(sources[n], o, a, b);
    }
    if InTheWay(sources[n], o, a, b) {
      PublishesIffLive(sources, o, n, a, a);
      PublishesIffLive(sources, o, n, b, b);
      PublishedContendIff(sources[n], o, a, b);
      assert Contends(a, b);
    }
  }

  /** Asked for no one architecture, a source never calls the request's argument invalid. */
  lemma FatalIff(src: Source, pkg: string, before: Time)
    ensures Fatal(SourceAnswer(src, pkg, before, "")) <==> SourceAnswer(src, pkg, before, "") == Err(BackendFailure)
  {
    match src
    case ApkSource(releases, archs) => StoreAnswerErrors(releases, archs, pkg, before, "");
    case RepoSource(_, _, _, _) => RepoSourceMeaning(src, pkg, before, "");
  }

  lemma UnstageableIff(sources: Sources, o: Options, n: string, pkg: string)
    requires n in sources && PackageNames(sources[n]).Ok?
    ensures Unstageable(SnapshotPlan(sources, o), n, pkg)
       <==> FailsOn(sources[n], o, pkg) || !Encodable(LivePublished(sources[n], pkg, o))
  {
    KeptIsLive(sources, o, n, pkg);
    FatalIff(sources[n], pkg, CutoffFor(o.now, o.minAge));
    if LivePublished(sources[n], pkg, o) != [] {
      PublishedIsAccepted(sources[n], pkg, o);
      AnsweredIsListed(sources[n], pkg, CutoffFor(o.now, o.minAge));
    }
  }

  lemma SourceBlockedIff(sources: Sources, o: Options, n: string)
    ensures BlockedSource(SnapshotPlan(sources, o), n) <==> n in sources && SourceFails(sources[n], o)
  {
    if n in sources && PackageNames(sources[n]).Ok? {
      SomeCollideIff(sources, o, n);
      forall pkg
        ensures Unstageable(SnapshotPlan(sources, o), n, pkg)
           <==> FailsOn(sources[n], o, pkg) || !Encodable(LivePublished(sources[n], pkg, o))
      {
        UnstageableIff(sources, o, n, pkg);
      }
    }
  }

  ghost predicate NoneFails(sources: Sources, o: Options) {
    forall n :: n in sources ==> !SourceFails(sources[n], o)
  }

  lemma BlockedIff(sources: Sources, o: Options)
    ensures Blocked(SnapshotPlan(sources, o)) <==> !NoneFails(sources, o)
  {
    forall n ensures BlockedSource(SnapshotPlan(sources, o), n) <==> n in sources && SourceFails(sources[n], o) {
      SourceBlockedIff(sources, o, n);
    }
  }

  /**
   Exactly when a snapshot commits. No run commits if some source fails or the output path does
   not end in a plain name. Left undisturbed, with a source to stage and an output path that is
   accepted, and has no parent step before its last element, every run that ends has committed
   if neither is so.
   */
  lemma SnapshotCommitsIff(sources: Sources, o: Options, run: seq<State>, i: nat)
    requires IsRun(SnapshotPlan(sources, o), run) && i < |run|
    ensures run[i].stage == Committed ==> NoneFails(sources, o) && Plain(Last(o.output.path))
    ensures Ended(run[i]) && !Disturbed(run[i]) && Straight(o.output) ==>
      (run[i].stage == Committed <==>
         && sources != map[] && Accepts(run[0].disk, o.output)
         && NoneFails(sources, o) && Plain(Last(o.output.path)))
  {
    var p := SnapshotPlan(sources, o);
    SnapshotOwnPaths(sources, o);
    BlockedIff(sources, o);
    OutcomesHaveCauses(p, run, i);
    assert p.packages.Keys == sources.Keys;
    if Ended(run[i]) && !Disturbed(run[i]) {
      CommitsIffUnblocked(p, run, i);
    }
  }

  /**
   An apk source that some load installed never fails: it lists what it holds and answers for
   it, the parser let in no time that cannot be written, and its names never contend.
   */
  lemma ApkSourcesNeverFail(src: Source, o: Options)
    requires src.ApkSource? && Loadable(src)
    ensures !SourceFails(src, o)
  {
    forall pkg ensures Encodable(LivePublished(src, pkg, o)) {
      LoadedPublishesEncodable(src, pkg, o);
    }
    forall pkg ensures !FailsOn(src, o, pkg) {
      StoreAnswerErrors(src.releases, src.archs, pkg, CutoffFor(o.now, o.minAge), "");
    }
    forall a, b ensures !InTheWay(src, o, a, b) {
      if LivePublished(src, a, o) != [] && LivePublished(src, b, o) != [] {
        AcceptedNamesContendIff(a, b);
        ApkNamesNeverContend(a, b);
      }
    }
  }

  lemma LoadedPublishesEncodable(src: Source, pkg: string, o: Options)
    requires src.ApkSource? && Loadable(src)
    ensures Encodable(LivePublished(src, pkg, o))
  {
    if LiveAnswer(src, pkg, o.now, o.minAge, "").Ok? {
      LoadedIsEncodable(src, pkg, CutoffFor(o.now, o.minAge), "");
      AgeLimitedWithin(LiveAnswer(src, pkg, o.now, o.minAge, "").value, CutoffFor(o.now, o.maxAge));
    }
  }

  /** The limit on package tasks is the one asked for. */
  lemma SnapshotTasksBounded(sources: Sources, o: Options, run: seq<State>, i: nat)
    requires IsRun(SnapshotPlan(sources, o), run) && i < |run| && o.limit > 0
    requires run[i].stage == Staging && run[i].run.Some?
    ensures Active(run[i].run.value) <= o.limit
  {
    SnapshotOwnPaths(sources, o);
    TasksBounded(SnapshotPlan(sources, o), run, i);
  }

  lemma AgeLimitedWithin(releases: seq<Release>, maxAge: Time)
    ensures forall r :: r in AgeLimited(releases, maxAge) ==> r in releases
  {
    forall r | r in AgeLimited(releases, maxAge) ensures r in releases {
      YoungOnesElement(releases, maxAge, r);
    }
  }

  // ---------- a time that cannot be written ----------

  /** The first instant of the year 10000. */
  const YEAR_10000 := (MAX_JSON_UNIX_SEC + 1 - MIN_JSON_UNIX_SEC) * NANOS

  /** One repo with one tag, dated in the year 10000. */
  function FarFutureRepo(): Source {
    RepoSource(RepoResolve.OneRepo(), "root", (id: string) => Ok([Tag("t", "v1", YEAR_10000, "d")]),
               (id: string) => Ok([]))
  }

  lemma NginxAccepted()
    ensures RepoNameOk("nginx")
  {
    SplitFirst("nginx", "");
    assert RepoSegment("nginx");
  }

  lemma FarFutureTags()
    ensures ListTags(FarFutureRepo(), "nginx") == Ok([Tag("t", "v1", YEAR_10000, "d")])
    ensures PackageNames(FarFutureRepo()) == Ok(["nginx"])
  {
    RepoResolve.EmptyPathResolves();
  }

  /** Without age limits a repo with a single tag publishes it as it is. */
  lemma SingleTagPublished(src: Source, pkg: string, o: Options, t: Tag)
    requires src.RepoSource? && RepoNameOk(pkg) && ListTags(src, pkg) == Ok([t]) && o.minAge == 0 && o.maxAge == 0
    ensures LivePublished(src, pkg, o) == [CurrentRelease(t)]
  {
    TagsAsReleasesElements([t]);
  }

  lemma UnencodableFails(src: Source, pkg: string, o: Options, r: Release)
    requires LivePublished(src, pkg, o) == [r] && !JsonTime(r.timestamp)
    ensures SourceFails(src, o)
  {
    assert r in LivePublished(src, pkg, o);
    assert !Encodable(LivePublished(src, pkg, o));
  }

  lemma FarFutureFails(o: Options)
    requires o.minAge == 0 && o.maxAge == 0
    ensures LivePublished(FarFutureRepo(), "nginx", o) == [Release("v1", YEAR_10000, "d")]
    ensures SourceFails(FarFutureRepo(), o)
  {
    NginxAccepted();
    FarFutureTags();
    SingleTagPublished(FarFutureRepo(), "nginx", o, Tag("t", "v1", YEAR_10000, "d"));
    UnencodableFails(FarFutureRepo(), "nginx", o, Release("v1", YEAR_10000, "d"));
  }

  /** A registry may date a tag so: it is answered, and no snapshot of it commits. */
  lemma FarFutureNeverCommits(sources: Sources, o: Options, run: seq<State>, i: nat, n: string)
    requires n in sources && sources[n] == FarFutureRepo() && o.minAge == 0 && o.maxAge == 0
    requires IsRun(SnapshotPlan(sources, o), run) && i < |run|
    ensures PackageNames(sources[n]) == Ok(["nginx"])
    ensures LivePublished(sources[n], "nginx", o) == [Release("v1", YEAR_10000, "d")]
    ensures run[i].stage != Committed
  {
    FarFutureTags();
    FarFutureFails(o);
    SnapshotCommitsIff(sources, o, run, i);
  }

  // ---------- repos in each other's way ----------

  /** A root with a repo `x` and a subgroup `x` with a repo `releases.json`. */
  function ContendingOrg(): GroupWalk.Org {
    GroupWalk.Org(
      (id: string) => Ok(if id == "root" then [GroupWalk.Repo("1", "x")]
                         else if id == "g" then [GroupWalk.Repo("2", FEED_FILE)] else []),
      (id: string) => Ok(if id == "root" then [GroupWalk.Group("g", "x")] else []))
  }

  /** Each of its repos has one tag. */
  function ContendingRepos(): Source {
    RepoSource(ContendingOrg(), "root", (id: string) => Ok([Tag("t", "v1", 1, "d")]), (id: string) => Ok([]))
  }

  lemma ContendingResolve()
    ensures RepoResolve.Resolve(ContendingOrg(), "root", "x") == Ok("1")
    ensures RepoResolve.Resolve(ContendingOrg(), "root", FileOf("x")) == Ok("2")
  {
    SplitFirst("x", "");
    assert ["x"][..0] == [] && ["x"][1..] == [];
    FileOfSegments("x");
    var segs := Split(FileOf("x"));
    assert segs == ["x"] + [FEED_FILE];
    assert segs[..1] == ["x"] && segs[1] == FEED_FILE;
    assert RepoResolve.ResolveSubgroup(ContendingOrg(), "root", "x") == Ok("g");
    assert RepoResolve.Follow(ContendingOrg(), "root", ["x"]) == Ok("g");
  }

  lemma SubgroupWalk(prefix: string, st: GroupWalk.Progress)
    requires "g" !in st.visited
    ensures GroupWalk.Walk(ContendingOrg(), "g", prefix, 1, st).err.None?
  {
  }

  lemma ContendingWalk()
    ensures PackageNames(ContendingRepos()).Ok?
  {
    var groups, out := [GroupWalk.Group("g", "x")], GroupWalk.RepoPaths("", [GroupWalk.Repo("1", "x")]);
    var st := GroupWalk.Progress({"root"}, [] + out, [] + ["root"]);
    SubgroupWalk(GroupWalk.Under("", "x"), st);
    assert groups[1..] == [];
    assert GroupWalk.WalkGroups(ContendingOrg(), groups, "", 0, st).err.None?;
    assert GroupWalk.WalkRepos(ContendingOrg(), "root").Ok?;
  }

  predicate ContendingName(pkg: string) { pkg == "x" || pkg == FileOf("x") }

  lemma ContendingNames(pkg: string)
    requires ContendingName(pkg)
    ensures RepoNameOk(pkg)
  {
    SplitFirst("x", "");
    RepoNamesCanContend("x");
  }

  lemma ContendingPublish(pkg: string, o: Options)
    requires ContendingName(pkg)
    requires o.minAge == 0 && o.maxAge == 0
    ensures LivePublished(ContendingRepos(), pkg, o) != []
  {
    ContendingResolve();
    ContendingNames(pkg);
    assert ListTags(ContendingRepos(), pkg) == Ok([Tag("t", "v1", 1, "d")]);
    SingleTagPublished(ContendingRepos(), pkg, o, Tag("t", "v1", 1, "d"));
  }

  lemma ContendingFail(o: Options)
    requires o.minAge == 0 && o.maxAge == 0
    ensures SourceFails(ContendingRepos(), o)
  {
    ContendingPublish("x", o);
    ContendingPublish(FileOf("x"), o);
    assert InTheWay(ContendingRepos(), o, "x", FileOf("x"));
  }

  lemma ContendingListed(pkg: string, o: Options)
    requires ContendingName(pkg) && o.minAge == 0 && o.maxAge == 0
    ensures PackageNames(ContendingRepos()).Ok? && pkg in PackageNames(ContendingRepos()).value
  {
    ContendingWalk();
    ContendingPublish(pkg, o);
    AnsweredIsListed(ContendingRepos(), pkg, 0);
  }

  /** Two accepted, listed repos that publish block every commit: `x` and `x/releases.json`. */
  lemma ContendingReposNeverCommit(sources: Sources, o: Options, run: seq<State>, i: nat, n: string)
    requires n in sources && sources[n] == ContendingRepos() && o.minAge == 0 && o.maxAge == 0
    requires IsRun(SnapshotPlan(sources, o), run) && i < |run|
    ensures PackageNames(sources[n]).Ok?
    ensures forall pkg :: ContendingName(pkg) ==>
      RepoNameOk(pkg) && pkg in PackageNames(sources[n]).value && LivePublished(sources[n], pkg, o) != []
    ensures run[i].stage != Committed
  {
    ContendingWalk();
    forall pkg | ContendingName(pkg)
      ensures RepoNameOk(pkg) && pkg in PackageNames(sources[n]).value && LivePublished(sources[n], pkg, o) != []
    {
      ContendingNames(pkg);
      ContendingPublish(pkg, o);
      ContendingListed(pkg, o);
    }
    ContendingFail(o);
    SnapshotCommitsIff(sources, o, run, i);
  }
}
