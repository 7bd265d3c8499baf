/**
 The two age windows, and why the live server and a snapshot agree:
 internal/server/server.go and internal/snapshot/snapshot.go.
 */
module Windows {
  import opened Core
  import opened Sorting
  import opened Paths
  import opened ApkFormat
  import opened ApkIndex
  import opened ApkStore
  import opened ApkReleases
  import opened Rewind
  import opened RepoReleases
  import GroupWalk
  import RepoResolve

  /** The server's cutoff for a minimum release age. */
  function CutoffFor(now: Time, minimumReleaseAge: int): Time {
    if minimumReleaseAge <= 0 then 0 else now - minimumReleaseAge
  }

  /** The snapshot's two cutoffs, both relative to one frozen instant. */
  method FreezeCutoffs(now: Time, minimumReleaseAge: int, maxReleaseAge: int) returns (before: Time, maxAge: Time)
    ensures before == CutoffFor(now, minimumReleaseAge)
    ensures maxAge == CutoffFor(now, maxReleaseAge)
    ensures before == if minimumReleaseAge > 0 then now - minimumReleaseAge else 0
    ensures maxAge == if maxReleaseAge > 0 then now - maxReleaseAge else 0
  {
    before, maxAge := 0, 0;
    if minimumReleaseAge > 0 {
      before := now - minimumReleaseAge;
    }
    if maxReleaseAge > 0 {
      maxAge := now - maxReleaseAge;
    }
  }

  predicate YoungEnough(r: Release, maxAge: Time) { r.timestamp == 0 || r.timestamp >= maxAge }

  function YoungOnes(releases: seq<Release>, maxAge: Time): seq<Release> {
    Filter(releases, (r: Release) => YoungEnough(r, maxAge))
  }

  /** A zero cutoff means no maximum age. */
  function AgeLimited(releases: seq<Release>, maxAge: Time): seq<Release> {
    if maxAge == 0 then releases else YoungOnes(releases, maxAge)
  }

  lemma YoungOnesElement(releases: seq<Release>, maxAge: Time, r: Release)
    ensures r in YoungOnes(releases, maxAge) <==> r in releases && YoungEnough(r, maxAge)
  {
    FilterElement(releases, (x: Release) => YoungEnough(x, maxAge), r);
  }

  lemma YoungOnesSnoc(releases: seq<Release>, maxAge: Time, i: nat)
    requires i < |releases|
    ensures YoungOnes(releases[..i + 1], maxAge)
         == YoungOnes(releases[..i], maxAge) + if YoungEnough(releases[i], maxAge) then [releases[i]] else []
  {
    assert releases[..i + 1] == releases[..i] + [releases[i]];
    FilterAppend(releases[..i], [releases[i]], (x: Release) => YoungEnough(x, maxAge));
    assert [releases[i]][1..] == [];
  }

  /** `out` takes these positions of `releases`: the undated ones and those that are young enough. */
  ghost predicate YoungPick(out: seq<Release>, releases: seq<Release>, cutoff: Time, pick: seq<nat>) {
    && PickedFrom(out, releases, pick)
    && forall i :: 0 <= i < |releases| ==> (i in pick <==> releases[i].timestamp == 0 || releases[i].timestamp >= cutoff)
  }

  /** What a maximum age leaves: everything if its cutoff is zero, else those; once each and in order. */
  ghost predicate AgeKept(out: seq<Release>, releases: seq<Release>, maxAge: Time) {
    if maxAge == 0 then out == releases else exists pick :: YoungPick(out, releases, maxAge, pick)
  }

  lemma AgeLimitedMeaning(releases: seq<Release>, maxAge: Time)
    ensures AgeKept(AgeLimited(releases, maxAge), releases, maxAge)
  {
    if maxAge != 0 {
      var pick := FilterPicks(releases, (r: Release) => YoungEnough(r, maxAge));
      assert YoungPick(AgeLimited(releases, maxAge), releases, maxAge, pick);
    }
  }

  method WithinMaxAge(releases: seq<Release>, cutoff: Time) returns (out: seq<Release>)
    ensures out == YoungOnes(releases, cutoff)
    ensures exists pick :: YoungPick(out, releases, cutoff, pick)
    ensures forall r :: r in out <==> r in releases && (r.timestamp == 0 || r.timestamp >= cutoff)
  {
    out := [];
    var i := 0;
    while i < |releases|
      invariant 0 <= i <= |releases|
      invariant out == YoungOnes(releases[..i], cutoff)
    {
      YoungOnesSnoc(releases, cutoff, i);
      if releases[i].timestamp == 0 || !(releases[i].timestamp < cutoff) {
        out := out + [releases[i]];
      }
      i := i + 1;
    }
    assert releases[..|releases|] == releases;
    ghost var pick := FilterPicks(releases, (r: Release) => YoungEnough(r, cutoff));
    assert YoungPick(out, releases, cutoff, pick);
    forall r ensures r in out <==> r in releases && (r.timestamp == 0 || r.timestamp >= cutoff) {
      YoungOnesElement(releases, cutoff, r);
    }
  }

  // ---------- what can be written ----------

  /** What `time.Time.MarshalJSON` encodes: the years 0000 (of 366 days) to 9999. */
  predicate JsonTime(t: Time) {
    -366 * 24 * 60 * 60 * NANOS <= t < (MAX_JSON_UNIX_SEC + 1 - MIN_JSON_UNIX_SEC) * NANOS
  }

  lemma JsonYears(t: Time)
    ensures JsonTime(t) <==> -31_622_400_000_000_000 <= t < 315_537_897_600_000_000_000
  {
  }

  predicate Encodable(releases: seq<Release>) {
    forall r :: r in releases ==> JsonTime(r.timestamp)
  }

  // ---------- the two datasources behind one interface ----------

  /** An index as some load left it, or an organisation with what the registry says of its repos and tags. */
  datatype Source =
    | ApkSource(releases: Index, archs: set<string>)
    | RepoSource(org: GroupWalk.Org, root: string,
                 tags: string -> Result<seq<Tag>, GroupWalk.ListError>, history: string -> Outcome)

  datatype EnumerationError = EnumerationFailed

  /** `Datasource.PackageNames`. */
  ghost function PackageNames(src: Source): Result<seq<string>, EnumerationError> {
    match src
    case ApkSource(releases, _) => Ok(SortedStrings(releases.Keys))
    case RepoSource(org, root, _, _) =>
      match RepoResolve.ListedRepos(org, root)
      case Ok(paths) => Ok(paths)
      case Err(_) => Err(EnumerationFailed)
  }

  /** `Client.ListTags`: resolve the repo's path, then list the tags under its ID. */
  function ListTags(src: Source, name: string): Result<seq<Tag>, TagsError>
    requires src.RepoSource?
  {
    match RepoResolve.Resolve(src.org, src.root, name)
    case Err(e) => Err(if e.RepoNotFound? then RepoNotFound else OtherFailure)
    case Ok(id) =>
      match src.tags(id)
      case Err(_) => Err(OtherFailure)
      case Ok(tags) => Ok(tags)
  }

  function Outcomes(tags: seq<Tag>, history: string -> Outcome): seq<Outcome> {
    seq(|tags|, i requires 0 <= i < |tags| => history(tags[i].id))
  }

  /** `Datasource.Releases` on an unchanging backend. */
  ghost function SourceAnswer(src: Source, name: string, before: Time, arch: string)
    : Result<seq<Release>, ReleasesError>
  {
    match src
    case ApkSource(releases, archs) => StoreAnswer(releases, archs, name, before, arch)
    case RepoSource(_, _, _, history) =>
      var listed := ListTags(src, name);
      RepoAnswer(name, before, listed, if listed.Ok? then Outcomes(listed.value, history) else [])
  }

  /** Some tag of `tags` is newer than the cutoff and the history kept under its ID cannot be had. */
  ghost predicate HistoryFails(src: Source, tags: seq<Tag>, before: Time)
    requires src.RepoSource?
  {
    exists t :: t in tags && t.lastUpdated != 0 && t.lastUpdated > before && src.history(t.id).Err?
  }

  /**
   The backend fails a query for an accepted name: the way to the repo cannot be listed, or the
   tags of the repo it leads to cannot, or the history of one of them that is needed.
   */
  ghost predicate BackendFails(src: Source, name: string, before: Time)
    requires src.RepoSource?
  {
    match RepoResolve.Resolve(src.org, src.root, name)
    case Err(e) => e.ListingFailed?
    case Ok(id) => src.tags(id).Err? || (before != 0 && HistoryFails(src, src.tags(id).value, before))
  }

  /** `out` is right for these tags: as they stand, or each as its history says it stood. */
  ghost predicate TagsAnswered(src: Source, tags: seq<Tag>, before: Time, out: seq<Release>)
    requires src.RepoSource?
  {
    if before == 0 then AsTagsStand(out, tags) else exists pick :: TagsPicked(src, tags, before, out, pick)
  }

  ghost predicate TagsPicked(src: Source, tags: seq<Tag>, before: Time, out: seq<Release>, pick: seq<nat>)
    requires src.RepoSource?
  {
    && Picks(pick, |tags|) && |out| == |pick|
    && (forall j :: 0 <= j < |out| ==> AsOf(src, tags[pick[j]], before) == Some(out[j]))
    && (forall i :: 0 <= i < |tags| ==> (i in pick <==> AsOf(src, tags[i], before).Some?))
  }

  /** The tag as the history kept under its ID has it at the cutoff. */
  function AsOf(src: Source, t: Tag, before: Time): Option<Release>
    requires src.RepoSource?
  {
    RewindTag(t, before, HistoryOf(src.history(t.id)))
  }

  lemma OutcomesById(tags: seq<Tag>, history: string -> Outcome)
    ensures |Outcomes(tags, history)| == |tags|
    ensures forall i :: 0 <= i < |tags| ==> Outcomes(tags, history)[i] == history(tags[i].id)
  {
  }

  lemma PickedByOutcome(src: Source, tags: seq<Tag>, before: Time, outcomes: seq<Outcome>, out: seq<Release>,
                        pick: seq<nat>)
    requires src.RepoSource? && |outcomes| == |tags| && OneFor(out, tags, before, outcomes, pick)
    requires forall i :: 0 <= i < |tags| ==> outcomes[i] == src.history(tags[i].id)
    ensures TagsPicked(src, tags, before, out, pick)
  {
    forall i | 0 <= i < |tags| ensures RewindTag(tags[i], before, HistoryOf(outcomes[i])) == AsOf(src, tags[i], before) {
    }
    forall j | 0 <= j < |out| ensures AsOf(src, tags[pick[j]], before) == Some(out[j]) {
    }
  }

  lemma PickedById(src: Source, tags: seq<Tag>, before: Time, out: seq<Release>)
    requires src.RepoSource? && OnePerTag(out, tags, before, Outcomes(tags, src.history))
    ensures exists pick :: TagsPicked(src, tags, before, out, pick)
  {
    OutcomesById(tags, src.history);
    var pick :| OneFor(out, tags, before, Outcomes(tags, src.history), pick);
    PickedByOutcome(src, tags, before, Outcomes(tags, src.history), out, pick);
  }

  lemma ListTagsMeaning(src: Source, name: string)
    requires src.RepoSource?
    ensures var listed, at := ListTags(src, name), RepoResolve.Resolve(src.org, src.root, name);
      && (listed == Err(RepoNotFound) <==> at.Err? && at.error.RepoNotFound?)
      && (listed == Err(OtherFailure) <==> (at.Err? && at.error.ListingFailed?) || (at.Ok? && src.tags(at.value).Err?))
      && (listed.Ok? ==> at.Ok? && src.tags(at.value) == Ok(listed.value))
  {
  }

  /** What a repo source answers, in terms of its organisation, tags and histories alone. */
  ghost predicate RepoAnswers(src: Source, name: string, before: Time, r: Result<seq<Release>, ReleasesError>)
    requires src.RepoSource?
  {
    var at := RepoResolve.Resolve(src.org, src.root, name);
    && (r == Err(InvalidPackageName) <==> !RepoNameOk(name))
    && (r == Err(NotFound) <==> RepoNameOk(name) && at.Err? && at.error.RepoNotFound?)
    && (r == Err(BackendFailure) <==> RepoNameOk(name) && BackendFails(src, name, before))
    && r != Err(InvalidArgument)
    && (r.Ok? ==> at.Ok? && src.tags(at.value).Ok? && TagsAnswered(src, src.tags(at.value).value, before, r.value))
  }

  lemma RepoSourceMeaning(src: Source, name: string, before: Time, arch: string)
    requires src.RepoSource?
    ensures RepoAnswers(src, name, before, SourceAnswer(src, name, before, arch))
  {
    var listed := ListTags(src, name);
    var outcomes := if listed.Ok? then Outcomes(listed.value, src.history) else [];
    var r := RepoAnswer(name, before, listed, outcomes);
    RepoAnswerMeaning(name, before, listed, outcomes);
    ListTagsMeaning(src, name);
    if listed.Ok? {
      NeededIsHistory(src, listed.value, before);
      if r.Ok? && before != 0 {
        PickedById(src, listed.value, before, r.value);
      }
    }
  }

  lemma NeededIsHistory(src: Source, tags: seq<Tag>, before: Time)
    requires src.RepoSource?
    ensures NeededFails(tags, before, Outcomes(tags, src.history)) <==> HistoryFails(src, tags, before)
  {
    OutcomesById(tags, src.history);
    if t :| t in tags && t.lastUpdated != 0 && t.lastUpdated > before && src.history(t.id).Err? {
      var i :| 0 <= i < |tags| && tags[i] == t;
      assert Outcomes(tags, src.history)[i].Err?;
    }
  }

  /** What the live server answers at `now` to a request for `arch`, or for no one architecture. */
  ghost function LiveAnswer(src: Source, name: string, now: Time, minimumReleaseAge: int, arch: string)
    : Result<seq<Release>, ReleasesError>
  {
    SourceAnswer(src, name, CutoffFor(now, minimumReleaseAge), arch)
  }

  /** What an apk source answers, in terms of what its store holds. */
  ghost predicate ApkAnswers(src: Source, name: string, before: Time, arch: string, r: Result<seq<Release>, ReleasesError>)
    requires src.ApkSource?
  {
    && (r == Err(InvalidPackageName) <==> !ApkNameOk(name))
    && (r == Err(InvalidArgument) <==> ApkNameOk(name) && arch != "" && arch !in src.archs)
    && (r == Err(NotFound) <==>
          && ApkNameOk(name) && (arch == "" || arch in src.archs)
          && forall e :: !Concerns(src.releases, name, arch, e))
    && r != Err(BackendFailure)
    && (r.Ok? ==> NewestFirst(r.value) && forall x :: x in r.value <==> StoreShows(src.releases, name, before, arch, x))
  }

  /** What the live server answers: either source's answer at the age's cutoff, which is none for no age. */
  lemma LiveMeaning(src: Source, name: string, now: Time, minAge: int, arch: string)
    ensures var r, before := LiveAnswer(src, name, now, minAge, arch), if minAge > 0 then now - minAge else 0;
      && (src.ApkSource? ==> ApkAnswers(src, name, before, arch, r))
      && (src.RepoSource? ==> RepoAnswers(src, name, before, r))
  {
    var before := CutoffFor(now, minAge);
    match src
    case ApkSource(releases, archs) =>
      StoreAnswerErrors(releases, archs, name, before, arch);
      StoreAnswerMeaning(releases, archs, name, before, arch);
    case RepoSource(_, _, _, _) => RepoSourceMeaning(src, name, before, arch);
  }

  lemma KeptWithinCutoff(items: seq<ApkFormat.PackageVersion>, before: Time)
    requires before != 0
    ensures forall r :: r in KeptReleases(items, before) ==> r.timestamp != 0 && r.timestamp <= before
  {
    KeptElements(items, before);
  }

  /** Under a cutoff every datasource shows only releases that are provably old enough. */
  lemma AnswersRespectCutoff(src: Source, name: string, before: Time, arch: string)
    requires before != 0 && SourceAnswer(src, name, before, arch).Ok?
    ensures forall r :: r in SourceAnswer(src, name, before, arch).value ==> r.timestamp != 0 && r.timestamp <= before
  {
    match src
    case ApkSource(releases, archs) =>
      var items := Scoped(Lookup(releases, name), arch);
      if arch == "" {
        assert IsListing(Listing(NewestReleases(Members(items), before)), NewestReleases(Members(items), before));
      } else {
        KeptWithinCutoff(items, before);
        SortElements(KeptReleases(items, before), ReleaseBefore);
      }
    case RepoSource(_, _, _, history) =>
      var tags := ListTags(src, name).value;
      RewoundWithinCutoff(tags, Outcomes(tags, history), before);
  }

  /** Only what is listed is answered; a repo whose enumeration fails may still answer. */
  lemma AnsweredIsListed(src: Source, name: string, before: Time)
    requires PackageNames(src).Ok? && SourceAnswer(src, name, before, "").Ok?
    ensures name in PackageNames(src).value
  {
    match src
    case ApkSource(releases, archs) =>
      assert Scoped(Lookup(releases, name), "") != [];
    case RepoSource(org, root, _, _) =>
      assert "" !in Split(name);
      RepoResolve.ResolvableIsListed(org, root, name);
  }

  // ---------- the zero instant ----------

  /** An apk source holds what some load of its architectures installed. */
  ghost predicate Loadable(src: Source) {
    src.ApkSource? ==> exists feeds: seq<Feed> :: Installed(src.releases, feeds) && forall f :: f in feeds ==> f.arch in src.archs
  }

  ghost predicate Shown(src: Source, name: string, now: Time, minAge: int, arch: string, r: Release) {
    LiveAnswer(src, name, now, minAge, arch).Ok? && r in LiveAnswer(src, name, now, minAge, arch).value
  }

  /** No live answer at `now`, to whatever request, shows a release younger than the minimum age. */
  ghost predicate Honoured(now: Time, minAge: int) {
    forall src, name, arch, r :: Loadable(src) && Shown(src, name, now, minAge, arch, r) ==> r.timestamp <= now - minAge
  }

  const EARLIEST := MIN_JSON_UNIX_SEC + 1

  /** An index text with one package, built one second after the zero instant. */
  function OneRelease(): seq<string> { ["P:a", "V:1", "t:" + Decimal(EARLIEST)] }

  function OneReleaseIndex(): Index { map["a" := [PackageVersion("1", NANOS, "x")]] }

  lemma FieldsOfThree(a: string, b: string, c: string, key: char)
    ensures LastField([a, b, c], key) == if IsField(c, key) then c[2..] else if IsField(b, key) then b[2..]
                                         else if IsField(a, key) then a[2..] else ""
    ensures DatesRecord(c) ==> LastTimestamp([a, b, c]) == ParseTimestamp(c[2..]).value
  {
    FieldSnoc([], a, key);
    FieldSnoc([a], b, key);
    FieldSnoc([a, b], c, key);
    assert [] + [a] == [a] && [a] + [b] == [a, b] && [a, b] + [c] == [a, b, c];
  }

  lemma OneReleaseFields(key: char)
    requires key != 't'
    ensures LastField(OneRelease(), key) == if key == 'P' then "a" else if key == 'V' then "1" else ""
    ensures LastTimestamp(OneRelease()) == NANOS
  {
    var dated := "t:" + Decimal(EARLIEST);
    assert dated[2..] == Decimal(EARLIEST);
    DecimalTimestamp(EARLIEST);
    FieldsOfThree("P:a", "V:1", dated, key);
  }

  lemma OneReleaseEntry()
    ensures RecordEntries(OneRelease(), "x") == [Entry("a", PackageVersion("1", NANOS, "x"))]
  {
    OneReleaseFields('P');
    OneReleaseFields('V');
    OneReleaseFields('p');
  }

  /** A feed with a single entry installs just that entry. */
  lemma OneEntryInstalled(lines: seq<string>, arch: string, e: Entry)
    requires Entries(lines, arch) == [e]
    ensures Installed(map[e.name := [e.item]], [Feed(arch, lines)])
  {
    var feeds, es := [Feed(arch, lines)], [e];
    assert feeds[..0] == [];
    assert RawEntries(feeds) == RawEntries(feeds[..0]) + es;
    assert RawEntries(feeds) == es;
    assert es[..0] == [];
    assert Lookup(map[], e.name) + [e.item] == [e.item];
    assert AddAll(map[], es) == Append(map[], e) == map[e.name := [e.item]];
    DistinctIsDedup([e.item]);
  }

  lemma OneReleaseInstalled()
    ensures Installed(OneReleaseIndex(), [Feed("x", OneRelease())])
  {
    var lines := OneRelease();
    OneReleaseEntry();
    RecordsOfOne(lines);
    var recs := [lines];
    assert recs[..0] == [];
    assert Entries(lines, "x") == RecordsEntries([], "x") + RecordEntries(lines, "x") == RecordEntries(lines, "x");
    OneEntryInstalled(lines, "x", Entry("a", PackageVersion("1", NANOS, "x")));
  }

  /** Without a cutoff a package with a single entry shows it. */
  lemma OneEntryShown(name: string, e: PackageVersion, archs: set<string>)
    requires ApkNameOk(name)
    ensures var answer := StoreAnswer(map[name := [e]], archs, name, 0, ""); answer.Ok? && ToRelease(e) in answer.value
  {
    var items := Members([e]);
    var rs := NewestReleases(items, 0);
    assert e in items && Newest(e, items);
    assert ToRelease(e) in rs;
    assert IsListing(Listing(rs), rs);
  }

  lemma OneReleaseUnfiltered(now: Time)
    requires now > 0
    ensures var src := ApkSource(OneReleaseIndex(), {"x"});
      Loadable(src) && Shown(src, "a", now, now, "", Release("1", NANOS, ""))
  {
    OneReleaseInstalled();
    OneEntryShown("a", PackageVersion("1", NANOS, "x"), {"x"});
  }

  /**
   The minimum age, a positive int64 of nanoseconds, is honoured by every datasource exactly
   when the cutoff does not land on the zero instant, which the datasources read as "no
   cutoff"; so always, once the clock has left the range of such ages (the year 293).
   */
  lemma MinimumAgeHonouredIff(now: Time, minAge: int)
    requires 0 < minAge <= MAX_INT64
    ensures Honoured(now, minAge) <==> now != minAge
    ensures now > MAX_INT64 ==> Honoured(now, minAge)
  {
    if now == minAge {
      OneReleaseUnfiltered(now);
      assert Release("1", NANOS, "").timestamp > now - minAge;
    } else {
      forall src, name, arch, r | Shown(src, name, now, minAge, arch, r) ensures r.timestamp <= now - minAge {
        AnswersRespectCutoff(src, name, CutoffFor(now, minAge), arch);
      }
    }
  }

  /** `t` lies inside both windows, except as far as a cutoff fell on the zero instant. */
  predicate InWindows(t: Time, now: Time, minAge: int, maxAge: int) {
    && (now != minAge ==> t != 0 && t <= now - minAge)
    && (now != maxAge ==> t == 0 || now - maxAge <= t)
    && (now > MAX_INT64 ==> now - maxAge <= t <= now - minAge)
  }

  /** Both windows active: what a snapshot may write for a package lies inside both. */
  lemma BothWindows(src: Source, name: string, now: Time, minAge: int, maxAge: int, r: Release)
    requires 0 < minAge <= MAX_INT64 && 0 < maxAge <= MAX_INT64
    requires LiveAnswer(src, name, now, minAge, "").Ok?
    requires r in AgeLimited(LiveAnswer(src, name, now, minAge, "").value, CutoffFor(now, maxAge))
    ensures InWindows(r.timestamp, now, minAge, maxAge)
  {
    var live := LiveAnswer(src, name, now, minAge, "").value;
    YoungOnesElement(live, CutoffFor(now, maxAge), r);
    if now != minAge {
      AnswersRespectCutoff(src, name, CutoffFor(now, minAge), "");
    }
  }

  lemma ListedItem(items: seq<PackageVersion>, before: Time, r: Release)
    requires r in Listing(NewestReleases(Members(items), before))
    ensures exists e :: e in items && ToRelease(e) == r
  {
    assert IsListing(Listing(NewestReleases(Members(items), before)), NewestReleases(Members(items), before));
  }

  lemma KeptItem(items: seq<PackageVersion>, before: Time, r: Release)
    requires r in Sort(KeptReleases(items, before), ReleaseBefore)
    ensures exists e :: e in items && ToRelease(e) == r
  {
    SortElements(KeptReleases(items, before), ReleaseBefore);
    KeptElements(items, before);
    assert KeptFrom(items, before, r);
  }

  /** Whatever the request, an apk answer's times are those of the store's entries. */
  lemma ApkTimes(releases: Index, archs: set<string>, name: string, before: Time, arch: string, r: Release)
    requires StoreAnswer(releases, archs, name, before, arch).Ok?
    requires r in StoreAnswer(releases, archs, name, before, arch).value
    ensures name in releases && exists e :: e in releases[name] && e.timestamp == r.timestamp
  {
    var items := Scoped(Lookup(releases, name), arch);
    if arch == "" {
      ListedItem(items, before, r);
    } else {
      KeptItem(items, before, r);
    }
    var e :| e in items && ToRelease(e) == r;
    ScopedElement(Lookup(releases, name), arch, e);
    assert e in releases[name] && e.timestamp == r.timestamp;
  }

  /** The parser's bound reaches every answer: what a load installed can always be written. */
  lemma LoadedIsEncodable(src: Source, name: string, before: Time, arch: string)
    requires src.ApkSource? && Loadable(src) && SourceAnswer(src, name, before, arch).Ok?
    ensures Encodable(SourceAnswer(src, name, before, arch).value)
  {
    var feeds: seq<Feed> :| Installed(src.releases, feeds) && forall f :: f in feeds ==> f.arch in src.archs;
    InstalledInvariant(src.releases, feeds, src.archs);
    forall r | r in SourceAnswer(src, name, before, arch).value ensures JsonTime(r.timestamp) {
      ApkTimes(src.releases, src.archs, name, before, arch, r);
    }
  }
}
