/** Release queries over the index: internal/datasource/apk.go. */
module ApkReleases {
  import opened Core
  import opened Sorting
  import opened Paths
  import opened ApkFormat
  import opened ApkIndex
  import opened ApkStore

  function ToRelease(e: PackageVersion): Release { Release(e.version, e.timestamp, "") }

  /** The cutoff keeps what is provably at or before it; a zero cutoff keeps everything. */
  predicate Passes(before: Time, t: Time) { before == 0 || (t != 0 && t <= before) }

  // ---------- what an answer should be, as a function of a set ----------

  /** No item of the same version is later than `e`. */
  ghost predicate Newest(e: PackageVersion, items: set<PackageVersion>) {
    e in items && forall f :: f in items && f.version == e.version ==> f.timestamp <= e.timestamp
  }

  ghost function NewestReleases(items: set<PackageVersion>, before: Time): set<Release> {
    set e | e in items && Newest(e, items) && Passes(before, e.timestamp) :: ToRelease(e)
  }

  ghost predicate IsListing(out: seq<Release>, rs: set<Release>) {
    IsSortedOf(out, rs, ReleaseBefore)
  }

  ghost predicate WithoutDigests(rs: set<Release>) { forall r :: r in rs ==> r.digest == "" }

  lemma ListingUnique(a: seq<Release>, b: seq<Release>, rs: set<Release>)
    requires IsListing(a, rs) && IsListing(b, rs)
    ensures a == b
  {
    ReleaseOrder();
    StrictlyAscendingUnique(a, b, ReleaseBefore);
  }

  /** The one list of these releases that is strictly newest-first. */
  ghost function Listing(rs: set<Release>): (out: seq<Release>)
    requires WithoutDigests(rs)
    ensures IsListing(out, rs)
  {
    ReleaseOrder();
    SortedOf(rs, ReleaseBefore)
  }

  /** The items of `raw` a query for `name` and `arch` is about. */
  ghost function Selected(raw: set<Entry>, name: string, arch: string): set<PackageVersion> {
    set e | e in raw && e.name == name && (arch == "" || e.item.arch == arch) :: e.item
  }

  /** The answer as a function of the set of raw entries: no feed order, no map order. */
  ghost function RawAnswer(raw: set<Entry>, archs: set<string>, name: string, before: Time, arch: string)
    : Result<seq<Release>, ReleasesError>
  {
    if !ApkNameOk(name) then Err(InvalidPackageName)
    else if arch != "" && arch !in archs then Err(InvalidArgument)
    else if Selected(raw, name, arch) == {} then Err(NotFound)
    else Ok(Listing(NewestReleases(Selected(raw, name, arch), before)))
  }

  /** `r` is backed by a raw entry that no raw entry of the same version outdates. */
  ghost predicate Backed(raw: set<Entry>, name: string, arch: string, r: Release) {
    && r.digest == ""
    && (exists a :: (arch == "" || a == arch) && Entry(name, PackageVersion(r.version, r.timestamp, a)) in raw)
    && (forall e :: e in raw && e.name == name && (arch == "" || e.item.arch == arch) && e.item.version == r.version
                  ==> e.item.timestamp <= r.timestamp)
  }

  /** The answer spelled out: newest first, one entry per version, each backed and let through. */
  lemma AnswerMeaning(raw: set<Entry>, archs: set<string>, name: string, before: Time, arch: string, out: seq<Release>)
    requires RawAnswer(raw, archs, name, before, arch) == Ok(out)
    ensures forall i, j :: 0 <= i < j < |out| ==>
      && out[i].timestamp >= out[j].timestamp && out[i].version != out[j].version
      && (out[i].timestamp == out[j].timestamp ==> BytewiseBefore(out[j].version, out[i].version))
    ensures forall r :: r in out <==>
      Backed(raw, name, arch, r) && (before == 0 || (r.timestamp != 0 && r.timestamp <= before))
  {
    var items := Selected(raw, name, arch);
    var rs := NewestReleases(items, before);
    ReleaseOrder();
    forall i, j | 0 <= i < j < |out|
      ensures NewerFirst(out[i], out[j]) && out[i].version != out[j].version
    {
      ReleaseBeforeMeaning(out[i], out[j]);
      assert out[i] in rs && out[j] in rs;
      var e :| e in items && Newest(e, items) && ToRelease(e) == out[i];
      var f :| f in items && Newest(f, items) && ToRelease(f) == out[j];
      assert ReleaseBefore(out[i], out[j]);
    }
    forall r ensures r in out <==> Backed(raw, name, arch, r) && Passes(before, r.timestamp) {
      MeaningOfOne(raw, name, before, arch, r);
      assert IsListing(out, rs);
    }
  }

  lemma SelectedElement(raw: set<Entry>, name: string, arch: string, v: PackageVersion)
    ensures v in Selected(raw, name, arch) <==> Entry(name, v) in raw && (arch == "" || v.arch == arch)
  {
    assert Entry(name, v).name == name && Entry(name, v).item == v;
  }

  lemma MeaningOfOne(raw: set<Entry>, name: string, before: Time, arch: string, r: Release)
    ensures r in NewestReleases(Selected(raw, name, arch), before)
        <==> Backed(raw, name, arch, r) && Passes(before, r.timestamp)
  {
    var items := Selected(raw, name, arch);
    forall v ensures v in items <==> Entry(name, v) in raw && (arch == "" || v.arch == arch) {
      SelectedElement(raw, name, arch, v);
    }
    if r in NewestReleases(items, before) {
      var v :| v in items && Newest(v, items) && Passes(before, v.timestamp) && ToRelease(v) == r;
      assert v == PackageVersion(v.version, v.timestamp, v.arch);
      forall e | e in raw && e.name == name && (arch == "" || e.item.arch == arch) && e.item.version == r.version
        ensures e.item.timestamp <= r.timestamp
      {
        assert e == Entry(name, e.item);
      }
    }
    if Backed(raw, name, arch, r) {
      var a :| (arch == "" || a == arch) && Entry(name, PackageVersion(r.version, r.timestamp, a)) in raw;
      var v := PackageVersion(r.version, r.timestamp, a);
      assert r == Release(r.version, r.timestamp, r.digest);
      assert v in items && ToRelease(v) == r;
      forall f | f in items && f.version == v.version ensures f.timestamp <= v.timestamp {
        assert Entry(name, f) in raw;
      }
    }
  }

  // ---------- the query ----------

  function KeptReleases(items: seq<PackageVersion>, before: Time): seq<Release> {
    if items == [] then []
    else
      var e := items[|items| - 1];
      KeptReleases(items[..|items| - 1], before) + if Passes(before, e.timestamp) then [ToRelease(e)] else []
  }

  ghost function Members(items: seq<PackageVersion>): set<PackageVersion> { set e | e in items }

  /** What a query answers from the items it was given. */
  ghost function ItemsAnswer(items: seq<PackageVersion>, before: Time, arch: string)
    : Result<seq<Release>, ReleasesError>
  {
    if items == [] then Err(NotFound)
    else if arch == "" then Ok(Listing(NewestReleases(Members(items), before)))
    else Ok(Sort(KeptReleases(items, before), ReleaseBefore))
  }

  /** What a query answers on one state of the store, whatever the store holds. */
  ghost function StoreAnswer(releases: Index, archs: set<string>, name: string, before: Time, arch: string)
    : Result<seq<Release>, ReleasesError>
  {
    if !ApkNameOk(name) then Err(InvalidPackageName)
    else if arch != "" && arch !in archs then Err(InvalidArgument)
    else ItemsAnswer(Scoped(Lookup(releases, name), arch), before, arch)
  }

  /** `r` holds a newest item of every version of `items`, each version once, in any order. */
  ghost predicate MergeOf(r: seq<PackageVersion>, items: seq<PackageVersion>) {
    && (forall i, j :: 0 <= i < j < |r| ==> r[i].version != r[j].version)
    && (forall e :: e in r ==> Newest(e, Members(items)))
    && (forall e :: e in items ==> exists f :: f in r && f.version == e.version)
  }

  ghost predicate NewestMap(byVersion: map<string, PackageVersion>, items: seq<PackageVersion>) {
    && (forall v :: v in byVersion ==> byVersion[v].version == v && Newest(byVersion[v], Members(items)))
    && (forall e :: e in items ==> e.version in byVersion)
  }

  ghost predicate DistinctVersions(items: seq<PackageVersion>) {
    forall i, j :: 0 <= i < j < |items| ==> items[i].version != items[j].version
  }

  lemma NewestMapStep(byVersion: map<string, PackageVersion>, items: seq<PackageVersion>, i: nat)
    requires i < |items| && NewestMap(byVersion, items[..i])
    ensures var e := items[i];
      NewestMap(if e.version !in byVersion || e.timestamp > byVersion[e.version].timestamp
                then byVersion[e.version := e] else byVersion, items[..i + 1])
    ensures items[i].version !in byVersion && DistinctVersions(items[..i]) ==> DistinctVersions(items[..i + 1])
  {
    var e := items[i];
    assert items[..i + 1] == items[..i] + [e];
    assert Members(items[..i + 1]) == Members(items[..i]) + {e};
    assert e.version !in byVersion ==> forall f :: f in items[..i] ==> f.version != e.version;
  }

  method NewestByVersion(entries: seq<PackageVersion>) returns (byVersion: map<string, PackageVersion>)
    ensures NewestMap(byVersion, entries)
    ensures |byVersion| == |entries| ==> DistinctVersions(entries)
  {
    byVersion := map[];
    var i := 0;
    while i < |entries|
      invariant 0 <= i <= |entries|
      invariant NewestMap(byVersion, entries[..i])
      invariant |byVersion| <= i
      invariant |byVersion| == i ==> DistinctVersions(entries[..i])
    {
      var e := entries[i];
      NewestMapStep(byVersion, entries, i);
      SizeAfterUpdate(byVersion, e.version, e);
      if e.version !in byVersion || e.timestamp > byVersion[e.version].timestamp {
        byVersion := byVersion[e.version := e];
      }
      i := i + 1;
    }
    assert entries[..|entries|] == entries;
  }

  method MergeAcrossArchs(entries: seq<PackageVersion>) returns (out: seq<PackageVersion>)
    ensures MergeOf(out, entries)
  {
    var byVersion := NewestByVersion(entries);
    if |byVersion| == |entries| {
      forall e | e in entries ensures Newest(e, Members(entries)) {
        var i :| 0 <= i < |entries| && entries[i] == e;
      }
      return entries;
    }
    out := [];
    var todo := byVersion.Keys;
    while todo != {}
      invariant todo <= byVersion.Keys
      invariant DistinctVersions(out)
      invariant forall e :: e in out <==> e.version in byVersion && e.version !in todo && byVersion[e.version] == e
      decreases |todo|
    {
      var v :| v in todo;
      todo := todo - {v};
      assert forall e :: e in out ==> e.version != v;
      out := out + [byVersion[v]];
    }
    forall e | e in entries ensures exists f :: f in out && f.version == e.version {
      assert byVersion[e.version] in out;
    }
  }

  ghost predicate KeptFrom(items: seq<PackageVersion>, before: Time, r: Release) {
    exists e :: e in items && Passes(before, e.timestamp) && r == ToRelease(e)
  }

  ghost predicate VersionsDiffer(rs: seq<Release>) {
    forall i, j :: 0 <= i < j < |rs| ==> rs[i].version != rs[j].version
  }

  lemma {:induction false} KeptElements(items: seq<PackageVersion>, before: Time)
    ensures forall r :: r in KeptReleases(items, before) <==> KeptFrom(items, before, r)
    ensures DistinctVersions(items) ==> VersionsDiffer(KeptReleases(items, before))
  {
    if items != [] {
      var init, last := items[..|items| - 1], items[|items| - 1];
      KeptElements(init, before);
      forall r ensures r in KeptReleases(items, before) <==> KeptFrom(items, before, r) {
        assert forall e :: e in items <==> e in init || e == last;
      }
      var k := KeptReleases(init, before);
      if DistinctVersions(items) {
        forall i | 0 <= i < |k| ensures k[i].version != last.version {
          assert k[i] in k;
          var e :| e in init && ToRelease(e) == k[i];
          var n :| 0 <= n < |init| && init[n] == e;
          assert items[n] == e;
        }
      }
    }
  }

  lemma SortedKeptIsListing(items: seq<PackageVersion>, before: Time, rs: set<Release>)
    requires DistinctVersions(items)
    requires forall r :: r in rs <==> KeptFrom(items, before, r)
    ensures IsListing(Sort(KeptReleases(items, before), ReleaseBefore), rs)
  {
    var kept := KeptReleases(items, before);
    KeptElements(items, before);
    ReleaseOrder();
    forall i, j | 0 <= i < j < |kept| ensures ReleaseBefore(kept[i], kept[j]) || ReleaseBefore(kept[j], kept[i]) {
      assert kept[i].version != kept[j].version;
    }
    SortStrict(kept, ReleaseBefore);
    SortElements(kept, ReleaseBefore);
  }

  lemma MergedCovers(merged: seq<PackageVersion>, items: seq<PackageVersion>, before: Time, r: Release)
    requires MergeOf(merged, items)
    ensures r in NewestReleases(Members(items), before) <==> KeptFrom(merged, before, r)
  {
    var all := Members(items);
    if r in NewestReleases(all, before) {
      var e :| e in all && Newest(e, all) && Passes(before, e.timestamp) && r == ToRelease(e);
      var f :| f in merged && f.version == e.version;
      assert Newest(f, all) && f.timestamp == e.timestamp;
      assert r == ToRelease(f);
    }
    if KeptFrom(merged, before, r) {
      var e :| e in merged && Passes(before, e.timestamp) && r == ToRelease(e);
      assert Newest(e, all);
    }
  }

  /** Any merge, filtered and sorted, is the listing of the newest releases. */
  lemma MergedListing(merged: seq<PackageVersion>, items: seq<PackageVersion>, before: Time)
    requires MergeOf(merged, items)
    ensures Sort(KeptReleases(merged, before), ReleaseBefore) == Listing(NewestReleases(Members(items), before))
  {
    var rs := NewestReleases(Members(items), before);
    forall r ensures r in rs <==> KeptFrom(merged, before, r) {
      MergedCovers(merged, items, before, r);
    }
    SortedKeptIsListing(merged, before, rs);
    ListingUnique(Sort(KeptReleases(merged, before), ReleaseBefore), Listing(rs), rs);
  }

  /** Drop what the cutoff does not let through. */
  method KeepReleases(entries: seq<PackageVersion>, before: Time) returns (out: seq<Release>)
    ensures out == KeptReleases(entries, before)
  {
    out := [];
    var i := 0;
    while i < |entries|
      invariant 0 <= i <= |entries|
      invariant out == KeptReleases(entries[..i], before)
    {
      var e := entries[i];
      assert entries[..i + 1][..i] == entries[..i];
      i := i + 1;
      if before != 0 && (e.timestamp == 0 || e.timestamp > before) {
        continue;
      }
      out := out + [Release(e.version, e.timestamp, "")];
    }
    assert entries[..|entries|] == entries;
  }

  /** The store has this item under the name, and the request is for its architecture or for none. */
  ghost predicate Concerns(releases: Index, name: string, arch: string, e: PackageVersion) {
    name in releases && e in releases[name] && (arch == "" || e.arch == arch)
  }

  /** Newest first; of two as old as each other, never the one with the bytewise smaller version first. */
  ghost predicate NewestFirst(out: seq<Release>) {
    forall i, j :: 0 <= i < j < |out| ==>
      && out[i].timestamp >= out[j].timestamp
      && (out[i].timestamp == out[j].timestamp ==> !BytewiseBefore(out[i].version, out[j].version))
  }

  /** `x` is a concerned item the cutoff lets through; without an architecture, none of its version is later. */
  ghost predicate StoreShows(releases: Index, name: string, before: Time, arch: string, x: Release) {
    && x.digest == "" && (before == 0 || (x.timestamp != 0 && x.timestamp <= before))
    && exists e :: Concerns(releases, name, arch, e) && e.version == x.version && e.timestamp == x.timestamp
         && (arch == "" ==> forall f :: f in releases[name] && f.version == e.version ==> f.timestamp <= e.timestamp)
  }

  lemma StoreAnswerErrors(releases: Index, archs: set<string>, name: string, before: Time, arch: string)
    ensures var r := StoreAnswer(releases, archs, name, before, arch);
      && (r == Err(InvalidPackageName) <==> !ApkNameOk(name))
      && (r == Err(InvalidArgument) <==> ApkNameOk(name) && arch != "" && arch !in archs)
      && (r == Err(NotFound) <==>
            && ApkNameOk(name) && (arch == "" || arch in archs)
            && forall e :: !Concerns(releases, name, arch, e))
      && r != Err(BackendFailure)
  {
    var items := Scoped(Lookup(releases, name), arch);
    forall e ensures e in items <==> Concerns(releases, name, arch, e) {
      ScopedElement(Lookup(releases, name), arch, e);
    }
    assert items != [] ==> items[0] in items;
  }

  lemma AscendingIsNewestFirst(out: seq<Release>)
    requires Ascending(out, ReleaseBefore)
    ensures NewestFirst(out)
  {
    forall i, j | 0 <= i < j < |out| ensures !NewerFirst(out[j], out[i]) {
      ReleaseBeforeMeaning(out[j], out[i]);
    }
  }

  lemma StrictIsAscending(out: seq<Release>)
    requires StrictlyAscending(out, ReleaseBefore)
    ensures Ascending(out, ReleaseBefore)
  {
    forall i, j | 0 <= i < j < |out| ensures !ReleaseBefore(out[j], out[i]) {
      assert ReleaseBefore(out[i], out[j]);
      StringLessTotal(out[i].version, out[j].version);
    }
  }

  lemma MergedShows(releases: Index, name: string, before: Time, x: Release)
    ensures x in NewestReleases(Members(Lookup(releases, name)), before) <==> StoreShows(releases, name, before, "", x)
  {
    var items := Members(Lookup(releases, name));
    if x in NewestReleases(items, before) {
      var e :| e in items && Newest(e, items) && Passes(before, e.timestamp) && ToRelease(e) == x;
      assert Concerns(releases, name, "", e);
    }
    if StoreShows(releases, name, before, "", x) {
      var e :| Concerns(releases, name, "", e) && e.version == x.version && e.timestamp == x.timestamp
        && forall f :: f in releases[name] && f.version == e.version ==> f.timestamp <= e.timestamp;
      assert Newest(e, items) && ToRelease(e) == x;
    }
  }

  lemma ScopedShows(releases: Index, name: string, before: Time, arch: string, x: Release)
    requires arch != ""
    ensures KeptFrom(Scoped(Lookup(releases, name), arch), before, x) <==> StoreShows(releases, name, before, arch, x)
  {
    var items := Scoped(Lookup(releases, name), arch);
    forall e ensures e in items <==> Concerns(releases, name, arch, e) {
      ScopedElement(Lookup(releases, name), arch, e);
    }
    if StoreShows(releases, name, before, arch, x) {
      var e :| Concerns(releases, name, arch, e) && e.version == x.version && e.timestamp == x.timestamp;
      assert e in items && ToRelease(e) == x;
    }
  }

  /** What a query answers on any state of the store, without a word on how. */
  lemma StoreAnswerMeaning(releases: Index, archs: set<string>, name: string, before: Time, arch: string)
    ensures var r := StoreAnswer(releases, archs, name, before, arch);
      r.Ok? ==> NewestFirst(r.value) && forall x :: x in r.value <==> StoreShows(releases, name, before, arch, x)
  {
    var r := StoreAnswer(releases, archs, name, before, arch);
    var items := Scoped(Lookup(releases, name), arch);
    if r.Ok? && arch == "" {
      var rs := NewestReleases(Members(items), before);
      assert IsListing(r.value, rs);
      StrictIsAscending(r.value);
      AscendingIsNewestFirst(r.value);
      forall x ensures x in r.value <==> StoreShows(releases, name, before, arch, x) {
        MergedShows(releases, name, before, x);
      }
    } else if r.Ok? {
      ReleaseOrder();
      SortAscending(KeptReleases(items, before), ReleaseBefore);
      AscendingIsNewestFirst(r.value);
      SortElements(KeptReleases(items, before), ReleaseBefore);
      KeptElements(items, before);
      forall x ensures x in r.value <==> StoreShows(releases, name, before, arch, x) {
        ScopedShows(releases, name, before, arch, x);
      }
    }
  }

  class APKDatasource {
    const store: IndexStore

    constructor (store: IndexStore)
      ensures this.store == store
    {
      this.store := store;
    }

    method PackageNames() returns (names: seq<string>)
      ensures names == SortedStrings(store.releases.Keys)
      ensures forall i, j :: 0 <= i < j < |names| ==> BytewiseBefore(names[i], names[j])
      ensures forall name :: name in names <==> name in store.releases
    {
      names := store.All();
      SortedStringsUnique(names, store.releases.Keys);
    }

    method Releases(packageName: string, before: Time, arch: string)
      returns (r: Result<seq<Release>, ReleasesError>)
      ensures r == StoreAnswer(store.releases, store.archs, packageName, before, arch)
      ensures r == Err(InvalidPackageName) <==> !ApkNameOk(packageName)
      ensures r == Err(InvalidArgument) <==> ApkNameOk(packageName) && arch != "" && arch !in store.archs
      ensures r == Err(NotFound) <==>
          && ApkNameOk(packageName) && (arch == "" || arch in store.archs)
          && forall e :: !Concerns(store.releases, packageName, arch, e)
      ensures r != Err(BackendFailure)
      ensures r.Ok? ==> NewestFirst(r.value)
      ensures r.Ok? ==> forall x :: x in r.value <==> StoreShows(store.releases, packageName, before, arch, x)
    {
      StoreAnswerErrors(store.releases, store.archs, packageName, before, arch);
      StoreAnswerMeaning(store.releases, store.archs, packageName, before, arch);
      if !ApkNameOk(packageName) {
        return Err(InvalidPackageName);
      }
      if arch != "" {
        var served := store.Archs();
        if arch !in served {
          return Err(InvalidArgument);
        }
      }
      var found := store.Get(packageName, arch);
      if found.None? {
        return Err(NotFound);
      }
      var entries := found.value;
      if arch == "" {
        entries := MergeAcrossArchs(entries);
        MergedListing(entries, found.value, before);
      }
      var out := KeepReleases(entries, before);
      return Ok(Sort(out, ReleaseBefore));
    }
  }

  // ---------- end to end ----------

  lemma ScopedElement(items: seq<PackageVersion>, arch: string, e: PackageVersion)
    ensures e in Scoped(items, arch) <==> e in items && (arch == "" || e.arch == arch)
  {
    FilterElement(items, (f: PackageVersion) => f.arch == arch, e);
  }

  lemma ScopedMembers(raw: set<Entry>, full: seq<PackageVersion>, items: seq<PackageVersion>, name: string,
                      arch: string)
    requires DedupOf(items, full)
    requires forall v :: v in full <==> Entry(name, v) in raw
    ensures forall v :: v in Members(Scoped(items, arch)) <==> v in Selected(raw, name, arch) && IsLatest(v, full)
  {
    forall v ensures v in Members(Scoped(items, arch)) <==> v in Selected(raw, name, arch) && IsLatest(v, full) {
      ScopedElement(items, arch, v);
      SelectedElement(raw, name, arch, v);
    }
  }

  lemma SurvivorExists(raw: set<Entry>, full: seq<PackageVersion>, name: string, arch: string, v: PackageVersion)
    returns (best: PackageVersion)
    requires forall u :: u in full <==> Entry(name, u) in raw
    requires v in Selected(raw, name, arch)
    ensures best in Selected(raw, name, arch) && IsLatest(best, full)
    ensures best.version == v.version && v.timestamp <= best.timestamp
  {
    SelectedElement(raw, name, arch, v);
    best := LatestExists(full, v);
    SelectedElement(raw, name, arch, best);
  }

  lemma NewestSurvives(raw: set<Entry>, full: seq<PackageVersion>, items: seq<PackageVersion>, name: string,
                       arch: string, v: PackageVersion)
    requires DedupOf(items, full)
    requires forall u :: u in full <==> Entry(name, u) in raw
    ensures Newest(v, Members(Scoped(items, arch))) <==> Newest(v, Selected(raw, name, arch))
  {
    var scoped, sel := Members(Scoped(items, arch)), Selected(raw, name, arch);
    ScopedMembers(raw, full, items, name, arch);
    if Newest(v, sel) {
      NewestIsLatest(raw, full, name, arch, v);
    }
    if Newest(v, scoped) {
      forall f | f in sel && f.version == v.version ensures f.timestamp <= v.timestamp {
        var best := SurvivorExists(raw, full, name, arch, f);
        assert best in scoped;
      }
    }
  }

  /** Deduplication changes neither whether anything is selected nor what is newest. */
  lemma DedupKeepsNewest(raw: set<Entry>, full: seq<PackageVersion>, items: seq<PackageVersion>, name: string,
                         arch: string, before: Time)
    requires DedupOf(items, full)
    requires forall v :: v in full <==> Entry(name, v) in raw
    ensures Members(Scoped(items, arch)) == {} <==> Selected(raw, name, arch) == {}
    ensures NewestReleases(Members(Scoped(items, arch)), before) == NewestReleases(Selected(raw, name, arch), before)
  {
    var scoped, sel := Members(Scoped(items, arch)), Selected(raw, name, arch);
    ScopedMembers(raw, full, items, name, arch);
    if sel != {} {
      var v :| v in sel;
      var best := SurvivorExists(raw, full, name, arch, v);
      assert best in scoped;
    }
    forall v ensures Newest(v, scoped) <==> Newest(v, sel) {
      NewestSurvives(raw, full, items, name, arch, v);
    }
    NewestReleasesCongruent(scoped, sel, before);
  }

  lemma NewestReleasesCongruent(a: set<PackageVersion>, b: set<PackageVersion>, before: Time)
    requires forall v :: Newest(v, a) <==> Newest(v, b)
    ensures NewestReleases(a, before) == NewestReleases(b, before)
  {
    forall r ensures r in NewestReleases(a, before) <==> r in NewestReleases(b, before) {
      if r in NewestReleases(a, before) {
        var v :| v in a && Newest(v, a) && Passes(before, v.timestamp) && r == ToRelease(v);
        assert Newest(v, b);
      }
      if r in NewestReleases(b, before) {
        var v :| v in b && Newest(v, b) && Passes(before, v.timestamp) && r == ToRelease(v);
        assert Newest(v, a);
      }
    }
  }

  lemma NewestIsLatest(raw: set<Entry>, full: seq<PackageVersion>, name: string, arch: string, v: PackageVersion)
    requires forall u :: u in full <==> Entry(name, u) in raw
    requires Newest(v, Selected(raw, name, arch))
    ensures IsLatest(v, full)
  {
    SelectedElement(raw, name, arch, v);
    forall f | f in full && SameKey(v, f) ensures f.timestamp <= v.timestamp {
      SelectedElement(raw, name, arch, f);
    }
  }

  /**
   The headline: on the state any successful load installs, every query answers the function
   `RawAnswer` of the set of raw entries.
   */
  lemma EndToEnd(feeds: seq<Feed>, releases: Index, archs: set<string>, name: string, before: Time, arch: string)
    requires Installed(releases, feeds)
    ensures StoreAnswer(releases, archs, name, before, arch) == RawAnswer(Raw(feeds), archs, name, before, arch)
  {
    var m := AddAll(map[], RawEntries(feeds));
    var full, items := Lookup(m, name), Lookup(releases, name);
    AddAllContents(RawEntries(feeds), name);
    DedupKeepsNewest(Raw(feeds), full, items, name, arch, before);
    var scoped := Scoped(items, arch);
    assert scoped == [] <==> Members(scoped) == {} by {
      assert scoped != [] ==> scoped[0] in Members(scoped);
    }
    if arch != "" && scoped != [] {
      ScopedDistinct(items, arch);
      var rs := NewestReleases(Members(scoped), before);
      forall r ensures r in rs <==> KeptFrom(scoped, before, r) {
        assert forall e :: e in scoped ==> Newest(e, Members(scoped));
      }
      SortedKeptIsListing(scoped, before, rs);
      ListingUnique(Sort(KeptReleases(scoped, before), ReleaseBefore), Listing(rs), rs);
    }
  }

  lemma {:induction false} FilterDistinct(items: seq<PackageVersion>, arch: string)
    requires DistinctKeys(items)
    ensures DistinctVersions(Filter(items, (e: PackageVersion) => e.arch == arch))
  {
    var p := (e: PackageVersion) => e.arch == arch;
    if items != [] {
      FilterDistinct(items[1..], arch);
      var rest := Filter(items[1..], p);
      forall e | e in rest ensures e.arch == arch && !SameKey(items[0], e) {
        FilterElement(items[1..], p, e);
      }
    }
  }

  lemma ScopedDistinct(items: seq<PackageVersion>, arch: string)
    requires DistinctKeys(items) && arch != ""
    ensures DistinctVersions(Scoped(items, arch))
    ensures forall e :: e in Scoped(items, arch) ==> Newest(e, Members(Scoped(items, arch)))
  {
    FilterDistinct(items, arch);
    var s := Scoped(items, arch);
    forall e | e in s ensures Newest(e, Members(s)) {
      var i :| 0 <= i < |s| && s[i] == e;
    }
  }

  lemma {:induction false} RawOfFeeds(feeds: seq<Feed>)
    ensures forall e :: e in Raw(feeds) <==> exists f :: f in feeds && e in Entries(f.lines, f.arch)
  {
    if feeds != [] {
      var init, last := feeds[..|feeds| - 1], feeds[|feeds| - 1];
      RawOfFeeds(init);
      assert forall f :: f in feeds <==> f in init || f == last;
      assert forall e :: e in Raw(feeds) <==> e in Raw(init) || e in Entries(last.lines, last.arch);
    }
  }

  /** The raw entries of a complete load, read off the lines of the texts fetched. */
  lemma LoadedEntries(archs: seq<string>, fetched: seq<seq<Fetch>>, e: Entry)
    requires |fetched| == |archs| && Complete(fetched)
    ensures e in Raw(AllFeeds(archs, fetched)) <==>
        exists f, rec :: FetchedFeed(archs, fetched, f) && IsBlock(f.lines, rec) && RecordFiles(rec, f.arch, e)
  {
    RawOfFeeds(AllFeeds(archs, fetched));
    forall f
      ensures f in AllFeeds(archs, fetched) <==> FetchedFeed(archs, fetched, f)
      ensures e in Entries(f.lines, f.arch) <==> exists rec :: IsBlock(f.lines, rec) && RecordFiles(rec, f.arch, e)
    {
      AllFeedsMeaning(archs, fetched, f);
      TextMeaning(f.lines, f.arch, e);
    }
  }

  /** No query can tell the two installed indexes apart. */
  ghost predicate SameAnswers(releases: Index, releases': Index) {
    forall archs, name, before, arch ::
      StoreAnswer(releases, archs, name, before, arch) == StoreAnswer(releases', archs, name, before, arch)
  }

  /** Reordering or repeating feeds, and every choice of map order, leaves each answer identical. */
  lemma OrderIndependence(feeds: seq<Feed>, feeds': seq<Feed>, releases: Index, releases': Index)
    requires Installed(releases, feeds) && Installed(releases', feeds')
    requires forall f :: f in feeds <==> f in feeds'
    ensures SameAnswers(releases, releases')
  {
    RawOfFeeds(feeds);
    RawOfFeeds(feeds');
    assert Raw(feeds) == Raw(feeds');
    forall archs, name, before, arch
      ensures StoreAnswer(releases, archs, name, before, arch) == StoreAnswer(releases', archs, name, before, arch)
    {
      EndToEnd(feeds, releases, archs, name, before, arch);
      EndToEnd(feeds', releases', archs, name, before, arch);
    }
  }

  // ---------- cutoffs ----------

  lemma {:induction false} FilterStrict(s: seq<Release>, p: Release -> bool)
    requires StrictlyAscending(s, ReleaseBefore)
    ensures StrictlyAscending(Filter(s, p), ReleaseBefore)
  {
    if s != [] {
      FilterStrict(s[1..], p);
      var rest := Filter(s[1..], p);
      forall k | 0 <= k < |rest| ensures ReleaseBefore(s[0], rest[k]) {
        FilterElement(s[1..], p, rest[k]);
      }
    }
  }

  lemma {:induction false} KeptFilter(items: seq<PackageVersion>, c1: Time, c2: Time)
    requires c1 != 0 && (c2 == 0 || c1 <= c2)
    ensures Filter(KeptReleases(items, c2), (r: Release) => Passes(c1, r.timestamp)) == KeptReleases(items, c1)
  {
    if items != [] {
      var init, e := items[..|items| - 1], items[|items| - 1];
      KeptFilter(init, c1, c2);
      var p := (r: Release) => Passes(c1, r.timestamp);
      var one := if Passes(c2, e.timestamp) then [ToRelease(e)] else [];
      FilterAppend(KeptReleases(init, c2), one, p);
      assert one != [] ==> one[1..] == [];
    }
  }

  /** A stricter answer is the looser one (or the uncut one) filtered, as a sequence. */
  lemma CutoffCommutes(releases: Index, archs: set<string>, name: string, arch: string, c1: Time, c2: Time)
    requires c1 != 0 && (c2 == 0 || c1 <= c2)
    ensures var r1, r2 := StoreAnswer(releases, archs, name, c1, arch), StoreAnswer(releases, archs, name, c2, arch);
      r1 == if r2.Err? then r2 else Ok(Filter(r2.value, (r: Release) => Passes(c1, r.timestamp)))
  {
    var items := Scoped(Lookup(releases, name), arch);
    var p := (r: Release) => Passes(c1, r.timestamp);
    if arch == "" {
      var rs1, rs2 := NewestReleases(Members(items), c1), NewestReleases(Members(items), c2);
      FilterStrict(Listing(rs2), p);
      forall r ensures r in Filter(Listing(rs2), p) <==> r in rs1 {
        FilterElement(Listing(rs2), p, r);
      }
      ListingUnique(Filter(Listing(rs2), p), Listing(rs1), rs1);
    } else {
      ReleaseOrder();
      KeptFilter(items, c1, c2);
      FilterSort(KeptReleases(items, c2), ReleaseBefore, p);
    }
  }

  // ---------- the merge across architectures ----------

  ghost predicate Shows(a: Result<seq<Release>, ReleasesError>, version: string) {
    a.Ok? && exists r :: r in a.value && r.version == version
  }

  /**
   The merged view is conservative: it shows a version at a cutoff exactly when some
   architecture has evidence at or before the cutoff and none has evidence after it.
   */
  lemma ConservativeMerge(raw: set<Entry>, archs: set<string>, name: string, before: Time, version: string)
    requires ApkNameOk(name) && before != 0
    ensures Shows(RawAnswer(raw, archs, name, before, ""), version) <==>
        exists e :: e in raw && e.name == name && e.item.version == version && 0 != e.item.timestamp <= before
                 && NoneLater(raw, e)
  {
    var items := Selected(raw, name, "");
    ShownBy(raw, archs, name, before, "", version);
    forall v ensures v in items <==> Entry(name, v) in raw {
      SelectedElement(raw, name, "", v);
    }
    if e :| e in raw && e.name == name && e.item.version == version && 0 != e.item.timestamp <= before
            && NoneLater(raw, e) {
      assert e == Entry(name, e.item);
      assert Newest(e.item, items);
    }
    if v :| v in items && Newest(v, items) && Passes(before, v.timestamp) && v.version == version {
      forall f | f in raw && f.name == name && f.item.version == version ensures f.item.timestamp <= v.timestamp {
        assert f == Entry(name, f.item);
      }
      assert NoneLater(raw, Entry(name, v));
    }
  }

  /** On no architecture is this name and version later than in `e`. */
  ghost predicate NoneLater(raw: set<Entry>, e: Entry) {
    forall f :: f in raw && f.name == e.name && f.item.version == e.item.version ==> f.item.timestamp <= e.item.timestamp
  }

  lemma ShownBy(raw: set<Entry>, archs: set<string>, name: string, before: Time, arch: string, version: string)
    requires arch == "" || arch in archs
    ensures Shows(RawAnswer(raw, archs, name, before, arch), version) <==>
        var items := Selected(raw, name, arch);
        ApkNameOk(name) && exists v :: v in items && Newest(v, items) && Passes(before, v.timestamp) && v.version == version
  {
    var items := Selected(raw, name, arch);
    var rs := NewestReleases(items, before);
    if v :| v in items && Newest(v, items) && Passes(before, v.timestamp) && v.version == version {
      assert ToRelease(v) in rs;
      if ApkNameOk(name) {
        assert ToRelease(v) in RawAnswer(raw, archs, name, before, arch).value;
      }
    }
    if Shows(RawAnswer(raw, archs, name, before, arch), version) {
      var r :| r in Listing(rs) && r.version == version;
      assert r in rs;
    }
  }

  ghost predicate ShownByAnArch(raw: set<Entry>, archs: set<string>, name: string, before: Time, version: string) {
    exists arch :: arch in archs && Shows(RawAnswer(raw, archs, name, before, arch), version)
  }

  /** At every cutoff, what the merged view shows some architecture's own view shows. */
  ghost predicate MergedWithinUnion(raw: set<Entry>, archs: set<string>) {
    forall name, before, version ::
      Shows(RawAnswer(raw, archs, name, before, ""), version) ==> ShownByAnArch(raw, archs, name, before, version)
  }

  /** Without a cutoff, the merged view shows what any architecture's own view shows. */
  ghost predicate UnionWithinMerged(raw: set<Entry>, archs: set<string>) {
    forall name, version ::
      ShownByAnArch(raw, archs, name, 0, version) ==> Shows(RawAnswer(raw, archs, name, 0, ""), version)
  }

  lemma MergedVersusUnion(raw: set<Entry>, archs: set<string>)
    requires forall e :: e in raw ==> e.item.arch in archs && e.item.arch != ""
    ensures MergedWithinUnion(raw, archs) && UnionWithinMerged(raw, archs)
  {
    forall name, before, version | Shows(RawAnswer(raw, archs, name, before, ""), version)
      ensures ShownByAnArch(raw, archs, name, before, version)
    {
      MergedIsShown(raw, archs, name, before, version);
    }
    forall name, version | ShownByAnArch(raw, archs, name, 0, version)
      ensures Shows(RawAnswer(raw, archs, name, 0, ""), version)
    {
      var arch :| arch in archs && Shows(RawAnswer(raw, archs, name, 0, arch), version);
      ShownIsMerged(raw, archs, name, arch, version);
    }
  }

  lemma MergedIsShown(raw: set<Entry>, archs: set<string>, name: string, before: Time, version: string)
    requires forall e :: e in raw ==> e.item.arch in archs && e.item.arch != ""
    requires Shows(RawAnswer(raw, archs, name, before, ""), version)
    ensures ShownByAnArch(raw, archs, name, before, version)
  {
    var items := Selected(raw, name, "");
    ShownBy(raw, archs, name, before, "", version);
    var v :| v in items && Newest(v, items) && Passes(before, v.timestamp) && v.version == version;
    SelectedElement(raw, name, "", v);
    var own := Selected(raw, name, v.arch);
    SelectedElement(raw, name, v.arch, v);
    assert own <= items;
    assert Newest(v, own);
    ShownBy(raw, archs, name, before, v.arch, version);
  }

  lemma ShownIsMerged(raw: set<Entry>, archs: set<string>, name: string, arch: string, version: string)
    requires arch in archs && Shows(RawAnswer(raw, archs, name, 0, arch), version)
    ensures Shows(RawAnswer(raw, archs, name, 0, ""), version)
  {
    ShownBy(raw, archs, name, 0, arch, version);
    var v :| v in Selected(raw, name, arch) && v.version == version;
    var items := Selected(raw, name, "");
    assert v in items;
    var best := NewestExists(items, v);
    ShownBy(raw, archs, name, 0, "", version);
  }

  lemma {:induction false} NewestExists(items: set<PackageVersion>, e: PackageVersion) returns (best: PackageVersion)
    requires e in items
    ensures Newest(best, items) && best.version == e.version
    decreases |items|
  {
    if f :| f in items && f.version == e.version && f.timestamp > e.timestamp {
      best := NewestExists(items - {e}, f);
    } else {
      best := e;
    }
  }
}
