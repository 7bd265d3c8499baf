/** The index store and the loader that fills it: internal/apk/index.go. */
module ApkStore {
  import opened Core
  import opened Sorting
  import opened ApkFormat
  import opened ApkIndex

  /** The outcome of fetching and unpacking one APKINDEX. */
  datatype Fetch =
    | Text(lines: seq<string>)
    | CutOff(lines: seq<string>)  // the line scanner failed after these lines
    | Unavailable                 // the fetch, the archive or the credentials failed

  function LinesOf(fetch: Fetch): seq<string> {
    if fetch.Text? then fetch.lines else []
  }

  datatype Feed = Feed(arch: string, lines: seq<string>)

  function RawEntries(feeds: seq<Feed>): seq<Entry> {
    if feeds == [] then []
    else
      var f := feeds[|feeds| - 1];
      RawEntries(feeds[..|feeds| - 1]) + Entries(f.lines, f.arch)
  }

  /** The entries themselves, without order or multiplicity. */
  function Raw(feeds: seq<Feed>): set<Entry> {
    set e | e in RawEntries(feeds)
  }

  lemma {:induction false} RawEntriesWellFormed(feeds: seq<Feed>, archs: set<string>)
    requires forall f :: f in feeds ==> f.arch in archs
    ensures forall e :: e in RawEntries(feeds) ==> WellFormedEntry(e, e.item.arch) && e.item.arch in archs
  {
    if feeds != [] {
      var f := feeds[|feeds| - 1];
      RawEntriesWellFormed(feeds[..|feeds| - 1], archs);
      EntriesWellFormed(Records(f.lines), f.arch);
    }
  }

  /** `r` is what one successful load of `feeds` installs. */
  ghost predicate Installed(r: Index, feeds: seq<Feed>) {
    DedupIndexOf(r, AddAll(map[], RawEntries(feeds)))
  }

  /** The items a query may see for one name and architecture, in stored order. */
  function Scoped(items: seq<PackageVersion>, arch: string): seq<PackageVersion> {
    if arch == "" then items else Filter(items, (e: PackageVersion) => e.arch == arch)
  }

  /** Every stored list is non-empty, duplicate-free and within the configured architectures. */
  ghost predicate StoreInvariant(releases: Index, archs: set<string>) {
    forall name :: name in releases ==>
      && releases[name] != [] && DistinctKeys(releases[name])
      && forall e :: e in releases[name] ==> e.arch in archs && ValidTimestamp(e.timestamp)
  }

  lemma InstalledInvariant(r: Index, feeds: seq<Feed>, archs: set<string>)
    requires Installed(r, feeds) && forall f :: f in feeds ==> f.arch in archs
    ensures StoreInvariant(r, archs)
  {
    var es := RawEntries(feeds);
    var m := AddAll(map[], es);
    forall name | name in r
      ensures r[name] != [] && DistinctKeys(r[name])
      ensures forall e :: e in r[name] ==> e.arch in archs && ValidTimestamp(e.timestamp)
    {
      AddAllContents(es, name);
      var best := LatestExists(m[name], m[name][0]);
      assert best in r[name];
      RawEntriesWellFormed(feeds, archs);
      forall e | e in r[name] ensures e.arch in archs && ValidTimestamp(e.timestamp) {
        assert IsLatest(e, m[name]);
        assert Entry(name, e) in es;
      }
    }
  }

  // ---------- the store ----------

  class IndexStore {
    var releases: Index
    var archs: set<string>

    constructor ()
      ensures releases == map[] && archs == {}
    {
      releases, archs := map[], {};
    }

    /** `None` is the nil slice: nothing under this name and architecture. */
    method Get(name: string, arch: string) returns (r: Option<seq<PackageVersion>>)
      ensures var kept := Scoped(Lookup(releases, name), arch);
        r == if kept == [] then None else Some(kept)
    {
      var rs := Lookup(releases, name);
      if |rs| == 0 {
        return None;
      }
      if arch == "" {
        return Some(rs);
      }
      var out := [];
      var i := 0;
      while i < |rs|
        invariant 0 <= i <= |rs|
        invariant out == Scoped(rs[..i], arch)
      {
        assert rs[..i + 1] == rs[..i] + [rs[i]];
        FilterAppend(rs[..i], [rs[i]], (e: PackageVersion) => e.arch == arch);
        if rs[i].arch == arch {
          out := out + [rs[i]];
        }
        i := i + 1;
      }
      assert rs[..|rs|] == rs;
      if |out| == 0 {
        return None;
      }
      return Some(out);
    }

    /** The architectures of the installed snapshot, each once, in ascending order. */
    method Archs() returns (out: seq<string>)
      ensures StrictlyAscending(out, StringLess) && forall a :: a in out <==> a in archs
      ensures forall i, j :: 0 <= i < j < |out| ==> BytewiseBefore(out[i], out[j])
    {
      out := SortedKeys(archs);
      StrictStringsBytewise(out);
    }

    /** Every known package name, each once, in ascending order. */
    method All() returns (out: seq<string>)
      ensures StrictlyAscending(out, StringLess) && forall name :: name in out <==> name in releases
      ensures forall i, j :: 0 <= i < j < |out| ==> BytewiseBefore(out[i], out[j])
    {
      out := SortedKeys(releases.Keys);
      StrictStringsBytewise(out);
    }

    method Replace(newReleases: Index, newArchs: seq<string>)
      modifies this
      ensures releases == newReleases && archs == set a | a in newArchs
    {
      var installed: set<string> := {};
      var i := 0;
      while i < |newArchs|
        invariant 0 <= i <= |newArchs|
        invariant installed == set a | a in newArchs[..i]
      {
        installed := installed + {newArchs[i]};
        i := i + 1;
      }
      assert newArchs[..|newArchs|] == newArchs;
      releases, archs := newReleases, installed;
    }
  }

  /** Collect a map's keys in whatever order they come, then sort them. */
  method SortedKeys(keys: set<string>) returns (out: seq<string>)
    ensures StrictlyAscending(out, StringLess) && forall k :: k in out <==> k in keys
  {
    var found: seq<string> := [];
    var todo := keys;
    while todo != {}
      invariant todo <= keys
      invariant forall k :: k in found <==> k in keys && k !in todo
      invariant forall i, j :: 0 <= i < j < |found| ==> found[i] != found[j]
      decreases |todo|
    {
      var k :| k in todo;
      todo := todo - {k};
      found := found + [k];
    }
    out := Sort(found, StringLess);
    SortElements(found, StringLess);
    StringOrder();
    SortStrict(found, StringLess);
  }

  // ---------- the loader ----------

  /** One feed per (architecture, repository) pair, in the loader's order. */
  function FeedsUpTo(archs: seq<string>, fetched: seq<seq<Fetch>>, i: nat, j: nat): seq<Feed>
    requires |fetched| == |archs| && i <= |archs|
    requires j <= if i < |archs| then |fetched[i]| else 0
  {
    if j > 0 then FeedsUpTo(archs, fetched, i, j - 1) + [Feed(archs[i], LinesOf(fetched[i][j - 1]))]
    else if i > 0 then FeedsUpTo(archs, fetched, i - 1, |fetched[i - 1]|)
    else []
  }

  /** The index built from every pair before (i, j). */
  function Merged(archs: seq<string>, fetched: seq<seq<Fetch>>, i: nat, j: nat): Index
    requires |fetched| == |archs| && i <= |archs|
    requires j <= if i < |archs| then |fetched[i]| else 0
  {
    AddAll(map[], RawEntries(FeedsUpTo(archs, fetched, i, j)))
  }

  /** The first `n` repositories of a row answered in full. */
  ghost predicate AllText(row: seq<Fetch>, n: nat)
    requires n <= |row|
  {
    forall b :: 0 <= b < n ==> row[b].Text?
  }

  /** The first `n` architectures were loaded in full. */
  ghost predicate LoadedRows(fetched: seq<seq<Fetch>>, n: nat)
    requires n <= |fetched|
  {
    forall a :: 0 <= a < n ==> AllText(fetched[a], |fetched[a]|)
  }

  /** Repository j is the first of the row that did not answer in full. */
  ghost predicate FailsAt(row: seq<Fetch>, j: nat) {
    j < |row| && !row[j].Text? && AllText(row, j)
  }

  lemma OneMoreRow(fetched: seq<seq<Fetch>>, n: nat)
    requires n < |fetched| && LoadedRows(fetched, n) && AllText(fetched[n], |fetched[n]|)
    ensures LoadedRows(fetched, n + 1)
  {
  }

  ghost predicate Complete(fetched: seq<seq<Fetch>>) {
    LoadedRows(fetched, |fetched|)
  }

  function AllFeeds(archs: seq<string>, fetched: seq<seq<Fetch>>): seq<Feed>
    requires |fetched| == |archs|
  {
    FeedsUpTo(archs, fetched, |archs|, 0)
  }

  lemma {:induction false} FeedsConfigured(archs: seq<string>, fetched: seq<seq<Fetch>>, i: nat, j: nat)
    requires |fetched| == |archs| && i <= |archs|
    requires j <= if i < |archs| then |fetched[i]| else 0
    ensures forall f :: f in FeedsUpTo(archs, fetched, i, j) ==> f.arch in archs
    decreases i, j
  {
    if j > 0 {
      FeedsConfigured(archs, fetched, i, j - 1);
    } else if i > 0 {
      FeedsConfigured(archs, fetched, i - 1, |fetched[i - 1]|);
    }
  }

  /** The feeds are the texts of all pairs, each under its architecture, and nothing else. */
  lemma {:induction false} FeedsMember(archs: seq<string>, fetched: seq<seq<Fetch>>, i: nat, j: nat, f: Feed)
    requires |fetched| == |archs| && i <= |archs|
    requires j <= if i < |archs| then |fetched[i]| else 0
    ensures f in FeedsUpTo(archs, fetched, i, j) <==>
        exists a, b :: 0 <= a < |archs| && 0 <= b < |fetched[a]| && (a < i || (a == i && b < j))
          && f == Feed(archs[a], LinesOf(fetched[a][b]))
    decreases i, j
  {
    if j > 0 {
      FeedsMember(archs, fetched, i, j - 1, f);
    } else if i > 0 {
      FeedsMember(archs, fetched, i - 1, |fetched[i - 1]|, f);
    }
  }

  ghost predicate FetchedFeed(archs: seq<string>, fetched: seq<seq<Fetch>>, f: Feed)
    requires |fetched| == |archs|
  {
    exists a, b :: 0 <= a < |archs| && 0 <= b < |fetched[a]| && fetched[a][b] == Text(f.lines) && archs[a] == f.arch
  }

  lemma AllFeedsMeaning(archs: seq<string>, fetched: seq<seq<Fetch>>, f: Feed)
    requires |fetched| == |archs| && Complete(fetched)
    ensures f in AllFeeds(archs, fetched) <==> FetchedFeed(archs, fetched, f)
  {
    FeedsMember(archs, fetched, |archs|, 0, f);
    assert forall a, b :: 0 <= a < |fetched| && 0 <= b < |fetched[a]| ==> AllText(fetched[a], |fetched[a]|) && fetched[a][b].Text?;
  }

  /** (i, j) is the first pair, in the loader's order, that could not be loaded. */
  ghost predicate FirstFailure(fetched: seq<seq<Fetch>>, i: nat, j: nat) {
    i < |fetched| && FailsAt(fetched[i], j) && LoadedRows(fetched, i)
  }

  lemma FirstFailureIncomplete(fetched: seq<seq<Fetch>>, i: nat, j: nat)
    requires FirstFailure(fetched, i, j)
    ensures !Complete(fetched)
  {
    assert !AllText(fetched[i], |fetched[i]|);
  }

  datatype LoadError = LoadError(archIndex: nat, repoIndex: nat)

  class IndexLoader {
    const store: IndexStore
    const archs: seq<string>
    const repos: nat

    constructor (store: IndexStore, archs: seq<string>, repos: nat)
      ensures this.store == store && this.archs == archs && this.repos == repos
    {
      this.store, this.archs, this.repos := store, archs, repos;
    }

    method LoadOne(fetch: Fetch, arch: string, out: IndexData) returns (added: nat, ok: bool)
      modifies out
      ensures ok == fetch.Text?
      ensures ok ==> out.releases == AddAll(old(out.releases), Entries(LinesOf(fetch), arch))
    {
      match fetch
      case Unavailable => return 0, false;
      case Text(lines) => added, ok := out.ParseAPKINDEX(lines, true, arch);
      case CutOff(lines) => added, ok := out.ParseAPKINDEX(lines, false, arch);
    }

    /** Pair (i, j) on top of everything before it. */
    method LoadPair(fetched: seq<seq<Fetch>>, i: nat, j: nat, merged: IndexData) returns (ok: bool)
      requires |fetched| == |archs| && i < |archs| && j < |fetched[i]|
      requires merged.releases == Merged(archs, fetched, i, j)
      modifies merged
      ensures ok == fetched[i][j].Text?
      ensures ok ==> merged.releases == Merged(archs, fetched, i, j + 1)
    {
      var added;
      added, ok := LoadOne(fetched[i][j], archs[i], merged);
      LoadStep(archs, fetched, i, j);
    }

    /** The inner loop of `Load`: one architecture, up to the first repository that fails. */
    method LoadArch(fetched: seq<seq<Fetch>>, i: nat, merged: IndexData) returns (j: nat)
      requires |fetched| == |archs| && i < |archs|
      requires merged.releases == Merged(archs, fetched, i, 0)
      modifies merged
      ensures j <= |fetched[i]| && AllText(fetched[i], j)
      ensures j < |fetched[i]| ==> FailsAt(fetched[i], j)
      ensures j == |fetched[i]| ==> merged.releases == Merged(archs, fetched, i + 1, 0)
    {
      j := 0;
      while j < |fetched[i]|
        invariant j <= |fetched[i]| && AllText(fetched[i], j)
        invariant merged.releases == Merged(archs, fetched, i, j)
      {
        var ok := LoadPair(fetched, i, j, merged);
        if !ok {
          return;
        }
        j := j + 1;
      }
      NextRow(archs, fetched, i);
    }

    /** The loops of `Load`: build the merged index, or stop at the first pair (i, j) that fails. */
    method LoadAll(fetched: seq<seq<Fetch>>, merged: IndexData) returns (i: nat, j: nat)
      requires |fetched| == |archs| && merged.releases == map[]
      modifies merged
      ensures i <= |archs| && LoadedRows(fetched, i)
      ensures i < |archs| ==> FailsAt(fetched[i], j)
      ensures i == |archs| ==> merged.releases == Merged(archs, fetched, |archs|, 0)
    {
      i, j := 0, 0;
      while i < |archs|
        invariant i <= |archs| && LoadedRows(fetched, i)
        invariant merged.releases == Merged(archs, fetched, i, 0)
      {
        j := LoadArch(fetched, i, merged);
        if j < |fetched[i]| {
          return;
        }
        OneMoreRow(fetched, i);
        i := i + 1;
      }
    }

    /** `fetched[i][j]` is what architecture i of repository j answers. */
    method Load(fetched: seq<seq<Fetch>>) returns (err: Option<LoadError>)
      requires |fetched| == |archs| && forall row :: row in fetched ==> |row| == repos
      modifies store
      ensures err.None? <==> forall a, b :: 0 <= a < |archs| && 0 <= b < repos ==> fetched[a][b].Text?
      ensures err.None? ==> Complete(fetched)
      ensures err.None? ==> Installed(store.releases, AllFeeds(archs, fetched)) && store.archs == set a | a in archs
      ensures err.Some? ==> store.releases == old(store.releases) && store.archs == old(store.archs)
      ensures err.Some? ==>
        var i, j := err.value.archIndex, err.value.repoIndex;
        && i < |archs| && j < repos && !fetched[i][j].Text?
        && forall a, b :: 0 <= a <= i && 0 <= b < repos && (a < i || b < j) ==> fetched[a][b].Text?
    {
      var merged := new IndexData();
      var i, j := LoadAll(fetched, merged);
      if i < |archs| {
        FirstFailureIncomplete(fetched, i, j);
        assert forall a :: 0 <= a < i ==> AllText(fetched[a], repos);
        return Some(LoadError(i, j));
      }
      assert forall a :: 0 <= a < |archs| ==> AllText(fetched[a], repos);
      merged.Dedupe();
      store.Replace(merged.releases, archs);
      return None;
    }
  }

  /** `None` is the error: a loader needs at least one architecture. */
  method NewIndexLoader(store: IndexStore, archs: seq<string>, repos: nat) returns (loader: Option<IndexLoader>)
    ensures loader.None? <==> archs == []
    ensures loader.Some? ==>
      fresh(loader.value) && loader.value.store == store && loader.value.archs == archs && loader.value.repos == repos
  {
    if |archs| == 0 {
      return None;
    }
    var built := new IndexLoader(store, archs, repos);
    return Some(built);
  }

  /**
   The store is returned either way. A failed first load leaves it empty and starts no
   refresh; so does an interval that is not positive, after a successful load.
   */
  method NewIndexStoreWithRefresh(archs: seq<string>, repos: nat, fetched: seq<seq<Fetch>>, interval: int)
    returns (store: IndexStore, ok: bool, refreshing: bool)
    requires |fetched| == |archs| && forall row :: row in fetched ==> |row| == repos
    ensures fresh(store)
    ensures ok <==> archs != [] && forall a, b :: 0 <= a < |archs| && 0 <= b < repos ==> fetched[a][b].Text?
    ensures ok ==> Complete(fetched)
    ensures ok ==> Installed(store.releases, AllFeeds(archs, fetched)) && store.archs == set a | a in archs
    ensures !ok ==> store.releases == map[] && store.archs == {}
    ensures refreshing <==> ok && interval > 0
  {
    store := new IndexStore();
    var loader := NewIndexLoader(store, archs, repos);
    if loader.None? {
      return store, false, false;
    }
    var err := loader.value.Load(fetched);
    if err.Some? {
      return store, false, false;
    }
    return store, true, interval > 0;
  }

  lemma NextRow(archs: seq<string>, fetched: seq<seq<Fetch>>, i: nat)
    requires |fetched| == |archs| && i < |archs|
    ensures Merged(archs, fetched, i, |fetched[i]|) == Merged(archs, fetched, i + 1, 0)
  {
  }

  lemma LoadStep(archs: seq<string>, fetched: seq<seq<Fetch>>, i: nat, j: nat)
    requires |fetched| == |archs| && i < |archs| && j < |fetched[i]|
    ensures AddAll(Merged(archs, fetched, i, j), Entries(LinesOf(fetched[i][j]), archs[i]))
         == Merged(archs, fetched, i, j + 1)
  {
    var feeds, feeds' := FeedsUpTo(archs, fetched, i, j), FeedsUpTo(archs, fetched, i, j + 1);
    assert feeds'[..|feeds'| - 1] == feeds;
    AddAllConcat(map[], RawEntries(feeds), Entries(LinesOf(fetched[i][j]), archs[i]));
  }
}
