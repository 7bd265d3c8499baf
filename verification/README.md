# Release feeds: a verified model

`renovate-datasource` turns upstream release data into filtered, ordered release lists and
serves them over HTTP or writes them to a directory. This project models the four cores
behind that and proves what holds across them.

- **APK index** (`ApkFormat`, `ApkIndex`, `ApkStore`, `ApkReleases`, `StoreRuns`). An APKINDEX
  text is parsed line by line into a multimap, several feeds are merged and deduplicated, and
  queries merge architectures, apply a cutoff and sort. Go map iteration is an arbitrary choice
  at every step (`:|`). `ApkFormat` says what a text means without the parser, down to its lines
  (`TextMeaning`); `RawAnswer` says what a query means as a function of a *set* of entries, and
  `AnswerMeaning` and `StoreAnswerMeaning` spell that out.
- **Rewind** (`Rewind`, `Fanout`, `RepoReleases`). What a registry tag pointed at as of a
  cutoff, and the bounded concurrent lookups behind it.
- **Groups and paths** (`GroupWalk`, `RepoResolve`, `Paths`). The depth-first enumeration of
  repos, its reference (the unfolding of the group graph), and the path resolver it inverts.
- **Snapshot** (`Windows`, `Disks`, `Generate`, `SnapshotGenerator`, `LiveSnapshot`, `Permits`). The
  commit machine with its package tasks, agreement with the live server, and the three nested
  levels of bounded concurrency.

`Core` and `Sorting` hold the shared values, the stable sort and the two orders.

Conventions: an instant is an integer number of nanoseconds since 0001-01-01T00:00:00Z, so Go's
zero `time.Time` is 0; a string is a sequence of Unicode scalar values; a fetch, a backend
answer, a failure of the file system and every scheduling decision are parameters or arbitrary
choices. Concurrent code is a state machine over its steps, with the results stated for every
run; `ApplyMinimumReleaseAge` and `GenerateSnapshot` also drive these machines as methods under
an arbitrary scheduler and prove that they end. A snapshot run records whether the file system
has failed and whether it was cancelled, so every other failure must have its cause in the
sources (`Generate.CommitsIffUnblocked`, `LiveSnapshot.SnapshotCommitsIff`).

Where the repository's comments, or what one would expect of it, and its code disagree, the model
follows the code:

- If the initial load fails, no refresh is started, so the store stays empty for ever
  (`internal/apk/index.go:77-81`), although `cmd/renovate-datasource/serve.go:138` speaks of a
  next successful refresh. `StoreRuns.FailedBootStaysEmpty` states it.
- A concurrency that is not positive means no limit on package tasks
  (`internal/snapshot/snapshot.go:156-158`), not sequential work as line 81 there says.
- The "cycle" error fires on any repeated group ID, also on a group shared by two parents
  (`internal/chainguard/walk.go:46`); `GroupWalk.WalkExact` gives the exact condition.
- `t:-62135596800` is within the accepted bounds and denotes the zero time, so it reads as "no
  timestamp" later on; the range lemmas include it.
- A tag at or before the cutoff is taken as it is; if its history knows of a later update that
  is also before the cutoff, the answer is not the latest state. `Rewind.RewindCanLag` gives such a
  tag; `Rewind.RewindIsAsOf` and `Rewind.RewindAlwaysAsOf` give the exact conditions, at one cutoff
  and at all.
- "The tag has no LastUpdated" (`internal/datasource/repo.go:108`) can only mean an instant that is
  zero: `Client.ListTags` turns a missing timestamp into the start of 1970
  (`internal/chainguard/client.go:274`), and such a tag is shown at every later cutoff.
- A cutoff that falls on the zero instant is read as "no cutoff". `Windows.MinimumAgeHonouredIff`
  gives the exact condition, which a present-day clock always meets.
- A path with an empty segment is not "not found": the request with an empty name is the one that
  lists everything, and its first item is taken (`internal/chainguard/client.go:225-236`,
  `240-251`). `RepoResolve.EmptyPathResolves` gives an organisation where the empty path resolves;
  `RepoResolve.ListResolveInverse` says what is listed among the paths that resolve. A query
  never passes such a path on, as its name check refuses it.
- A snapshot fails on two accepted repos of which one is, or lies below, the path of the other's
  file, as `x` and `x/releases.json` do. `LiveSnapshot.ContendingReposNeverCommit` gives such an
  organisation and `Paths.AcceptedNamesContendIff` the names.
- A snapshot fails on a published release whose time JSON cannot encode. The index parser lets no
  such time in (`Windows.LoadedIsEncodable`), but a registry tag may carry one
  (`LiveSnapshot.FarFutureNeverCommits`). The comment at `internal/apk/index.go:22` starts the
  encodable years at 0001; the encoder itself also takes the year 0000.
- An output path with a trailing slash (or ending in `.` or `..`) passes every check, but its
  parent (`internal/snapshot/snapshot.go:118`) is then the output itself: the staging directory is
  made inside it, the rename fails, and the empty output is left behind, so the next run is refused.
  `Disks.StagingOutsideIff` gives the exact condition, `Disks.TrailingSlashAccepted` the paths, and
  `Generate.TrailingSlashNeverCommits` and `Generate.UnseenIffPlain` what becomes of them, although
  lines 112-117 there promise that the output is never observable in a half-written state.
- `Generate.CommitsIffUnblocked` and `LiveSnapshot.SnapshotCommitsIff` gather everything that can
  keep an undisturbed snapshot from committing.

## Model

| member | source | states |
|---|---|---|
| ApkFormat.ParseInt64RoundTrip | internal/apk/index.go:416 | every integer's decimal text parses back to it, and to an error exactly when it overflows int64 |
| ApkFormat.ParseInt64Meaning | internal/apk/index.go:416 | any text parses to n exactly when it is digits with an optional sign that spell n, and n fits an int64 |
| ApkFormat.TimestampAccepted | internal/apk/index.go:410-418 | any `t:` value denotes an instant exactly when it spells a non-zero second of the years 0001 to 9999, and then that second |
| ApkFormat.DecimalTimestamp | internal/apk/index.go:410-418 | every such second has a text that denotes it |
| ApkFormat.DigitsPositional | internal/apk/index.go:416 | digits are read in decimal notation, by place |
| ApkFormat.LastTimestampRange | internal/apk/index.go:22-28 | whatever the text, a record's time is zero or a whole second of a year that JSON can encode |
| ApkFormat.RecordsJoin | internal/apk/index.go:393-398 | splitting at blank lines loses nothing and leaves no blank line in a record |
| ApkFormat.RecordsConcat | internal/apk/index.go:393-398 | two texts joined by a blank line split into the records of both |
| ApkFormat.LastFieldMeaning | internal/apk/index.go:399-421 | a record's field is the value of its last line with that key, or empty when there is none |
| ApkFormat.LastFieldIs | internal/apk/index.go:399-421 | a field is what follows `K:` on the last line that begins so, and nothing else |
| ApkFormat.LastTimestampMeaning | internal/apk/index.go:409-418 | a record's time is that of its last valid `t:` line, or zero when there is none |
| ApkFormat.LastTimestampIs | internal/apk/index.go:409-418 | a record's time is the instant spelled by the last `t:` line that spells an accepted second, or zero |
| ApkFormat.FieldsRoundTrip | internal/apk/index.go:451 | tokens written with spaces between them are read back |
| ApkFormat.FieldsMeaning | internal/apk/index.go:451 | the tokens of any list are exactly its words, bounded by white space or the ends |
| ApkFormat.ProvidesMeaning | internal/apk/index.go:447-462 | a provide is filed exactly when a token spells `name=version` with a non-empty name and a version other than 0 |
| ApkFormat.EntriesWellFormed | internal/apk/index.go:381-391 | every entry of every text, provides included, has a name, the feed's architecture and a JSON-safe time |
| ApkFormat.RecordMeaning | internal/apk/index.go:381-391 | a record files an entry exactly when its last `P:` and `V:` lines are non-empty, the entry has the feed's architecture and the record's time, and is that name and version or what a word of the last `p:` line spells |
| ApkFormat.RecordIsBlock | internal/apk/index.go:393-398 | the records are exactly the blocks of lines that blank lines or the ends bound |
| ApkFormat.TextMeaning | internal/apk/index.go:369-429 | a text files an entry exactly when one of its blocks does |
| ApkFormat.PackageCountMeaning | internal/apk/index.go:385 | the count is that of the records that name a package and a version |
| ApkFormat.ParseConcat | internal/apk/index.go:369-429 | parsing A, a blank line and B yields the index of parsing A and then B into one index |
| ApkFormat.CountConcat | internal/apk/index.go:379-385 | and it counts as many packages as the two together |
| ApkFormat.AddAllContents | internal/apk/index.go:384 | a name's list holds exactly the items filed under it, and no key has an empty list |
| ApkFormat.AddAllInOrder | internal/apk/index.go:384 | and holds them once each, in the order they were filed |
| ApkIndex.IndexData.AddProvides | internal/apk/index.go:447-462 | the token loop adds exactly the provided entries, in order |
| ApkIndex.ReadField | internal/apk/index.go:399-421 | one line changes the scratch variables to the last values of the record so far |
| ApkIndex.IndexData.FlushRecord | internal/apk/index.go:381-391 | closing a record files what it describes, or nothing |
| ApkIndex.IndexData.Flush | internal/apk/index.go:381-391 | closing a record extends what was filed and counted by exactly that record |
| ApkIndex.IndexData.ScanLines | internal/apk/index.go:393-422 | after the scan every closed record is filed and the last one is pending |
| ApkIndex.IndexData.ParseAPKINDEX | internal/apk/index.go:369-429 | the one-pass machine yields the index and count of the record-by-record meaning; a cut-off scan drops the open record and fails |
| ApkIndex.LatestByKey | internal/apk/index.go:291-301 | the map keeps the latest entry of each architecture and version; as many keys as entries means no duplicates |
| ApkIndex.ValuesInAnyOrder | internal/apk/index.go:302-305 | in whatever order the map is read, the list is a deduplication |
| ApkIndex.IndexData.Dedupe | internal/apk/index.go:285-308 | for every name exactly the latest entry per architecture and version remains, once |
| ApkIndex.DedupDetermined | internal/apk/index.go:285-308 | any two results of the pass differ at most in order |
| ApkIndex.LatestExists | internal/apk/index.go:279-284 | every entry has a survivor of its key that is at least as late |
| ApkStore.IndexStore.Get | internal/apk/index.go:87-109 | the items under the name and architecture in stored order, nil exactly when there are none |
| ApkStore.IndexStore.Archs | internal/apk/index.go:114-123 | the installed architectures, each once, strictly ascending |
| ApkStore.IndexStore.All | internal/apk/index.go:136-145 | the known names, each once, strictly ascending |
| ApkStore.IndexStore.Replace | internal/apk/index.go:151-160 | the whole contents are swapped, architectures as a set |
| ApkStore.NewIndexLoader | internal/apk/index.go:180-191 | an empty list of architectures is an error, any other gives a new loader of just these parts |
| ApkStore.IndexLoader.LoadOne | internal/apk/index.go:310-333 | a fetch contributes its whole text, or the load fails |
| ApkStore.IndexLoader.LoadPair | internal/apk/index.go:262-271 | one pair extends the merged index by its text, or fails |
| ApkStore.IndexLoader.LoadArch | internal/apk/index.go:262-271 | the inner loop merges a row or stops at its first failing repository |
| ApkStore.IndexLoader.LoadAll | internal/apk/index.go:259-272 | the loops merge every pair or stop at the first failing one |
| ApkStore.AllFeedsMeaning | internal/apk/index.go:258-271 | what a complete load reads is the whole text of every pair, each under its own architecture |
| ApkStore.IndexLoader.Load | internal/apk/index.go:252-277 | success exactly when every pair was fetched, installing the deduplicated whole; otherwise nothing changes and the first failing pair is reported |
| ApkStore.NewIndexStoreWithRefresh | internal/apk/index.go:63-82 | the store is returned either way, empty after a failure; refresh starts only after success with a positive interval |
| ApkStore.InstalledInvariant | internal/apk/index.go:258-308 | after a load every list is non-empty, duplicate-free, of configured architectures and valid times |
| ApkReleases.MergeAcrossArchs | internal/datasource/apk.go:109-128 | in whatever order the map is read, one newest entry per version remains |
| ApkReleases.NewestByVersion | internal/datasource/apk.go:113-122 | the map keeps a newest entry of each version |
| ApkReleases.KeepReleases | internal/datasource/apk.go:82-95 | the cutoff loop keeps the provably old enough entries, in order |
| ApkReleases.APKDatasource.PackageNames | internal/datasource/apk.go:36-38 | the known names, strictly ascending |
| ApkReleases.StoreAnswerErrors | internal/datasource/apk.go:64-74 | which error is answered, and when |
| ApkReleases.StoreAnswerMeaning | internal/datasource/apk.go:75-107 | on any store an answer is newest first, at equal times the bytewise greater version first, and shows exactly the entries concerned that the cutoff lets through and, without an architecture, none of the version outdates |
| ApkReleases.APKDatasource.Releases | internal/datasource/apk.go:64-107 | on any store, whatever the map order, the answer is that, or that error |
| ApkReleases.MergedListing | internal/datasource/apk.go:79-106 | every merge, filtered and sorted, gives one and the same list |
| ApkReleases.EndToEnd | internal/datasource/apk.go:64-128 | on what any successful load installs, a query answers `RawAnswer` of the set of raw entries |
| ApkReleases.LoadedEntries | internal/apk/index.go:258-271 | the raw entries of a complete load are what the blocks of the fetched texts file |
| ApkReleases.AnswerMeaning | internal/datasource/apk.go:97-105 | an answer is in descending time, at equal times in descending bytewise version, one entry per version, exactly those backed by a raw entry nothing outdates and let through by the cutoff |
| ApkReleases.OrderIndependence | internal/apk/index.go:285-308 | permuting or repeating feeds, and every map order, leaves every answer identical |
| ApkReleases.CutoffCommutes | internal/datasource/apk.go:82-105 | the answer at a stricter cutoff is the looser or uncut one filtered, as a sequence |
| ApkReleases.ConservativeMerge | internal/datasource/apk.go:75-95 | the merged view shows a version at a cutoff exactly when some evidence is at or before it and none after |
| ApkReleases.MergedVersusUnion | internal/datasource/apk.go:79-95 | at every cutoff what the merged view shows some architecture's view shows, and without a cutoff the converse holds too |
| StoreRuns.ArchsOnlyGrow | internal/apk/index.go:151-160 | in every run the architectures are none or the configured ones |
| StoreRuns.QueriesAreLinearizable | internal/datasource/apk.go:68-74 | whatever installs fall between its two reads, a query answers atomically on one state the store had meanwhile |
| StoreRuns.QueriesAnswerOneLoad | internal/datasource/apk.go:64-107 | every answer in every run is that of the empty store or of the raw entries of one complete load, current when the query began or installed before it ended |
| StoreRuns.StoreOverRuns | internal/apk/index.go:228-277 | in every run the store is empty or one complete load, and keeps its invariant |
| StoreRuns.FailedBootStaysEmpty | internal/apk/index.go:71-82 | after a failed first load the store is empty for ever |
| Rewind.BestMeaning | internal/datasource/repo.go:152-163 | the scan finds the first of the latest eligible entries, or none when none is eligible |
| Rewind.RewindMonotone | internal/datasource/repo.go:126-172 | a tag shown at a cutoff is shown at every later one, at least as fresh |
| Rewind.RewindStable | internal/datasource/repo.go:126-172 | what is shown at c with timestamp t is shown identically at every cutoff from t to c |
| Rewind.RewindIsAsOf | internal/datasource/repo.go:105-117 | at a cutoff the answer is the latest state as of it exactly when the history is not ahead of the tag there |
| Rewind.RewindAlwaysAsOf | internal/datasource/repo.go:105-117 | at every cutoff it is, exactly when no update in the history is later than the tag itself or the tag is undated |
| Rewind.RewindCanLag | internal/datasource/repo.go:127-134 | whenever a tag is dated before an update in its history, an older state is answered from that update on |
| Rewind.RewindDrops | internal/datasource/repo.go:108-114 | a tag is omitted exactly when it is undated or had no state by the cutoff |
| Rewind.RewoundOnePerTag | internal/datasource/repo.go:180-186 | a rewound list has one release for every tag shown at the cutoff and none for any other, in the tags' order |
| Rewind.OnePerTagCount | internal/datasource/repo.go:180-186 | so it has as many releases as there are tags shown |
| Rewind.RewindAllMonotone | internal/datasource/repo.go:118-187 | raising the cutoff loses no tag and makes none older |
| Rewind.RewoundWithinCutoff | internal/datasource/repo.go:118-187 | every release of a rewound list is dated, at or before the cutoff |
| Fanout.LookupsBounded | internal/datasource/repo.go:141-143 | in every interleaving lookups in flight stay within the limit |
| Fanout.SlotWrittenOnce | internal/datasource/repo.go:167-171 | a slot changes only from empty and only by its own worker, which is then done |
| Fanout.SlotKeepsItsValue | internal/datasource/repo.go:167-171 | over a whole run a slot that changes was filled by its own worker and never changes again |
| Fanout.FanoutRefinesRewind | internal/datasource/repo.go:141-187 | every interleaving that ends answers the sequential rewind in input order or an error: exactly when a worker failed, and unless cancelled exactly when a needed lookup fails |
| Fanout.NextDecreases | internal/datasource/repo.go:145-177 | every step uses up a finite budget, so no run goes on for ever |
| Fanout.FanoutProgress | internal/datasource/repo.go:145-177 | until the end some worker can step or start, whoever cancels |
| RepoReleases.ScanHistory | internal/datasource/repo.go:152-163 | the loop returns the first latest eligible entry, or nothing |
| RepoReleases.ClassifyTag | internal/datasource/repo.go:127-138 | one tag is settled in its own slot, or reported as needing its history |
| RepoReleases.Classify | internal/datasource/repo.go:123-139 | tags are settled in place or noted for lookup, in order |
| RepoReleases.RunWorker | internal/datasource/repo.go:147-173 | one worker decision is a step of the machine, written to its own slot |
| RepoReleases.Schedule | internal/datasource/repo.go:141-177 | until the end the scheduler has a step to take, and any it takes is one of the machine |
| RepoReleases.CollectSlots | internal/datasource/repo.go:180-186 | the value of every filled slot, once each and in input order |
| RepoReleases.ApplyMinimumReleaseAge | internal/datasource/repo.go:118-187 | under any scheduler the call ends with one release per tag shown, in order, or with an error that a needed lookup or a cancellation explains, and never has more lookups in flight than asked, or 16 |
| RepoReleases.TagsToReleases | internal/datasource/repo.go:93-103 | each tag's current state, in order |
| RepoReleases.RepoAnswerMeaning | internal/datasource/repo.go:71-86 | a bad name is refused; an unknown repo is not found; any other failure to list, or of a needed history, is the backend's; otherwise the tags as they stand or stood |
| RepoReleases.RepoDatasource.Releases | internal/datasource/repo.go:71-86 | the call answers that; only a cancelled one may answer a backend failure instead |
| GroupWalk.Walker.WalkReposStep | internal/chainguard/walk.go:42-77 | the recursion over the shared visited set is the function `Walk` of the state before |
| GroupWalk.Walker.EmitRepos | internal/chainguard/walk.go:55-61 | the repos' prefixed paths are appended in order |
| GroupWalk.RunWalk | internal/chainguard/walk.go:33-40 | the walk from the root starts with nothing seen |
| GroupWalk.WalkExact | internal/chainguard/walk.go:28-77 | success exactly when the unfolding has no failing listing, no repeated ID and nothing below depth 16; the result is then its paths in preorder |
| GroupWalk.WalkErrorMeaning | internal/chainguard/walk.go:42-77 | an error names a group at depth 17, one reached twice, or one whose repos or subgroups cannot be listed, and says which |
| GroupWalk.WalkListsOnce | internal/chainguard/walk.go:42-53 | however the walk ends, no group is listed twice |
| RepoResolve.Client.ResolveRepoUIDP | internal/chainguard/client.go:215-252 | the loop follows the subgroup names and takes the first repo the last name selects, where an empty name selects all |
| RepoResolve.ResolveMeaning | internal/chainguard/client.go:215-252 | each name but the last leads to its first match, the repo is the first match of the last; a listing that fails on the way is a failure, a name without a match is not found |
| RepoResolve.Client.ListAllRepos | internal/chainguard/client.go:291-298 | the walk's paths, all of them, bytewise ascending |
| RepoResolve.VisitsAreFollowed | internal/chainguard/client.go:215-224 | following a visit's names leads to the visited group |
| RepoResolve.FollowedAreVisits | internal/chainguard/client.go:215-224 | every group a chain of names leads to was visited, under those very names unless one is empty |
| RepoResolve.ResolvedIsListed | internal/chainguard/client.go:215-237 | whatever resolves, resolves to the ID of a repo of a visited group, and under its own path unless a segment is empty |
| RepoResolve.ResolvableIsListed | internal/chainguard/client.go:215-298 | whatever the names, what resolves without an empty segment is in the listing |
| RepoResolve.ListResolveInverse | internal/chainguard/client.go:215-298 | with good names the listing is bytewise strictly ascending, each path in it resolves to its own repo's ID, and a path that resolves is listed exactly when no segment is empty |
| RepoResolve.AcceptedListedIffResolves | internal/chainguard/client.go:215-298 | for the names a query accepts, listed and resolving are the same |
| RepoResolve.EmptyPathResolves | internal/chainguard/client.go:225-236 | an organisation where the empty path resolves and is not listed |
| Paths.CleanIdempotent | internal/snapshot/snapshot.go:234 | cleaning a path twice is cleaning it once |
| Paths.FeedPathContained | internal/snapshot/snapshot.go:231-237 | a feed is refused exactly when its cleaned path is rooted or climbs to a parent |
| Paths.AcceptedNamesAreFeedPaths | internal/datasource/apk.go:23 | every accepted apk or repo name is local and its own cleaned path |
| Paths.ApkNameMeaning | internal/datasource/apk.go:23 | accepted apk names are 1 to 128 visible ASCII characters without a slash, not led by a dash or a dot |
| Paths.RepoNameMeaning | internal/datasource/repo.go:20 | accepted repo names are lower-case letters, digits, `._-` and slashes, with a letter or digit at the ends and around every slash |
| Paths.ApkNamesNeverContend | internal/datasource/apk.go:23 | no file of an accepted apk name lies where another needs a directory |
| Paths.ContendsExactly | internal/snapshot/snapshot.go:238-246 | for any two paths, one's file is in the other's way exactly when the other is that file's path or lies below it |
| Paths.AcceptedNamesContendIff | internal/snapshot/snapshot.go:238-246 | accepted names contend exactly so, only a repo name can be in trouble, and never both ways |
| Paths.RepoNamesCanContend | internal/datasource/repo.go:20 | for every accepted repo `x`, `x/releases.json` is accepted and contends with it |
| Windows.FreezeCutoffs | internal/snapshot/snapshot.go:137-145 | the snapshot's cutoffs are the server's, for one instant |
| Windows.WithinMaxAge | internal/snapshot/snapshot.go:216-224 | exactly the undated and the young enough releases, once each and in order |
| Windows.AgeLimitedMeaning | internal/snapshot/snapshot.go:181-183 | a zero cutoff keeps the list, any other exactly those |
| Windows.JsonYears | internal/apk/index.go:22-28 | the times that can be written are those of the years 0000 to 9999 |
| Windows.RepoSourceMeaning | internal/datasource/repo.go:71-86 | what a repo source answers, in terms of the way to the repo, the tags under its ID and the histories under theirs |
| Windows.LiveMeaning | internal/server/server.go:99-157 | what the live server answers from either source, at the cutoff of the age asked for and for the architecture asked for |
| Windows.AnswersRespectCutoff | internal/datasource/datasource.go:51-55 | under a cutoff either datasource shows only dated releases at or before it |
| Windows.AnsweredIsListed | internal/datasource/datasource.go:48-55 | whatever an enumerable source answers for is in its enumeration |
| Windows.OneReleaseInstalled | internal/apk/index.go:410-418 | an index text whose one package is dated a second after the zero instant, and what it installs |
| Windows.MinimumAgeHonouredIff | internal/server/server.go:99-157 | for every request, int64 ages and stores a load can install, the minimum age is honoured exactly when the cutoff is not the zero instant, so always from the year 293 on |
| Windows.BothWindows | internal/snapshot/snapshot.go:137-183 | with both windows active a release lies in [now - max, now - min], but for a bound that falls on the zero instant |
| Windows.ApkTimes | internal/datasource/apk.go:79-107 | every time in an apk answer is that of an entry of the package |
| Windows.LoadedIsEncodable | internal/apk/index.go:22-28 | what a load installed is answered only with times JSON can encode |
| Disks.CleanLeadsThere | internal/snapshot/snapshot.go:118 | without symbolic links, cleaning a path does not change where it leads |
| Disks.ParentLeads | internal/snapshot/snapshot.go:118 | the output's parent is where its path leads up to its last element |
| Disks.StagingOutsideIff | internal/snapshot/snapshot.go:118-125 | the staging directory lies outside the output, and the output is no directory made for it, exactly when the path ends in a plain name |
| Disks.PlainTargetUntouched | internal/snapshot/snapshot.go:119-125 | making the parent and the staging directory then leaves the output's place alone |
| Disks.PlainIffUnseen | internal/snapshot/snapshot.go:118-125 | with both made, nothing is seen at an accepted output, and it can be renamed to, exactly when its path ends in a plain name |
| Disks.RenamableIsPlain | internal/snapshot/snapshot.go:206 | no other path can ever be renamed to, with or without parent steps |
| Disks.TrailingSlashAccepted | internal/snapshot/snapshot.go:106-118 | a free name with a trailing slash passes every check and is its own parent |
| Disks.BaseIsElement | internal/snapshot/snapshot.go:122 | an accepted output's base name has no slash, as the staging directory's name must not |
| Disks.FreshSuffix | internal/snapshot/snapshot.go:122 | a free name for the staging directory is found |
| Generate.OtherTaskUndisturbed | internal/snapshot/snapshot.go:243-253 | a write disturbs no other task, not even one writing the same file |
| Generate.FinishedRunIsExact | internal/snapshot/snapshot.go:154-200 | a source whose tasks end without error has staged exactly its feeds; written counts the packages with something to publish, and written + skipped all of them, repeats included |
| Generate.OutputAllOrNothing | internal/snapshot/snapshot.go:106-211 | in every reachable state the disk is as it was found but for the directories to the output's parent and the staging one, or also holds exactly the non-empty feeds, each complete, where nothing was |
| Generate.UnseenIffPlain | internal/snapshot/snapshot.go:112-131 | from the making of the parent to the failure of a run, nothing is seen at the output exactly when its path ends in a plain name |
| Generate.TasksBounded | internal/snapshot/snapshot.go:155-158 | a positive limit bounds the tasks in progress |
| Generate.FailureLeavesNothing | internal/snapshot/snapshot.go:126-131 | after a failure only the parent's directories remain unless removal failed, and the next run may start exactly when the path ends in a plain name |
| Generate.TaskFailsForACause | internal/snapshot/snapshot.go:160-195 | a task fails only if cancelled, if the file system failed, or if something blocks its source |
| Generate.ExactIsUnblocked | internal/snapshot/snapshot.go:160-195 | a source staged in full has nothing that blocks it |
| Generate.OutcomesHaveCauses | internal/snapshot/snapshot.go:95-211 | a commit needs a startable run, a plan nothing blocks and an output that can be renamed to; a failure or refusal has its cause |
| Generate.CommitsIffUnblocked | internal/snapshot/snapshot.go:95-211 | an undisturbed run that ends has committed exactly when it could start, every source enumerates, no answer is fatal, no path refused, no feed unencodable, no two feeds in each other's way, and the output can be renamed to: its path ends in a plain name |
| Generate.TrailingSlashNeverCommits | internal/snapshot/snapshot.go:118-209 | with a trailing slash a run stages inside the output, never commits, and its failure leaves the output behind and the next run refused |
| Generate.NeverStuck | internal/snapshot/snapshot.go:95-211 | until a run ends the program has a step of its own to take |
| SnapshotGenerator.AskSource | internal/snapshot/snapshot.go:164-188 | not found or a bad name is skipped, any other error fatal; of an answer the undated and young enough releases are kept, in order, and nothing kept is a skip |
| SnapshotGenerator.CreateFile | internal/snapshot/snapshot.go:233-246 | a file is created, or refused for its path, what is in its way or a fault |
| SnapshotGenerator.FinishFile | internal/snapshot/snapshot.go:247-256 | a feed that cannot be encoded fails its task; otherwise the file is whole unless another writer is still at it |
| SnapshotGenerator.StepTask | internal/snapshot/snapshot.go:160-195 | a task's move is a step of the machine and nearer its end |
| SnapshotGenerator.AdvanceTasks | internal/snapshot/snapshot.go:154-196 | while a task is not over the scheduler has a step to take, and any it takes is one of the machine |
| SnapshotGenerator.RunTasks | internal/snapshot/snapshot.go:154-199 | under any scheduler the fan-out ends with every task over |
| SnapshotGenerator.StageSource | internal/snapshot/snapshot.go:147-201 | one source is staged in full, or the run turns to cleaning up |
| SnapshotGenerator.StageAll | internal/snapshot/snapshot.go:147-209 | in any order of the sources, staging ends in a commit or a clean-up |
| SnapshotGenerator.Prepare | internal/snapshot/snapshot.go:100-125 | the checks, the parent and the staging directory, or a refusal |
| SnapshotGenerator.RemoveStaging | internal/snapshot/snapshot.go:126-131 | the staging directory is removed unless the file system fails |
| SnapshotGenerator.GenerateSnapshot | internal/snapshot/snapshot.go:95-211 | the call ends refused, committed and exact, or failed, with the disk each leaves and its cause; with no fault and no cancellation it commits exactly when it should |
| LiveSnapshot.PublishesIffLive | internal/snapshot/snapshot.go:147-193 | a name is published, and under itself, exactly when the live answer leaves something, listed or not |
| LiveSnapshot.SnapshotOwnPaths | internal/snapshot/snapshot.go:233-242 | whatever the sources, no two published packages share a path |
| LiveSnapshot.LiveAndSnapshotAgree | internal/snapshot/snapshot.go:137-193 | for every source and every name, a committed file exists exactly when the live answer has a release that is undated or not older than the maximum age, and holds exactly those, once each and in the live order |
| LiveSnapshot.PublishedWithinWindows | internal/snapshot/snapshot.go:137-193 | every release of a committed snapshot lies inside both windows |
| LiveSnapshot.ApkFileFromRawEntries | internal/snapshot/snapshot.go:147-193 | a published apk feed is a function of the set of raw entries alone |
| LiveSnapshot.SourceBlockedIff | internal/snapshot/snapshot.go:147-200 | what blocks a plan, in terms of the listings and the live answers |
| LiveSnapshot.FailsOnIff | internal/snapshot/snapshot.go:164-180 | a repo source fails on a name exactly when it is listed and accepted and the backend fails on the way to it, on its tags or on a needed history |
| LiveSnapshot.UnlistableTagsFail | internal/snapshot/snapshot.go:164-180 | so a listed repo whose tags cannot be listed blocks every snapshot |
| LiveSnapshot.SnapshotTasksBounded | internal/snapshot/snapshot.go:155-158 | the limit on package tasks is the one asked for |
| LiveSnapshot.SnapshotCommitsIff | internal/snapshot/snapshot.go:95-211 | no run commits if a source fails or the output path does not end in a plain name; undisturbed, with an accepted output and a source, every run that ends has committed if neither is so |
| LiveSnapshot.ApkSourcesNeverFail | internal/apk/index.go:22-28 | no apk source that a load installed can keep a snapshot from committing |
| LiveSnapshot.FarFutureNeverCommits | internal/chainguard/client.go:274 | a repo with a tag dated in the year 10000 is answered and prevents every commit |
| LiveSnapshot.ContendingReposNeverCommit | internal/snapshot/snapshot.go:238-246 | an organisation with accepted, listed repos `x` and `x/releases.json` prevents every commit |
| Permits.PermitsMatchCalls | internal/chainguard/ratelimit.go:14-23 | at every moment permits held are the calls in flight, within the cap, and every level stays within its limit |
| Permits.WritesAfterAllCalls | internal/chainguard/ratelimit.go:14-23 | a task writes its file only after every one of its calls and lookups has had a permit, and acquires no more |
| Permits.AlwaysAdvances | internal/chainguard/ratelimit.go:16-22 | until every task is over some step other than giving up is possible |
| Permits.StepsDescend | internal/snapshot/snapshot.go:154-199 | every step uses up a finite budget, so every run ends |
| Sorting.SortStable | internal/datasource/apk.go:97-105 | elements the order cannot tell apart keep their order |
| Sorting.StringLessMeaning | internal/chainguard/client.go:296 | strings are ordered bytewise: a proper prefix first, else by the first character that differs |
| Sorting.ReleaseBeforeMeaning | internal/datasource/apk.go:97-105 | releases are ordered by descending time, then by descending bytewise version |
| Sorting.StrictlyAscendingUnique | internal/datasource/apk.go:97-105 | a strictly ordered list is determined by its elements |
| Core.CompactPicks | internal/datasource/repo.go:180-186 | the filled slots' values, once each and in order |
| Core.FilterPicks | internal/snapshot/snapshot.go:216-224 | a loop that keeps what passes keeps it once, in order, and nothing else |

## Left out

- Strings that are not valid UTF-8; the order of code points stands for the order of bytes.
- gzip and tar decoding, HTTP, credentials and the scanner's buffer limit: a fetch is a text, a text cut off after some lines, or a failure.
- gRPC, token sources, readiness probes and connection setup: listings, tags and histories are an unchanging backend that may fail.
- A listing request with a non-empty name is taken to filter the unfiltered listing by that exact name, in the same order; one with an empty name is the unfiltered request itself. Paging is not modelled.
- `time.ParseDuration`, routing, JSON encoding, status codes and the `minimumReleaseAge` query bound: one-branch facts.
- Logging, flags and signal handling.
- `RepositoriesFromURLs` and `HTTPAuthFor`: URL parsing and environment lookups.
- File system details: permissions, symbolic links and another process at work on the same directories. Creating a feed's directories and its file is one step. Tasks that write one file at once write the same bytes; the file counts as whole once the last of them is done.
- Names the file system does not take or tell apart (too long, differing in case): a refusal of such a name counts as a fault of the file system. The limit on attempts at a free name for the staging directory is not modelled.
- LiveSnapshot.SnapshotCommitsIff: states the last half for output paths without a `..` before their last element; for the others `Generate.CommitsIffUnblocked` has the condition on the disk itself, `Disks.Renamable`.
- Datasource names in a snapshot are taken to be single path elements.
- Windows paths: cleaning and locality are the Unix rules.
- `Generate` and `Permits` are machines on values; the goroutines' shared counters and the semaphore appear as fields of the machine's state, not as objects. The semaphore's queue order is not modelled: any queued call may get a free permit.
- The timing of refreshes: a refresh may happen at any moment.
- RepoResolve.ListResolveInverse: holds for names that are non-empty, free of slashes and distinct among siblings; the platform's naming rules are not part of this model.
- LiveSnapshot.LiveAndSnapshotAgree: both sides ask the same unchanging datasource; a refresh between the two is not modelled there.
