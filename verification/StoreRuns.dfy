/**
 Queries against a store that is being refreshed. A query reads the architectures and then
 the items under two separate locks, and any number of installs may fall in between.
 */
module StoreRuns {
  import opened Core
  import opened Paths
  import opened ApkFormat
  import opened ApkStore
  import opened ApkReleases

  datatype Snapshot = Snapshot(releases: Index, archs: set<string>)

  datatype Request = Request(name: string, before: Time, arch: string)

  type Answer = Result<seq<Release>, ReleasesError>

  /** `since` and `until` count the installs seen when the query began and when it ended. */
  datatype Reader =
    | Started(req: Request, since: nat)
    | ArchAccepted(req: Request, since: nat)
    | Answered(req: Request, since: nat, until: nat, answer: Answer)

  datatype Phase =
    | Booting     // the initial load is under way
    | Refreshing  // the background goroutine runs
    | Settled     // nothing will load any more

  /** `history` lists every state the store has had; `loads` the fetches that led to them. */
  datatype System = System(
    phase: Phase,
    history: seq<Snapshot>,
    loads: seq<seq<seq<Fetch>>>,
    readers: map<nat, Reader>)

  datatype Config = Config(archs: seq<string>, repos: nat, refresh: bool)

  function Current(s: System): Snapshot
    requires s.history != []
  {
    s.history[|s.history| - 1]
  }

  ghost function AtomicAnswer(snap: Snapshot, req: Request): Answer {
    StoreAnswer(snap.releases, snap.archs, req.name, req.before, req.arch)
  }

  function ArchSet(c: Config): set<string> { set a | a in c.archs }

  ghost predicate Init(s: System) {
    s == System(Booting, [Snapshot(map[], {})], [], map[])
  }

  ghost predicate Fetched(c: Config, fetched: seq<seq<Fetch>>) {
    |fetched| == |c.archs| && forall row :: row in fetched ==> |row| == c.repos
  }

  /** A load that succeeds installs its whole result in one step. */
  ghost predicate LoadSucceeds(c: Config, s: System, s': System, fetched: seq<seq<Fetch>>, releases: Index) {
    && s.phase != Settled
    && Fetched(c, fetched) && Complete(fetched)
    && Installed(releases, AllFeeds(c.archs, fetched))
    && s' == s.(phase := if c.refresh then Refreshing else Settled,
                history := s.history + [Snapshot(releases, ArchSet(c))],
                loads := s.loads + [fetched])
  }

  /** A load that fails installs nothing; if it was the first, no refresh is ever started. */
  ghost predicate LoadFails(s: System, s': System) {
    s.phase != Settled && s' == s.(phase := if s.phase == Booting then Settled else s.phase)
  }

  ghost predicate Begin(s: System, s': System, id: nat, req: Request)
    requires s.history != []
  {
    id !in s.readers && s' == s.(readers := s.readers[id := Started(req, |s.history| - 1)])
  }

  /** Name validation and the read of `Archs()`. */
  ghost predicate ReadArchs(s: System, s': System, id: nat)
    requires s.history != []
  {
    && id in s.readers && s.readers[id].Started?
    && var Started(req, since) := s.readers[id];
      var now := |s.history| - 1;
      var next :=
        if !ApkNameOk(req.name) then Answered(req, since, now, Err(InvalidPackageName))
        else if req.arch != "" && req.arch !in Current(s).archs then Answered(req, since, now, Err(InvalidArgument))
        else ArchAccepted(req, since);
      s' == s.(readers := s.readers[id := next])
  }

  /** The read of the items; what follows works on the copy. */
  ghost predicate ReadItems(s: System, s': System, id: nat)
    requires s.history != []
  {
    && id in s.readers && s.readers[id].ArchAccepted?
    && var ArchAccepted(req, since) := s.readers[id];
      var items := Scoped(Lookup(Current(s).releases, req.name), req.arch);
      s' == s.(readers := s.readers[id := Answered(req, since, |s.history| - 1, ItemsAnswer(items, req.before, req.arch))])
  }

  ghost predicate Next(c: Config, s: System, s': System) {
    && s.history != []
    && (|| (exists fetched, releases :: LoadSucceeds(c, s, s', fetched, releases))
        || LoadFails(s, s')
        || (exists id, req :: Begin(s, s', id, req))
        || (exists id :: ReadArchs(s, s', id))
        || (exists id :: ReadItems(s, s', id)))
  }

  ghost predicate IsRun(c: Config, run: seq<System>) {
    && run != [] && Init(run[0])
    && forall i :: 0 < i < |run| ==> Next(c, run[i - 1], run[i])
  }

  // ---------- what every run keeps ----------

  ghost predicate ExplainedBy(s: System, req: Request, answer: Answer, k: nat)
    requires k < |s.history|
  {
    answer == AtomicAnswer(s.history[k], req)
  }

  ghost predicate ReaderOk(s: System, r: Reader)
    requires s.history != []
  {
    match r
    case Started(_, since) => since < |s.history|
    case ArchAccepted(req, since) =>
      since < |s.history| && ApkNameOk(req.name) && (req.arch == "" || req.arch in Current(s).archs)
    case Answered(req, since, until, answer) =>
      until < |s.history| && exists k :: since <= k <= until && ExplainedBy(s, req, answer, k)
  }

  ghost predicate HistoryOk(c: Config, s: System) {
    && |s.history| == |s.loads| + 1
    && s.history[0] == Snapshot(map[], {})
    && (forall k :: 0 <= k < |s.loads| ==>
          && Fetched(c, s.loads[k]) && Complete(s.loads[k])
          && Installed(s.history[k + 1].releases, AllFeeds(c.archs, s.loads[k]))
          && s.history[k + 1].archs == ArchSet(c))
  }

  ghost predicate Inv(c: Config, s: System) {
    && HistoryOk(c, s)
    && (s.phase == Booting ==> |s.history| == 1)
    && (s.phase == Refreshing ==> c.refresh && |s.history| > 1)
    && (forall id :: id in s.readers ==> ReaderOk(s, s.readers[id]))
  }

  /** The architectures only ever move from none to the configured ones. */
  lemma ArchsOnlyGrow(c: Config, s: System)
    requires HistoryOk(c, s)
    ensures Current(s).archs == {} || Current(s).archs == ArchSet(c)
  {
    if |s.loads| > 0 {
      assert Fetched(c, s.loads[|s.loads| - 1]);
    }
  }

  lemma ReaderSurvivesInstall(c: Config, s: System, s': System, r: Reader)
    requires HistoryOk(c, s) && |s'.history| == |s.history| + 1 && s.history <= s'.history
    requires Current(s').archs == ArchSet(c)
    requires ReaderOk(s, r)
    ensures ReaderOk(s', r)
  {
    ArchsOnlyGrow(c, s);
    match r
    case Answered(req, since, until, answer) =>
      var k :| since <= k <= until && ExplainedBy(s, req, answer, k);
      assert ExplainedBy(s', req, answer, k);
    case _ =>
  }

  lemma InstallKeepsInv(c: Config, s: System, s': System, fetched: seq<seq<Fetch>>, releases: Index)
    requires Inv(c, s) && LoadSucceeds(c, s, s', fetched, releases)
    ensures Inv(c, s')
  {
    assert s.history <= s'.history;
    forall id | id in s'.readers ensures ReaderOk(s', s'.readers[id]) {
      ReaderSurvivesInstall(c, s, s', s.readers[id]);
    }
  }

  lemma SameHistory(s: System, s': System, r: Reader)
    requires s.history != [] && s.history == s'.history && ReaderOk(s, r)
    ensures ReaderOk(s', r)
  {
    if r.Answered? {
      var k :| r.since <= k <= r.until && ExplainedBy(s, r.req, r.answer, k);
      assert ExplainedBy(s', r.req, r.answer, k);
    }
  }

  /** A step that installs nothing and leaves reader `id` sound keeps the invariant. */
  lemma QuietStepKeepsInv(c: Config, s: System, s': System, id: nat)
    requires Inv(c, s) && s'.history == s.history && s'.loads == s.loads
    requires s'.phase == s.phase || s'.phase == Settled
    requires forall other :: other in s'.readers && other != id ==> other in s.readers && s'.readers[other] == s.readers[other]
    requires id in s'.readers ==> ReaderOk(s', s'.readers[id])
    ensures Inv(c, s')
  {
    forall other | other in s'.readers ensures ReaderOk(s', s'.readers[other]) {
      if other != id {
        SameHistory(s, s', s.readers[other]);
      }
    }
  }

  lemma ReadArchsKeepsInv(c: Config, s: System, s': System, id: nat)
    requires Inv(c, s) && ReadArchs(s, s', id)
    ensures Inv(c, s')
  {
    var r := s'.readers[id];
    assert ReaderOk(s, s.readers[id]);
    if r.Answered? {
      assert ExplainedBy(s', r.req, r.answer, r.until);
    }
    QuietStepKeepsInv(c, s, s', id);
  }

  lemma ReadItemsKeepsInv(c: Config, s: System, s': System, id: nat)
    requires Inv(c, s) && ReadItems(s, s', id)
    ensures Inv(c, s')
  {
    var r := s'.readers[id];
    assert ReaderOk(s, s.readers[id]);
    assert ExplainedBy(s', r.req, r.answer, r.until);
    QuietStepKeepsInv(c, s, s', id);
  }

  lemma LoadFailsKeepsInv(c: Config, s: System, s': System)
    requires Inv(c, s) && LoadFails(s, s')
    ensures Inv(c, s')
  {
    forall id | id in s'.readers ensures ReaderOk(s', s'.readers[id]) {
      SameHistory(s, s', s.readers[id]);
    }
  }

  lemma NextKeepsInv(c: Config, s: System, s': System)
    requires Inv(c, s) && Next(c, s, s')
    ensures Inv(c, s')
  {
    if fetched, releases :| LoadSucceeds(c, s, s', fetched, releases) {
      InstallKeepsInv(c, s, s', fetched, releases);
    } else if LoadFails(s, s') {
      LoadFailsKeepsInv(c, s, s');
    } else if id, req :| Begin(s, s', id, req) {
      QuietStepKeepsInv(c, s, s', id);
    } else if id :| ReadArchs(s, s', id) {
      ReadArchsKeepsInv(c, s, s', id);
    } else {
      var id :| ReadItems(s, s', id);
      ReadItemsKeepsInv(c, s, s', id);
    }
  }

  lemma {:induction false} RunKeepsInv(c: Config, run: seq<System>, i: nat)
    requires IsRun(c, run) && i < |run|
    ensures Inv(c, run[i])
  {
    if i > 0 {
      RunKeepsInv(c, run, i - 1);
      NextKeepsInv(c, run[i - 1], run[i]);
    }
  }

  /**
   Linearizability: in every run, whatever installs fell between its two reads, a query's
   answer is the atomic answer on one state the store had while the query ran.
   */
  lemma QueriesAreLinearizable(c: Config, run: seq<System>, i: nat, id: nat)
    requires IsRun(c, run) && i < |run| && id in run[i].readers && run[i].readers[id].Answered?
    ensures var r := run[i].readers[id];
      r.until < |run[i].history| &&
      exists k :: r.since <= k <= r.until && r.answer == AtomicAnswer(run[i].history[k], r.req)
  {
    RunKeepsInv(c, run, i);
    var s := run[i];
    var r := s.readers[id];
    var k :| r.since <= k <= r.until && ExplainedBy(s, r.req, r.answer, k);
    assert r.answer == AtomicAnswer(s.history[k], r.req);
  }

  /** The answer of the store that the k-th load installed; before the first it is empty. */
  ghost function AnswerOfLoad(c: Config, s: System, req: Request, k: nat): Answer
    requires k <= |s.loads| && forall fetched :: fetched in s.loads ==> |fetched| == |c.archs|
  {
    if k == 0 then RawAnswer({}, {}, req.name, req.before, req.arch)
    else RawAnswer(Raw(AllFeeds(c.archs, s.loads[k - 1])), ArchSet(c), req.name, req.before, req.arch)
  }

  /**
   Together with the end-to-end result: every answer in every run is the answer on the empty
   store or `RawAnswer` of the feeds of one complete load, and of one that was installed when
   the query began or was installed before it ended.
   */
  lemma QueriesAnswerOneLoad(c: Config, run: seq<System>, i: nat, id: nat)
    requires IsRun(c, run) && i < |run| && id in run[i].readers && run[i].readers[id].Answered?
    ensures forall fetched :: fetched in run[i].loads ==> |fetched| == |c.archs| && Complete(fetched)
    ensures var r := run[i].readers[id];
      r.until <= |run[i].loads| &&
      exists k :: r.since <= k <= r.until && r.answer == AnswerOfLoad(c, run[i], r.req, k)
  {
    QueriesAreLinearizable(c, run, i, id);
    RunKeepsInv(c, run, i);
    var s := run[i];
    var r := s.readers[id];
    var k :| r.since <= k <= r.until && r.answer == AtomicAnswer(s.history[k], r.req);
    LoadAnswers(c, s, r.req, k);
  }

  lemma LoadAnswers(c: Config, s: System, req: Request, k: nat)
    requires HistoryOk(c, s) && k < |s.history|
    ensures k <= |s.loads| && forall fetched :: fetched in s.loads ==> |fetched| == |c.archs|
    ensures AtomicAnswer(s.history[k], req) == AnswerOfLoad(c, s, req, k)
  {
    if k == 0 {
      EmptyIsInstalled();
      EndToEnd([], map[], {}, req.name, req.before, req.arch);
    } else {
      EndToEnd(AllFeeds(c.archs, s.loads[k - 1]), s.history[k].releases, ArchSet(c), req.name, req.before, req.arch);
    }
  }

  lemma EmptyIsInstalled()
    ensures Installed(map[], []) && Raw([]) == {}
  {
  }

  /**
   The store over all runs: it is empty, or holds the whole result of one successful load and
   keeps the store invariant. If the first load fails it stays empty for ever.
   */
  lemma StoreOverRuns(c: Config, run: seq<System>, i: nat)
    requires IsRun(c, run) && i < |run|
    ensures run[i].history != []
    ensures Current(run[i]) == Snapshot(map[], {})
         || exists fetched :: fetched in run[i].loads && Fetched(c, fetched) && Complete(fetched)
              && Installed(Current(run[i]).releases, AllFeeds(c.archs, fetched)) && Current(run[i]).archs == ArchSet(c)
    ensures StoreInvariant(Current(run[i]).releases, Current(run[i]).archs)
  {
    RunKeepsInv(c, run, i);
    var s := run[i];
    if |s.loads| > 0 {
      var fetched := s.loads[|s.loads| - 1];
      assert fetched in s.loads;
      FeedsConfigured(c.archs, fetched, |c.archs|, 0);
      InstalledInvariant(Current(s).releases, AllFeeds(c.archs, fetched), ArchSet(c));
    }
  }

  lemma {:induction false} FailedBootStaysEmpty(c: Config, run: seq<System>, b: nat, i: nat)
    requires IsRun(c, run) && 0 < b <= i < |run|
    requires run[b - 1].phase == Booting && LoadFails(run[b - 1], run[b])
    ensures run[i].phase == Settled && run[i].history == [Snapshot(map[], {})]
  {
    if b == i {
      RunKeepsInv(c, run, b - 1);
      var h := run[b - 1].history;
      assert h == [h[0]];
    } else {
      FailedBootStaysEmpty(c, run, b, i - 1);
      assert Next(c, run[i - 1], run[i]);
    }
  }
}
