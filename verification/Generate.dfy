/** Snapshot generation as a machine of its steps: internal/snapshot/snapshot.go. */
module Generate {
  import opened Core
  import opened Paths
  import opened Windows
  import opened Disks

  type Answer = Result<seq<Release>, ReleasesError>

  /**
   What a run is given: the enumerations, what each source answers for each package, where a
   package's feed goes (`Paths.FeedPath`; the results hold for any such function), and the
   output path.
   */
  datatype Plan = Plan(
    packages: map<string, Result<seq<string>, EnumerationError>>,
    answer: (string, string) -> Answer,
    path: string -> Option<string>,
    limit: int,
    maxAge: Time,
    output: Output)

  datatype Task =
    | Waiting
    | Running                              // launched; asking the source
    | Answered(kept: seq<Release>)         // something to write
    | Writing(kept: seq<Release>)          // the file exists and is not complete
    | Written
    | Skipped
    | Failed

  /** The run of one source; `failed` is the error group's recorded error. */
  datatype Run = Run(
    source: string,
    tasks: seq<Task>,
    next: nat,
    failed: bool,
    written: nat,
    skipped: nat,
    dir: Dir)

  datatype Stage = Checking | Preparing | Staging | CleaningUp | Committed | Refused | Failure

  /**
   The staging directory lies at `at` on the disk and `tmp` is what it holds; the directory of
   the source being run is kept with its run until that source is complete. `ioFailed` records
   that the file system has failed an operation it should have done.
   */
  datatype State = State(
    stage: Stage,
    disk: Disk,
    at: Loc,
    tmp: Option<Tree>,
    todo: set<string>,
    run: Option<Run>,
    counts: map<string, (nat, nat)>,
    cancelled: bool,
    ioFailed: bool,
    leaked: bool)

  // ---------- what a package should contribute ----------

  predicate Skippable(a: Answer) { a.Err? && (a.error == NotFound || a.error == InvalidPackageName) }

  predicate Fatal(a: Answer) { a.Err? && !Skippable(a) }

  /** The releases to publish for a package; empty means no file. */
  function Kept(p: Plan, source: string, pkg: string): seq<Release> {
    match p.answer(source, pkg)
    case Err(_) => []
    case Ok(releases) => AgeLimited(releases, p.maxAge)
  }

  function Packages(p: Plan, source: string): seq<string> {
    if source in p.packages && p.packages[source].Ok? then p.packages[source].value else []
  }

  /** The package is listed, has something to publish, and this is where. */
  ghost predicate Publishes(p: Plan, source: string, pkg: string, path: string) {
    pkg in Packages(p, source) && Kept(p, source, pkg) != [] && p.path(pkg) == Some(path)
  }

  /** Different packages that publish have different feed paths. A package may be listed twice. */
  ghost predicate OwnPaths(p: Plan) {
    forall n, a, b, path :: Publishes(p, n, a, path) && Publishes(p, n, b, path) ==> a == b
  }

  /** Two packages of the source publish where one needs a file and the other a directory. */
  ghost predicate Collide(p: Plan, n: string, a: string, b: string) {
    exists x, y :: Publishes(p, n, a, x) && Publishes(p, n, b, y) && Contends(x, y)
  }

  /** The package cannot be staged: its answer is fatal, its path refused, or its feed not encodable. */
  ghost predicate Unstageable(p: Plan, n: string, pkg: string) {
    && pkg in Packages(p, n)
    && (Fatal(p.answer(n, pkg)) || (Kept(p, n, pkg) != [] && p.path(pkg).None?) || !Encodable(Kept(p, n, pkg)))
  }

  /** Why a source can never be staged, whatever the schedule. */
  ghost predicate BlockedSource(p: Plan, n: string) {
    && n in p.packages
    && (p.packages[n].Err? || (exists pkg :: Unstageable(p, n, pkg)) || (exists a, b :: Collide(p, n, a, b)))
  }

  ghost predicate Blocked(p: Plan) { exists n :: BlockedSource(p, n) }

  /** The answer is not fatal, and what it leaves to publish is published in full. */
  ghost predicate Published(p: Plan, source: string, dir: Dir, pkg: string) {
    && !Fatal(p.answer(source, pkg))
    && (Kept(p, source, pkg) != [] ==>
          p.path(pkg).Some? && p.path(pkg).value in dir && dir[p.path(pkg).value] == Whole(Kept(p, source, pkg)))
    && Encodable(Kept(p, source, pkg))
  }

  /** `dir` holds exactly the non-empty feeds of the source, each complete. */
  ghost predicate Exact(p: Plan, source: string, dir: Dir) {
    && (forall pkg :: pkg in Packages(p, source) ==> Published(p, source, dir, pkg))
    && (forall path :: path in dir ==>
          exists pkg :: Publishes(p, source, pkg, path))
    && NoContention(dir)
  }

  ghost predicate NoContention(dir: Dir) {
    forall a, b :: a in dir && b in dir ==> !Contends(a, b)
  }

  // ---------- the steps ----------

  predicate IsActive(t: Task) { t.Running? || t.Answered? || t.Writing? }

  predicate IsWritten(t: Task) { t.Written? }

  predicate IsSkipped(t: Task) { t.Skipped? }

  predicate Over(t: Task) { t.Written? || t.Skipped? || t.Failed? }

  ghost predicate Init(p: Plan, s: State) {
    && s.stage == Checking && s.tmp == None && s.todo == {} && s.run == None && s.counts == map[]
    && !s.cancelled && !s.ioFailed && !s.leaked && WellFormed(s.disk, p.output.cwd)
  }

  /** There is something to stage, and the output path passes the checks. */
  predicate Startable(p: Plan, disk: Disk) { p.packages != map[] && Accepts(disk, p.output) }

  /** No datasource, no output path, an output that exists, something in its parent's way, or a fault. */
  ghost predicate Refuse(p: Plan, s: State, s': State) {
    && s.stage == Checking && (!Startable(p, s.disk) || s.ioFailed)
    && s' == s.(stage := Refused)
  }

  ghost predicate MakeParent(p: Plan, s: State, s': State) {
    && s.stage == Checking && Startable(p, s.disk)
    && s' == s.(stage := Preparing, disk := Prepared(s.disk, p.output))
  }

  /** A fault may leave the directories down to `l` behind. */
  ghost predicate MakeParentBreaks(p: Plan, s: State, s': State, l: Loc) {
    && s.stage == Checking && Startable(p, s.disk) && s.ioFailed && l <= Parent(p.output)
    && s' == s.(stage := Refused, disk := MkdirAll(s.disk, l))
  }

  ghost predicate MakeTemp(p: Plan, s: State, s': State, suffix: string) {
    var at := StagingLoc(p.output, suffix);
    && s.stage == Preparing && at !in s.disk
    && s' == s.(stage := Staging, disk := s.disk[at := Folder], at := at, tmp := Some(map[]), todo := p.packages.Keys)
  }

  ghost predicate MakeTempFails(s: State, s': State) {
    s.stage == Preparing && s.ioFailed && s' == s.(stage := Refused)
  }

  ghost predicate StartSource(p: Plan, s: State, s': State, n: string) {
    && s.stage == Staging && s.run.None? && n in s.todo && n in p.packages && p.packages[n].Ok?
    && s' == s.(run := Some(Run(n, seq(|p.packages[n].value|, _ => Waiting), 0, false, 0, 0, map[])))
  }

  ghost predicate EnumerationFails(p: Plan, s: State, s': State, n: string) {
    && s.stage == Staging && s.run.None? && n in s.todo && n in p.packages && (p.packages[n].Err? || s.cancelled)
    && s' == s.(stage := CleaningUp)
  }

  function Active(r: Run): nat { Count(r.tasks, IsActive) }

  /** `eg.Go` blocks at the limit; a limit that is not positive means none. */
  ghost predicate Launch(p: Plan, r: Run, r': Run) {
    && r.next < |r.tasks| && (p.limit > 0 ==> Active(r) < p.limit)
    && r' == r.(tasks := r.tasks[r.next := Running], next := r.next + 1)
  }

  ghost predicate TaskCancelled(r: Run, r': Run, k: nat, cancelled: bool) {
    && k < |r.tasks| && r.tasks[k].Running? && (r.failed || cancelled)
    && r' == r.(tasks := r.tasks[k := Failed], failed := true)
  }

  ghost predicate TaskAnswers(p: Plan, r: Run, r': Run, k: nat) {
    && k < |r.tasks| == |Packages(p, r.source)| && r.tasks[k].Running?
    && var pkg := Packages(p, r.source)[k];
      var kept := Kept(p, r.source, pkg);
      r' == if Fatal(p.answer(r.source, pkg)) then r.(tasks := r.tasks[k := Failed], failed := true)
            else if kept == [] then r.(tasks := r.tasks[k := Skipped], skipped := r.skipped + 1)
            else r.(tasks := r.tasks[k := Answered(kept)])
  }

  /** Neither a file in the way of the directory nor a directory in the way of the file. */
  ghost predicate CanCreate(dir: Dir, path: string) {
    forall q :: q in dir ==> !Contends(q, path) && !Contends(path, q)
  }

  ghost predicate BeginWrite(p: Plan, r: Run, r': Run, k: nat) {
    && k < |r.tasks| == |Packages(p, r.source)| && r.tasks[k].Answered?
    && var path := p.path(Packages(p, r.source)[k]);
      && path.Some? && CanCreate(r.dir, path.value)
      && r' == r.(tasks := r.tasks[k := Writing(r.tasks[k].kept)], dir := r.dir[path.value := Partial])
  }

  /** The path is unsafe or something is in its way, or the file system fails. */
  ghost predicate WriteRefused(p: Plan, r: Run, r': Run, k: nat, ioFailed: bool) {
    && k < |r.tasks| == |Packages(p, r.source)| && r.tasks[k].Answered?
    && var path := p.path(Packages(p, r.source)[k]);
      && (path.None? || !CanCreate(r.dir, path.value) || ioFailed)
      && r' == r.(tasks := r.tasks[k := Failed], failed := true)
  }

  /** Task j is writing this very file. */
  predicate WritesTo(p: Plan, r: Run, j: nat, path: string)
    requires |r.tasks| == |Packages(p, r.source)|
  {
    j < |r.tasks| && r.tasks[j].Writing? && p.path(Packages(p, r.source)[j]) == Some(path)
  }

  predicate OthersWriteTo(p: Plan, r: Run, k: nat, path: string)
    requires |r.tasks| == |Packages(p, r.source)|
  {
    exists j :: 0 <= j < |r.tasks| && j != k && WritesTo(p, r, j, path)
  }

  /** The file is whole once its last writer is done: another may have truncated it meanwhile. */
  ghost predicate EndWrite(p: Plan, r: Run, r': Run, k: nat) {
    && k < |r.tasks| == |Packages(p, r.source)| && r.tasks[k].Writing? && Encodable(r.tasks[k].kept)
    && var path := p.path(Packages(p, r.source)[k]);
      && path.Some?
      && r' == r.(tasks := r.tasks[k := Written], written := r.written + 1,
                  dir := r.dir[path.value := if OthersWriteTo(p, r, k, path.value) then Partial
                                             else Whole(r.tasks[k].kept)])
  }

  /** The encoder refuses the feed, or the file system fails. */
  ghost predicate WriteBreaks(r: Run, r': Run, k: nat, ioFailed: bool) {
    && k < |r.tasks| && r.tasks[k].Writing? && (!Encodable(r.tasks[k].kept) || ioFailed)
    && r' == r.(tasks := r.tasks[k := Failed], failed := true)
  }

  ghost predicate TaskStep(p: Plan, r: Run, r': Run, k: nat, cancelled: bool, ioFailed: bool) {
    || TaskCancelled(r, r', k, cancelled) || TaskAnswers(p, r, r', k)
    || BeginWrite(p, r, r', k) || WriteRefused(p, r, r', k, ioFailed)
    || EndWrite(p, r, r', k) || WriteBreaks(r, r', k, ioFailed)
  }

  ghost predicate RunStep(p: Plan, s: State, s': State, r': Run) {
    && s.stage == Staging && s.run.Some?
    && s' == s.(run := Some(r'))
    && (Launch(p, s.run.value, r') || exists k :: TaskStep(p, s.run.value, r', k, s.cancelled, s.ioFailed))
  }

  /** `eg.Wait` returns. */
  ghost predicate FinishSource(s: State, s': State) {
    && s.stage == Staging && s.run.Some? && s.tmp.Some?
    && var r := s.run.value;
      && (forall k :: 0 <= k < |r.tasks| ==> Over(r.tasks[k]))
      && s' == if r.failed then s.(stage := CleaningUp, run := None)
               else s.(run := None, todo := s.todo - {r.source},
                       tmp := Some(s.tmp.value[r.source := r.dir]),
                       counts := s.counts[r.source := (r.written, r.skipped)])
  }

  ghost predicate Rename(p: Plan, s: State, s': State) {
    && s.stage == Staging && s.run.None? && s.todo == {} && s.tmp.Some? && Renamable(s.disk, p.output)
    && s' == s.(stage := Committed, tmp := None,
                disk := Without(s.disk, s.at)[Target(p.output) := Holding(s.tmp.value)])
  }

  ghost predicate RenameFails(p: Plan, s: State, s': State) {
    && s.stage == Staging && s.run.None? && s.todo == {} && (!Renamable(s.disk, p.output) || s.ioFailed)
    && s' == s.(stage := CleaningUp)
  }

  /** The deferred removal, which may itself fail. */
  ghost predicate CleanUp(s: State, s': State) {
    && s.stage == CleaningUp
    && (s' == s.(stage := Failure, tmp := None, disk := Without(s.disk, s.at))
        || (s.ioFailed && s' == s.(stage := Failure, leaked := true)))
  }

  /** The file system fails some operation; from now on it may fail any. */
  ghost predicate FsFails(s: State, s': State) {
    !s.ioFailed && s' == s.(ioFailed := true)
  }

  ghost predicate Cancel(s: State, s': State) {
    !s.cancelled && s' == s.(cancelled := true)
  }

  /** The steps before anything is staged. */
  ghost predicate Setup(p: Plan, s: State, s': State) {
    || Refuse(p, s, s') || MakeParent(p, s, s') || (exists l :: MakeParentBreaks(p, s, s', l))
    || (exists suffix :: MakeTemp(p, s, s', suffix)) || MakeTempFails(s, s')
  }

  ghost predicate Next(p: Plan, s: State, s': State) {
    || Setup(p, s, s')
    || (exists n :: StartSource(p, s, s', n)) || (exists n :: EnumerationFails(p, s, s', n))
    || (exists r' :: RunStep(p, s, s', r'))
    || FinishSource(s, s') || Rename(p, s, s') || RenameFails(p, s, s') || CleanUp(s, s')
    || Cancel(s, s') || FsFails(s, s')
  }

  /** Cancellation and faults are what the surroundings do; every other step is the program's. */
  ghost predicate ProgramStep(p: Plan, s: State, s': State) {
    Next(p, s, s') && s'.cancelled == s.cancelled && s'.ioFailed == s.ioFailed
  }

  predicate Ended(s: State) { s.stage == Refused || s.stage == Committed || s.stage == Failure }

  ghost predicate IsRun(p: Plan, run: seq<State>) {
    && run != [] && Init(p, run[0])
    && forall i :: 0 < i < |run| ==> Next(p, run[i - 1], run[i])
  }

  // ---------- what every interleaving of one source's tasks keeps ----------

  ghost predicate TaskOk(p: Plan, r: Run, k: nat)
    requires k < |r.tasks| == |Packages(p, r.source)|
  {
    var pkg := Packages(p, r.source)[k];
    var kept := Kept(p, r.source, pkg);
    match r.tasks[k]
    case Waiting => r.next <= k
    case Running => k < r.next
    case Answered(rs) => k < r.next && rs == kept != [] && !Fatal(p.answer(r.source, pkg))
    case Writing(rs) => k < r.next && rs == kept != [] && !Fatal(p.answer(r.source, pkg))
      && p.path(pkg).Some? && p.path(pkg).value in r.dir
    case Written => k < r.next && kept != [] && !Fatal(p.answer(r.source, pkg))
      && p.path(pkg).Some? && p.path(pkg).value in r.dir && Encodable(kept)
      && (r.dir[p.path(pkg).value] == Whole(kept) || OthersWriteTo(p, r, k, p.path(pkg).value) || r.failed)
    case Skipped => k < r.next && kept == [] && !Fatal(p.answer(r.source, pkg))
    case Failed => k < r.next && r.failed
  }

  /** Task k is the one that put `path` there. */
  ghost predicate Owns(p: Plan, r: Run, k: nat, path: string)
    requires |r.tasks| == |Packages(p, r.source)|
  {
    && k < |r.tasks|
    && var pkg := Packages(p, r.source)[k];
      && (r.tasks[k].Writing? || r.tasks[k].Written? || r.tasks[k].Failed?)
      && Kept(p, r.source, pkg) != [] && p.path(pkg) == Some(path)
  }

  ghost predicate RunInv(p: Plan, r: Run) {
    && |r.tasks| == |Packages(p, r.source)| && r.next <= |r.tasks|
    && (p.limit > 0 ==> Active(r) <= p.limit)
    && r.written == Count(r.tasks, IsWritten) && r.skipped == Count(r.tasks, IsSkipped)
    && (forall k :: 0 <= k < |r.tasks| ==> TaskOk(p, r, k))
    && (forall path :: path in r.dir ==> exists k :: Owns(p, r, k, path))
    && NoContention(r.dir)
  }

  /** The count of `q` follows task k's change to `t`. */
  predicate Moved(tasks: seq<Task>, k: nat, t: Task, q: Task -> bool)
    requires k < |tasks|
  {
    Count(tasks[k := t], q) == Count(tasks, q) - (if q(tasks[k]) then 1 else 0) + (if q(t) then 1 else 0)
  }

  lemma CountsUpdate(tasks: seq<Task>, k: nat, t: Task)
    requires k < |tasks|
    ensures Moved(tasks, k, t, IsActive) && Moved(tasks, k, t, IsWritten) && Moved(tasks, k, t, IsSkipped)
  {
    CountUpdate(tasks, k, t, IsActive);
    CountUpdate(tasks, k, t, IsWritten);
    CountUpdate(tasks, k, t, IsSkipped);
  }

  lemma {:induction false} AllWaiting(tasks: seq<Task>)
    requires forall k :: 0 <= k < |tasks| ==> tasks[k] == Waiting
    ensures Count(tasks, IsActive) == 0 && Count(tasks, IsWritten) == 0 && Count(tasks, IsSkipped) == 0
  {
    if tasks != [] {
      AllWaiting(tasks[..|tasks| - 1]);
    }
  }

  /** A step of task k that leaves the directory alone. */
  lemma QuietTaskStep(p: Plan, r: Run, r': Run, k: nat, t: Task)
    requires RunInv(p, r) && k < |r.tasks| && !r.tasks[k].Waiting? && !r.tasks[k].Written? && !r.tasks[k].Skipped?
    requires r'.source == r.source && r'.tasks == r.tasks[k := t] && r'.next == r.next && r'.dir == r.dir
    requires r.failed ==> r'.failed
    requires TaskOk(p, r', k) && !t.Waiting?
    requires IsActive(t) ==> IsActive(r.tasks[k])
    requires r.tasks[k].Writing? || r.tasks[k].Failed? ==> t.Failed?
    requires r'.written == r.written + (if IsWritten(t) then 1 else 0)
    requires r'.skipped == r.skipped + (if IsSkipped(t) then 1 else 0)
    ensures RunInv(p, r')
  {
    CountsUpdate(r.tasks, k, t);
    forall j | 0 <= j < |r'.tasks| ensures TaskOk(p, r', j) {
      if j != k {
        assert TaskOk(p, r, j);
        WritersGoOn(p, r, r', k, t, j);
      }
    }
    forall path | path in r'.dir ensures exists j :: Owns(p, r', j, path) {
      var j :| Owns(p, r, j, path);
      assert Owns(p, r', j, path);
    }
  }

  /** Whoever else writes to a file goes on doing so, unless it fails. */
  lemma WritersGoOn(p: Plan, r: Run, r': Run, k: nat, t: Task, j: nat)
    requires |r.tasks| == |Packages(p, r.source)| && k < |r.tasks|
    requires r'.source == r.source && r'.tasks == r.tasks[k := t]
    requires r.tasks[k].Writing? ==> r'.failed
    ensures forall path :: OthersWriteTo(p, r, j, path) ==> OthersWriteTo(p, r', j, path) || r'.failed
  {
    forall path | OthersWriteTo(p, r, j, path) ensures OthersWriteTo(p, r', j, path) || r'.failed {
      var i :| 0 <= i < |r.tasks| && i != j && WritesTo(p, r, i, path);
      assert i != k ==> WritesTo(p, r', i, path);
    }
  }

  /** Beginning or ending a write disturbs no other task, not even one with the same file. */
  lemma OtherTaskUndisturbed(p: Plan, r: Run, r': Run, k: nat, path: string, j: nat)
    requires OwnPaths(p) && RunInv(p, r) && k < |r.tasks| && j < |r.tasks| && j != k
    requires BeginWrite(p, r, r', k) || EndWrite(p, r, r', k)
    requires Publishes(p, r.source, Packages(p, r.source)[k], path)
    ensures TaskOk(p, r', j)
  {
    assert TaskOk(p, r, j) && TaskOk(p, r, k);
    if r.tasks[j].Written? {
      WrittenUndisturbed(p, r, r', k, path, j);
    }
  }

  lemma WrittenUndisturbed(p: Plan, r: Run, r': Run, k: nat, path: string, j: nat)
    requires OwnPaths(p) && RunInv(p, r) && k < |r.tasks| && j < |r.tasks| && j != k && r.tasks[j].Written?
    requires BeginWrite(p, r, r', k) || EndWrite(p, r, r', k)
    requires Publishes(p, r.source, Packages(p, r.source)[k], path)
    ensures TaskOk(p, r', j)
  {
    var pkgs := Packages(p, r.source);
    assert TaskOk(p, r, j) && TaskOk(p, r, k);
    var q := p.path(pkgs[j]).value;
    assert Publishes(p, r.source, pkgs[j], q);
    if BeginWrite(p, r, r', k) && q == path {
      assert WritesTo(p, r', k, q);
    } else if i :| 0 <= i < |r.tasks| && i != k && WritesTo(p, r, i, q) {
      assert WritesTo(p, r', i, q);
    }
  }

  lemma OwnersSurvive(p: Plan, r: Run, r': Run, k: nat, path: string)
    requires RunInv(p, r) && k < |r.tasks| == |r'.tasks| && r'.source == r.source
    requires forall j :: 0 <= j < |r.tasks| && j != k ==> r'.tasks[j] == r.tasks[j]
    requires Owns(p, r', k, path)
    requires r'.dir.Keys == r.dir.Keys + {path}
    ensures forall q :: q in r'.dir ==> exists j :: Owns(p, r', j, q)
  {
    forall q | q in r'.dir ensures exists j :: Owns(p, r', j, q) {
      if q == path {
        assert Owns(p, r', k, q);
      } else {
        var j: nat :| Owns(p, r, j, q);
        assert Owns(p, r', j, q);
      }
    }
  }

  lemma BeginWriteKeeps(p: Plan, r: Run, r': Run, k: nat)
    requires OwnPaths(p) && RunInv(p, r) && BeginWrite(p, r, r', k)
    ensures RunInv(p, r')
  {
    var path := p.path(Packages(p, r.source)[k]).value;
    assert TaskOk(p, r, k);
    CountsUpdate(r.tasks, k, r'.tasks[k]);
    forall j | 0 <= j < |r'.tasks| ensures TaskOk(p, r', j) {
      if j != k {
        OtherTaskUndisturbed(p, r, r', k, path, j);
      }
    }
    OwnersSurvive(p, r, r', k, path);
    NeverInItsOwnWay(path);
  }

  lemma NeverInItsOwnWay(path: string)
    ensures !Contends(path, path)
  {
    assert |FileSegs(path)| == |DirSegs(path)| + 1;
  }

  lemma EndWriteKeeps(p: Plan, r: Run, r': Run, k: nat)
    requires OwnPaths(p) && RunInv(p, r) && EndWrite(p, r, r', k)
    ensures RunInv(p, r')
  {
    var path := p.path(Packages(p, r.source)[k]).value;
    assert TaskOk(p, r, k);
    assert r'.dir.Keys == r.dir.Keys;
    CountsUpdate(r.tasks, k, Written);
    forall j | 0 <= j < |r'.tasks| ensures TaskOk(p, r', j) {
      if j != k {
        OtherTaskUndisturbed(p, r, r', k, path, j);
      } else if OthersWriteTo(p, r, k, path) {
        var i :| 0 <= i < |r.tasks| && i != k && WritesTo(p, r, i, path);
        assert WritesTo(p, r', i, path);
      }
    }
    OwnersSurvive(p, r, r', k, path);
  }

  lemma TaskStepKeeps(p: Plan, r: Run, r': Run, k: nat, cancelled: bool, ioFailed: bool)
    requires OwnPaths(p) && RunInv(p, r) && TaskStep(p, r, r', k, cancelled, ioFailed)
    ensures RunInv(p, r') && r'.source == r.source
  {
    assert TaskOk(p, r, k);
    if BeginWrite(p, r, r', k) {
      BeginWriteKeeps(p, r, r', k);
    } else if EndWrite(p, r, r', k) {
      EndWriteKeeps(p, r, r', k);
    } else {
      QuietTaskStep(p, r, r', k, r'.tasks[k]);
    }
  }

  lemma LaunchKeeps(p: Plan, r: Run, r': Run)
    requires RunInv(p, r) && Launch(p, r, r')
    ensures RunInv(p, r') && r'.source == r.source
  {
    assert TaskOk(p, r, r.next);
    CountsUpdate(r.tasks, r.next, Running);
    forall j | 0 <= j < |r'.tasks| ensures TaskOk(p, r', j) {
      assert TaskOk(p, r, j);
      WritersGoOn(p, r, r', r.next, Running, j);
    }
    forall path | path in r'.dir ensures exists j :: Owns(p, r', j, path) {
      var j :| Owns(p, r, j, path);
      assert Owns(p, r', j, path);
    }
  }

  lemma {:induction false} CountsAddUp(tasks: seq<Task>)
    requires forall k :: 0 <= k < |tasks| ==> tasks[k].Written? || tasks[k].Skipped?
    ensures Count(tasks, IsWritten) + Count(tasks, IsSkipped) == |tasks|
  {
    if tasks != [] {
      CountsAddUp(tasks[..|tasks| - 1]);
    }
  }

  lemma PackagePublished(p: Plan, r: Run, k: nat)
    requires RunInv(p, r) && !r.failed && k < |r.tasks| && forall j :: 0 <= j < |r.tasks| ==> Over(r.tasks[j])
    ensures r.tasks[k].Written? || r.tasks[k].Skipped?
    ensures Published(p, r.source, r.dir, Packages(p, r.source)[k])
  {
    assert TaskOk(p, r, k);
    assert forall path :: !OthersWriteTo(p, r, k, path);
  }

  /** A source whose tasks are over without an error has staged exactly its feeds. */
  lemma FinishedRunIsExact(p: Plan, r: Run)
    requires RunInv(p, r) && !r.failed && forall k :: 0 <= k < |r.tasks| ==> Over(r.tasks[k])
    ensures Exact(p, r.source, r.dir)
    ensures r.written + r.skipped == |Packages(p, r.source)|
    ensures r.written == |ToPublish(p, r.source)|
  {
    var pkgs := Packages(p, r.source);
    WrittenCount(p, r);
    forall k | 0 <= k < |r.tasks| ensures r.tasks[k].Written? || r.tasks[k].Skipped? {
      PackagePublished(p, r, k);
    }
    CountsAddUp(r.tasks);
    forall pkg | pkg in pkgs ensures Published(p, r.source, r.dir, pkg) {
      var k :| 0 <= k < |pkgs| && pkgs[k] == pkg;
      PackagePublished(p, r, k);
    }
    OwnersArePackages(p, r);
  }

  /** The places in a source's list where there is something to publish. */
  ghost function ToPublish(p: Plan, source: string): set<int> {
    set k | 0 <= k < |Packages(p, source)| && Kept(p, source, Packages(p, source)[k]) != []
  }

  /** What was written are the packages with something to publish; a repeated one counts each time. */
  lemma WrittenCount(p: Plan, r: Run)
    requires RunInv(p, r) && !r.failed && forall k :: 0 <= k < |r.tasks| ==> Over(r.tasks[k])
    ensures r.written == |ToPublish(p, r.source)|
  {
    var pkgs := Packages(p, r.source);
    forall k | 0 <= k < |r.tasks| ensures IsWritten(r.tasks[k]) <==> Kept(p, r.source, pkgs[k]) != [] {
      assert TaskOk(p, r, k);
    }
    CountIsSize(r.tasks, IsWritten);
    assert Places(r.tasks, IsWritten) == ToPublish(p, r.source);
  }

  lemma OwnersArePackages(p: Plan, r: Run)
    requires RunInv(p, r)
    ensures forall path :: path in r.dir ==> exists pkg :: Publishes(p, r.source, pkg, path)
  {
    forall path | path in r.dir ensures exists pkg :: Publishes(p, r.source, pkg, path) {
      var k: nat :| Owns(p, r, k, path);
      assert Publishes(p, r.source, Packages(p, r.source)[k], path);
    }
  }

  /** What is staged exactly was not blocked. */
  lemma ExactIsUnblocked(p: Plan, n: string, dir: Dir)
    requires n in p.packages && p.packages[n].Ok? && Exact(p, n, dir)
    ensures !BlockedSource(p, n)
  {
    forall pkg ensures !Unstageable(p, n, pkg) {
      assert pkg in Packages(p, n) ==> Published(p, n, dir, pkg);
    }
    forall a, b, x, y | Publishes(p, n, a, x) && Publishes(p, n, b, y) ensures !Contends(x, y) {
      assert Published(p, n, dir, a) && Published(p, n, dir, b);
    }
  }

  /** A task that fails has been cancelled or failed by the file system, or its source is blocked. */
  lemma TaskFailsForACause(p: Plan, r: Run, r': Run, k: nat, cancelled: bool, ioFailed: bool)
    requires RunInv(p, r) && TaskStep(p, r, r', k, cancelled, ioFailed) && r.source in p.packages
    requires r.failed ==> cancelled || ioFailed || BlockedSource(p, r.source)
    ensures r'.failed ==> cancelled || ioFailed || BlockedSource(p, r.source)
  {
    assert TaskOk(p, r, k);
    var pkg := Packages(p, r.source)[k];
    if TaskAnswers(p, r, r', k) {
      assert Fatal(p.answer(r.source, pkg)) ==> Unstageable(p, r.source, pkg);
    } else if WriteRefused(p, r, r', k, ioFailed) && !ioFailed {
      var path := p.path(pkg);
      if path.None? {
        assert Unstageable(p, r.source, pkg);
      } else {
        BlockedPathCollides(p, r, k, path.value);
      }
    } else if WriteBreaks(r, r', k, ioFailed) && !ioFailed {
      assert Unstageable(p, r.source, pkg);
    }
  }

  lemma BlockedPathCollides(p: Plan, r: Run, k: nat, path: string)
    requires RunInv(p, r) && r.source in p.packages && k < |r.tasks|
    requires Publishes(p, r.source, Packages(p, r.source)[k], path) && !CanCreate(r.dir, path)
    ensures BlockedSource(p, r.source)
  {
    var q :| q in r.dir && (Contends(q, path) || Contends(path, q));
    OwnersArePackages(p, r);
    var owner :| Publishes(p, r.source, owner, q);
    var pkg := Packages(p, r.source)[k];
    assert Collide(p, r.source, owner, pkg) || Collide(p, r.source, pkg, owner);
  }

  // ---------- what every run keeps ----------

  ghost predicate SourceDone(p: Plan, s: State, n: string)
    requires s.tmp.Some?
  {
    && n in s.tmp.value && n in s.counts && n in p.packages && p.packages[n].Ok? && Exact(p, n, s.tmp.value[n])
    && s.counts[n].0 + s.counts[n].1 == |Packages(p, n)|
  }

  ghost predicate StagingInv(p: Plan, s: State)
    requires s.tmp.Some?
  {
    && s.todo <= p.packages.Keys
    && s.tmp.value.Keys == p.packages.Keys - s.todo
    && (forall n :: n in p.packages.Keys - s.todo ==> SourceDone(p, s, n))
    && (s.run.Some? ==> s.run.value.source in s.todo && p.packages[s.run.value.source].Ok? && RunInv(p, s.run.value)
                        && (s.run.value.failed ==> Disturbed(s) || BlockedSource(p, s.run.value.source)))
  }

  predicate Disturbed(s: State) { s.cancelled || s.ioFailed }

  /** The output holds exactly the feeds of every source. */
  ghost predicate CommittedInv(p: Plan, s: State) {
    && Target(p.output) in s.disk && s.disk[Target(p.output)].Holding?
    && ExactTree(p, s.disk[Target(p.output)].tree, s.counts)
  }

  /** Every source has its directory, holding exactly its feeds, and every package was counted. */
  ghost predicate ExactTree(p: Plan, tree: Tree, counts: map<string, (nat, nat)>) {
    && tree.Keys == p.packages.Keys
    && forall n :: n in p.packages ==>
         && p.packages[n].Ok? && Exact(p, n, tree[n]) && n in counts
         && counts[n].0 + counts[n].1 == |Packages(p, n)|
  }

  lemma StagedIsExact(p: Plan, s: State)
    requires s.tmp.Some? && StagingInv(p, s) && s.todo == {}
    ensures ExactTree(p, s.tmp.value, s.counts)
  {
    forall n | n in p.packages ensures SourceDone(p, s, n) {
      assert n in p.packages.Keys - s.todo;
    }
  }

  /** The staging directory has a place of its own below the output's parent. */
  ghost predicate OwnPlace(p: Plan, s: State, disk0: Disk) {
    IsStagingLoc(p.output, s.at) && s.at !in Prepared(disk0, p.output)
  }

  /** What the disk is at each stage, `disk0` being what the run found. */
  ghost predicate DiskInv(p: Plan, s: State, disk0: Disk) {
    match s.stage
    case Checking => s.disk == disk0
    case Refused =>
      || s.disk == disk0
      || (s.ioFailed && Startable(p, disk0)
          && exists l :: l <= Parent(p.output) && s.disk == MkdirAll(disk0, l))
    case Preparing => s.disk == Prepared(disk0, p.output)
    case Failure =>
      var left := if s.leaked then Staged(disk0, p.output, s.at) else Prepared(disk0, p.output);
      OwnPlace(p, s, disk0) && s.disk == left
    case Committed => OwnPlace(p, s, disk0) && CommittedDisk(p, s, disk0)
    case _ => OwnPlace(p, s, disk0) && s.disk == Staged(disk0, p.output, s.at)
  }

  /** The disk the rename leaves: the output is where nothing was, and the staging directory is gone. */
  ghost predicate CommittedDisk(p: Plan, s: State, disk0: Disk) {
    && Renamable(Staged(disk0, p.output, s.at), p.output)
    && Target(p.output) in s.disk
    && s.disk == Prepared(disk0, p.output)[Target(p.output) := s.disk[Target(p.output)]]
  }

  /** Why a run may fail. */
  ghost predicate HasCause(p: Plan, s: State, disk0: Disk) {
    Disturbed(s) || Blocked(p) || !Renamable(Staged(disk0, p.output, s.at), p.output)
  }

  ghost predicate Inv(p: Plan, s: State, disk0: Disk) {
    && WellFormed(disk0, p.output.cwd) && DiskInv(p, s, disk0)
    && (s.stage != Checking && s.stage != Refused ==> Startable(p, disk0))
    && (s.tmp.Some? <==> s.stage == Staging || s.stage == CleaningUp || (s.stage == Failure && s.leaked))
    && (s.stage == Staging ==> StagingInv(p, s))
    && (s.stage == Committed ==> CommittedInv(p, s))
    && (s.leaked ==> s.stage == Failure && s.ioFailed)
    && (s.stage == CleaningUp || s.stage == Failure ==> HasCause(p, s, disk0))
    && (s.stage == Refused ==> !Startable(p, disk0) || s.ioFailed)
    && (s.stage == Checking || s.stage == Preparing ==> s.run.None?)
  }

  lemma RunStepKeepsInv(p: Plan, s: State, s': State, r': Run, disk0: Disk)
    requires OwnPaths(p) && Inv(p, s, disk0) && RunStep(p, s, s', r')
    ensures Inv(p, s', disk0)
  {
    var r := s.run.value;
    if Launch(p, r, r') {
      LaunchKeeps(p, r, r');
    } else {
      var k: nat :| TaskStep(p, r, r', k, s.cancelled, s.ioFailed);
      TaskStepKeeps(p, r, r', k, s.cancelled, s.ioFailed);
      TaskFailsForACause(p, r, r', k, s.cancelled, s.ioFailed);
    }
    forall n | n in p.packages.Keys - s'.todo ensures SourceDone(p, s', n) {
      assert SourceDone(p, s, n);
    }
  }

  lemma StartSourceKeepsInv(p: Plan, s: State, s': State, n: string, disk0: Disk)
    requires Inv(p, s, disk0) && StartSource(p, s, s', n)
    ensures Inv(p, s', disk0)
  {
    var r := s'.run.value;
    AllWaiting(r.tasks);
    assert forall k :: 0 <= k < |r.tasks| ==> TaskOk(p, r, k);
    forall m | m in p.packages.Keys - s'.todo ensures SourceDone(p, s', m) {
      assert SourceDone(p, s, m);
    }
  }

  lemma FinishSourceKeepsInv(p: Plan, s: State, s': State, disk0: Disk)
    requires Inv(p, s, disk0) && FinishSource(s, s')
    ensures Inv(p, s', disk0)
  {
    var r := s.run.value;
    if !r.failed {
      FinishedRunIsExact(p, r);
      SourcesDone(p, s, s');
    }
  }

  lemma SourcesDone(p: Plan, s: State, s': State)
    requires s.stage == Staging && s.tmp.Some? && StagingInv(p, s) && FinishSource(s, s')
    requires s.run.Some? && !s.run.value.failed && Exact(p, s.run.value.source, s.run.value.dir)
    requires s.run.value.written + s.run.value.skipped == |Packages(p, s.run.value.source)|
    ensures s'.tmp.Some? && StagingInv(p, s')
  {
    forall n | n in p.packages.Keys - s'.todo ensures SourceDone(p, s', n) {
      if n != s.run.value.source {
        assert SourceDone(p, s, n);
      }
    }
  }

  lemma RenameKeepsInv(p: Plan, s: State, s': State, disk0: Disk)
    requires Inv(p, s, disk0) && Rename(p, s, s')
    ensures Inv(p, s', disk0)
  {
    StagedIsExact(p, s);
    assert Without(s.disk, s.at) == Prepared(disk0, p.output);
  }

  lemma DisturbanceKeepsInv(p: Plan, s: State, s': State, disk0: Disk)
    requires Inv(p, s, disk0) && (Cancel(s, s') || FsFails(s, s'))
    ensures Inv(p, s', disk0)
  {
    if s.stage == Staging {
      forall n | n in p.packages.Keys - s'.todo ensures SourceDone(p, s', n) {
        assert SourceDone(p, s, n);
      }
    }
  }

  lemma SetupKeepsInv(p: Plan, s: State, s': State, disk0: Disk)
    requires Inv(p, s, disk0) && Setup(p, s, s')
    ensures Inv(p, s', disk0)
  {
    if suffix :| MakeTemp(p, s, s', suffix) {
      assert IsStagingLoc(p.output, s'.at);
      assert p.packages.Keys - s'.todo == {};
    } else if MakeTempFails(s, s') {
      assert Parent(p.output) <= Parent(p.output);
    }
  }

  lemma TeardownKeepsInv(p: Plan, s: State, s': State, disk0: Disk)
    requires Inv(p, s, disk0)
    requires CleanUp(s, s') || RenameFails(p, s, s') || exists n :: EnumerationFails(p, s, s', n)
    ensures Inv(p, s', disk0)
  {
    if CleanUp(s, s') {
      assert Without(s.disk, s.at) == Prepared(disk0, p.output);
    } else if n :| EnumerationFails(p, s, s', n) {
      assert p.packages[n].Err? ==> BlockedSource(p, n);
    }
  }

  lemma NextKeepsInv(p: Plan, s: State, s': State, disk0: Disk)
    requires OwnPaths(p) && Inv(p, s, disk0) && Next(p, s, s')
    ensures Inv(p, s', disk0)
  {
    if Setup(p, s, s') {
      SetupKeepsInv(p, s, s', disk0);
    } else if n :| StartSource(p, s, s', n) {
      StartSourceKeepsInv(p, s, s', n, disk0);
    } else if r' :| RunStep(p, s, s', r') {
      RunStepKeepsInv(p, s, s', r', disk0);
    } else if FinishSource(s, s') {
      FinishSourceKeepsInv(p, s, s', disk0);
    } else if Rename(p, s, s') {
      RenameKeepsInv(p, s, s', disk0);
    } else if Cancel(s, s') || FsFails(s, s') {
      DisturbanceKeepsInv(p, s, s', disk0);
    } else {
      TeardownKeepsInv(p, s, s', disk0);
    }
  }

  lemma {:induction false} RunKeepsInv(p: Plan, run: seq<State>, i: nat)
    requires OwnPaths(p) && IsRun(p, run) && i < |run|
    ensures Inv(p, run[i], run[0].disk)
  {
    if i > 0 {
      RunKeepsInv(p, run, i - 1);
      NextKeepsInv(p, run[i - 1], run[i], run[0].disk);
    }
  }

  /**
   All or nothing. Until a run commits, the disk is as it was found but for the directories on
   the way to the output's parent and the staging directory. Once it commits, it is the former
   with the exact feeds at the output, each complete, where there was nothing before.
   */
  lemma OutputAllOrNothing(p: Plan, run: seq<State>, i: nat)
    requires OwnPaths(p) && IsRun(p, run) && i < |run|
    ensures run[i].stage != Committed ==> OnlyScaffolding(p, run[0].disk, run[i])
    ensures run[i].stage == Committed ==>
      && CommittedInv(p, run[i]) && Target(p.output) !in run[0].disk
      && run[i].disk == Prepared(run[0].disk, p.output)[Target(p.output) := run[i].disk[Target(p.output)]]
  {
    RunKeepsInv(p, run, i);
    EndMeaning(p, run[i], run[0].disk);
    if run[i].stage != Committed {
      ScaffoldingOnly(p, run[i], run[0].disk);
    }
  }

  ghost predicate OnlyScaffolding(p: Plan, disk0: Disk, s: State) {
    && (forall l :: l in disk0 ==> l in s.disk && s.disk[l] == disk0[l])
    && (forall l :: l in s.disk && l !in disk0 ==>
          s.disk[l] == Folder && (l <= Parent(p.output) || (s.tmp.Some? && l == s.at)))
  }

  /** The run has made the output's parent, and not committed. */
  predicate Begun(s: State) {
    s.stage == Preparing || s.stage == Staging || s.stage == CleaningUp || s.stage == Failure
  }

  /**
   What is seen at the output meanwhile: nothing, exactly when its path ends in a plain name.
   Its own place is then left alone, whatever the path; the rest is for paths without a parent
   step before the last element.
   */
  lemma UnseenIffPlain(p: Plan, run: seq<State>, i: nat)
    requires OwnPaths(p) && IsRun(p, run) && i < |run| && Begun(run[i])
    ensures Plain(Last(p.output.path)) ==> At(run[i].disk, Target(p.output)) == At(run[0].disk, Target(p.output))
    ensures Straight(p.output) ==> (Lstat(run[i].disk, p.output).Absent? <==> Plain(Last(p.output.path)))
  {
    RunKeepsInv(p, run, i);
    var at := if run[i].stage == Preparing then StagingLoc(p.output, "") else run[i].at;
    assert IsStagingLoc(p.output, at);
    if Plain(Last(p.output.path)) {
      PlainTargetUntouched(run[0].disk, p.output, at);
    }
    if Straight(p.output) {
      PlainIffUnseen(run[0].disk, p.output, at);
    }
  }

  /** A positive limit bounds the package tasks in progress, in every interleaving. */
  lemma TasksBounded(p: Plan, run: seq<State>, i: nat)
    requires OwnPaths(p) && IsRun(p, run) && i < |run| && p.limit > 0
    requires run[i].stage == Staging && run[i].run.Some?
    ensures Active(run[i].run.value) <= p.limit
  {
    RunKeepsInv(p, run, i);
  }

  /**
   After a failure only the directories made for the output's parent remain, unless removing
   the staging one failed. So the next run may start, exactly when the path ends in a plain name.
   */
  lemma FailureLeavesNothing(p: Plan, run: seq<State>, i: nat)
    requires OwnPaths(p) && IsRun(p, run) && i < |run|
    requires run[i].stage == Failure && !run[i].leaked
    ensures run[i].disk == Prepared(run[0].disk, p.output)
    ensures Straight(p.output) ==> (Startable(p, run[i].disk) <==> Plain(Last(p.output.path)))
  {
    RunKeepsInv(p, run, i);
    UnseenIffPlain(p, run, i);
    PreparedLaid(run[0].disk, Parent(p.output));
  }

  lemma CommittedIsUnblocked(p: Plan, s: State)
    requires CommittedInv(p, s)
    ensures !Blocked(p)
  {
    forall n ensures !BlockedSource(p, n) {
      if n in p.packages {
        ExactIsUnblocked(p, n, s.disk[Target(p.output)].tree[n]);
      }
    }
  }

  /** What each end of the call means for the disk, and why it came to it. */
  ghost predicate Explained(p: Plan, s: State, disk0: Disk) {
    && (!Startable(p, disk0) && Ended(s) ==> s.stage == Refused && s.disk == disk0)
    && (s.stage == Refused ==> (!Startable(p, disk0) || s.ioFailed) && OnlyScaffolding(p, disk0, s))
    && (s.stage == Committed ==> CommittedInv(p, s) && CommittedDisk(p, s, disk0))
    && (s.stage == Committed ==> !Blocked(p) && Plain(Last(p.output.path)) && Target(p.output) !in disk0)
    && (s.stage == Failure ==> HasCause(p, s, disk0) && OwnPlace(p, s, disk0) && (s.leaked ==> s.ioFailed))
    && (s.stage == Failure ==>
          s.disk == if s.leaked then Staged(disk0, p.output, s.at) else Prepared(disk0, p.output))
  }

  /**
   The call has committed if and only if it could start, nothing blocks the plan, and the
   output can be renamed to; for a path without a parent step before its last element, if and
   only if that element is a plain name.
   */
  ghost predicate CommitsWhenItShould(p: Plan, s: State, disk0: Disk) {
    && (s.stage == Committed <==>
          Startable(p, disk0) && !Blocked(p) && Renamable(Staged(disk0, p.output, s.at), p.output))
    && (Straight(p.output) ==>
          (s.stage == Committed <==> Startable(p, disk0) && !Blocked(p) && Plain(Last(p.output.path))))
  }

  /** What the invariant says of a state in which the call has ended. */
  lemma EndMeaning(p: Plan, s: State, disk0: Disk)
    requires Inv(p, s, disk0)
    ensures Explained(p, s, disk0)
    ensures Ended(s) && !Disturbed(s) ==> CommitsWhenItShould(p, s, disk0)
  {
    if s.stage == Committed {
      CommittedIsUnblocked(p, s);
      RenamableIsPlain(disk0, p.output, s.at);
    } else {
      ScaffoldingOnly(p, s, disk0);
    }
    if (s.stage == Committed || s.stage == Failure) && Straight(p.output) {
      PlainIffUnseen(disk0, p.output, s.at);
    }
  }

  lemma ScaffoldingOnly(p: Plan, s: State, disk0: Disk)
    requires Inv(p, s, disk0) && s.stage != Committed
    ensures OnlyScaffolding(p, disk0, s)
  {
    if s.stage == Refused && s.disk != disk0 {
      var l :| l <= Parent(p.output) && s.disk == MkdirAll(disk0, l);
      forall m | m in s.disk && m !in disk0 ensures m <= Parent(p.output) {
        assert m in Prefixes(l);
      }
    }
  }

  /**
   Every outcome has its cause. A commit needs a plan that nothing blocks and an output that
   can be renamed to; a failure was disturbed or lacks one of these; a refusal lacks something
   to stage or a proper output, or the file system failed.
   */
  lemma OutcomesHaveCauses(p: Plan, run: seq<State>, i: nat)
    requires OwnPaths(p) && IsRun(p, run) && i < |run|
    ensures run[i].stage == Committed ==> !Blocked(p) && Plain(Last(p.output.path))
    ensures run[i].stage == Committed ==>
      Startable(p, run[0].disk) && Renamable(Staged(run[0].disk, p.output, run[i].at), p.output)
    ensures run[i].stage == Failure ==> HasCause(p, run[i], run[0].disk)
    ensures run[i].stage == Refused ==> !Startable(p, run[0].disk) || run[i].ioFailed
  {
    RunKeepsInv(p, run, i);
    EndMeaning(p, run[i], run[0].disk);
  }

  /** Exactly when a run commits, if it is left undisturbed until it ends. */
  lemma CommitsIffUnblocked(p: Plan, run: seq<State>, i: nat)
    requires OwnPaths(p) && IsRun(p, run) && i < |run| && Ended(run[i]) && !Disturbed(run[i])
    ensures CommitsWhenItShould(p, run[i], run[0].disk)
  {
    RunKeepsInv(p, run, i);
    EndMeaning(p, run[i], run[0].disk);
  }

  /**
   A trailing slash: the staging directory lies inside the output, so no run commits, and a
   failed one leaves the output behind, empty, and the next run refused.
   */
  lemma TrailingSlashNeverCommits(p: Plan, run: seq<State>, i: nat)
    requires OwnPaths(p) && IsRun(p, run) && i < |run|
    requires Last(p.output.path) == ""
    ensures run[i].stage != Committed
    ensures run[i].stage == Staging ==> Target(p.output) <= run[i].at
    ensures run[i].stage == Failure ==> At(run[i].disk, Target(p.output)) == Present(Folder)
    ensures run[i].stage == Failure && Straight(p.output) ==> !Startable(p, run[i].disk)
  {
    RunKeepsInv(p, run, i);
    OutcomesHaveCauses(p, run, i);
    if run[i].stage == Staging {
      var suffix :| run[i].at == StagingLoc(p.output, suffix);
      StagingOutsideIff(p.output, suffix);
    } else if run[i].stage == Failure {
      TargetMadeOnTheWay(run[0].disk, p.output, run[i].at);
      UnseenIffPlain(p, run, i);
    }
  }

  // ---------- progress ----------

  /** Some task of a run that is not over can take a step, or the next one can start. */
  lemma RunAdvances(p: Plan, r: Run, cancelled: bool, ioFailed: bool) returns (r': Run)
    requires RunInv(p, r) && exists k :: 0 <= k < |r.tasks| && !Over(r.tasks[k])
    ensures Launch(p, r, r') || exists k :: TaskStep(p, r, r', k, cancelled, ioFailed)
  {
    CountPositive(r.tasks, IsActive);
    if k :| 0 <= k < |r.tasks| && IsActive(r.tasks[k]) {
      r' := TaskAdvances(p, r, k, cancelled, ioFailed);
    } else {
      var k :| 0 <= k < |r.tasks| && !Over(r.tasks[k]);
      assert TaskOk(p, r, k);
      r' := r.(tasks := r.tasks[r.next := Running], next := r.next + 1);
    }
  }

  lemma TaskAdvances(p: Plan, r: Run, k: nat, cancelled: bool, ioFailed: bool) returns (r': Run)
    requires RunInv(p, r) && k < |r.tasks| && IsActive(r.tasks[k])
    ensures TaskStep(p, r, r', k, cancelled, ioFailed)
  {
    assert TaskOk(p, r, k);
    var pkg := Packages(p, r.source)[k];
    var kept, path := Kept(p, r.source, pkg), p.path(pkg);
    r' := r.(tasks := r.tasks[k := Failed], failed := true);
    match r.tasks[k] {
      case Running =>
        if !Fatal(p.answer(r.source, pkg)) {
          r' := if kept == [] then r.(tasks := r.tasks[k := Skipped], skipped := r.skipped + 1)
                else r.(tasks := r.tasks[k := Answered(kept)]);
        }
        assert TaskAnswers(p, r, r', k);
      case Answered(rs) =>
        if path.Some? && CanCreate(r.dir, path.value) {
          r' := r.(tasks := r.tasks[k := Writing(rs)], dir := r.dir[path.value := Partial]);
        }
      case Writing(rs) =>
        if Encodable(rs) {
          var f := if OthersWriteTo(p, r, k, path.value) then Partial else Whole(rs);
          r' := r.(tasks := r.tasks[k := Written], written := r.written + 1, dir := r.dir[path.value := f]);
          assert EndWrite(p, r, r', k);
        }
    }
  }

  /** No run gets stuck: until it ends the program can take a step by itself. */
  lemma NeverStuck(p: Plan, run: seq<State>, i: nat)
    requires OwnPaths(p) && IsRun(p, run) && i < |run| && !Ended(run[i])
    ensures exists s' :: ProgramStep(p, run[i], s')
  {
    RunKeepsInv(p, run, i);
    var s := run[i];
    match s.stage {
      case Checking =>
        if Startable(p, s.disk) {
          assert ProgramStep(p, s, s.(stage := Preparing, disk := Prepared(s.disk, p.output)));
        } else {
          assert ProgramStep(p, s, s.(stage := Refused));
        }
      case Preparing =>
        var s' := PreparingAdvances(p, s);
      case CleaningUp =>
        var s' := s.(stage := Failure, tmp := None, disk := Without(s.disk, s.at));
        assert CleanUp(s, s');
        assert ProgramStep(p, s, s');
      case Staging =>
        var s' := StagingAdvances(p, s, run[0].disk);
    }
  }

  lemma PreparingAdvances(p: Plan, s: State) returns (s': State)
    requires s.stage == Preparing
    ensures ProgramStep(p, s, s')
  {
    var suffix := Zeros(Longest(s.disk.Keys));
    LongSuffixIsFree(s.disk, p.output, suffix);
    var at := StagingLoc(p.output, suffix);
    s' := s.(stage := Staging, disk := s.disk[at := Folder], at := at, tmp := Some(map[]), todo := p.packages.Keys);
    assert MakeTemp(p, s, s', suffix);
  }

  function Zeros(n: nat): (s: string)
    ensures |s| == n
  {
    seq(n, _ => '0')
  }

  lemma StagingAdvances(p: Plan, s: State, disk0: Disk) returns (s': State)
    requires Inv(p, s, disk0) && s.stage == Staging
    ensures ProgramStep(p, s, s')
  {
    if s.run.Some? {
      var r := s.run.value;
      if k :| 0 <= k < |r.tasks| && !Over(r.tasks[k]) {
        var r' := RunAdvances(p, r, s.cancelled, s.ioFailed);
        s' := s.(run := Some(r'));
        assert RunStep(p, s, s', r');
      } else {
        s' := if r.failed then s.(stage := CleaningUp, run := None)
              else s.(run := None, todo := s.todo - {r.source}, tmp := Some(s.tmp.value[r.source := r.dir]),
                      counts := s.counts[r.source := (r.written, r.skipped)]);
        assert FinishSource(s, s');
      }
    } else if n :| n in s.todo {
      if p.packages[n].Ok? {
        s' := s.(run := Some(Run(n, seq(|p.packages[n].value|, _ => Waiting), 0, false, 0, 0, map[])));
        assert StartSource(p, s, s', n);
      } else {
        s' := s.(stage := CleaningUp);
        assert EnumerationFails(p, s, s', n);
      }
    } else {
      s' := if Renamable(s.disk, p.output)
            then s.(stage := Committed, tmp := None,
                    disk := Without(s.disk, s.at)[Target(p.output) := Holding(s.tmp.value)])
            else s.(stage := CleaningUp);
      assert Rename(p, s, s') || RenameFails(p, s, s');
    }
  }
}
