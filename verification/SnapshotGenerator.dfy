/** `snapshot.Generate` itself, under an arbitrary scheduler in arbitrary surroundings. */
module SnapshotGenerator {
  import opened Core
  import opened Paths
  import opened Windows
  import opened Disks
  import opened Generate

  /** Whether the file system may fail and the caller may cancel; neither need happen. */
  datatype Surroundings = Surroundings(faults: bool, cancels: bool)

  /** Only what the surroundings allow has happened since `s`. */
  predicate Within(env: Surroundings, s: State, s': State) {
    (s'.ioFailed ==> s.ioFailed || env.faults) && (s'.cancelled ==> s.cancelled || env.cancels)
  }

  function Rank(t: Task): nat {
    match t
    case Waiting => 4
    case Running => 3
    case Answered(_) => 2
    case Writing(_) => 1
    case _ => 0
  }

  function Remaining(r: Run): nat { Sum(r.tasks, Rank) }

  /** Ask the source, skip what it does not know, drop what is too old. */
  method AskSource(p: Plan, r: Run, k: nat) returns (r': Run)
    requires RunInv(p, r) && k < |r.tasks| && r.tasks[k].Running?
    ensures TaskAnswers(p, r, r', k) && !r'.tasks[k].Running? && !r'.tasks[k].Waiting?
    ensures var a := p.answer(r.source, Packages(p, r.source)[k]);
      && (r'.tasks[k].Failed? <==> a == Err(BackendFailure) || a == Err(InvalidArgument))
      && (a == Err(NotFound) || a == Err(InvalidPackageName) ==> r'.tasks[k].Skipped?)
      && (a.Ok? ==> AgeKept(if r'.tasks[k].Answered? then r'.tasks[k].kept else [], a.value, p.maxAge))
      && (r'.tasks[k].Answered? ==> a.Ok? && r'.tasks[k].kept != [])
  {
    match p.answer(r.source, Packages(p, r.source)[k])
    case Err(e) =>
      if e == NotFound || e == InvalidPackageName {
        r' := r.(tasks := r.tasks[k := Skipped], skipped := r.skipped + 1);
      } else {
        r' := r.(tasks := r.tasks[k := Failed], failed := true);
      }
    case Ok(releases) =>
      var kept := releases;
      if p.maxAge != 0 {
        kept := WithinMaxAge(releases, p.maxAge);
      }
      AgeLimitedMeaning(releases, p.maxAge);
      if |kept| == 0 {
        r' := r.(tasks := r.tasks[k := Skipped], skipped := r.skipped + 1);
      } else {
        r' := r.(tasks := r.tasks[k := Answered(kept)]);
      }
  }

  /** One package task moves on: it asks its source, filters, and writes its feed. */
  method StepTask(p: Plan, r: Run, k: nat, cancelled: bool, ioFailed: bool) returns (r': Run)
    requires OwnPaths(p) && RunInv(p, r) && k < |r.tasks| && IsActive(r.tasks[k])
    ensures TaskStep(p, r, r', k, cancelled, ioFailed) && Remaining(r') < Remaining(r)
  {
    assert TaskOk(p, r, k);
    var breaks: bool := *;
    r' := r.(tasks := r.tasks[k := Failed], failed := true);
    match r.tasks[k] {
      case Running =>
        if !(breaks && (r.failed || cancelled)) {
          r' := AskSource(p, r, k);
        }
      case Answered(kept) =>
        r' := CreateFile(p, r, k, breaks && ioFailed);
      case Writing(kept) =>
        if !(breaks && ioFailed) {
          r' := FinishFile(p, r, k);
        }
    }
    TaskStepDescends(p, r, r', k, cancelled, ioFailed);
  }

  lemma TaskStepDescends(p: Plan, r: Run, r': Run, k: nat, cancelled: bool, ioFailed: bool)
    requires TaskStep(p, r, r', k, cancelled, ioFailed)
    ensures Remaining(r') < Remaining(r)
  {
    assert r'.tasks == r.tasks[k := r'.tasks[k]];
    SumUpdate(r.tasks, k, r'.tasks[k], Rank);
  }

  /** Check the path, make its directories and create the file. */
  method CreateFile(p: Plan, r: Run, k: nat, fails: bool) returns (r': Run)
    requires RunInv(p, r) && k < |r.tasks| && r.tasks[k].Answered?
    ensures BeginWrite(p, r, r', k) || WriteRefused(p, r, r', k, fails)
    ensures r'.tasks[k].Writing? || r'.tasks[k].Failed?
  {
    var path := p.path(Packages(p, r.source)[k]);
    if path.None? || fails || !PathFree(r.dir, path.value) {
      return r.(tasks := r.tasks[k := Failed], failed := true);
    }
    return r.(tasks := r.tasks[k := Writing(r.tasks[k].kept)], dir := r.dir[path.value := Partial]);
  }

  /** Encode the feed and close the file. */
  method FinishFile(p: Plan, r: Run, k: nat) returns (r': Run)
    requires RunInv(p, r) && k < |r.tasks| && r.tasks[k].Writing?
    ensures EndWrite(p, r, r', k) || WriteBreaks(r, r', k, false)
    ensures r'.tasks[k].Written? <==> Encodable(r.tasks[k].kept)
  {
    assert TaskOk(p, r, k);
    if !Encodable(r.tasks[k].kept) {
      return r.(tasks := r.tasks[k := Failed], failed := true);
    }
    var path := p.path(Packages(p, r.source)[k]).value;
    var file := if OthersWriteTo(p, r, k, path) then Partial else Whole(r.tasks[k].kept);
    return r.(tasks := r.tasks[k := Written], written := r.written + 1, dir := r.dir[path := file]);
  }

  predicate PathFree(dir: Dir, path: string)
    ensures PathFree(dir, path) <==> CanCreate(dir, path)
  {
    forall q :: q in dir ==> !Contends(q, path) && !Contends(path, q)
  }

  lemma SomeTaskActive(p: Plan, r: Run)
    requires RunInv(p, r) && (r.next == |r.tasks| || (p.limit > 0 && Active(r) >= p.limit))
    requires exists k :: 0 <= k < |r.tasks| && !Over(r.tasks[k])
    ensures exists k :: 0 <= k < |r.tasks| && IsActive(r.tasks[k])
  {
    CountPositive(r.tasks, IsActive);
    if r.next == |r.tasks| {
      var k :| 0 <= k < |r.tasks| && !Over(r.tasks[k]);
      assert TaskOk(p, r, k);
    }
  }

  /** The scheduler starts the next task or lets one of those in progress take a step. */
  method AdvanceTasks(p: Plan, s0: State) returns (s: State)
    requires OwnPaths(p) && s0.stage == Staging && s0.run.Some? && RunInv(p, s0.run.value)
    requires exists k :: 0 <= k < |s0.run.value.tasks| && !Over(s0.run.value.tasks[k])
    ensures s.run.Some? && RunStep(p, s0, s, s.run.value) && s.run.value.source == s0.run.value.source
    ensures Remaining(s.run.value) < Remaining(s0.run.value)
  {
    var r, r' := s0.run.value, s0.run.value;
    var launch: bool := *;
    var free := r.next < |r.tasks| && (p.limit <= 0 || Active(r) < p.limit);
    if free && (launch || Active(r) == 0) {
      SumUpdate(r.tasks, r.next, Running, Rank);
      assert TaskOk(p, r, r.next);
      r' := r.(tasks := r.tasks[r.next := Running], next := r.next + 1);
    } else {
      if free {
        CountPositive(r.tasks, IsActive);
      } else {
        SomeTaskActive(p, r);
      }
      var k :| 0 <= k < |r.tasks| && IsActive(r.tasks[k]);
      r' := StepTask(p, r, k, s0.cancelled, s0.ioFailed);
      TaskStepKeeps(p, r, r', k, s0.cancelled, s0.ioFailed);
    }
    s := s0.(run := Some(r'));
  }

  /** The fan-out over one source's packages, up to `eg.Wait`. */
  method RunTasks(p: Plan, env: Surroundings, s0: State, disk0: Disk) returns (s: State)
    requires OwnPaths(p) && Inv(p, s0, disk0) && s0.stage == Staging && s0.run.Some?
    ensures Inv(p, s, disk0) && Within(env, s0, s) && s.stage == Staging && s.run.Some? && s.todo == s0.todo
    ensures s.run.value.source == s0.run.value.source
    ensures forall k :: 0 <= k < |s.run.value.tasks| ==> Over(s.run.value.tasks[k])
  {
    s := s0;
    while exists k :: 0 <= k < |s.run.value.tasks| && !Over(s.run.value.tasks[k])
      invariant Inv(p, s, disk0) && Within(env, s0, s) && s.stage == Staging && s.run.Some? && s.todo == s0.todo
      invariant s.run.value.source == s0.run.value.source
      decreases Remaining(s.run.value)
    {
      s := Disturb(p, env, s, disk0);
      ghost var was := s;
      s := AdvanceTasks(p, s);
      RunStepKeepsInv(p, was, s, s.run.value, disk0);
    }
  }

  /** The surroundings may act at any moment. */
  method Disturb(p: Plan, env: Surroundings, s0: State, disk0: Disk) returns (s: State)
    requires Inv(p, s0, disk0)
    ensures Inv(p, s, disk0) && Within(env, s0, s)
    ensures s == s0.(cancelled := s.cancelled, ioFailed := s.ioFailed)
    ensures s0.ioFailed ==> s.ioFailed
    ensures s0.cancelled ==> s.cancelled
  {
    s := s0;
    var cancelNow, faultNow: bool := *, *;
    if cancelNow && env.cancels && !s.cancelled {
      s := s.(cancelled := true);
      DisturbanceKeepsInv(p, s0, s, disk0);
    }
    ghost var was := s;
    if faultNow && env.faults && !s.ioFailed {
      s := s.(ioFailed := true);
      DisturbanceKeepsInv(p, was, s, disk0);
    }
  }

  /** One source: enumerate, run its tasks, and take its directory over if none failed. */
  method StageSource(p: Plan, env: Surroundings, s0: State, n: string, disk0: Disk) returns (s: State)
    requires OwnPaths(p) && Inv(p, s0, disk0) && s0.stage == Staging && s0.run.None? && n in s0.todo
    ensures Inv(p, s, disk0) && Within(env, s0, s)
    ensures s.stage == CleaningUp || (s.stage == Staging && s.run.None? && s.todo == s0.todo - {n})
  {
    var gone: bool := *;
    if p.packages[n].Err? || (gone && s0.cancelled) {
      assert p.packages[n].Err? ==> BlockedSource(p, n);
      return s0.(stage := CleaningUp);
    }
    s := s0.(run := Some(Run(n, seq(|p.packages[n].value|, _ => Waiting), 0, false, 0, 0, map[])));
    StartSourceKeepsInv(p, s0, s, n, disk0);
    s := RunTasks(p, env, s, disk0);
    ghost var was := s;
    var r := s.run.value;
    if r.failed {
      s := s.(stage := CleaningUp, run := None);
    } else {
      s := s.(run := None, todo := s.todo - {r.source}, tmp := Some(s.tmp.value[r.source := r.dir]),
              counts := s.counts[r.source := (r.written, r.skipped)]);
    }
    FinishSourceKeepsInv(p, was, s, disk0);
  }

  /** Every source in whatever order the map yields them, up to the rename or a failure. */
  method StageAll(p: Plan, env: Surroundings, s0: State, disk0: Disk) returns (s: State)
    requires OwnPaths(p) && Inv(p, s0, disk0) && s0.stage == Staging && s0.run.None?
    ensures Inv(p, s, disk0) && Within(env, s0, s) && (s.stage == Committed || s.stage == CleaningUp)
  {
    s := s0;
    while s.todo != {}
      invariant Inv(p, s, disk0) && Within(env, s0, s) && s.stage == Staging && s.run.None?
      decreases |s.todo|
    {
      s := Disturb(p, env, s, disk0);
      var n :| n in s.todo;
      s := StageSource(p, env, s, n, disk0);
      if s.stage == CleaningUp {
        return;
      }
    }
    s := Disturb(p, env, s, disk0);
    var renameFails: bool := *;
    ghost var was := s;
    if (renameFails && s.ioFailed) || !Renamable(s.disk, p.output) {
      s := s.(stage := CleaningUp);
      TeardownKeepsInv(p, was, s, disk0);
      return;
    }
    s := s.(stage := Committed, tmp := None, disk := Without(s.disk, s.at)[Target(p.output) := Holding(s.tmp.value)]);
    RenameKeepsInv(p, was, s, disk0);
  }

  /** The checks, the output's parent and the staging directory. */
  method Prepare(p: Plan, env: Surroundings, s0: State, disk0: Disk) returns (s: State)
    requires Inv(p, s0, disk0) && s0.stage == Checking
    ensures Inv(p, s, disk0) && Within(env, s0, s) && (s.stage == Refused || s.stage == Staging)
    ensures s.run.None?
  {
    s := Disturb(p, env, s0, disk0);
    ghost var was := s;
    var fails: bool := *;
    if p.packages == map[] || !Accepts(s.disk, p.output) || (fails && s.ioFailed) {
      s := s.(stage := Refused);
      SetupKeepsInv(p, was, s, disk0);
      return;
    }
    s := s.(stage := Preparing, disk := Prepared(s.disk, p.output));
    SetupKeepsInv(p, was, s, disk0);
    s := Disturb(p, env, s, disk0);
    was := s;
    if fails && s.ioFailed {
      s := s.(stage := Refused);
      SetupKeepsInv(p, was, s, disk0);
      return;
    }
    var suffix := FreshSuffix(s.disk, p.output);
    var at := StagingLoc(p.output, suffix);
    s := s.(stage := Staging, disk := s.disk[at := Folder], at := at, tmp := Some(map[]), todo := p.packages.Keys);
    assert MakeTemp(p, was, s, suffix);
    SetupKeepsInv(p, was, s, disk0);
  }

  /**
   The whole call. It always ends: refused, committed with exactly the non-empty feeds at the
   output, or failed with the disk as it was but for the directories made for the output's
   parent and, if removal fails, the staging directory. In calm surroundings it commits if and
   only if it could start, nothing blocks the plan, and the output can be renamed to: which a
   path without a parent step before its last element can when that is a plain name.
   */
  method GenerateSnapshot(p: Plan, env: Surroundings, disk: Disk) returns (s: State)
    requires OwnPaths(p) && WellFormed(disk, p.output.cwd)
    ensures Ended(s) && (s.ioFailed ==> env.faults) && (s.cancelled ==> env.cancels)
    ensures Explained(p, s, disk)
    ensures !env.faults && !env.cancels ==> CommitsWhenItShould(p, s, disk)
  {
    s := State(Checking, disk, [], None, {}, None, map[], false, false, false);
    s := Prepare(p, env, s, disk);
    if s.stage == Staging {
      s := StageAll(p, env, s, disk);
      if s.stage == CleaningUp {
        s := RemoveStaging(p, env, s, disk);
      }
    }
    EndMeaning(p, s, disk);
  }

  /** The deferred removal of the staging directory. */
  method RemoveStaging(p: Plan, env: Surroundings, s0: State, disk0: Disk) returns (s: State)
    requires Inv(p, s0, disk0) && s0.stage == CleaningUp
    ensures Inv(p, s, disk0) && Within(env, s0, s) && s.stage == Failure
  {
    s := Disturb(p, env, s0, disk0);
    ghost var was := s;
    var fails: bool := *;
    s := if fails && s.ioFailed then s.(stage := Failure, leaked := true)
         else s.(stage := Failure, tmp := None, disk := Without(s.disk, s.at));
    TeardownKeepsInv(p, was, s, disk0);
  }
}
