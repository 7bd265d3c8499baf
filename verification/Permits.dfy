/**
 Three nested levels of bounded concurrency: package tasks, the history workers of each task,
 and the semaphore every remote call goes through (internal/chainguard/ratelimit.go).
 */
module Permits {
  import opened Core

  /** A goroutine's current remote call: queued for a permit, or made while holding one. */
  datatype Call = Queued | InFlight

  datatype Worker = Idle | Looking(call: Call) | Ended(ok: bool)

  /** `calls` are made one after the other, then `lookups` by workers, then the file is written. */
  datatype Task =
    | Pending(calls: nat, lookups: nat)
    | Calling(left: nat, lookups: nat, call: Call)
    | Fanning(next: nat, workers: seq<Worker>)
    | Writing
    | Over

  /** A limit that is not positive means none, except for the workers', which is then 16. */
  datatype Limits = Limits(tasks: int, workers: int, calls: int)

  /** `made` counts the permits each task has acquired so far. */
  datatype State = State(tasks: seq<Task>, next: nat, held: nat, made: seq<nat>)

  function WorkerLimit(l: Limits): nat { if l.workers <= 0 then 16 else l.workers }

  function AfterCalls(lookups: nat): Task {
    if lookups > 0 then Fanning(0, seq(lookups, _ => Idle)) else Writing
  }

  function Launched(t: Task): Task
    requires t.Pending?
  {
    if t.calls > 0 then Calling(t.calls - 1, t.lookups, Queued) else AfterCalls(t.lookups)
  }

  predicate TaskActive(t: Task) { !t.Pending? && !t.Over? }

  predicate WorkerActive(w: Worker) { w.Looking? }

  predicate WorkerInFlight(w: Worker) { w.Looking? && w.call.InFlight? }

  function CallsInFlight(t: Task): nat {
    match t
    case Calling(_, _, InFlight) => 1
    case Fanning(_, workers) => Count(workers, WorkerInFlight)
    case _ => 0
  }

  function InFlightCalls(s: State): nat { Sum(s.tasks, CallsInFlight) }

  function ActiveTasks(s: State): nat { Count(s.tasks, TaskActive) }

  // ---------- the steps ----------

  /** `sem.Acquire(ctx, 1)`; without a positive limit there is no interceptor. */
  predicate MayAcquire(l: Limits, held: nat) { l.calls > 0 ==> held < l.calls }

  ghost predicate LaunchTask(l: Limits, s: State, s': State) {
    && s.next < |s.tasks| && s.tasks[s.next].Pending? && (l.tasks > 0 ==> ActiveTasks(s) < l.tasks)
    && s' == s.(tasks := s.tasks[s.next := Launched(s.tasks[s.next])], next := s.next + 1)
  }

  /** What a task step does to the task and to the number of permits held. */
  ghost predicate TaskStep(l: Limits, t: Task, held: nat, t': Task, held': int) {
    match t
    case Pending(_, _) => false
    case Over => false
    case Calling(left, lookups, Queued) =>
      t' == Calling(left, lookups, InFlight) && MayAcquire(l, held) && held' == held + 1
    case Calling(left, lookups, InFlight) =>
      && held' == held - 1
      && (t' == Over || t' == if left > 0 then Calling(left - 1, lookups, Queued) else AfterCalls(lookups))
    case Writing => t' == Over && held' == held
    case Fanning(next, workers) =>
      || (next == |workers| && (forall j :: 0 <= j < |workers| ==> workers[j].Ended?) && held' == held
          && t' == if forall j :: 0 <= j < |workers| ==> workers[j] == Ended(true) then Writing else Over)
      || (next < |workers| && Count(workers, WorkerActive) < WorkerLimit(l)
          && t' == Fanning(next + 1, workers[next := Looking(Queued)]) && held' == held)
      || exists j :: WorkerStep(l, t, held, t', held', j)
  }

  ghost predicate WorkerStep(l: Limits, t: Task, held: nat, t': Task, held': int, j: nat) {
    && t.Fanning? && j < |t.workers| && t.workers[j].Looking?
    && if t.workers[j].call.Queued?
       then MayAcquire(l, held) && held' == held + 1 && t' == t.(workers := t.workers[j := Looking(InFlight)])
       else held' == held - 1 && (t' == t.(workers := t.workers[j := Ended(true)])
                                  || t' == t.(workers := t.workers[j := Ended(false)]))
  }

  /** A queued call is abandoned because its context is done; it never held a permit. */
  ghost predicate GiveUp(t: Task, t': Task) {
    || (t.Calling? && t.call.Queued? && t' == Over)
    || (t.Fanning? && exists j :: 0 <= j < |t.workers| && t.workers[j] == Looking(Queued)
                               && t' == t.(workers := t.workers[j := Ended(false)]))
  }

  /** Task k takes a step; acquiring a permit is counted as a call it has made. */
  ghost predicate TaskAdvances(l: Limits, s: State, s': State, k: nat, t': Task, held': int) {
    && k < s.next <= |s.tasks| == |s.made| && TaskStep(l, s.tasks[k], s.held, t', held') && held' >= 0
    && s' == s.(tasks := s.tasks[k := t'], held := held',
                made := s.made[k := s.made[k] + if held' > s.held then 1 else 0])
  }

  ghost predicate Advance(l: Limits, s: State, s': State) {
    LaunchTask(l, s, s') || exists k, t', held' :: TaskAdvances(l, s, s', k, t', held')
  }

  ghost predicate Abandon(s: State, s': State) {
    exists k, t' :: 0 <= k < |s.tasks| && GiveUp(s.tasks[k], t') && s' == s.(tasks := s.tasks[k := t'])
  }

  ghost predicate Init(s: State) {
    && s.next == 0 && s.held == 0 && |s.made| == |s.tasks|
    && forall k :: 0 <= k < |s.tasks| ==> s.tasks[k].Pending? && s.made[k] == 0
  }

  ghost predicate IsRun(l: Limits, run: seq<State>) {
    && run != [] && Init(run[0])
    && forall i :: 0 < i < |run| ==> Advance(l, run[i - 1], run[i]) || Abandon(run[i - 1], run[i])
  }

  predicate Final(s: State) { forall k :: 0 <= k < |s.tasks| ==> s.tasks[k].Over? }

  // ---------- what every run keeps ----------

  ghost predicate TaskOk(l: Limits, t: Task) {
    t.Fanning? ==>
      && t.next <= |t.workers| && Count(t.workers, WorkerActive) <= WorkerLimit(l)
      && forall j :: 0 <= j < |t.workers| ==> (t.workers[j].Idle? <==> t.next <= j)
  }

  ghost predicate Inv(l: Limits, s: State) {
    && s.next <= |s.tasks| == |s.made|
    && s.held == InFlightCalls(s)
    && (l.calls > 0 ==> s.held <= l.calls)
    && (l.tasks > 0 ==> ActiveTasks(s) <= l.tasks)
    && (forall k :: 0 <= k < |s.tasks| ==> TaskOk(l, s.tasks[k]) && (s.tasks[k].Pending? <==> s.next <= k))
  }

  lemma NoneCounted<T>(s: seq<T>, p: T -> bool)
    requires forall k :: 0 <= k < |s| ==> !p(s[k])
    ensures Count(s, p) == 0
  {
    CountPositive(s, p);
  }

  lemma {:induction false} SumZero<T>(s: seq<T>, f: T -> nat)
    ensures Sum(s, f) == 0 <==> forall k :: 0 <= k < |s| ==> f(s[k]) == 0
  {
    if s != [] {
      SumZero(s[..|s| - 1], f);
      assert forall k :: 0 <= k < |s| - 1 ==> s[..|s| - 1][k] == s[k];
    }
  }

  lemma FreshFan(l: Limits, lookups: nat)
    ensures TaskOk(l, AfterCalls(lookups)) && CallsInFlight(AfterCalls(lookups)) == 0
  {
    if lookups > 0 {
      var workers := seq(lookups, _ => Idle);
      NoneCounted(workers, WorkerActive);
      NoneCounted(workers, WorkerInFlight);
    }
  }

  lemma WorkerStepBalances(l: Limits, t: Task, held: nat, t': Task, held': int, j: nat)
    requires TaskOk(l, t) && WorkerStep(l, t, held, t', held', j)
    ensures TaskOk(l, t') && held' - held == CallsInFlight(t') - CallsInFlight(t)
    ensures l.calls > 0 && held <= l.calls ==> held' <= l.calls
  {
    CountUpdate(t.workers, j, t'.workers[j], WorkerActive);
    CountUpdate(t.workers, j, t'.workers[j], WorkerInFlight);
  }

  /** A task step keeps permits and calls in flight in step with each other. */
  lemma TaskStepBalances(l: Limits, t: Task, held: nat, t': Task, held': int)
    requires TaskOk(l, t) && TaskStep(l, t, held, t', held')
    ensures TaskOk(l, t') && held' - held == CallsInFlight(t') - CallsInFlight(t)
    ensures !t'.Pending? && TaskActive(t) && (l.calls > 0 && held <= l.calls ==> held' <= l.calls)
  {
    match t
    case Calling(left, lookups, call) => FreshFan(l, lookups);
    case Fanning(next, workers) =>
      if !t'.Fanning? {
        NoneCounted(workers, WorkerInFlight);
      } else if j: nat :| WorkerStep(l, t, held, t', held', j) {
        WorkerStepBalances(l, t, held, t', held', j);
      } else {
        CountUpdate(workers, next, Looking(Queued), WorkerActive);
        CountUpdate(workers, next, Looking(Queued), WorkerInFlight);
      }
    case _ =>
  }

  lemma GiveUpBalances(l: Limits, t: Task, t': Task)
    requires TaskOk(l, t) && GiveUp(t, t')
    ensures TaskOk(l, t') && CallsInFlight(t') == CallsInFlight(t) && !t'.Pending? && TaskActive(t)
  {
    if t.Fanning? {
      var j :| 0 <= j < |t.workers| && t.workers[j] == Looking(Queued) && t' == t.(workers := t.workers[j := Ended(false)]);
      CountUpdate(t.workers, j, Ended(false), WorkerActive);
      CountUpdate(t.workers, j, Ended(false), WorkerInFlight);
    }
  }

  lemma LaunchKeepsInv(l: Limits, s: State, s': State)
    requires Inv(l, s) && LaunchTask(l, s, s')
    ensures Inv(l, s')
  {
    var t' := Launched(s.tasks[s.next]);
    FreshFan(l, s.tasks[s.next].lookups);
    CountUpdate(s.tasks, s.next, t', TaskActive);
    SumUpdate(s.tasks, s.next, t', CallsInFlight);
  }

  /** Task k, active so far, becomes `t'`, with the permits in step. */
  lemma TaskChangeKeepsInv(l: Limits, s: State, s': State, k: nat, t': Task, held': nat)
    requires Inv(l, s) && k < |s.tasks| && TaskActive(s.tasks[k])
    requires |s'.made| == |s.made| && s' == s.(tasks := s.tasks[k := t'], held := held', made := s'.made)
    requires TaskOk(l, t') && !t'.Pending? && held' - s.held == CallsInFlight(t') - CallsInFlight(s.tasks[k])
    requires l.calls > 0 ==> held' <= l.calls
    ensures Inv(l, s')
  {
    CountUpdate(s.tasks, k, t', TaskActive);
    SumUpdate(s.tasks, k, t', CallsInFlight);
  }

  lemma NextKeepsInv(l: Limits, s: State, s': State)
    requires Inv(l, s) && (Advance(l, s, s') || Abandon(s, s'))
    ensures Inv(l, s')
  {
    if LaunchTask(l, s, s') {
      LaunchKeepsInv(l, s, s');
    } else if Advance(l, s, s') {
      var k: nat, t', held' :| TaskAdvances(l, s, s', k, t', held');
      TaskStepBalances(l, s.tasks[k], s.held, t', held');
      TaskChangeKeepsInv(l, s, s', k, t', held');
    } else {
      var k, t' :| 0 <= k < |s.tasks| && GiveUp(s.tasks[k], t') && s' == s.(tasks := s.tasks[k := t']);
      GiveUpBalances(l, s.tasks[k], t');
      TaskChangeKeepsInv(l, s, s', k, t', s.held);
    }
  }

  lemma InitInv(l: Limits, s: State)
    requires Init(s)
    ensures Inv(l, s)
  {
    NoneCounted(s.tasks, TaskActive);
    SumZero(s.tasks, CallsInFlight);
  }

  lemma {:induction false} RunKeepsInv(l: Limits, run: seq<State>, i: nat)
    requires IsRun(l, run) && i < |run|
    ensures Inv(l, run[i])
  {
    if i == 0 {
      InitInv(l, run[0]);
    } else {
      RunKeepsInv(l, run, i - 1);
      NextKeepsInv(l, run[i - 1], run[i]);
    }
  }

  /** Permits held are the calls in flight, never more than the cap, at every moment of every run. */
  lemma PermitsMatchCalls(l: Limits, run: seq<State>, i: nat)
    requires IsRun(l, run) && i < |run|
    ensures run[i].held == InFlightCalls(run[i])
    ensures l.calls > 0 ==> InFlightCalls(run[i]) <= l.calls
    ensures l.tasks > 0 ==> ActiveTasks(run[i]) <= l.tasks
    ensures forall k :: 0 <= k < |run[i].tasks| && run[i].tasks[k].Fanning?
              ==> Count(run[i].tasks[k].workers, WorkerActive) <= if l.workers <= 0 then 16 else l.workers
  {
    RunKeepsInv(l, run, i);
  }

  // ---------- no call is left out ----------

  predicate Unmade(w: Worker) { w.Idle? || w == Looking(Queued) }

  predicate Unsuccessful(w: Worker) { w == Ended(false) }

  /** How the calls a task has made add up with those it still has to make, to `total`. */
  ghost predicate AddsUp(t: Task, made: nat, total: nat) {
    match t
    case Pending(calls, lookups) => made == 0 && total == calls + lookups
    case Calling(left, lookups, call) => made + left + lookups + (if call.Queued? then 1 else 0) == total
    case Fanning(_, workers) =>
      made + Count(workers, Unmade) <= total <= made + Count(workers, Unmade) + Count(workers, Unsuccessful)
    case Writing => made == total
    case Over => made <= total
  }

  lemma AfterCallsAddsUp(lookups: nat, made: nat)
    ensures AddsUp(AfterCalls(lookups), made, made + lookups)
  {
    var workers := seq(lookups, _ => Idle);
    CountPositive(workers, Unmade);
    NoneCounted(workers, Unsuccessful);
  }

  lemma WorkerStepAddsUp(l: Limits, t: Task, held: nat, t': Task, held': int, j: nat, made: nat, total: nat)
    requires WorkerStep(l, t, held, t', held', j) && AddsUp(t, made, total)
    ensures AddsUp(t', made + (if held' > held then 1 else 0), total)
  {
    CountUpdate(t.workers, j, t'.workers[j], Unmade);
    CountUpdate(t.workers, j, t'.workers[j], Unsuccessful);
  }

  lemma TaskStepAddsUp(l: Limits, t: Task, held: nat, t': Task, held': int, made: nat, total: nat)
    requires TaskOk(l, t) && TaskStep(l, t, held, t', held') && AddsUp(t, made, total)
    ensures AddsUp(t', made + (if held' > held then 1 else 0), total)
  {
    match t
    case Calling(left, lookups, call) => AfterCallsAddsUp(lookups, made);
    case Fanning(next, workers) =>
      if !t'.Fanning? {
        NoneCounted(workers, Unmade);
        if t' == Writing {
          NoneCounted(workers, Unsuccessful);
        }
      } else if j: nat :| WorkerStep(l, t, held, t', held', j) {
        WorkerStepAddsUp(l, t, held, t', held', j, made, total);
      } else {
        CountUpdate(workers, next, Looking(Queued), Unmade);
        CountUpdate(workers, next, Looking(Queued), Unsuccessful);
      }
    case _ =>
  }

  lemma GiveUpAddsUp(t: Task, t': Task, made: nat, total: nat)
    requires GiveUp(t, t') && AddsUp(t, made, total)
    ensures AddsUp(t', made, total)
  {
    if t.Fanning? {
      var j :| 0 <= j < |t.workers| && t.workers[j] == Looking(Queued) && t' == t.(workers := t.workers[j := Ended(false)]);
      CountUpdate(t.workers, j, Ended(false), Unmade);
      CountUpdate(t.workers, j, Ended(false), Unsuccessful);
    }
  }

  /** What task k was to make when the run began. */
  ghost function Total(s: State, k: nat): nat
    requires k < |s.tasks| && s.tasks[k].Pending?
  {
    s.tasks[k].calls + s.tasks[k].lookups
  }

  lemma NextAddsUp(l: Limits, s: State, s': State, k: nat, total: nat)
    requires Inv(l, s) && (Advance(l, s, s') || Abandon(s, s')) && k < |s.tasks| && AddsUp(s.tasks[k], s.made[k], total)
    ensures |s'.tasks| == |s'.made| == |s.tasks| && AddsUp(s'.tasks[k], s'.made[k], total)
  {
    if LaunchTask(l, s, s') {
      LaunchAddsUp(s.tasks[s.next], s.made[s.next]);
    } else if Advance(l, s, s') {
      var m: nat, t', held' :| TaskAdvances(l, s, s', m, t', held');
      AdvanceAddsUp(l, s, s', m, t', held', k, total);
    } else {
      var m, t' :| 0 <= m < |s.tasks| && GiveUp(s.tasks[m], t') && s' == s.(tasks := s.tasks[m := t']);
      if m == k {
        GiveUpAddsUp(s.tasks[k], t', s.made[k], total);
      }
    }
  }

  lemma LaunchAddsUp(t: Task, made: nat)
    requires t.Pending?
    ensures forall total: nat :: AddsUp(t, made, total) ==> AddsUp(Launched(t), made, total)
  {
    AfterCallsAddsUp(t.lookups, made);
  }

  lemma AdvanceAddsUp(l: Limits, s: State, s': State, m: nat, t': Task, held': int, k: nat, total: nat)
    requires TaskAdvances(l, s, s', m, t', held') && TaskOk(l, s.tasks[m])
    requires k < |s.tasks| && AddsUp(s.tasks[k], s.made[k], total)
    ensures |s'.tasks| == |s'.made| == |s.tasks| && AddsUp(s'.tasks[k], s'.made[k], total)
  {
    if m == k {
      TaskStepAddsUp(l, s.tasks[k], s.held, t', held', s.made[k], total);
    }
  }

  lemma {:induction false} RunAddsUp(l: Limits, run: seq<State>, i: nat, k: nat)
    requires IsRun(l, run) && i < |run| && k < |run[0].tasks|
    ensures |run[i].tasks| == |run[i].made| == |run[0].tasks|
    ensures AddsUp(run[i].tasks[k], run[i].made[k], Total(run[0], k))
  {
    if i > 0 {
      RunAddsUp(l, run, i - 1, k);
      RunKeepsInv(l, run, i - 1);
      NextAddsUp(l, run[i - 1], run[i], k, Total(run[0], k));
    }
  }

  /**
   A task writes its file only after every one of its calls and lookups has had a permit; and
   no task ever acquires more permits than it has calls and lookups.
   */
  lemma WritesAfterAllCalls(l: Limits, run: seq<State>, i: nat, k: nat)
    requires IsRun(l, run) && i < |run| && k < |run[0].tasks|
    ensures |run[i].tasks| == |run[i].made| == |run[0].tasks|
    ensures run[i].made[k] <= run[0].tasks[k].calls + run[0].tasks[k].lookups
    ensures run[i].tasks[k].Writing? ==> run[i].made[k] == run[0].tasks[k].calls + run[0].tasks[k].lookups
  {
    RunAddsUp(l, run, i, k);
  }

  // ---------- progress ----------

  /** An active task whose calls are all queued can step, given a free permit. */
  lemma ActiveTaskSteps(l: Limits, t: Task, held: nat) returns (t': Task, held': int)
    requires TaskOk(l, t) && TaskActive(t)
    requires MayAcquire(l, held) || CallsInFlight(t) > 0
    requires held >= CallsInFlight(t)
    ensures TaskStep(l, t, held, t', held') && held' >= 0
  {
    match t
    case Calling(left, lookups, Queued) => t', held' := Calling(left, lookups, InFlight), held + 1;
    case Calling(left, lookups, InFlight) =>
      t', held' := if left > 0 then Calling(left - 1, lookups, Queued) else AfterCalls(lookups), held - 1;
    case Writing => t', held' := Over, held;
    case Fanning(next, workers) =>
      CountPositive(workers, WorkerInFlight);
      if j :| 0 <= j < |workers| && WorkerInFlight(workers[j]) {
        t', held' := t.(workers := workers[j := Ended(true)]), held - 1;
        assert WorkerStep(l, t, held, t', held', j);
      } else if j :| 0 <= j < |workers| && WorkerActive(workers[j]) {
        t', held' := t.(workers := workers[j := Looking(InFlight)]), held + 1;
        assert WorkerStep(l, t, held, t', held', j);
      } else if next < |workers| {
        NoneCounted(workers, WorkerActive);
        t', held' := Fanning(next + 1, workers[next := Looking(Queued)]), held;
      } else {
        held' := held;
        t' := if forall j :: 0 <= j < |workers| ==> workers[j] == Ended(true) then Writing else Over;
      }
  }

  lemma {:induction false} SumBound<T>(s: seq<T>, f: T -> nat, k: nat)
    requires k < |s|
    ensures f(s[k]) <= Sum(s, f)
  {
    if k < |s| - 1 {
      SumBound(s[..|s| - 1], f, k);
    }
  }

  /**
   No deadlock: nothing waits while holding a permit, so until every task is over some step
   other than giving up is possible.
   */
  lemma AlwaysAdvances(l: Limits, run: seq<State>, i: nat)
    requires IsRun(l, run) && i < |run| && !Final(run[i])
    ensures exists s' :: Advance(l, run[i], s')
  {
    RunKeepsInv(l, run, i);
    var s := run[i];
    var k: int;
    if busy :| 0 <= busy < |s.tasks| && CallsInFlight(s.tasks[busy]) > 0 {
      k := busy;
    } else {
      SumZero(s.tasks, CallsInFlight);
      if active :| 0 <= active < |s.tasks| && TaskActive(s.tasks[active]) {
        k := active;
      } else {
        NoneCounted(s.tasks, TaskActive);
        var s' := s.(tasks := s.tasks[s.next := Launched(s.tasks[s.next])], next := s.next + 1);
        assert LaunchTask(l, s, s');
        assert Advance(l, s, s');
        return;
      }
    }
    SumBound(s.tasks, CallsInFlight, k);
    var t', held' := ActiveTaskSteps(l, s.tasks[k], s.held);
    var made := s.made[k := s.made[k] + if held' > s.held then 1 else 0];
    var s' := s.(tasks := s.tasks[k := t'], held := held', made := made);
    assert TaskAdvances(l, s, s', k, t', held');
    assert Advance(l, s, s');
  }

  // ---------- every run ends ----------

  function WorkerRank(w: Worker): nat {
    match w
    case Idle => 3
    case Looking(Queued) => 2
    case Looking(InFlight) => 1
    case Ended(_) => 0
  }

  function TaskRank(t: Task): nat {
    match t
    case Pending(calls, lookups) => 2 * calls + 3 * lookups + 3
    case Calling(left, lookups, call) => 2 * left + 3 * lookups + 2 + if call.Queued? then 2 else 1
    case Fanning(_, workers) => Sum(workers, WorkerRank) + 2
    case Writing => 1
    case Over => 0
  }

  function Remaining(s: State): nat { Sum(s.tasks, TaskRank) }

  lemma {:induction false} IdleRank(workers: seq<Worker>)
    requires forall j :: 0 <= j < |workers| ==> workers[j].Idle?
    ensures Sum(workers, WorkerRank) == 3 * |workers|
  {
    if workers != [] {
      IdleRank(workers[..|workers| - 1]);
    }
  }

  lemma TaskStepDescends(l: Limits, t: Task, held: nat, t': Task, held': int)
    requires TaskOk(l, t) && (TaskStep(l, t, held, t', held') || GiveUp(t, t'))
    ensures TaskRank(t') < TaskRank(t)
  {
    match t
    case Calling(_, lookups, _) => IdleRank(seq(lookups, _ => Idle));
    case Fanning(next, workers) =>
      if t'.Fanning? {
        if j: nat :| WorkerStep(l, t, held, t', held', j) {
          SumUpdate(workers, j, t'.workers[j], WorkerRank);
        } else if j :| 0 <= j < |workers| && workers[j] == Looking(Queued)
                       && t' == t.(workers := workers[j := Ended(false)]) {
          SumUpdate(workers, j, Ended(false), WorkerRank);
        } else {
          SumUpdate(workers, next, Looking(Queued), WorkerRank);
        }
      }
    case _ =>
  }

  /** Every step, giving up included, uses up some of a finite budget. */
  lemma StepsDescend(l: Limits, s: State, s': State)
    requires Inv(l, s) && (Advance(l, s, s') || Abandon(s, s'))
    ensures Remaining(s') < Remaining(s)
  {
    if LaunchTask(l, s, s') {
      var t := s.tasks[s.next];
      IdleRank(seq(t.lookups, _ => Idle));
      SumUpdate(s.tasks, s.next, Launched(t), TaskRank);
    } else if Advance(l, s, s') {
      var k: nat, t', held' :| TaskAdvances(l, s, s', k, t', held');
      TaskStepDescends(l, s.tasks[k], s.held, t', held');
      SumUpdate(s.tasks, k, t', TaskRank);
    } else {
      var k, t' :| 0 <= k < |s.tasks| && GiveUp(s.tasks[k], t') && s' == s.(tasks := s.tasks[k := t']);
      TaskStepDescends(l, s.tasks[k], s.held, t', s.held);
      SumUpdate(s.tasks, k, t', TaskRank);
    }
  }
}
