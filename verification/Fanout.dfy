/** The bounded concurrent history lookups behind a rewind: internal/datasource/repo.go. */
module Fanout {
  import opened Core
  import opened Rewind

  /** What one call works on; `outcomes[i]` is what looking up tag i's history yields. */
  datatype Problem = Problem(tags: seq<Tag>, cutoff: Time, limit: nat, outcomes: seq<Outcome>)

  ghost predicate WellPosed(p: Problem) {
    p.limit > 0 && |p.outcomes| == |p.tags|
  }

  /** The indices of the tags whose history is needed, ascending. */
  function Need(tags: seq<Tag>, cutoff: Time): (need: seq<nat>)
    ensures forall k :: 0 <= k < |need| ==> need[k] < |tags| && NeedsHistory(tags[need[k]], cutoff)
    ensures forall i :: 0 <= i < |tags| && NeedsHistory(tags[i], cutoff) ==> i in need
    ensures forall j, k :: 0 <= j < k < |need| ==> need[j] < need[k]
  {
    if tags == [] then []
    else
      var n := |tags| - 1;
      Need(tags[..n], cutoff) + if NeedsHistory(tags[n], cutoff) then [n] else []
  }

  /** What the sequential pass over the tags puts into a slot. */
  function InitialSlot(t: Tag, cutoff: Time): Option<Release> {
    if t.lastUpdated != 0 && t.lastUpdated <= cutoff then Some(CurrentRelease(t)) else None
  }

  datatype Worker =
    | Unlaunched
    | Looking               // the history lookup is in flight
    | Found(hist: History)  // the lookup returned; the scan and the slot are still to do
    | Done
    | Failed

  /** `failed` is the error group's recorded error; `cancelled` is the caller's context. */
  datatype State = State(
    workers: seq<Worker>,
    next: nat,
    slots: seq<Option<Release>>,
    failed: bool,
    cancelled: bool)

  predicate IsActive(w: Worker) { w.Looking? || w.Found? }

  predicate IsLooking(w: Worker) { w.Looking? }

  function Active(s: State): nat { Count(s.workers, IsActive) }

  function InFlight(s: State): nat { Count(s.workers, IsLooking) }

  ghost predicate Init(p: Problem, s: State)
    requires WellPosed(p)
  {
    && |s.workers| == |Need(p.tags, p.cutoff)| && (forall k :: 0 <= k < |s.workers| ==> s.workers[k] == Unlaunched)
    && s.next == 0 && !s.failed && !s.cancelled
    && |s.slots| == |p.tags| && (forall i :: 0 <= i < |p.tags| ==> s.slots[i] == InitialSlot(p.tags[i], p.cutoff))
  }

  ghost predicate Shaped(p: Problem, s: State) {
    && WellPosed(p) && |s.slots| == |p.tags|
    && |s.workers| == |Need(p.tags, p.cutoff)| && s.next <= |s.workers|
  }

  /** `eg.Go`: the next worker starts once fewer than `limit` are active. */
  ghost predicate Launch(p: Problem, s: State, s': State)
    requires Shaped(p, s)
  {
    && s.next < |s.workers| && Active(s) < p.limit
    && s' == s.(workers := s.workers[s.next := Looking], next := s.next + 1)
  }

  ghost predicate LookupReturns(p: Problem, s: State, s': State, k: nat)
    requires Shaped(p, s)
  {
    && k < |s.workers| && s.workers[k].Looking?
    && var o := p.outcomes[Need(p.tags, p.cutoff)[k]];
      o.Ok? && s' == s.(workers := s.workers[k := Found(o.value)])
  }

  /** A lookup fails by itself, or because a sibling's failure or the caller cancelled it. */
  ghost predicate LookupFails(p: Problem, s: State, s': State, k: nat)
    requires Shaped(p, s)
  {
    && k < |s.workers| && s.workers[k].Looking?
    && (p.outcomes[Need(p.tags, p.cutoff)[k]].Err? || s.failed || s.cancelled)
    && s' == s.(workers := s.workers[k := Failed], failed := true)
  }

  /** The worker scans what it found and writes its own slot, if anything is old enough. */
  ghost predicate Write(p: Problem, s: State, s': State, k: nat)
    requires Shaped(p, s)
  {
    && k < |s.workers| && s.workers[k].Found?
    && var i := Need(p.tags, p.cutoff)[k];
      var r := RewoundRelease(p.tags[i], p.cutoff, s.workers[k].hist);
      s' == s.(workers := s.workers[k := Done], slots := if r.Some? then s.slots[i := r] else s.slots)
  }

  ghost predicate Cancel(s: State, s': State) {
    !s.cancelled && s' == s.(cancelled := true)
  }

  ghost predicate WorkerStep(p: Problem, s: State, s': State, k: nat)
    requires Shaped(p, s)
  {
    LookupReturns(p, s, s', k) || LookupFails(p, s, s', k) || Write(p, s, s', k)
  }

  ghost predicate Next(p: Problem, s: State, s': State) {
    && Shaped(p, s)
    && (Launch(p, s, s') || Cancel(s, s') || exists k :: WorkerStep(p, s, s', k))
  }

  /** `eg.Wait` has returned. */
  predicate Final(s: State) {
    s.next == |s.workers| && forall k :: 0 <= k < |s.workers| ==> s.workers[k].Done? || s.workers[k].Failed?
  }

  ghost predicate IsRun(p: Problem, run: seq<State>) {
    && WellPosed(p) && run != [] && Init(p, run[0])
    && forall i :: 0 < i < |run| ==> Next(p, run[i - 1], run[i])
  }

  // ---------- what every interleaving keeps ----------

  /** Worker k's slot holds the rewound release once it is done, and nothing before. */
  ghost predicate WorkerOk(p: Problem, s: State, k: nat)
    requires Shaped(p, s) && k < |s.workers|
  {
    var i := Need(p.tags, p.cutoff)[k];
    var o := p.outcomes[i];
    match s.workers[k]
    case Unlaunched => s.next <= k && s.slots[i] == None
    case Looking => k < s.next && s.slots[i] == None
    case Found(hist) => k < s.next && s.slots[i] == None && o == Ok(hist)
    case Done => k < s.next && o.Ok? && s.slots[i] == RewoundRelease(p.tags[i], p.cutoff, o.value)
    case Failed => k < s.next && s.slots[i] == None && s.failed
  }

  ghost predicate NeededLookupFails(p: Problem)
    requires WellPosed(p)
  {
    exists i :: 0 <= i < |p.tags| && NeedsHistory(p.tags[i], p.cutoff) && p.outcomes[i].Err?
  }

  ghost predicate Inv(p: Problem, s: State) {
    && Shaped(p, s)
    && Active(s) <= p.limit
    && (forall k :: 0 <= k < |s.workers| ==> WorkerOk(p, s, k))
    && (forall i :: 0 <= i < |p.tags| && !NeedsHistory(p.tags[i], p.cutoff) ==> s.slots[i] == InitialSlot(p.tags[i], p.cutoff))
    && (s.failed ==> s.cancelled || NeededLookupFails(p))
    && (s.failed <==> SomeFailed(s))
  }

  ghost predicate SomeFailed(s: State) { exists k :: 0 <= k < |s.workers| && s.workers[k].Failed? }

  lemma FailuresAfter(s: State, s': State, k: nat)
    requires k < |s.workers| == |s'.workers| && !s.workers[k].Failed?
    requires s'.workers == s.workers[k := s'.workers[k]]
    ensures SomeFailed(s') <==> SomeFailed(s) || s'.workers[k].Failed?
  {
    if j :| 0 <= j < |s.workers| && s.workers[j].Failed? {
      assert s'.workers[j].Failed?;
    }
  }

  lemma {:induction false} NoneActive(workers: seq<Worker>)
    requires forall k :: 0 <= k < |workers| ==> workers[k] == Unlaunched
    ensures Count(workers, IsActive) == 0
  {
    if workers != [] {
      NoneActive(workers[..|workers| - 1]);
    }
  }

  lemma InitInv(p: Problem, s: State)
    requires WellPosed(p) && Init(p, s)
    ensures Inv(p, s)
  {
    NoneActive(s.workers);
    forall k | 0 <= k < |s.workers| ensures WorkerOk(p, s, k) {
      assert NeedsHistory(p.tags[Need(p.tags, p.cutoff)[k]], p.cutoff);
    }
  }

  /** Workers own disjoint slots, so another worker's step cannot disturb this one. */
  lemma OthersUndisturbed(p: Problem, s: State, s': State, k: nat, j: nat)
    requires Inv(p, s) && WorkerStep(p, s, s', k) && j < |s.workers| && j != k
    ensures Shaped(p, s') && WorkerOk(p, s', j)
  {
    var need := Need(p.tags, p.cutoff);
    assert WorkerOk(p, s, j);
    assert need[j] != need[k];
  }

  lemma WorkerStepKeepsInv(p: Problem, s: State, s': State, k: nat)
    requires Inv(p, s) && WorkerStep(p, s, s', k)
    ensures Inv(p, s')
  {
    assert WorkerOk(p, s, k);
    CountUpdate(s.workers, k, s'.workers[k], IsActive);
    assert s'.workers == s.workers[k := s'.workers[k]];
    FailuresAfter(s, s', k);
    forall j | 0 <= j < |s'.workers| ensures WorkerOk(p, s', j) {
      if j != k {
        OthersUndisturbed(p, s, s', k, j);
      }
    }
    assert NeedsHistory(p.tags[Need(p.tags, p.cutoff)[k]], p.cutoff);
  }

  lemma LaunchKeepsInv(p: Problem, s: State, s': State)
    requires Inv(p, s) && Launch(p, s, s')
    ensures Inv(p, s')
  {
    assert WorkerOk(p, s, s.next);
    CountUpdate(s.workers, s.next, Looking, IsActive);
    FailuresAfter(s, s', s.next);
    forall j | 0 <= j < |s'.workers| ensures WorkerOk(p, s', j) {
      assert WorkerOk(p, s, j);
    }
  }

  lemma CancelKeepsInv(p: Problem, s: State, s': State)
    requires Inv(p, s) && Cancel(s, s')
    ensures Inv(p, s')
  {
    forall j | 0 <= j < |s'.workers| ensures WorkerOk(p, s', j) {
      assert WorkerOk(p, s, j);
    }
  }

  lemma NextKeepsInv(p: Problem, s: State, s': State)
    requires Inv(p, s) && Next(p, s, s')
    ensures Inv(p, s')
  {
    if Launch(p, s, s') {
      LaunchKeepsInv(p, s, s');
    } else if Cancel(s, s') {
      CancelKeepsInv(p, s, s');
    } else {
      var k: nat :| WorkerStep(p, s, s', k);
      WorkerStepKeepsInv(p, s, s', k);
    }
  }

  lemma {:induction false} RunKeepsInv(p: Problem, run: seq<State>, i: nat)
    requires IsRun(p, run) && i < |run|
    ensures Inv(p, run[i])
  {
    if i == 0 {
      InitInv(p, run[0]);
    } else {
      RunKeepsInv(p, run, i - 1);
      NextKeepsInv(p, run[i - 1], run[i]);
    }
  }

  lemma {:induction false} LookingIsActive(workers: seq<Worker>)
    ensures Count(workers, IsLooking) <= Count(workers, IsActive)
  {
    if workers != [] {
      LookingIsActive(workers[..|workers| - 1]);
    }
  }

  /** In every interleaving the lookups in flight never exceed the limit. */
  lemma LookupsBounded(p: Problem, run: seq<State>, i: nat)
    requires IsRun(p, run) && i < |run|
    ensures InFlight(run[i]) <= Active(run[i]) <= p.limit
  {
    RunKeepsInv(p, run, i);
    LookingIsActive(run[i].workers);
  }

  /** The step of `s` to `s'` fills slot i, by the worker it belongs to. */
  ghost predicate OwnWrite(p: Problem, s: State, s': State, i: nat)
    requires Shaped(p, s) && |s'.workers| == |s.workers| && i < |p.tags|
  {
    s.slots[i] == None &&
    exists k :: 0 <= k < |s.workers| && Need(p.tags, p.cutoff)[k] == i && s.workers[k].Found? && s'.workers[k] == Done
  }

  lemma WriteIsOwn(p: Problem, s: State, s': State, i: nat, k: nat)
    requires Inv(p, s) && WorkerStep(p, s, s', k) && i < |p.tags|
    ensures |s'.slots| == |s.slots| && |s'.workers| == |s.workers|
    ensures s'.slots[i] != s.slots[i] ==> OwnWrite(p, s, s', i)
  {
    assert WorkerOk(p, s, k);
  }

  /** A slot changes only from empty, and only by its own worker, which is then done. */
  lemma SlotWrittenOnce(p: Problem, s: State, s': State, i: nat)
    requires Inv(p, s) && Next(p, s, s') && i < |p.tags|
    ensures |s'.workers| == |s.workers| && |s'.slots| == |s.slots|
    ensures s'.slots[i] != s.slots[i] ==> OwnWrite(p, s, s', i)
  {
    if s'.slots != s.slots {
      var k: nat :| WorkerStep(p, s, s', k);
      WriteIsOwn(p, s, s', i, k);
    }
  }

  /** Over a whole run, a slot that changes keeps its new value for ever. */
  lemma {:induction false} SlotKeepsItsValue(p: Problem, run: seq<State>, i: nat, n: nat, m: nat)
    requires IsRun(p, run) && 0 < n <= m < |run| && i < |p.tags|
    ensures Inv(p, run[n - 1]) && Inv(p, run[n]) && Inv(p, run[m])
    ensures run[n].slots[i] != run[n - 1].slots[i] ==>
      OwnWrite(p, run[n - 1], run[n], i) && run[n].slots[i].Some? && run[m].slots[i] == run[n].slots[i]
    decreases m
  {
    RunKeepsInv(p, run, n - 1);
    RunKeepsInv(p, run, n);
    RunKeepsInv(p, run, m);
    SlotWrittenOnce(p, run[n - 1], run[n], i);
    if m > n {
      SlotKeepsItsValue(p, run, i, n, m - 1);
      SlotWrittenOnce(p, run[m - 1], run[m], i);
    }
  }

  // ---------- the result ----------

  ghost function Answer(p: Problem, s: State): Result<seq<Release>, LookupError> {
    if s.failed then Err(LookupFailed) else Ok(Compact(s.slots))
  }

  lemma FinalSlots(p: Problem, s: State)
    requires Inv(p, s) && Final(s) && !s.failed
    ensures s.slots == RewindAll(p.tags, p.cutoff, p.outcomes)
    ensures !NeededLookupFails(p)
  {
    var need := Need(p.tags, p.cutoff);
    forall i | 0 <= i < |p.tags|
      ensures s.slots[i] == RewindTag(p.tags[i], p.cutoff, HistoryOf(p.outcomes[i]))
      ensures NeedsHistory(p.tags[i], p.cutoff) ==> p.outcomes[i].Ok?
    {
      if NeedsHistory(p.tags[i], p.cutoff) {
        var k :| 0 <= k < |need| && need[k] == i;
        assert WorkerOk(p, s, k);
      }
    }
  }

  /**
   Refinement: however the workers interleave, a run that ends answers the sequential per-tag
   rewind in input order, or an error and no releases. It is an error exactly when some worker
   failed, and without cancellation exactly when some needed lookup fails.
   */
  lemma FanoutRefinesRewind(p: Problem, run: seq<State>)
    requires IsRun(p, run) && Final(run[|run| - 1])
    ensures var last := run[|run| - 1];
      && (Answer(p, last).Ok? ==> Answer(p, last).value == Compact(RewindAll(p.tags, p.cutoff, p.outcomes)))
      && (Answer(p, last).Ok? ==> OnePerTag(Answer(p, last).value, p.tags, p.cutoff, p.outcomes))
      && (Answer(p, last).Err? <==> SomeFailed(last))
      && (NeededLookupFails(p) ==> Answer(p, last).Err?)
      && (Answer(p, last).Err? ==> last.cancelled || NeededLookupFails(p))
  {
    RunKeepsInv(p, run, |run| - 1);
    if !run[|run| - 1].failed {
      FinalSlots(p, run[|run| - 1]);
      RewoundOnePerTag(p.tags, p.cutoff, p.outcomes);
    }
  }

  // ---------- progress ----------

  function Rank(w: Worker): nat {
    match w
    case Unlaunched => 3
    case Looking => 2
    case Found(_) => 1
    case _ => 0
  }

  function Remaining(s: State): nat { Sum(s.workers, Rank) + if s.cancelled then 0 else 1 }

  lemma WorkerStepDecreases(p: Problem, s: State, s': State, k: nat)
    requires Shaped(p, s) && WorkerStep(p, s, s', k)
    ensures Remaining(s') < Remaining(s)
  {
    assert s'.workers == s.workers[k := s'.workers[k]];
    SumUpdate(s.workers, k, s'.workers[k], Rank);
  }

  /** No run goes on for ever: every step uses up some of a finite budget. */
  lemma NextDecreases(p: Problem, s: State, s': State)
    requires Inv(p, s) && Next(p, s, s')
    ensures Remaining(s') < Remaining(s)
  {
    if Launch(p, s, s') {
      assert WorkerOk(p, s, s.next);
      SumUpdate(s.workers, s.next, Looking, Rank);
    } else if !Cancel(s, s') {
      var k: nat :| WorkerStep(p, s, s', k);
      WorkerStepDecreases(p, s, s', k);
    }
  }

  lemma StuckIsFinal(p: Problem, s: State)
    requires Inv(p, s) && s.next == |s.workers|
    requires forall k :: 0 <= k < |s.workers| ==> !IsActive(s.workers[k])
    ensures Final(s)
  {
    forall k | 0 <= k < |s.workers| ensures s.workers[k].Done? || s.workers[k].Failed? {
      assert WorkerOk(p, s, k);
    }
  }

  lemma NoActiveWorker(s: State)
    requires forall k :: 0 <= k < |s.workers| ==> !IsActive(s.workers[k])
    ensures Active(s) == 0
  {
    CountPositive(s.workers, IsActive);
  }

  /** No run gets stuck: until the end, and whoever cancels, a worker can step or start. */
  lemma FanoutProgress(p: Problem, run: seq<State>, i: nat)
    requires IsRun(p, run) && i < |run| && !Final(run[i])
    ensures exists s' :: Next(p, run[i], s') && s'.cancelled == run[i].cancelled
  {
    RunKeepsInv(p, run, i);
    var s := run[i];
    var need := Need(p.tags, p.cutoff);
    if k :| 0 <= k < |s.workers| && IsActive(s.workers[k]) {
      var o := p.outcomes[need[k]];
      var r := if s.workers[k].Found? then RewoundRelease(p.tags[need[k]], p.cutoff, s.workers[k].hist) else None;
      var s' :=
        if s.workers[k].Found? then
          s.(workers := s.workers[k := Done], slots := if r.Some? then s.slots[need[k] := r] else s.slots)
        else if o.Ok? then s.(workers := s.workers[k := Found(o.value)])
        else s.(workers := s.workers[k := Failed], failed := true);
      assert WorkerStep(p, s, s', k);
      assert Next(p, s, s');
    } else {
      NoActiveWorker(s);
      if s.next < |s.workers| {
        assert Next(p, s, s.(workers := s.workers[s.next := Looking], next := s.next + 1));
      } else {
        StuckIsFinal(p, s);
        assert false;
      }
    }
  }
}
