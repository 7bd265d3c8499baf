/** Release queries over registry tags: internal/datasource/repo.go. */
module RepoReleases {
  import opened Core
  import opened Paths
  import opened Rewind
  import Fanout

  /** How listing a repo's tags can fail. */
  datatype TagsError = RepoNotFound | OtherFailure

  method ScanHistory(hist: History, cutoff: Time) returns (best: Option<TagHistory>)
    ensures best.None? ==> forall h :: h in hist ==> !Eligible(h.updateTimestamp, cutoff)
    ensures best.Some? ==> exists k: nat :: FirstLatest(hist, cutoff, k) && hist[k] == best.value
    ensures best == Best(hist, cutoff)
  {
    best := None;
    var j := 0;
    while j < |hist|
      invariant 0 <= j <= |hist|
      invariant best == Best(hist[..j], cutoff)
    {
      var e := hist[j];
      assert hist[..j + 1][..j] == hist[..j];
      j := j + 1;
      if e.updateTimestamp == 0 || e.updateTimestamp > cutoff {
        continue;
      }
      if best.None? || e.updateTimestamp > best.value.updateTimestamp {
        best := Some(e);
      }
    }
    assert hist[..|hist|] == hist;
    BestMeaning(hist, cutoff);
    EligibleInHistory(hist, cutoff);
  }

  method TagsToReleases(tags: seq<Tag>) returns (out: seq<Release>)
    ensures |out| == |tags|
    ensures forall i :: 0 <= i < |tags| ==> out[i] == CurrentRelease(tags[i])
  {
    out := [];
    var i := 0;
    while i < |tags|
      invariant 0 <= i <= |tags| && |out| == i
      invariant forall j :: 0 <= j < i ==> out[j] == CurrentRelease(tags[j])
    {
      out := out + [Release(tags[i].name, tags[i].lastUpdated, tags[i].digest)];
      i := i + 1;
    }
  }

  lemma NeedSnoc(tags: seq<Tag>, i: nat, cutoff: Time)
    requires i < |tags|
    ensures Fanout.Need(tags[..i + 1], cutoff)
         == Fanout.Need(tags[..i], cutoff) + if NeedsHistory(tags[i], cutoff) then [i] else []
  {
    assert tags[..i + 1][..i] == tags[..i];
  }

  /** Settle tag i in place, unless its history is needed. */
  method ClassifyTag(t: Tag, cutoff: Time, slots: array<Option<Release>>, i: nat) returns (needed: bool)
    requires i < slots.Length && slots[i] == None
    modifies slots
    ensures needed == NeedsHistory(t, cutoff)
    ensures slots[i] == Fanout.InitialSlot(t, cutoff)
    ensures forall j :: 0 <= j < slots.Length && j != i ==> slots[j] == old(slots[j])
  {
    needed := false;
    if t.lastUpdated != 0 {
      if t.lastUpdated <= cutoff {
        slots[i] := Some(Release(t.name, t.lastUpdated, t.digest));
      } else {
        needed := true;
      }
    }
  }

  /** The sequential pass: settle what needs no lookup and note down what does. */
  method Classify(tags: seq<Tag>, cutoff: Time, slots: array<Option<Release>>) returns (need: seq<nat>)
    requires slots.Length == |tags| && forall i :: 0 <= i < |tags| ==> slots[i] == None
    modifies slots
    ensures need == Fanout.Need(tags, cutoff)
    ensures forall i :: 0 <= i < |tags| ==> slots[i] == Fanout.InitialSlot(tags[i], cutoff)
  {
    need := [];
    var i := 0;
    while i < |tags|
      invariant 0 <= i <= |tags|
      invariant need == Fanout.Need(tags[..i], cutoff)
      invariant forall j :: 0 <= j < i ==> slots[j] == Fanout.InitialSlot(tags[j], cutoff)
      invariant forall j :: i <= j < |tags| ==> slots[j] == None
    {
      NeedSnoc(tags, i, cutoff);
      var needed := ClassifyTag(tags[i], cutoff, slots, i);
      if needed {
        need := need + [i];
      }
      i := i + 1;
    }
    assert tags[..|tags|] == tags;
  }

  method CollectSlots(slots: array<Option<Release>>) returns (out: seq<Release>)
    ensures out == Compact(slots[..])
    ensures exists pick :: FilledSlots(out, slots[..], pick)
    ensures |out| == |set i | 0 <= i < slots.Length && slots[i].Some?|
  {
    out := [];
    var i := 0;
    while i < slots.Length
      invariant 0 <= i <= slots.Length
      invariant out == Compact(slots[..i])
    {
      assert slots[..i + 1] == slots[..i] + [slots[i]];
      CompactAppend(slots[..i], [slots[i]]);
      assert [slots[i]][1..] == [];
      if slots[i].Some? {
        out := out + [slots[i].value];
      }
      i := i + 1;
    }
    assert slots[..slots.Length] == slots[..];
    ghost var pick := CompactPicks(slots[..]);
    PickCount(pick, slots.Length);
    assert (set i | 0 <= i < slots.Length && i in pick) == (set i | 0 <= i < slots.Length && slots[i].Some?);
  }

  /**
   One scheduler decision about worker k: its lookup comes back or fails, or it scans what it
   found and writes its slot in place.
   */
  method RunWorker(ghost p: Fanout.Problem, s: Fanout.State, k: nat, idx: nat, t: Tag, cutoff: Time, o: Outcome,
                   slots: array<Option<Release>>)
    returns (s': Fanout.State)
    requires Fanout.Inv(p, s) && slots[..] == s.slots
    requires k < |s.workers| && Fanout.IsActive(s.workers[k])
    requires idx == Fanout.Need(p.tags, p.cutoff)[k] && t == p.tags[idx] && cutoff == p.cutoff && o == p.outcomes[idx]
    modifies slots
    ensures Fanout.WorkerStep(p, s, s', k) && slots[..] == s'.slots
  {
    if s.workers[k].Found? {
      var best := ScanHistory(s.workers[k].hist, cutoff);
      s' := s.(workers := s.workers[k := Fanout.Done]);
      if best.Some? {
        var r := Some(Release(t.name, best.value.updateTimestamp, best.value.digest));
        slots[idx] := r;
        s' := s'.(slots := s.slots[idx := r]);
      }
    } else {
      var giveUp: bool := *;
      if o.Err? || (giveUp && (s.failed || s.cancelled)) {
        s' := s.(workers := s.workers[k := Fanout.Failed], failed := true);
      } else {
        s' := s.(workers := s.workers[k := Fanout.Found(o.value)]);
      }
    }
  }

  /** One decision of the scheduler: the caller gives up, a lookup starts, or a worker moves on. */
  method Schedule(p: Fanout.Problem, s: Fanout.State, need: seq<nat>, slots: array<Option<Release>>)
    returns (s': Fanout.State)
    requires Fanout.Inv(p, s) && !Fanout.Final(s) && need == Fanout.Need(p.tags, p.cutoff) && slots[..] == s.slots
    modifies slots
    ensures Fanout.Next(p, s, s') && slots[..] == s'.slots
  {
    var cancelNow, launch: bool := *, *;
    if cancelNow && !s.cancelled {
      s' := s.(cancelled := true);
    } else if s.next < |need| && Fanout.Active(s) < p.limit && (launch || Fanout.Active(s) == 0) {
      s' := s.(workers := s.workers[s.next := Fanout.Looking], next := s.next + 1);
    } else {
      ActiveExists(p, s);
      var k :| 0 <= k < |s.workers| && Fanout.IsActive(s.workers[k]);
      s' := RunWorker(p, s, k, need[k], p.tags[need[k]], p.cutoff, p.outcomes[need[k]], slots);
    }
  }

  /** Some tag is newer than the cutoff and the lookup of its history fails. */
  ghost predicate NeededFails(tags: seq<Tag>, cutoff: Time, outcomes: seq<Outcome>)
    requires |outcomes| == |tags|
  {
    exists i :: 0 <= i < |tags| && tags[i].lastUpdated != 0 && tags[i].lastUpdated > cutoff && outcomes[i].Err?
  }

  /**
   The whole call under an arbitrary scheduler. `cancelled` reports whether the caller gave up,
   `peak` how many lookups were ever in flight at once.
   */
  method ApplyMinimumReleaseAge(tags: seq<Tag>, cutoff: Time, outcomes: seq<Outcome>, concurrency: int)
    returns (r: Result<seq<Release>, LookupError>, cancelled: bool, ghost peak: nat)
    requires |outcomes| == |tags|
    ensures r.Ok? ==> r.value == Compact(RewindAll(tags, cutoff, outcomes))
    ensures r.Ok? ==> OnePerTag(r.value, tags, cutoff, outcomes)
    ensures NeededFails(tags, cutoff, outcomes) ==> r.Err?
    ensures r.Err? ==> cancelled || NeededFails(tags, cutoff, outcomes)
    ensures peak <= if concurrency <= 0 then 16 else concurrency
  {
    var p := Fanout.Problem(tags, cutoff, if concurrency <= 0 then 16 else concurrency, outcomes);
    var slots := new Option<Release>[|tags|](_ => None);
    var need := Classify(tags, cutoff, slots);
    var s := Fanout.State(seq(|need|, _ => Fanout.Unlaunched), 0, slots[..], false, false);
    Fanout.InitInv(p, s);
    peak := 0;
    while !Fanout.Final(s)
      invariant Fanout.Inv(p, s) && slots[..] == s.slots && peak <= p.limit
      decreases Fanout.Remaining(s)
    {
      ghost var was := s;
      s := Schedule(p, s, need, slots);
      Fanout.NextKeepsInv(p, was, s);
      Fanout.NextDecreases(p, was, s);
      Fanout.LookingIsActive(s.workers);
      peak := if Fanout.InFlight(s) > peak then Fanout.InFlight(s) else peak;
    }
    cancelled := s.cancelled;
    NeededIs(p);
    if s.failed {
      FailedWhenNeeded(p, s);
      return Err(LookupFailed), cancelled, peak;
    }
    Fanout.FinalSlots(p, s);
    var out := CollectSlots(slots);
    RewoundOnePerTag(tags, cutoff, outcomes);
    return Ok(out), cancelled, peak;
  }

  lemma NeededIs(p: Fanout.Problem)
    requires Fanout.WellPosed(p)
    ensures Fanout.NeededLookupFails(p) <==> NeededFails(p.tags, p.cutoff, p.outcomes)
  {
    assert forall i :: 0 <= i < |p.tags| ==>
      (NeedsHistory(p.tags[i], p.cutoff) <==> p.tags[i].lastUpdated != 0 && p.tags[i].lastUpdated > p.cutoff);
  }

  lemma ActiveExists(p: Fanout.Problem, s: Fanout.State)
    requires Fanout.Inv(p, s) && !Fanout.Final(s)
    requires s.next == |s.workers| || Fanout.Active(s) > 0
    ensures exists k :: 0 <= k < |s.workers| && Fanout.IsActive(s.workers[k])
  {
    CountPositive(s.workers, Fanout.IsActive);
    if forall k :: 0 <= k < |s.workers| ==> !Fanout.IsActive(s.workers[k]) {
      if s.next == |s.workers| {
        Fanout.StuckIsFinal(p, s);
        assert false;
      }
    }
  }

  lemma FailedWhenNeeded(p: Fanout.Problem, s: Fanout.State)
    requires Fanout.Inv(p, s) && s.failed
    ensures s.cancelled || Fanout.NeededLookupFails(p)
  {
  }

  class RepoDatasource {
    const historyConcurrency: int

    constructor (historyConcurrency: int)
      ensures this.historyConcurrency == historyConcurrency
    {
      this.historyConcurrency := historyConcurrency;
    }

    /** `listed` is what the backend answers for the repo's tags. */
    method Releases(packageName: string, before: Time, listed: Result<seq<Tag>, TagsError>, outcomes: seq<Outcome>)
      returns (r: Result<seq<Release>, ReleasesError>, cancelled: bool)
      requires listed.Ok? ==> |outcomes| == |listed.value|
      ensures r == RepoAnswer(packageName, before, listed, outcomes) || (cancelled && r == Err(BackendFailure))
      ensures Answers(packageName, before, listed, outcomes, cancelled, r)
    {
      cancelled := false;
      RepoAnswerMeaning(packageName, before, listed, outcomes);
      if !RepoNameOk(packageName) {
        return Err(InvalidPackageName), cancelled;
      }
      if listed.Err? {
        return Err(if listed.error == RepoNotFound then NotFound else BackendFailure), cancelled;
      }
      var tags := listed.value;
      if before == 0 {
        var out := TagsToReleases(tags);
        TagsAsReleasesElements(tags);
        assert out == TagsAsReleases(tags);
        return Ok(out), cancelled;
      }
      var aged;
      ghost var peak;
      aged, cancelled, peak := ApplyMinimumReleaseAge(tags, before, outcomes, historyConcurrency);
      match aged
      case Ok(out) => return Ok(out), cancelled;
      case Err(_) => return Err(BackendFailure), cancelled;
    }
  }

  /** One release per tag, as the tag stands. */
  ghost predicate AsTagsStand(out: seq<Release>, tags: seq<Tag>) {
    && |out| == |tags|
    && forall i :: 0 <= i < |tags| ==> out[i] == Release(tags[i].name, tags[i].lastUpdated, tags[i].digest)
  }

  /**
   What each answer means. A bad name is refused; an unknown repo is not found; any other
   failure, of the listing or of a history that is needed, is the backend's; and otherwise the
   tags are answered as they stand, or as they stood at the cutoff.
   */
  ghost predicate Answers(name: string, before: Time, listed: Result<seq<Tag>, TagsError>, outcomes: seq<Outcome>,
                          cancelled: bool, r: Result<seq<Release>, ReleasesError>)
    requires listed.Ok? ==> |outcomes| == |listed.value|
  {
    && (r == Err(InvalidPackageName) <==> !RepoNameOk(name))
    && (r == Err(NotFound) <==> RepoNameOk(name) && listed == Err(RepoNotFound))
    && (RepoNameOk(name) && ListingFails(before, listed, outcomes) ==> r == Err(BackendFailure))
    && (r == Err(BackendFailure) ==> RepoNameOk(name) && (cancelled || ListingFails(before, listed, outcomes)))
    && r != Err(InvalidArgument)
    && (r.Ok? ==> listed.Ok?)
    && (r.Ok? && before == 0 ==> AsTagsStand(r.value, listed.value))
    && (r.Ok? && before != 0 ==> OnePerTag(r.value, listed.value, before, outcomes))
  }

  ghost predicate ListingFails(before: Time, listed: Result<seq<Tag>, TagsError>, outcomes: seq<Outcome>)
    requires listed.Ok? ==> |outcomes| == |listed.value|
  {
    listed == Err(OtherFailure) || (listed.Ok? && before != 0 && NeededFails(listed.value, before, outcomes))
  }

  lemma RepoAnswerMeaning(name: string, before: Time, listed: Result<seq<Tag>, TagsError>, outcomes: seq<Outcome>)
    requires listed.Ok? ==> |outcomes| == |listed.value|
    ensures Answers(name, before, listed, outcomes, false, RepoAnswer(name, before, listed, outcomes))
  {
    if listed.Ok? {
      TagsAsReleasesElements(listed.value);
      RewoundOnePerTag(listed.value, before, outcomes);
    }
  }

  /** What a query that nobody cancels answers; a zero cutoff disables the rewind. */
  ghost function RepoAnswer(name: string, before: Time, listed: Result<seq<Tag>, TagsError>, outcomes: seq<Outcome>)
    : Result<seq<Release>, ReleasesError>
    requires listed.Ok? ==> |outcomes| == |listed.value|
  {
    if !RepoNameOk(name) then Err(InvalidPackageName)
    else if listed.Err? then Err(if listed.error == RepoNotFound then NotFound else BackendFailure)
    else if before == 0 then Ok(TagsAsReleases(listed.value))
    else if exists i :: 0 <= i < |outcomes| && NeedsHistory(listed.value[i], before) && outcomes[i].Err?
    then Err(BackendFailure)
    else Ok(Compact(RewindAll(listed.value, before, outcomes)))
  }

  lemma {:induction false} TagsAsReleasesElements(tags: seq<Tag>)
    ensures |TagsAsReleases(tags)| == |tags|
    ensures forall i :: 0 <= i < |tags| ==> TagsAsReleases(tags)[i] == CurrentRelease(tags[i])
  {
    if tags != [] {
      TagsAsReleasesElements(tags[..|tags| - 1]);
    }
  }
}
