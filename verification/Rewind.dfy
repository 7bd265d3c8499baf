/** What a tag pointed at as of a cutoff: internal/datasource/repo.go. */
module Rewind {
  import opened Core

  datatype Tag = Tag(id: string, name: string, lastUpdated: Time, digest: string)

  datatype TagHistory = TagHistory(updateTimestamp: Time, digest: string)

  type History = seq<TagHistory>

  predicate Eligible(t: Time, cutoff: Time) { t != 0 && t <= cutoff }

  /** The entry the history scan settles on, or -1. */
  function BestIndex(hist: History, cutoff: Time): (k: int)
    ensures -1 <= k < |hist|
  {
    if hist == [] then -1
    else
      var n := |hist| - 1;
      var k := BestIndex(hist[..n], cutoff);
      if Eligible(hist[n].updateTimestamp, cutoff) && (k < 0 || hist[n].updateTimestamp > hist[k].updateTimestamp)
      then n else k
  }

  function Best(hist: History, cutoff: Time): Option<TagHistory> {
    var k := BestIndex(hist, cutoff);
    if k < 0 then None else Some(hist[k])
  }

  /** Entry k is the latest eligible one, and the first of those. */
  ghost predicate FirstLatest(hist: History, cutoff: Time, k: nat) {
    && k < |hist| && Eligible(hist[k].updateTimestamp, cutoff)
    && (forall j :: 0 <= j < |hist| && Eligible(hist[j].updateTimestamp, cutoff)
          ==> hist[j].updateTimestamp <= hist[k].updateTimestamp)
    && (forall j :: 0 <= j < k && Eligible(hist[j].updateTimestamp, cutoff)
          ==> hist[j].updateTimestamp < hist[k].updateTimestamp)
  }

  lemma {:induction false} BestMeaning(hist: History, cutoff: Time)
    ensures BestIndex(hist, cutoff) < 0 <==> forall j :: 0 <= j < |hist| ==> !Eligible(hist[j].updateTimestamp, cutoff)
    ensures BestIndex(hist, cutoff) >= 0 ==> FirstLatest(hist, cutoff, BestIndex(hist, cutoff))
  {
    if hist != [] {
      BestMeaning(hist[..|hist| - 1], cutoff);
    }
  }

  lemma FirstLatestUnique(hist: History, cutoff: Time, j: nat, k: nat)
    requires FirstLatest(hist, cutoff, j) && FirstLatest(hist, cutoff, k)
    ensures j == k
  {
  }

  function CurrentRelease(t: Tag): Release { Release(t.name, t.lastUpdated, t.digest) }

  function RewoundRelease(t: Tag, cutoff: Time, hist: History): Option<Release> {
    match Best(hist, cutoff)
    case None => None
    case Some(h) => Some(Release(t.name, h.updateTimestamp, h.digest))
  }

  predicate NeedsHistory(t: Tag, cutoff: Time) { t.lastUpdated != 0 && t.lastUpdated > cutoff }

  /** The release a tag contributes at a cutoff, given its history. */
  function RewindTag(t: Tag, cutoff: Time, hist: History): Option<Release> {
    if t.lastUpdated == 0 then None
    else if t.lastUpdated <= cutoff then Some(CurrentRelease(t))
    else RewoundRelease(t, cutoff, hist)
  }

  // ---------- as-of semantics ----------

  /** A tag shown at a cutoff is shown at every later one, at least as fresh. */
  lemma RewindMonotone(t: Tag, hist: History, c1: Time, c2: Time)
    requires c1 <= c2 && RewindTag(t, c1, hist).Some?
    ensures RewindTag(t, c2, hist).Some?
    ensures RewindTag(t, c2, hist).value.version == RewindTag(t, c1, hist).value.version
    ensures RewindTag(t, c1, hist).value.timestamp <= RewindTag(t, c2, hist).value.timestamp
    ensures RewindTag(t, c1, hist).value.timestamp <= c1
  {
    BestMeaning(hist, c1);
    BestMeaning(hist, c2);
  }

  /** What is shown at c1 is shown, identically, at every cutoff back to its own timestamp. */
  lemma RewindStable(t: Tag, hist: History, c1: Time, c: Time)
    requires RewindTag(t, c1, hist).Some?
    requires RewindTag(t, c1, hist).value.timestamp <= c <= c1
    ensures RewindTag(t, c, hist) == RewindTag(t, c1, hist)
  {
    if t.lastUpdated > c1 {
      BestMeaning(hist, c1);
      BestMeaning(hist, c);
      assert FirstLatest(hist, c, BestIndex(hist, c1));
      FirstLatestUnique(hist, c, BestIndex(hist, c), BestIndex(hist, c1));
    }
  }

  /** One state the tag has been in: its current one, or one from its history. */
  ghost predicate WasIn(t: Tag, hist: History, at: Time, digest: string) {
    at != 0 && ((at == t.lastUpdated && digest == t.digest) || TagHistory(at, digest) in hist)
  }

  /** `r` is a latest state of the tag at or before the cutoff. */
  ghost predicate PointedAt(t: Tag, hist: History, cutoff: Time, r: Release) {
    && r.version == t.name && r.timestamp <= cutoff && WasIn(t, hist, r.timestamp, r.digest)
    && forall at, digest :: WasIn(t, hist, at, digest) && at <= cutoff ==> at <= r.timestamp
  }

  /** The history knows of an update between the tag's own timestamp and the cutoff. */
  ghost predicate HistoryAhead(t: Tag, hist: History, cutoff: Time) {
    t.lastUpdated <= cutoff && exists h :: h in hist && t.lastUpdated < h.updateTimestamp <= cutoff && h.updateTimestamp != 0
  }

  lemma EligibleInHistory(hist: History, cutoff: Time)
    ensures Best(hist, cutoff).None? ==> forall h :: h in hist ==> !Eligible(h.updateTimestamp, cutoff)
    ensures Best(hist, cutoff).Some? ==>
      var b := Best(hist, cutoff).value;
      && b in hist && Eligible(b.updateTimestamp, cutoff)
      && forall h :: h in hist && Eligible(h.updateTimestamp, cutoff) ==> h.updateTimestamp <= b.updateTimestamp
  {
    BestMeaning(hist, cutoff);
  }

  /**
   The rewind answers what the tag pointed at exactly when its history is not ahead of the
   tag itself: a tag at or before the cutoff is taken as it is, without a look at its history.
   */
  lemma RewindIsAsOf(t: Tag, hist: History, cutoff: Time, r: Release)
    requires RewindTag(t, cutoff, hist) == Some(r)
    ensures PointedAt(t, hist, cutoff, r) <==> !HistoryAhead(t, hist, cutoff)
  {
    EligibleInHistory(hist, cutoff);
    if t.lastUpdated <= cutoff {
      if HistoryAhead(t, hist, cutoff) {
        var h :| h in hist && t.lastUpdated < h.updateTimestamp <= cutoff && h.updateTimestamp != 0;
        assert h == TagHistory(h.updateTimestamp, h.digest);
        assert WasIn(t, hist, h.updateTimestamp, h.digest);
      } else {
        assert WasIn(t, hist, r.timestamp, r.digest);
        forall at, digest | WasIn(t, hist, at, digest) && at <= cutoff ensures at <= r.timestamp {
          assert TagHistory(at, digest) in hist ==> TagHistory(at, digest).updateTimestamp == at;
        }
      }
    } else {
      var b := Best(hist, cutoff).value;
      assert b == TagHistory(b.updateTimestamp, b.digest);
      assert WasIn(t, hist, r.timestamp, r.digest);
      forall at, digest | WasIn(t, hist, at, digest) && at <= cutoff ensures at <= r.timestamp {
        assert TagHistory(at, digest).updateTimestamp == at;
      }
    }
  }

  /** No update in the history is later than the tag's own timestamp. */
  predicate NeverAhead(t: Tag, hist: History) {
    t.lastUpdated == 0 || forall h :: h in hist ==> h.updateTimestamp == 0 || h.updateTimestamp <= t.lastUpdated
  }

  /** At every cutoff the rewind answers what the tag pointed at exactly when its history is never ahead. */
  lemma RewindAlwaysAsOf(t: Tag, hist: History)
    ensures NeverAhead(t, hist) <==>
        forall cutoff, r :: RewindTag(t, cutoff, hist) == Some(r) ==> PointedAt(t, hist, cutoff, r)
  {
    if NeverAhead(t, hist) {
      forall cutoff, r | RewindTag(t, cutoff, hist) == Some(r) ensures PointedAt(t, hist, cutoff, r) {
        RewindIsAsOf(t, hist, cutoff, r);
      }
    } else {
      var h :| h in hist && h.updateTimestamp != 0 && h.updateTimestamp > t.lastUpdated;
      RewindIsAsOf(t, hist, h.updateTimestamp, CurrentRelease(t));
      assert RewindTag(t, h.updateTimestamp, hist) == Some(CurrentRelease(t));
    }
  }

  /** A tag dated `a` with an update at `b` in its history: from then on the older state is shown. */
  lemma RewindCanLag(a: Time, b: Time, cutoff: Time)
    requires 0 < a < b <= cutoff
    ensures var t, hist := Tag("id", "v", a, "d1"), [TagHistory(b, "d2")];
      && RewindTag(t, cutoff, hist) == Some(Release("v", a, "d1"))
      && !PointedAt(t, hist, cutoff, Release("v", a, "d1"))
      && PointedAt(t, hist, cutoff, Release("v", b, "d2"))
  {
    var t, hist := Tag("id", "v", a, "d1"), [TagHistory(b, "d2")];
    assert TagHistory(b, "d2") in hist && WasIn(t, hist, b, "d2");
    forall at, digest | WasIn(t, hist, at, digest) ensures at <= b {
      assert TagHistory(at, digest) in hist ==> TagHistory(at, digest) == hist[0];
    }
  }

  /** A tag is dropped exactly when it has no timestamp, or had no state yet at the cutoff. */
  lemma RewindDrops(t: Tag, hist: History, cutoff: Time)
    ensures RewindTag(t, cutoff, hist).None? <==>
        t.lastUpdated == 0 || forall at, digest :: WasIn(t, hist, at, digest) ==> at > cutoff
  {
    EligibleInHistory(hist, cutoff);
    if t.lastUpdated == 0 {
    } else if t.lastUpdated <= cutoff {
      assert WasIn(t, hist, t.lastUpdated, t.digest);
    } else if Best(hist, cutoff).Some? {
      var b := Best(hist, cutoff).value;
      assert b == TagHistory(b.updateTimestamp, b.digest);
      assert WasIn(t, hist, b.updateTimestamp, b.digest);
    } else {
      forall at, digest | WasIn(t, hist, at, digest) ensures at > cutoff {
        assert TagHistory(at, digest) in hist ==> !Eligible(TagHistory(at, digest).updateTimestamp, cutoff);
      }
    }
  }

  // ---------- lists of tags ----------

  /** What looking up a tag's history yields. */
  datatype LookupError = LookupFailed

  type Outcome = Result<History, LookupError>

  function HistoryOf(o: Outcome): History { if o.Ok? then o.value else [] }

  /** The sequential reference: one slot per tag, in input order. */
  function RewindAll(tags: seq<Tag>, cutoff: Time, outcomes: seq<Outcome>): (slots: seq<Option<Release>>)
    requires |outcomes| == |tags|
    ensures |slots| == |tags|
    ensures forall i :: 0 <= i < |tags| ==> slots[i] == RewindTag(tags[i], cutoff, HistoryOf(outcomes[i]))
  {
    if tags == [] then []
    else
      var n := |tags| - 1;
      RewindAll(tags[..n], cutoff, outcomes[..n]) + [RewindTag(tags[n], cutoff, HistoryOf(outcomes[n]))]
  }

  function TagsAsReleases(tags: seq<Tag>): seq<Release> {
    if tags == [] then [] else TagsAsReleases(tags[..|tags| - 1]) + [CurrentRelease(tags[|tags| - 1])]
  }

  /** One release for every tag that is shown at the cutoff, none for any other, in the tags' order. */
  ghost predicate OnePerTag(out: seq<Release>, tags: seq<Tag>, cutoff: Time, outcomes: seq<Outcome>)
    requires |outcomes| == |tags|
  {
    exists pick :: OneFor(out, tags, cutoff, outcomes, pick)
  }

  ghost predicate OneFor(out: seq<Release>, tags: seq<Tag>, cutoff: Time, outcomes: seq<Outcome>, pick: seq<nat>)
    requires |outcomes| == |tags|
  {
    && Picks(pick, |tags|) && |out| == |pick|
    && (forall j :: 0 <= j < |out| ==> RewindTag(tags[pick[j]], cutoff, HistoryOf(outcomes[pick[j]])) == Some(out[j]))
    && (forall i :: 0 <= i < |tags| ==> (i in pick <==> RewindTag(tags[i], cutoff, HistoryOf(outcomes[i])).Some?))
  }

  lemma RewoundOnePerTag(tags: seq<Tag>, cutoff: Time, outcomes: seq<Outcome>)
    requires |outcomes| == |tags|
    ensures OnePerTag(Compact(RewindAll(tags, cutoff, outcomes)), tags, cutoff, outcomes)
  {
    var pick := CompactPicks(RewindAll(tags, cutoff, outcomes));
    assert OneFor(Compact(RewindAll(tags, cutoff, outcomes)), tags, cutoff, outcomes, pick);
  }

  predicate IsShown(tags: seq<Tag>, cutoff: Time, outcomes: seq<Outcome>, i: nat)
    requires i < |tags| == |outcomes|
  {
    RewindTag(tags[i], cutoff, HistoryOf(outcomes[i])).Some?
  }

  /** So it has as many releases as there are tags shown. */
  lemma OnePerTagCount(out: seq<Release>, tags: seq<Tag>, cutoff: Time, outcomes: seq<Outcome>)
    requires |outcomes| == |tags| && OnePerTag(out, tags, cutoff, outcomes)
    ensures |out| == |set i | 0 <= i < |tags| && IsShown(tags, cutoff, outcomes, i)|
  {
    var pick :| OneFor(out, tags, cutoff, outcomes, pick);
    PickedAreShown(out, tags, cutoff, outcomes, pick);
    ShownCount(tags, cutoff, outcomes, pick);
  }

  lemma ShownCount(tags: seq<Tag>, cutoff: Time, outcomes: seq<Outcome>, pick: seq<nat>)
    requires |outcomes| == |tags| && Picks(pick, |tags|)
    requires forall i :: 0 <= i < |tags| ==> (i in pick <==> IsShown(tags, cutoff, outcomes, i))
    ensures |pick| == |set i | 0 <= i < |tags| && IsShown(tags, cutoff, outcomes, i)|
  {
    PickCount(pick, |tags|);
    assert (set i | 0 <= i < |tags| && i in pick) == (set i | 0 <= i < |tags| && IsShown(tags, cutoff, outcomes, i));
  }

  lemma PickedAreShown(out: seq<Release>, tags: seq<Tag>, cutoff: Time, outcomes: seq<Outcome>, pick: seq<nat>)
    requires |outcomes| == |tags| && OneFor(out, tags, cutoff, outcomes, pick)
    ensures Picks(pick, |tags|) && |out| == |pick|
    ensures forall i :: 0 <= i < |tags| ==> (i in pick <==> IsShown(tags, cutoff, outcomes, i))
  {
  }

  /** Raising the cutoff never loses a tag from the list. */
  lemma RewindAllMonotone(tags: seq<Tag>, outcomes: seq<Outcome>, c1: Time, c2: Time)
    requires |outcomes| == |tags| && c1 <= c2
    ensures var s1, s2 := RewindAll(tags, c1, outcomes), RewindAll(tags, c2, outcomes);
      forall i :: 0 <= i < |tags| && s1[i].Some? ==>
        s2[i].Some? && s2[i].value.version == s1[i].value.version && s1[i].value.timestamp <= s2[i].value.timestamp
  {
    forall i | 0 <= i < |tags| && RewindAll(tags, c1, outcomes)[i].Some?
      ensures var s1, s2 := RewindAll(tags, c1, outcomes)[i], RewindAll(tags, c2, outcomes)[i];
        s2.Some? && s2.value.version == s1.value.version && s1.value.timestamp <= s2.value.timestamp
    {
      RewindMonotone(tags[i], HistoryOf(outcomes[i]), c1, c2);
    }
  }

  /** Every release of a rewound list is one tag's, with a timestamp at or before the cutoff. */
  lemma RewoundWithinCutoff(tags: seq<Tag>, outcomes: seq<Outcome>, cutoff: Time)
    requires |outcomes| == |tags|
    ensures forall r: Release :: r in Compact(RewindAll(tags, cutoff, outcomes)) ==> r.timestamp != 0 && r.timestamp <= cutoff
  {
    var slots := RewindAll(tags, cutoff, outcomes);
    forall r: Release | r in Compact(slots) ensures r.timestamp != 0 && r.timestamp <= cutoff {
      CompactElement(slots, r);
      var i :| 0 <= i < |slots| && slots[i] == Some(r);
      RewoundIsDated(tags[i], HistoryOf(outcomes[i]), cutoff, r);
    }
  }

  lemma RewoundIsDated(t: Tag, hist: History, cutoff: Time, r: Release)
    requires RewindTag(t, cutoff, hist) == Some(r)
    ensures r.timestamp != 0 && r.timestamp <= cutoff
  {
    EligibleInHistory(hist, cutoff);
  }

  lemma {:induction false} CompactElement<T>(s: seq<Option<T>>, x: T)
    ensures x in Compact(s) <==> Some(x) in s
  {
    if s != [] {
      CompactElement(s[1..], x);
      assert Some(x) in s <==> Some(x) == s[0] || Some(x) in s[1..];
    }
  }
}
