/**
 The values every component exchanges.

 An instant is the number of nanoseconds since 0001-01-01T00:00:00Z, so that Go's zero
 `time.Time` is 0. A string is a sequence of Unicode scalar values; on valid UTF-8 the
 order of code points is the order of bytes.
 */
module Core {
  type Time = int

  datatype Option<+T> = None | Some(value: T)

  datatype Result<+T, +E> = Ok(value: T) | Err(error: E)

  datatype Release = Release(version: string, timestamp: Time, digest: string)

  /** What a datasource answers instead of a release list. */
  datatype ReleasesError = NotFound | InvalidPackageName | InvalidArgument | BackendFailure

  lemma AppendAssoc<T>(a: seq<T>, b: seq<T>, c: seq<T>)
    ensures (a + b) + c == a + (b + c)
  {
  }

  /** `pick` lists positions below `n`, each once and in ascending order. */
  ghost predicate Picks(pick: seq<nat>, n: nat) {
    && (forall j :: 0 <= j < |pick| ==> pick[j] < n)
    && (forall i, j :: 0 <= i < j < |pick| ==> pick[i] < pick[j])
  }

  /** `out` is what lies at these positions of `s`. */
  ghost predicate PickedFrom<T>(out: seq<T>, s: seq<T>, pick: seq<nat>) {
    Picks(pick, |s|) && |out| == |pick| && forall j :: 0 <= j < |out| ==> out[j] == s[pick[j]]
  }

  function PickLast(pick: seq<nat>, n: nat, last: bool): seq<nat> { if last then pick + [n] else pick }

  lemma PickMore(pick: seq<nat>, n: nat)
    requires Picks(pick, n)
    ensures Picks(pick, n + 1) && n !in pick
    ensures Picks(pick + [n], n + 1) && forall i :: i in pick + [n] <==> i in pick || i == n
  {
  }

  /** The elements of `s` that satisfy `p`, in order. */
  function Filter<T>(s: seq<T>, p: T -> bool): seq<T> {
    if s == [] then [] else if p(s[0]) then [s[0]] + Filter(s[1..], p) else Filter(s[1..], p)
  }

  lemma {:induction false} FilterElement<T>(s: seq<T>, p: T -> bool, x: T)
    ensures x in Filter(s, p) <==> x in s && p(x)
  {
    if s != [] {
      FilterElement(s[1..], p, x);
      assert x in s <==> x == s[0] || x in s[1..];
    }
  }

  lemma {:induction false} FilterAppend<T>(a: seq<T>, b: seq<T>, p: T -> bool)
    ensures Filter(a + b, p) == Filter(a, p) + Filter(b, p)
  {
    if a == [] {
      assert a + b == b;
    } else {
      FilterAppend(a[1..], b, p);
      assert (a + b)[1..] == a[1..] + b;
    }
  }

  /** `out` is what lies at the positions of `s` that satisfy `p`: once each, and in order. */
  ghost predicate KeptExactly<T>(out: seq<T>, s: seq<T>, p: T -> bool, pick: seq<nat>) {
    PickedFrom(out, s, pick) && forall i :: 0 <= i < |s| ==> (i in pick <==> p(s[i]))
  }

  lemma KeptHit<T>(out: seq<T>, init: seq<T>, p: T -> bool, pick: seq<nat>, x: T)
    requires KeptExactly(out, init, p, pick) && p(x)
    ensures KeptExactly(out + [x], init + [x], p, pick + [|init|])
  {
    PickMore(pick, |init|);
    assert forall i :: 0 <= i < |init| ==> (init + [x])[i] == init[i];
  }

  lemma KeptMiss<T>(out: seq<T>, init: seq<T>, p: T -> bool, pick: seq<nat>, x: T)
    requires KeptExactly(out, init, p, pick) && !p(x)
    ensures KeptExactly(out, init + [x], p, pick)
  {
    PickMore(pick, |init|);
    assert forall i :: 0 <= i < |init| ==> (init + [x])[i] == init[i];
  }

  lemma {:induction false} FilterPicks<T>(s: seq<T>, p: T -> bool) returns (pick: seq<nat>)
    ensures KeptExactly(Filter(s, p), s, p, pick)
  {
    if s == [] {
      return [];
    }
    var init, last := s[..|s| - 1], s[|s| - 1];
    assert init + [last] == s;
    var rest := FilterPicks(init, p);
    FilterOneMore(init, last, p, rest);
    return PickLast(rest, |init|, p(last));
  }

  lemma FilterOneMore<T>(init: seq<T>, last: T, p: T -> bool, pick: seq<nat>)
    requires KeptExactly(Filter(init, p), init, p, pick)
    ensures KeptExactly(Filter(init + [last], p), init + [last], p, PickLast(pick, |init|, p(last)))
  {
    FilterLast(init, last, p);
    if p(last) {
      KeptHit(Filter(init, p), init, p, pick, last);
    } else {
      KeptMiss(Filter(init, p), init, p, pick, last);
    }
  }

  lemma FilterLast<T>(init: seq<T>, last: T, p: T -> bool)
    ensures Filter(init + [last], p) == if p(last) then Filter(init, p) + [last] else Filter(init, p)
  {
    FilterAppend(init, [last], p);
    assert [last][1..] == [];
  }

  /** The present values of a sequence of optional slots, in order. */
  function Compact<T>(s: seq<Option<T>>): seq<T> {
    if s == [] then [] else (if s[0].Some? then [s[0].value] else []) + Compact(s[1..])
  }

  lemma {:induction false} CompactAppend<T>(a: seq<Option<T>>, b: seq<Option<T>>)
    ensures Compact(a + b) == Compact(a) + Compact(b)
  {
    if a == [] {
      assert a + b == b;
    } else {
      CompactAppend(a[1..], b);
      assert (a + b)[1..] == a[1..] + b;
      AppendAssoc(if a[0].Some? then [a[0].value] else [], Compact(a[1..]), Compact(b));
    }
  }

  /** `out` holds the values of exactly the filled slots: one each, and in order. */
  ghost predicate FilledSlots<T>(out: seq<T>, slots: seq<Option<T>>, pick: seq<nat>) {
    && Picks(pick, |slots|) && |out| == |pick|
    && (forall j :: 0 <= j < |out| ==> slots[pick[j]] == Some(out[j]))
    && (forall i :: 0 <= i < |slots| ==> (i in pick <==> slots[i].Some?))
  }

  lemma FilledHit<T>(out: seq<T>, init: seq<Option<T>>, pick: seq<nat>, x: T)
    requires FilledSlots(out, init, pick)
    ensures FilledSlots(out + [x], init + [Some(x)], pick + [|init|])
  {
    PickMore(pick, |init|);
    assert forall i :: 0 <= i < |init| ==> (init + [Some(x)])[i] == init[i];
  }

  lemma FilledMiss<T>(out: seq<T>, init: seq<Option<T>>, pick: seq<nat>)
    requires FilledSlots(out, init, pick)
    ensures FilledSlots(out, init + [None], pick)
  {
    PickMore(pick, |init|);
    assert forall i :: 0 <= i < |init| ==> (init + [None])[i] == init[i];
  }

  lemma CompactLast<T>(init: seq<Option<T>>, last: Option<T>)
    ensures Compact(init + [last]) == if last.Some? then Compact(init) + [last.value] else Compact(init)
  {
    CompactAppend(init, [last]);
    assert [last][1..] == [];
  }

  lemma {:induction false} CompactPicks<T>(slots: seq<Option<T>>) returns (pick: seq<nat>)
    ensures FilledSlots(Compact(slots), slots, pick)
  {
    if slots == [] {
      return [];
    }
    var init, last := slots[..|slots| - 1], slots[|slots| - 1];
    assert init + [last] == slots;
    var rest := CompactPicks(init);
    CompactOneMore(init, last, rest);
    return PickLast(rest, |init|, last.Some?);
  }

  lemma CompactOneMore<T>(init: seq<Option<T>>, last: Option<T>, pick: seq<nat>)
    requires FilledSlots(Compact(init), init, pick)
    ensures FilledSlots(Compact(init + [last]), init + [last], PickLast(pick, |init|, last.Some?))
  {
    CompactLast(init, last);
    if last.Some? {
      FilledHit(Compact(init), init, pick, last.value);
    } else {
      FilledMiss(Compact(init), init, pick);
    }
  }

  /** Positions picked once each are as many as there are positions picked. */
  lemma {:induction false} PickCount(pick: seq<nat>, n: nat)
    requires Picks(pick, n)
    ensures |set i | 0 <= i < n && i in pick| == |pick|
  {
    var all := set i | 0 <= i < n && i in pick;
    if pick == [] {
      assert all == {};
    } else {
      var init, last := pick[..|pick| - 1], pick[|pick| - 1];
      PickCount(init, n);
      assert all == (set i | 0 <= i < n && i in init) + {last};
      assert last !in init;
    }
  }

  /** How many elements satisfy `p`. */
  function Count<T>(s: seq<T>, p: T -> bool): nat {
    if s == [] then 0 else Count(s[..|s| - 1], p) + if p(s[|s| - 1]) then 1 else 0
  }

  lemma {:induction false} CountUpdate<T>(s: seq<T>, i: nat, x: T, p: T -> bool)
    requires i < |s|
    ensures Count(s[i := x], p) == Count(s, p) - (if p(s[i]) then 1 else 0) + (if p(x) then 1 else 0)
  {
    var init := s[..|s| - 1];
    if i == |s| - 1 {
      assert s[i := x][..|s| - 1] == init;
    } else {
      CountUpdate(init, i, x, p);
      assert s[i := x][..|s| - 1] == init[i := x];
    }
  }

  lemma {:induction false} CountPositive<T>(s: seq<T>, p: T -> bool)
    ensures Count(s, p) > 0 <==> exists i :: 0 <= i < |s| && p(s[i])
    ensures Count(s, p) <= |s|
    ensures Count(s, p) == |s| <==> forall i :: 0 <= i < |s| ==> p(s[i])
  {
    if s != [] {
      var init := s[..|s| - 1];
      CountPositive(init, p);
      assert forall i :: 0 <= i < |init| ==> init[i] == s[i];
      if p(s[|s| - 1]) || exists i :: 0 <= i < |init| && p(init[i]) {
        assert exists i :: 0 <= i < |s| && p(s[i]);
      }
    }
  }

  /** Where the elements that satisfy `p` are. */
  ghost function Places<T>(s: seq<T>, p: T -> bool): set<int> { set i | 0 <= i < |s| && p(s[i]) }

  lemma {:induction false} CountIsSize<T>(s: seq<T>, p: T -> bool)
    ensures Count(s, p) == |Places(s, p)|
  {
    var all := Places(s, p);
    if s == [] {
      assert all == {};
    } else {
      var init, n := s[..|s| - 1], |s| - 1;
      CountIsSize(init, p);
      var before := Places(init, p);
      assert forall i :: 0 <= i < n ==> init[i] == s[i];
      if p(s[n]) {
        assert all == before + {n};
      } else {
        assert all == before;
      }
    }
  }

  /** The sum of a measure over a sequence. */
  function Sum<T>(s: seq<T>, f: T -> nat): nat {
    if s == [] then 0 else Sum(s[..|s| - 1], f) + f(s[|s| - 1])
  }

  lemma {:induction false} SumUpdate<T>(s: seq<T>, i: nat, x: T, f: T -> nat)
    requires i < |s|
    ensures Sum(s[i := x], f) == Sum(s, f) - f(s[i]) + f(x)
  {
    var init := s[..|s| - 1];
    if i == |s| - 1 {
      assert s[i := x][..|s| - 1] == init;
    } else {
      SumUpdate(init, i, x, f);
      assert s[i := x][..|s| - 1] == init[i := x];
    }
  }
}
