/** The stable sort the datasources rely on, and the two orders it is used with. */
module Sorting {
  import opened Core

  ghost predicate StrictWeakOrder<T(!new)>(less: (T, T) -> bool) {
    && (forall x :: !less(x, x))
    && (forall x, y, z :: less(x, y) && less(y, z) ==> less(x, z))
    && (forall x, y, z :: less(x, y) ==> less(x, z) || less(z, y))
  }

  ghost predicate Ascending<T(!new)>(s: seq<T>, less: (T, T) -> bool) {
    forall i, j :: 0 <= i < j < |s| ==> !less(s[j], s[i])
  }

  ghost predicate StrictlyAscending<T(!new)>(s: seq<T>, less: (T, T) -> bool) {
    forall i, j :: 0 <= i < j < |s| ==> less(s[i], s[j])
  }

  /** `x` goes before everything that is not strictly less than it. */
  function Insert<T>(x: T, s: seq<T>, less: (T, T) -> bool): (r: seq<T>)
    ensures multiset(r) == multiset{x} + multiset(s)
  {
    if s == [] || !less(s[0], x) then [x] + s
    else
      assert s == [s[0]] + s[1..];
      [s[0]] + Insert(x, s[1..], less)
  }

  function Sort<T>(s: seq<T>, less: (T, T) -> bool): (r: seq<T>)
    ensures multiset(r) == multiset(s)
  {
    if s == [] then []
    else
      assert s == [s[0]] + s[1..];
      Insert(s[0], Sort(s[1..], less), less)
  }

  lemma InsertElements<T(!new)>(x: T, s: seq<T>, less: (T, T) -> bool)
    ensures forall y :: y in Insert(x, s, less) <==> y == x || y in s
  {
    var r := Insert(x, s, less);
    forall y ensures y in r <==> y == x || y in s {
      assert y in r <==> y in multiset(r);
    }
  }

  lemma {:induction false} InsertAscending<T(!new)>(x: T, s: seq<T>, less: (T, T) -> bool)
    requires StrictWeakOrder(less) && Ascending(s, less)
    ensures Ascending(Insert(x, s, less), less)
  {
    if s == [] || !less(s[0], x) {
      var r := [x] + s;
      forall j | 0 < j < |r| ensures !less(r[j], x) {
        assert r[j] == s[j - 1];
        assert j > 1 ==> !less(s[j - 1], s[0]);
      }
    } else {
      InsertAscending(x, s[1..], less);
      var t := Insert(x, s[1..], less);
      InsertElements(x, s[1..], less);
      forall j | 0 <= j < |t| ensures !less(t[j], s[0]) {
        assert t[j] in t;
      }
    }
  }

  lemma {:induction false} SortAscending<T(!new)>(s: seq<T>, less: (T, T) -> bool)
    requires StrictWeakOrder(less)
    ensures Ascending(Sort(s, less), less)
  {
    if s != [] {
      SortAscending(s[1..], less);
      InsertAscending(s[0], Sort(s[1..], less), less);
    }
  }

  lemma SortElements<T(!new)>(s: seq<T>, less: (T, T) -> bool)
    ensures |Sort(s, less)| == |s|
    ensures forall x :: x in Sort(s, less) <==> x in s
  {
    assert |Sort(s, less)| == |multiset(Sort(s, less))| == |multiset(s)|;
    forall x ensures x in Sort(s, less) <==> x in s {
      assert x in Sort(s, less) <==> x in multiset(Sort(s, less));
    }
  }

  lemma {:induction false} FilterInsert<T(!new)>(x: T, s: seq<T>, less: (T, T) -> bool, p: T -> bool)
    requires StrictWeakOrder(less) && Ascending(s, less)
    ensures Filter(Insert(x, s, less), p) == if p(x) then Insert(x, Filter(s, p), less) else Filter(s, p)
  {
    if s == [] || !less(s[0], x) {
      var f := Filter(s, p);
      if f != [] {
        FilterElement(s, p, f[0]);
        var k :| 0 <= k < |s| && s[k] == f[0];
        assert k > 0 ==> !less(s[k], s[0]);
        assert !less(f[0], x);
      }
    } else {
      FilterInsert(x, s[1..], less, p);
    }
  }

  /** Dropping elements before or after sorting is the same. */
  lemma {:induction false} FilterSort<T(!new)>(s: seq<T>, less: (T, T) -> bool, p: T -> bool)
    requires StrictWeakOrder(less)
    ensures Filter(Sort(s, less), p) == Sort(Filter(s, p), less)
  {
    if s != [] {
      FilterSort(s[1..], less, p);
      SortAscending(s[1..], less);
      FilterInsert(s[0], Sort(s[1..], less), less, p);
    }
  }

  lemma {:induction false} InsertFirstOfClass<T(!new)>(x: T, s: seq<T>, less: (T, T) -> bool)
    requires forall y :: y in s ==> !less(y, x)
    ensures Insert(x, s, less) == [x] + s
  {
  }

  lemma {:induction false} SortOfClass<T(!new)>(s: seq<T>, less: (T, T) -> bool)
    requires forall x, y :: x in s && y in s ==> !less(x, y)
    ensures Sort(s, less) == s
  {
    if s != [] {
      SortOfClass(s[1..], less);
      InsertFirstOfClass(s[0], s[1..], less);
    }
  }

  /** Stability: elements the order cannot tell apart keep their relative order. */
  lemma SortStable<T(!new)>(s: seq<T>, less: (T, T) -> bool, x: T)
    requires StrictWeakOrder(less)
    ensures var same := (y: T) => !less(x, y) && !less(y, x);
      Filter(Sort(s, less), same) == Filter(s, same)
  {
    var same := (y: T) => !less(x, y) && !less(y, x);
    FilterSort(s, less, same);
    forall y, z | y in Filter(s, same) && z in Filter(s, same) ensures !less(y, z) {
      FilterElement(s, same, y);
      FilterElement(s, same, z);
    }
    SortOfClass(Filter(s, same), less);
  }

  lemma {:induction false} InsertStrict<T(!new)>(x: T, s: seq<T>, less: (T, T) -> bool)
    requires StrictWeakOrder(less) && StrictlyAscending(s, less)
    requires forall y :: y in s ==> less(x, y) || less(y, x)
    ensures StrictlyAscending(Insert(x, s, less), less)
  {
    if s != [] && less(s[0], x) {
      InsertStrict(x, s[1..], less);
      var t := Insert(x, s[1..], less);
      InsertElements(x, s[1..], less);
      forall j | 0 <= j < |t| ensures less(s[0], t[j]) {
        assert t[j] in t;
      }
    } else if s != [] {
      assert s[0] in s;
      assert less(x, s[0]);
    }
  }

  ghost predicate Comparable<T(!new)>(s: seq<T>, less: (T, T) -> bool) {
    forall i, j :: 0 <= i < j < |s| ==> less(s[i], s[j]) || less(s[j], s[i])
  }

  /** Where the order tells all elements apart, sorting leaves no ties. */
  lemma {:induction false} SortStrict<T(!new)>(s: seq<T>, less: (T, T) -> bool)
    requires StrictWeakOrder(less) && Comparable(s, less)
    ensures StrictlyAscending(Sort(s, less), less)
  {
    if s != [] {
      SortStrict(s[1..], less);
      SortElements(s[1..], less);
      InsertStrict(s[0], Sort(s[1..], less), less);
    }
  }

  /** Strictly ordered lists with the same elements are the same list. */
  lemma {:induction false} StrictlyAscendingUnique<T(!new)>(a: seq<T>, b: seq<T>, less: (T, T) -> bool)
    requires StrictWeakOrder(less)
    requires StrictlyAscending(a, less) && StrictlyAscending(b, less)
    requires forall x :: x in a <==> x in b
    ensures a == b
  {
    assert (a != [] ==> a[0] in b) && (b != [] ==> b[0] in a);
    if a != [] {
      assert a[0] in b;
      var i :| 0 <= i < |b| && b[i] == a[0];
      assert b[0] in a;
      var j :| 0 <= j < |a| && a[j] == b[0];
      if i > 0 && j > 0 {
        assert false;
      }
      forall x ensures x in a[1..] <==> x in b[1..] {
        if x in a[1..] {
          var i :| 1 <= i < |a| && a[i] == x;
          assert x in b && less(a[0], a[i]);
        }
        if x in b[1..] {
          var i :| 1 <= i < |b| && b[i] == x;
          assert x in a && less(b[0], b[i]);
        }
      }
      StrictlyAscendingUnique(a[1..], b[1..], less);
    }
  }

  // ---------- sets as sorted lists ----------

  ghost predicate IsSortedOf<T(!new)>(out: seq<T>, s: set<T>, less: (T, T) -> bool) {
    StrictlyAscending(out, less) && forall x :: x in out <==> x in s
  }

  /** The order tells the elements of `s` apart. */
  ghost predicate Separates<T(!new)>(less: (T, T) -> bool, s: set<T>) {
    StrictWeakOrder(less) && forall x, y :: x in s && y in s && x != y ==> less(x, y) || less(y, x)
  }

  lemma {:induction false} SortedExists<T(!new)>(s: set<T>, less: (T, T) -> bool)
    requires Separates(less, s)
    ensures exists out :: IsSortedOf(out, s, less)
    decreases |s|
  {
    if s == {} {
      assert IsSortedOf([], s, less);
    } else {
      var x :| x in s;
      SortedExists(s - {x}, less);
      var rest :| IsSortedOf(rest, s - {x}, less);
      InsertStrict(x, rest, less);
      InsertElements(x, rest, less);
      assert IsSortedOf(Insert(x, rest, less), s, less);
    }
  }

  /** The one strictly ascending list of a set. */
  ghost function SortedOf<T(!new)>(s: set<T>, less: (T, T) -> bool): (out: seq<T>)
    requires Separates(less, s)
    ensures IsSortedOf(out, s, less)
  {
    SortedExists(s, less);
    var out :| IsSortedOf(out, s, less);
    out
  }

  /** Bytewise string order: Go's `<` on strings. */
  predicate StringLess(a: string, b: string) {
    b != [] && (a == [] || a[0] < b[0] || (a[0] == b[0] && StringLess(a[1..], b[1..])))
  }

  /** A proper prefix comes before its extensions; otherwise the first differing character decides. */
  ghost predicate BytewiseBefore(a: string, b: string) {
    a < b || exists k :: 0 <= k < |a| && k < |b| && DifferFirstAt(a, b, k) && a[k] < b[k]
  }

  predicate DifferFirstAt(a: string, b: string, k: nat)
    requires k < |a| && k < |b|
  {
    a[..k] == b[..k] && a[k] != b[k]
  }

  lemma {:induction false} StringLessMeaning(a: string, b: string)
    ensures StringLess(a, b) <==> BytewiseBefore(a, b)
  {
    if a != [] && b != [] {
      if a[0] == b[0] {
        StringLessMeaning(a[1..], b[1..]);
        BytewiseStep(a, b);
      } else {
        assert DifferFirstAt(a, b, 0);
        assert forall k :: 0 < k < |a| && k < |b| ==> a[..k][0] != b[..k][0];
      }
    }
  }

  lemma BytewiseStep(a: string, b: string)
    requires a != [] && b != [] && a[0] == b[0]
    ensures BytewiseBefore(a, b) <==> BytewiseBefore(a[1..], b[1..])
  {
    assert a == [a[0]] + a[1..] && b == [b[0]] + b[1..];
    if k :| 0 <= k < |a| && k < |b| && DifferFirstAt(a, b, k) && a[k] < b[k] {
      assert a[1..][..k - 1] == a[..k][1..] && b[1..][..k - 1] == b[..k][1..];
      assert DifferFirstAt(a[1..], b[1..], k - 1);
    }
    if k :| 0 <= k < |a| - 1 && k < |b| - 1 && DifferFirstAt(a[1..], b[1..], k) && a[1..][k] < b[1..][k] {
      assert a[..k + 1] == [a[0]] + a[1..][..k] && b[..k + 1] == [b[0]] + b[1..][..k];
      assert DifferFirstAt(a, b, k + 1);
    }
  }

  lemma {:induction false} StringLessTransitive(a: string, b: string, c: string)
    requires StringLess(a, b) && StringLess(b, c)
    ensures StringLess(a, c)
  {
    if a != [] && a[0] == b[0] == c[0] {
      StringLessTransitive(a[1..], b[1..], c[1..]);
    }
  }

  lemma {:induction false} StringLessTotal(a: string, b: string)
    ensures a != b ==> StringLess(a, b) || StringLess(b, a)
    ensures !(StringLess(a, b) && StringLess(b, a))
    ensures !StringLess(a, a)
  {
    if a != [] {
      StringLessTotal(a[1..], a[1..]);
      if b != [] {
        StringLessTotal(a[1..], b[1..]);
        assert a == [a[0]] + a[1..] && b == [b[0]] + b[1..];
      }
    }
  }

  lemma StringOrder()
    ensures StrictWeakOrder(StringLess)
    ensures forall a, b :: a != b ==> StringLess(a, b) || StringLess(b, a)
  {
    forall a, b
      ensures a != b ==> StringLess(a, b) || StringLess(b, a)
      ensures !StringLess(a, a) && !(StringLess(a, b) && StringLess(b, a))
    {
      StringLessTotal(a, b);
    }
    forall a, b, c | StringLess(a, b) && StringLess(b, c) ensures StringLess(a, c) {
      StringLessTransitive(a, b, c);
    }
  }

  /** A set of strings, ascending. */
  ghost function SortedStrings(s: set<string>): (out: seq<string>)
    ensures IsSortedOf(out, s, StringLess)
  {
    StringOrder();
    SortedOf(s, StringLess)
  }

  lemma StrictStringsBytewise(out: seq<string>)
    requires StrictlyAscending(out, StringLess)
    ensures forall i, j :: 0 <= i < j < |out| ==> BytewiseBefore(out[i], out[j])
  {
    forall i, j | 0 <= i < j < |out| ensures BytewiseBefore(out[i], out[j]) {
      StringLessMeaning(out[i], out[j]);
    }
  }

  lemma SortedStringsUnique(out: seq<string>, s: set<string>)
    requires IsSortedOf(out, s, StringLess)
    ensures out == SortedStrings(s)
  {
    StringOrder();
    StrictlyAscendingUnique(out, SortedStrings(s), StringLess);
  }

  /** The order of an apk release list: newest first, then greatest version first. */
  predicate ReleaseBefore(a: Release, b: Release) {
    if a.timestamp != b.timestamp then a.timestamp > b.timestamp else StringLess(b.version, a.version)
  }

  lemma ReleaseOrder()
    ensures StrictWeakOrder(ReleaseBefore)
    ensures forall a: Release, b: Release :: a.timestamp != b.timestamp || a.version != b.version
                        ==> ReleaseBefore(a, b) || ReleaseBefore(b, a)
  {
    StringOrder();
  }

  /** `a` is the newer; of two as old as each other, the one whose version is bytewise the greater. */
  ghost predicate NewerFirst(a: Release, b: Release) {
    a.timestamp > b.timestamp || (a.timestamp == b.timestamp && BytewiseBefore(b.version, a.version))
  }

  lemma ReleaseBeforeMeaning(a: Release, b: Release)
    ensures ReleaseBefore(a, b) <==> NewerFirst(a, b)
  {
    StringLessMeaning(b.version, a.version);
  }
}
