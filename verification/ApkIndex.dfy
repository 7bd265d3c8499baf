/** The parser, the deduplication pass, the loader and the store: internal/apk/index.go. */
module ApkIndex {
  import opened Core
  import opened ApkFormat

  // ---------- deduplication, stated on values ----------

  type Key = (string, string)

  function KeyOf(e: PackageVersion): Key { (e.arch, e.version) }

  predicate SameKey(a: PackageVersion, b: PackageVersion) {
    KeyOf(a) == KeyOf(b)
  }

  /** `e` has the latest timestamp of its architecture and version. */
  ghost predicate IsLatest(e: PackageVersion, items: seq<PackageVersion>) {
    e in items && forall f :: f in items && SameKey(e, f) ==> f.timestamp <= e.timestamp
  }

  ghost predicate DistinctKeys(items: seq<PackageVersion>) {
    forall i, j :: 0 <= i < j < |items| ==> !SameKey(items[i], items[j])
  }

  /** `r` lists the latest item of every key of `items`, each key once, in any order. */
  ghost predicate DedupOf(r: seq<PackageVersion>, items: seq<PackageVersion>) {
    DistinctKeys(r) && forall e :: e in r <==> IsLatest(e, items)
  }

  ghost predicate DedupIndexOf(r: Index, m: Index) {
    r.Keys == m.Keys && forall name :: name in m ==> DedupOf(r[name], m[name])
  }

  lemma DistinctIsDedup(items: seq<PackageVersion>)
    requires DistinctKeys(items)
    ensures DedupOf(items, items)
  {
    forall e | e in items ensures IsLatest(e, items) {
      var i :| 0 <= i < |items| && items[i] == e;
      forall f | f in items && SameKey(e, f) ensures f == e {
        var j :| 0 <= j < |items| && items[j] == f;
      }
    }
  }

  /** The pass may list survivors in any order, but which ones survive is determined. */
  lemma DedupDetermined(r: seq<PackageVersion>, s: seq<PackageVersion>, items: seq<PackageVersion>)
    requires DedupOf(r, items) && DedupOf(s, items)
    ensures multiset(r) == multiset(s)
  {
    forall e ensures multiset(r)[e] == multiset(s)[e] {
      DistinctMultiplicity(r, e);
      DistinctMultiplicity(s, e);
    }
  }

  lemma {:induction false} DistinctMultiplicity(r: seq<PackageVersion>, e: PackageVersion)
    requires DistinctKeys(r)
    ensures multiset(r)[e] == if e in r then 1 else 0
  {
    if r != [] {
      DistinctMultiplicity(r[1..], e);
      assert r == [r[0]] + r[1..];
      assert forall f :: f in r[1..] ==> !SameKey(r[0], f);
    }
  }

  /** What loses its place is never needed: every item has a survivor at least as late. */
  lemma {:induction false} LatestExists(items: seq<PackageVersion>, e: PackageVersion) returns (best: PackageVersion)
    requires e in items
    ensures IsLatest(best, items) && SameKey(e, best) && e.timestamp <= best.timestamp
  {
    var init, last := items[..|items| - 1], items[|items| - 1];
    assert forall f :: f in items <==> f in init || f == last;
    if e in init {
      best := LatestExists(init, e);
      if SameKey(last, best) && last.timestamp > best.timestamp {
        best := last;
      }
    } else if f :| f in init && SameKey(e, f) {
      best := LatestExists(init, f);
      if last.timestamp > best.timestamp {
        best := last;
      }
    } else {
      best := last;
    }
  }

  // ---------- the scratch index ----------

  class IndexData {
    var releases: Index

    constructor ()
      ensures releases == map[]
    {
      releases := map[];
    }

    method AddProvides(list: string, arch: string, ts: Time)
      modifies this
      ensures releases == AddAll(old(releases), ProvidesEntries(list, arch, ts))
    {
      if list == "" {
        return;
      }
      var toks := Fields(list);
      var i := 0;
      while i < |toks|
        invariant 0 <= i <= |toks|
        invariant releases == AddAll(old(releases), TokensEntries(toks[..i], arch, ts))
      {
        var tok := toks[i];
        var eq := IndexByte(tok, '=');
        TokensStep(old(releases), toks, i, arch, ts);
        if eq > 0 {
          var name, ver := tok[..eq], tok[eq + 1..];
          if ver != "0" {
            AddOne(releases, Entry(name, PackageVersion(ver, ts, arch)));
            releases := releases[name := Lookup(releases, name) + [PackageVersion(ver, ts, arch)]];
          }
        }
        i := i + 1;
      }
      assert toks[..|toks|] == toks;
    }

    /** The end of a record: file what it described, if it described a package. */
    method FlushRecord(name: string, cur: PackageVersion, provided: string, arch: string, ghost rec: seq<string>)
      returns (added: nat)
      requires Describes(rec, name, cur, provided)
      modifies this
      ensures releases == AddAll(old(releases), RecordEntries(rec, arch))
      ensures added == PackageCount([rec])
    {
      added := 0;
      PackageCountOne(rec);
      if name != "" && cur.version != "" {
        var filed := cur.(arch := arch);
        releases := releases[name := Lookup(releases, name) + [filed]];
        AddOne(old(releases), Entry(name, filed));
        added := added + 1;
        AddProvides(provided, arch, cur.timestamp);
        AddAllConcat(old(releases), [Entry(name, filed)], ProvidesEntries(provided, arch, cur.timestamp));
      }
    }

    /** The same on top of the records closed so far, with the running count. */
    method Flush(name: string, cur: PackageVersion, provided: string, arch: string, before: nat,
                 ghost base: Index, ghost closed: seq<seq<string>>, ghost rec: seq<string>)
      returns (added: nat)
      requires Describes(rec, name, cur, provided)
      requires Filed(releases, before, base, closed, arch)
      modifies this
      ensures Filed(releases, added, base, closed + [rec], arch)
    {
      var n := FlushRecord(name, cur, provided, arch, rec);
      CloseRecord(base, closed, rec, arch);
      added := before + n;
    }

    /** The scan loop: every record that a blank line closed is filed, the last one is pending. */
    method ScanLines(lines: seq<string>, arch: string)
      returns (added: nat, name: string, cur: PackageVersion, provided: string,
               ghost closed: seq<seq<string>>, ghost rec: seq<string>)
      modifies this
      ensures Records(lines) == closed + [rec] && Describes(rec, name, cur, provided)
      ensures Filed(releases, added, old(releases), closed, arch)
    {
      added, name, cur, provided := 0, "", PackageVersion("", 0, ""), "";
      closed, rec := [], [];
      var i := 0;
      while i < |lines|
        invariant 0 <= i <= |lines|
        invariant Records(lines[..i]) == closed + [rec]
        invariant Describes(rec, name, cur, provided)
        invariant Filed(releases, added, old(releases), closed, arch)
      {
        var line := lines[i];
        TakeLine(lines, i, closed, rec);
        i := i + 1;
        if line == "" {
          added := Flush(name, cur, provided, arch, added, old(releases), closed, rec);
          cur, name, provided := PackageVersion("", 0, ""), "", "";
          closed, rec := closed + [rec], [];
        } else {
          name, cur, provided := ReadField(line, name, cur, provided, rec);
          rec := rec + [line];
        }
      }
      assert lines[..|lines|] == lines;
    }

    /**
     Reads `lines` in one pass. `complete` says whether the scanner reached the end; when it
     did not, the record it was in is dropped and the parse fails.
     */
    method ParseAPKINDEX(lines: seq<string>, complete: bool, arch: string) returns (added: nat, ok: bool)
      modifies this
      ensures ok == complete
      ensures complete ==>
        && releases == AddAll(old(releases), Entries(lines, arch))
        && added == PackageCount(Records(lines))
      ensures !complete ==>
        var closed := Records(lines)[..|Records(lines)| - 1];
        releases == AddAll(old(releases), RecordsEntries(closed, arch)) && added == PackageCount(closed)
    {
      var name, cur, provided;
      ghost var closed, rec;
      added, name, cur, provided, closed, rec := ScanLines(lines, arch);
      assert (closed + [rec])[..|closed|] == closed;
      if !complete {
        return added, false;
      }
      added := Flush(name, cur, provided, arch, added, old(releases), closed, rec);
      return added, true;
    }

    method Dedupe()
      modifies this
      ensures DedupIndexOf(releases, old(releases))
    {
      var todo := releases.Keys;
      while todo != {}
        invariant todo <= old(releases).Keys
        invariant releases.Keys == old(releases).Keys
        invariant forall name :: name in todo ==> releases[name] == old(releases)[name]
        invariant forall name :: name in releases && name !in todo ==> DedupOf(releases[name], old(releases)[name])
        decreases |todo|
      {
        var name :| name in todo;
        todo := todo - {name};
        var items := releases[name];
        if |items| < 2 {
          DistinctIsDedup(items);
          continue;
        }
        var byKey := LatestByKey(items);
        if |byKey| == |items| {
          DistinctIsDedup(items);
          continue;
        }
        var out := ValuesInAnyOrder(byKey, items);
        releases := releases[name := out];
      }
    }
  }

  /** The scratch variables hold what `rec`'s lines have set so far. */
  ghost predicate Describes(rec: seq<string>, name: string, cur: PackageVersion, provided: string) {
    && name == LastField(rec, 'P') && provided == LastField(rec, 'p')
    && cur.version == LastField(rec, 'V') && cur.timestamp == LastTimestamp(rec)
  }

  /** `m` is `base` with the entries of `recs` filed, `added` of them being packages. */
  ghost predicate Filed(m: Index, added: nat, base: Index, recs: seq<seq<string>>, arch: string) {
    m == AddAll(base, RecordsEntries(recs, arch)) && added == PackageCount(recs)
  }

  /** One non-blank line; lines that are not `K:value` and unknown keys are ignored. */
  method ReadField(line: string, name: string, cur: PackageVersion, provided: string, ghost rec: seq<string>)
    returns (name': string, cur': PackageVersion, provided': string)
    requires Describes(rec, name, cur, provided)
    ensures Describes(rec + [line], name', cur', provided')
  {
    FieldSnoc(rec, line, 'P');
    FieldSnoc(rec, line, 'V');
    FieldSnoc(rec, line, 'p');
    name', cur', provided' := name, cur, provided;
    if |line| < 2 || line[1] != ':' {
      return;
    }
    var key, val := line[0], line[2..];
    if key == 'P' {
      name' := val;
    } else if key == 'V' {
      cur' := cur.(version := val);
    } else if key == 't' {
      var t := ParseTimestamp(val);
      if t.Some? {
        cur' := cur.(timestamp := t.value);
      }
    } else if key == 'p' {
      provided' := val;
    }
  }

  lemma TakeLine(lines: seq<string>, i: nat, closed: seq<seq<string>>, rec: seq<string>)
    requires i < |lines| && Records(lines[..i]) == closed + [rec]
    ensures Records(lines[..i + 1])
         == if lines[i] == "" then (closed + [rec]) + [[]] else closed + [rec + [lines[i]]]
  {
    assert lines[..i + 1] == lines[..i] + [lines[i]];
    RecordsSnoc(lines[..i], lines[i]);
    assert (closed + [rec])[..|closed|] == closed;
  }

  ghost predicate LatestMap(byKey: map<Key, PackageVersion>, items: seq<PackageVersion>) {
    && (forall k :: k in byKey ==> KeyOf(byKey[k]) == k && IsLatest(byKey[k], items))
    && (forall e :: e in items ==> KeyOf(e) in byKey)
  }

  predicate Supersedes(r: PackageVersion, byKey: map<Key, PackageVersion>) {
    KeyOf(r) !in byKey || r.timestamp > byKey[KeyOf(r)].timestamp
  }

  lemma SizeAfterUpdate<K, V>(m: map<K, V>, k: K, v: V)
    ensures |m[k := v]| == |m| + if k in m then 0 else 1
  {
    if k in m {
      assert m[k := v].Keys == m.Keys;
    }
  }

  lemma LatestMapStep(byKey: map<Key, PackageVersion>, items: seq<PackageVersion>, i: nat)
    requires i < |items| && LatestMap(byKey, items[..i])
    ensures LatestMap(if Supersedes(items[i], byKey) then byKey[KeyOf(items[i]) := items[i]] else byKey, items[..i + 1])
    ensures KeyOf(items[i]) !in byKey && DistinctKeys(items[..i]) ==> DistinctKeys(items[..i + 1])
  {
    var r := items[i];
    assert items[..i + 1] == items[..i] + [r];
    assert forall e :: e in items[..i + 1] <==> e in items[..i] || e == r;
    assert KeyOf(r) !in byKey ==> forall e :: e in items[..i] ==> KeyOf(e) != KeyOf(r);
  }

  method LatestByKey(items: seq<PackageVersion>) returns (byKey: map<Key, PackageVersion>)
    ensures LatestMap(byKey, items)
    ensures |byKey| == |items| ==> DistinctKeys(items)
  {
    byKey := map[];
    var i := 0;
    while i < |items|
      invariant 0 <= i <= |items|
      invariant LatestMap(byKey, items[..i])
      invariant |byKey| <= i
      invariant |byKey| == i ==> DistinctKeys(items[..i])
    {
      var r := items[i];
      var k := KeyOf(r);
      LatestMapStep(byKey, items, i);
      SizeAfterUpdate(byKey, k, r);
      if Supersedes(r, byKey) {
        byKey := byKey[k := r];
      }
      i := i + 1;
    }
    assert items[..|items|] == items;
  }

  /** Ranging over a Go map: the values, in whatever order the keys come. */
  method ValuesInAnyOrder(byKey: map<Key, PackageVersion>, ghost items: seq<PackageVersion>)
    returns (out: seq<PackageVersion>)
    requires LatestMap(byKey, items)
    ensures DedupOf(out, items)
  {
    out := [];
    var todo := byKey.Keys;
    while todo != {}
      invariant todo <= byKey.Keys
      invariant DistinctKeys(out)
      invariant forall e :: e in out <==> KeyOf(e) in byKey && KeyOf(e) !in todo && byKey[KeyOf(e)] == e
      decreases |todo|
    {
      var k :| k in todo;
      todo := todo - {k};
      assert forall e :: e in out ==> KeyOf(e) != k;
      out := out + [byKey[k]];
    }
    forall e ensures e in out <==> IsLatest(e, items) {
      if IsLatest(e, items) {
        assert SameKey(e, byKey[KeyOf(e)]);
        assert e == byKey[KeyOf(e)];
      }
    }
  }

  lemma AddOne(m: Index, e: Entry)
    ensures AddAll(m, [e]) == Append(m, e)
  {
    assert AddAll(m, [e][..0]) == m;
  }

  lemma TokensStep(m: Index, toks: seq<string>, i: nat, arch: string, ts: Time)
    requires i < |toks|
    ensures AddAll(m, TokensEntries(toks[..i + 1], arch, ts))
         == AddAll(AddAll(m, TokensEntries(toks[..i], arch, ts)), TokenEntries(toks[i], arch, ts))
  {
    assert toks[..i + 1][..i] == toks[..i];
    AddAllConcat(m, TokensEntries(toks[..i], arch, ts), TokenEntries(toks[i], arch, ts));
  }

  lemma PackageCountOne(rec: seq<string>)
    ensures PackageCount([rec]) == if IsPackage(rec) then 1 else 0
  {
    assert [rec][1..] == [];
    assert Filter([rec][1..], IsPackage) == [];
  }

  lemma CloseRecord(m: Index, closed: seq<seq<string>>, rec: seq<string>, arch: string)
    ensures AddAll(AddAll(m, RecordsEntries(closed, arch)), RecordEntries(rec, arch))
         == AddAll(m, RecordsEntries(closed + [rec], arch))
    ensures PackageCount(closed + [rec]) == PackageCount(closed) + PackageCount([rec])
  {
    AddAllConcat(m, RecordsEntries(closed, arch), RecordEntries(rec, arch));
    assert (closed + [rec])[..|closed|] == closed;
    FilterAppend(closed, [rec], IsPackage);
  }
}
