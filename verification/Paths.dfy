/** Slash-separated paths, lexical cleaning, and the package names the datasources accept. */
module Paths {
  import opened Core

  /** `strings.Split(s, "/")`. */
  function Split(s: string): (segs: seq<string>)
    ensures segs != []
    ensures forall seg :: seg in segs ==> '/' !in seg
  {
    if s == [] then [""]
    else
      var rest := Split(s[1..]);
      if s[0] == '/' then [""] + rest else [[s[0]] + rest[0]] + rest[1..]
  }

  /** `strings.Join(segs, "/")`. */
  function Join(segs: seq<string>): string {
    if segs == [] then ""
    else if |segs| == 1 then segs[0]
    else segs[0] + "/" + Join(segs[1..])
  }

  lemma JoinCons(c: char, segs: seq<string>)
    requires segs != []
    ensures Join([[c] + segs[0]] + segs[1..]) == [c] + Join(segs)
  {
    var more := [[c] + segs[0]] + segs[1..];
    assert more[1..] == segs[1..];
  }

  lemma JoinEmptyFirst(segs: seq<string>)
    requires segs != []
    ensures Join([""] + segs) == "/" + Join(segs)
  {
    assert ([""] + segs)[1..] == segs;
  }

  lemma {:induction false} JoinSplit(s: string)
    ensures Join(Split(s)) == s
  {
    if s != [] {
      JoinSplit(s[1..]);
      JoinCons(s[0], Split(s[1..]));
      JoinEmptyFirst(Split(s[1..]));
      assert s == [s[0]] + s[1..];
    }
  }

  lemma {:induction false} SplitFirst(seg: string, s: string)
    requires '/' !in seg
    ensures Split(seg + "/" + s) == [seg] + Split(s)
    ensures Split(seg) == [seg]
  {
    var whole := seg + "/" + s;
    if seg == [] {
      assert whole[1..] == s;
    } else {
      SplitFirst(seg[1..], s);
      assert whole[1..] == seg[1..] + "/" + s;
      assert seg == [seg[0]] + seg[1..];
    }
  }

  lemma {:induction false} SplitJoin(segs: seq<string>)
    requires segs != [] && forall seg :: seg in segs ==> '/' !in seg
    ensures Split(Join(segs)) == segs
  {
    if |segs| == 1 {
      SplitFirst(segs[0], "");
    } else {
      SplitJoin(segs[1..]);
      SplitFirst(segs[0], Join(segs[1..]));
    }
  }

  // ---------- filepath.Clean and filepath.IsLocal ----------

  /** One path element met after the elements `kept` so far. */
  function CleanStep(rooted: bool, kept: seq<string>, seg: string): seq<string> {
    if seg == "" || seg == "." then kept
    else if seg != ".." then kept + [seg]
    else if kept != [] && kept[|kept| - 1] != ".." then kept[..|kept| - 1]
    else if rooted then kept
    else kept + [seg]
  }

  function CleanSegs(rooted: bool, segs: seq<string>): seq<string> {
    if segs == [] then [] else CleanStep(rooted, CleanSegs(rooted, segs[..|segs| - 1]), segs[|segs| - 1])
  }

  function Clean(path: string): string {
    var rooted := path != "" && path[0] == '/';
    var kept := CleanSegs(rooted, Split(path));
    if rooted then "/" + Join(kept) else if kept == [] then "." else Join(kept)
  }

  function IsLocal(path: string): bool {
    if path == "" || path[0] == '/' then false
    else
      var dots := "." in Split(path) || ".." in Split(path);
      var p := if dots then Clean(path) else path;
      p != ".." && !("../" <= p)
  }

  /** Where a package's feed goes below its source's directory; `None` is the refusal. */
  function FeedPath(pkg: string): Option<string> {
    if IsLocal(Clean(pkg)) then Some(Clean(pkg)) else None
  }

  predicate Plain(seg: string) { seg != "" && seg != "." && seg != ".." && '/' !in seg }

  /** What cleaning leaves: parent steps at the front of an unrooted path, then plain names. */
  ghost predicate Cleaned(rooted: bool, kept: seq<string>) {
    exists n :: 0 <= n <= |kept| && CleanedAt(rooted, kept, n)
  }

  ghost predicate CleanedAt(rooted: bool, kept: seq<string>, n: nat)
    requires n <= |kept|
  {
    && (rooted ==> n == 0)
    && (forall i :: 0 <= i < n ==> kept[i] == "..")
    && (forall i :: n <= i < |kept| ==> Plain(kept[i]))
  }

  lemma {:induction false} CleanSegsCleaned(rooted: bool, segs: seq<string>)
    requires forall seg :: seg in segs ==> '/' !in seg
    ensures Cleaned(rooted, CleanSegs(rooted, segs))
  {
    if segs == [] {
      assert CleanedAt(rooted, [], 0);
    } else {
      var init, seg := segs[..|segs| - 1], segs[|segs| - 1];
      CleanSegsCleaned(rooted, init);
      var kept := CleanSegs(rooted, init);
      var n :| 0 <= n <= |kept| && CleanedAt(rooted, kept, n);
      var kept' := CleanStep(rooted, kept, seg);
      if seg == ".." && |kept'| > |kept| {
        assert CleanedAt(rooted, kept', n + 1);
      } else {
        assert CleanedAt(rooted, kept', n);
      }
    }
  }

  lemma CleanSegsSnoc(rooted: bool, segs: seq<string>, seg: string)
    ensures CleanSegs(rooted, segs + [seg]) == CleanStep(rooted, CleanSegs(rooted, segs), seg)
  {
    assert (segs + [seg])[..|segs|] == segs;
  }

  lemma CleanedPrefix(rooted: bool, kept: seq<string>, n: nat) returns (m: nat)
    requires kept != [] && n <= |kept| && CleanedAt(rooted, kept, n)
    ensures m <= |kept| - 1 && CleanedAt(rooted, kept[..|kept| - 1], m)
    ensures var init, last := kept[..|kept| - 1], kept[|kept| - 1]; CleanStep(rooted, init, last) == init + [last]
  {
    m := if n == |kept| then n - 1 else n;
  }

  /** Cleaned elements pass through cleaning unchanged. */
  lemma {:induction false} CleanSegsStable(rooted: bool, kept: seq<string>, n: nat)
    requires n <= |kept| && CleanedAt(rooted, kept, n)
    ensures CleanSegs(rooted, kept) == kept
  {
    if kept != [] {
      var init, last := kept[..|kept| - 1], kept[|kept| - 1];
      var m := CleanedPrefix(rooted, kept, n);
      CleanSegsStable(rooted, init, m);
      CleanSegsSnoc(rooted, init, last);
      assert kept == init + [last];
    }
  }

  /** An unrooted, non-empty cleaned element list is its own path's element list. */
  lemma CleanJoin(kept: seq<string>, n: nat)
    requires kept != [] && n <= |kept| && CleanedAt(false, kept, n)
    ensures Split(Join(kept)) == kept && Clean(Join(kept)) == Join(kept)
    ensures Join(kept) != "" && Join(kept)[0] != '/'
  {
    SplitJoin(kept);
    assert kept[0] == ".." || Plain(kept[0]);
    assert kept[0] != "" && kept[0][0] in kept[0] && kept[0][0] != '/';
    assert Join(kept)[0] == kept[0][0];
    CleanSegsStable(false, kept, n);
  }

  lemma CleanRooted(kept: seq<string>)
    requires CleanedAt(true, kept, 0)
    ensures Clean("/" + Join(kept)) == "/" + Join(kept)
  {
    var p := "/" + Join(kept);
    SplitFirst("", Join(kept));
    assert "" + "/" + Join(kept) == p;
    var segs := Split(p);
    assert segs == [""] + Split(Join(kept));
    if kept == [] {
      assert Split(Join(kept)) == [""];
      assert segs[..1] == [""] && segs[..1][..0] == [];
      assert CleanSegs(true, segs[..1]) == [];
      assert segs == ["", ""];
    } else {
      SplitJoin(kept);
      CleanSegsStable(true, kept, 0);
      CleanSegsSkip(kept);
    }
  }

  lemma {:induction false} CleanSegsSkip(kept: seq<string>)
    ensures CleanSegs(true, [""] + kept) == CleanSegs(true, kept)
  {
    var segs := [""] + kept;
    if kept == [] {
      assert segs[..0] == [];
    } else {
      CleanSegsSkip(kept[..|kept| - 1]);
      assert segs[..|segs| - 1] == [""] + kept[..|kept| - 1];
    }
  }

  lemma CleanDot()
    ensures Split(".") == ["."] && Clean(".") == "."
  {
    SplitFirst(".", "");
    assert ["."][..0] == [];
    assert CleanSegs(false, ["."]) == [];
  }

  lemma CleanIdempotent(path: string)
    ensures Clean(Clean(path)) == Clean(path)
  {
    var rooted := path != "" && path[0] == '/';
    var kept := CleanSegs(rooted, Split(path));
    CleanSegsCleaned(rooted, Split(path));
    var n :| 0 <= n <= |kept| && CleanedAt(rooted, kept, n);
    if rooted {
      CleanRooted(kept);
    } else if kept == [] {
      CleanDot();
    } else {
      CleanJoin(kept, n);
    }
  }

  // ---------- accepted names ----------

  predicate ApkFirstChar(c: char) { '!' <= c <= ',' || '0' <= c <= '~' }

  predicate ApkChar(c: char) { '!' <= c <= '.' || '0' <= c <= '~' }

  /** `^[!-,0-~][!-.0-~]{0,127}$` */
  predicate ApkNameOk(s: string) {
    1 <= |s| <= 128 && ApkFirstChar(s[0]) && forall i :: 1 <= i < |s| ==> ApkChar(s[i])
  }

  predicate LowerAlnum(c: char) { 'a' <= c <= 'z' || '0' <= c <= '9' }

  predicate RepoChar(c: char) { LowerAlnum(c) || c == '.' || c == '_' || c == '-' }

  /** `[a-z0-9]([a-z0-9._-]*[a-z0-9])?` */
  predicate RepoSegment(s: string) {
    s != [] && LowerAlnum(s[0]) && LowerAlnum(s[|s| - 1]) && forall c :: c in s ==> RepoChar(c)
  }

  /** `^segment(/segment)*$` */
  predicate RepoNameOk(s: string) {
    forall seg :: seg in Split(s) ==> RepoSegment(seg)
  }

  /** The apk pattern in words: visible ASCII without a slash, not led by a dash or a dot. */
  lemma ApkNameMeaning(s: string)
    ensures ApkNameOk(s) <==>
        && 1 <= |s| <= 128 && s[0] != '-' && s[0] != '.'
        && forall i :: 0 <= i < |s| ==> '!' <= s[i] <= '~' && s[i] != '/'
  {
    if forall i :: 0 <= i < |s| ==> '!' <= s[i] <= '~' && s[i] != '/' {
      assert forall i :: 0 <= i < |s| ==> ApkChar(s[i]);
    }
  }

  predicate LetterOrDigit(c: char) { 'a' <= c <= 'z' || '0' <= c <= '9' }

  predicate ProperAt(s: string, i: nat)
    requires i < |s|
  {
    || LetterOrDigit(s[i]) || s[i] == '.' || s[i] == '_' || s[i] == '-'
    || (s[i] == '/' && 0 < i < |s| - 1 && LetterOrDigit(s[i - 1]) && LetterOrDigit(s[i + 1]))
  }

  /** The repo pattern in words: letters and digits at the ends and around every slash. */
  predicate ProperRepoPath(s: string) {
    && s != "" && LetterOrDigit(s[0]) && LetterOrDigit(s[|s| - 1])
    && forall i :: 0 <= i < |s| ==> ProperAt(s, i)
  }

  lemma OneSegmentProper(seg: string)
    requires '/' !in seg
    ensures RepoSegment(seg) <==> ProperRepoPath(seg)
  {
    assert forall i :: 0 <= i < |seg| ==> seg[i] in seg && seg[i] != '/';
    if ProperRepoPath(seg) {
      forall c | c in seg ensures RepoChar(c) {
        var i :| 0 <= i < |seg| && seg[i] == c;
        assert ProperAt(seg, i);
      }
    }
  }

  lemma ProperParts(seg: string, rest: string)
    requires '/' !in seg && ProperRepoPath(seg + "/" + rest)
    ensures ProperRepoPath(seg) && ProperRepoPath(rest)
  {
    var s := seg + "/" + rest;
    assert s[|seg|] == '/' && ProperAt(s, |seg|);
    forall i | 0 <= i < |seg| ensures ProperAt(seg, i) {
      assert ProperAt(s, i) && s[i] == seg[i] && seg[i] in seg;
    }
    forall i | 0 <= i < |rest| ensures ProperAt(rest, i) {
      assert ProperAt(s, |seg| + 1 + i) && s[|seg| + 1 + i] == rest[i];
    }
    assert s[|s| - 1] == rest[|rest| - 1];
  }

  lemma ProperWhole(seg: string, rest: string)
    requires ProperRepoPath(seg) && ProperRepoPath(rest)
    ensures ProperRepoPath(seg + "/" + rest)
  {
    var s := seg + "/" + rest;
    forall i | 0 <= i < |s| ensures ProperAt(s, i) {
      if i < |seg| {
        assert ProperAt(seg, i) && s[i] == seg[i];
      } else if i > |seg| {
        assert ProperAt(rest, i - |seg| - 1) && s[i] == rest[i - |seg| - 1];
      } else {
        assert s[i - 1] == seg[|seg| - 1] && s[i + 1] == rest[0];
      }
    }
  }

  lemma RepoNameCons(seg: string, rest: string)
    requires '/' !in seg
    ensures RepoNameOk(seg + "/" + rest) <==> RepoSegment(seg) && RepoNameOk(rest)
  {
    SplitFirst(seg, rest);
    assert forall x :: x in [seg] + Split(rest) <==> x == seg || x in Split(rest);
  }

  lemma {:induction false} FirstSlash(s: string) returns (k: nat)
    requires '/' in s
    ensures k < |s| && s[k] == '/' && '/' !in s[..k] && s == s[..k] + "/" + s[k + 1..]
  {
    if s[0] == '/' {
      return 0;
    }
    var rest := FirstSlash(s[1..]);
    k := rest + 1;
    assert s[..k] == [s[0]] + s[1..][..rest];
  }

  lemma {:induction false} RepoNameMeaning(s: string)
    ensures RepoNameOk(s) <==> ProperRepoPath(s)
    decreases |s|
  {
    if '/' in s {
      var k := FirstSlash(s);
      var seg, rest := s[..k], s[k + 1..];
      RepoNameMeaning(rest);
      RepoNameCons(seg, rest);
      OneSegmentProper(seg);
      if ProperRepoPath(s) {
        ProperParts(seg, rest);
      } else if ProperRepoPath(seg) && ProperRepoPath(rest) {
        ProperWhole(seg, rest);
      }
    } else {
      SplitFirst(s, "");
      OneSegmentProper(s);
    }
  }

  lemma ParentFirst(s: string)
    ensures "../" <= s ==> ".." in Split(s)
  {
    if "../" <= s {
      SplitFirst("..", s[3..]);
      assert s == ".." + "/" + s[3..];
    }
  }

  lemma LocalIffNoParent(kept: seq<string>, n: nat)
    requires kept != [] && n <= |kept| && CleanedAt(false, kept, n)
    ensures IsLocal(Join(kept)) <==> ".." !in kept
  {
    CleanJoin(kept, n);
    ParentFirst(Join(kept));
    if n > 0 {
      assert kept[0] == "..";
      if |kept| > 1 {
        assert Join(kept)[..3] == "../";
      }
    } else if Join(kept) == ".." {
      SplitFirst("..", "");
    }
  }

  /** A feed is refused exactly when its cleaned path is rooted or still climbs to a parent. */
  lemma FeedPathContained(pkg: string)
    ensures FeedPath(pkg).Some? <==> !("/" <= Clean(pkg)) && ".." !in Split(Clean(pkg))
    ensures FeedPath(pkg).Some? ==> Clean(FeedPath(pkg).value) == FeedPath(pkg).value
  {
    var rooted := pkg != "" && pkg[0] == '/';
    CleanIdempotent(pkg);
    if !rooted {
      var kept := CleanSegs(false, Split(pkg));
      CleanSegsCleaned(false, Split(pkg));
      var n :| 0 <= n <= |kept| && CleanedAt(false, kept, n);
      if kept == [] {
        CleanDot();
      } else {
        CleanJoin(kept, n);
        LocalIffNoParent(kept, n);
      }
    }
  }

  lemma PlainPath(s: string)
    requires forall seg :: seg in Split(s) ==> Plain(seg)
    ensures Clean(s) == s && IsLocal(s) && FeedPath(s) == Some(s)
  {
    JoinSplit(s);
    assert CleanedAt(false, Split(s), 0);
    CleanJoin(Split(s), 0);
    assert s != "..";
    ParentFirst(s);
  }

  lemma ApkNameIsOneSegment(s: string)
    requires ApkNameOk(s)
    ensures Split(s) == [s] && Plain(s)
  {
    assert '/' !in s;
    SplitFirst(s, "");
  }

  lemma RepoSegmentIsPlain(s: string)
    requires RepoSegment(s) && '/' !in s
    ensures Plain(s)
  {
  }

  /** Accepted names are their own feed paths, so distinct names get distinct files. */
  lemma AcceptedNamesAreFeedPaths(s: string)
    requires ApkNameOk(s) || RepoNameOk(s)
    ensures Clean(s) == s && IsLocal(s) && FeedPath(s) == Some(s)
    ensures ApkNameOk(s) ==> Split(s) == [s]
  {
    if ApkNameOk(s) {
      ApkNameIsOneSegment(s);
    }
    forall seg | seg in Split(s) ensures Plain(seg) {
      if !ApkNameOk(s) {
        RepoSegmentIsPlain(seg);
      }
    }
    PlainPath(s);
  }

  const FEED_FILE := "releases.json"

  /** The directory elements of a feed path, and those of its file. */
  function DirSegs(p: string): seq<string> { if p == "." then [] else Split(p) }

  function FileSegs(p: string): seq<string> { DirSegs(p) + [FEED_FILE] }

  /** The file of `p` lies where `q` needs a directory. */
  predicate Contends(p: string, q: string) { FileSegs(p) <= DirSegs(q) }

  /** The same file as a path. */
  function FileOf(p: string): string { if p == "." then FEED_FILE else p + "/" + FEED_FILE }

  lemma {:induction false} JoinConcat(a: seq<string>, b: seq<string>)
    requires a != [] && b != []
    ensures Join(a + b) == Join(a) + "/" + Join(b)
  {
    if |a| == 1 {
      assert (a + b)[1..] == b;
    } else {
      JoinConcat(a[1..], b);
      assert (a + b)[1..] == a[1..] + b;
    }
  }

  lemma SplitConcat(a: string, b: string)
    ensures Split(a + "/" + b) == Split(a) + Split(b)
  {
    JoinSplit(a);
    JoinSplit(b);
    JoinConcat(Split(a), Split(b));
    SplitJoin(Split(a) + Split(b));
  }

  lemma PrefixOfSegments(a: string, b: string)
    requires Split(a) <= Split(b)
    ensures b == a || a + "/" <= b
  {
    var first, rest := Split(a), Split(b)[|Split(a)|..];
    assert Split(b) == first + rest;
    JoinSplit(a);
    JoinSplit(b);
    if rest == [] {
      assert first + rest == first;
    } else {
      JoinConcat(first, rest);
    }
  }

  /** One path leads to another exactly when it is the other up to a slash. */
  lemma SplitPrefix(a: string, b: string)
    ensures Split(a) <= Split(b) <==> b == a || a + "/" <= b
  {
    if Split(a) <= Split(b) {
      PrefixOfSegments(a, b);
    }
    if a + "/" <= b {
      SplitConcat(a, b[|a| + 1..]);
      assert b == a + "/" + b[|a| + 1..];
    }
  }

  lemma BelowDir(p: string, file: string)
    requires '/' !in file
    ensures DirSegs(p) + [file] == Split(if p == "." then file else p + "/" + file)
  {
    SplitFirst(file, "");
    SplitConcat(p, file);
  }

  lemma FileSegsSplit(p: string)
    ensures FileSegs(p) == Split(FileOf(p))
  {
    FileNameIsSegment();
    BelowDir(p, FEED_FILE);
  }

  /** One feed is in another's way exactly when its file is the other's directory or one above it. */
  lemma ContendsExactly(p: string, q: string)
    ensures Contends(p, q) <==> q != "." && (q == FileOf(p) || FileOf(p) + "/" <= q)
  {
    FileSegsSplit(p);
    SplitPrefix(FileOf(p), q);
  }

  /** Accepted names contend exactly in this way; a path never contends with itself. */
  lemma AcceptedNamesContendIff(p: string, q: string)
    requires ApkNameOk(p) || RepoNameOk(p)
    requires ApkNameOk(q) || RepoNameOk(q)
    ensures Contends(p, q) <==> q == FileOf(p) || FileOf(p) + "/" <= q
    ensures Contends(p, q) ==> RepoNameOk(q) && !ApkNameOk(q) && !Contends(q, p) && p != q
  {
    ContendsExactly(p, q);
    NotDot(p);
    NotDot(q);
    if Contends(p, q) {
      assert q[|p|] == '/';
      assert |DirSegs(p)| < |DirSegs(q)|;
    }
  }

  lemma FeedFileIs(p: string)
    ensures FileOf(p) == if p == "." then "releases.json" else p + "/" + "releases.json"
  {
  }

  lemma NotDot(s: string)
    requires ApkNameOk(s) || RepoNameOk(s)
    ensures s != "."
  {
    CleanDot();
    assert RepoNameOk(s) ==> RepoSegment(Split(s)[0]);
  }

  /** Accepted apk names never contend for a path. */
  lemma ApkNamesNeverContend(p: string, q: string)
    requires ApkNameOk(p) && ApkNameOk(q)
    ensures !Contends(p, q)
  {
    AcceptedNamesAreFeedPaths(p);
    AcceptedNamesAreFeedPaths(q);
  }

  lemma {:induction false} JoinSnoc(segs: seq<string>, seg: string)
    requires segs != []
    ensures Join(segs + [seg]) == Join(segs) + "/" + seg
  {
    if |segs| > 1 {
      JoinSnoc(segs[1..], seg);
      assert (segs + [seg])[1..] == segs[1..] + [seg];
    } else {
      assert (segs + [seg])[1..] == [seg];
    }
  }

  lemma FileNameIsSegment()
    ensures RepoSegment(FEED_FILE) && '/' !in FEED_FILE
  {
  }

  lemma FileOfSegments(x: string)
    requires RepoNameOk(x)
    ensures Split(FileOf(x)) == Split(x) + [FEED_FILE]
  {
    NotDot(x);
    FileNameIsSegment();
    BelowDir(x, FEED_FILE);
  }

  /** Accepted repo names can: for every `x`, the repo `x/releases.json` is accepted too. */
  lemma RepoNamesCanContend(x: string)
    requires RepoNameOk(x)
    ensures RepoNameOk(FileOf(x)) && Contends(x, FileOf(x))
  {
    NotDot(x);
    FileNameIsSegment();
    FileOfSegments(x);
  }
}
