/** Where a path leads on disk, and where a snapshot is staged: internal/snapshot/snapshot.go. */
module Disks {
  import opened Core
  import opened Paths

  datatype File = Partial | Whole(releases: seq<Release>)

  /** The feeds of one source, by cleaned package path. */
  type Dir = map<string, File>

  type Tree = map<string, Dir>

  /** A place on disk: the names from the root down. */
  type Loc = seq<string>

  /** `Holding` is a directory together with all that lies below it. */
  datatype Node = Folder | NonFolder | Holding(tree: Tree)

  type Disk = map<Loc, Node>

  /** The output path as given, and the working directory it starts from when it is not rooted. */
  datatype Output = Output(cwd: Loc, path: string)

  function Above(l: Loc): Loc { if l == [] then [] else l[..|l| - 1] }

  /** A tree of directories laid out place by place. */
  ghost predicate WellFormed(d: Disk, cwd: Loc) {
    && [] in d && d[[]] == Folder && cwd in d && d[cwd] == Folder
    && (forall l :: l in d && l != [] ==> Above(l) in d && d[Above(l)].Folder?)
    && (forall l :: l in d ==> !d[l].Holding?)
  }

  // ---------- where a path leads ----------

  /** One path element on from `l`. */
  function Along(l: Loc, seg: string): Loc {
    if seg == "" || seg == "." then l else if seg == ".." then Above(l) else l + [seg]
  }

  function Lead(l: Loc, segs: seq<string>): Loc {
    if segs == [] then l else Along(Lead(l, segs[..|segs| - 1]), segs[|segs| - 1])
  }

  function Start(cwd: Loc, path: string): Loc { if path != "" && path[0] == '/' then [] else cwd }

  function Leads(cwd: Loc, path: string): Loc { Lead(Start(cwd, path), Split(path)) }

  /** Every element but the last is, or leads through, an existing directory. */
  predicate Passable(d: Disk, l: Loc, segs: seq<string>) {
    segs == [] ||
    (var init := segs[..|segs| - 1]; Passable(d, l, init) && Lead(l, init) in d && d[Lead(l, init)].Folder?)
  }

  datatype Found = Absent | Present(node: Node) | NotADirectory

  function At(d: Disk, l: Loc): Found { if l in d then Present(d[l]) else Absent }

  /** What the kernel finds walking the elements one by one. */
  function LookUp(d: Disk, l: Loc, segs: seq<string>): Found {
    if segs == [] then At(d, l)
    else
      match LookUp(d, l, segs[..|segs| - 1])
      case Absent => Absent
      case Present(node) => if node.Folder? then At(d, Lead(l, segs)) else NotADirectory
      case NotADirectory => NotADirectory
  }

  /** `os.Lstat`. */
  function Lstat(d: Disk, o: Output): Found { LookUp(d, Start(o.cwd, o.path), Split(o.path)) }

  lemma {:induction false} PassableLookUp(d: Disk, l: Loc, segs: seq<string>)
    ensures Passable(d, l, segs) ==> LookUp(d, l, segs) == At(d, Lead(l, segs))
    ensures LookUp(d, l, segs).Present? ==> Passable(d, l, segs)
  {
    if segs != [] {
      PassableLookUp(d, l, segs[..|segs| - 1]);
    }
  }

  lemma LeadSnoc(l: Loc, segs: seq<string>, seg: string)
    ensures Lead(l, segs + [seg]) == Along(Lead(l, segs), seg)
  {
    assert (segs + [seg])[..|segs|] == segs;
  }

  lemma {:induction false} LeadConcat(l: Loc, a: seq<string>, b: seq<string>)
    ensures Lead(l, a + b) == Lead(Lead(l, a), b)
  {
    if b == [] {
      assert a + b == a;
    } else {
      LeadConcat(l, a, b[..|b| - 1]);
      assert (a + b)[..|a + b| - 1] == a + b[..|b| - 1];
    }
  }

  lemma CleanStepLead(rooted: bool, l: Loc, kept: seq<string>, seg: string)
    requires (rooted ==> l == []) && Cleaned(rooted, kept)
    ensures Lead(l, CleanStep(rooted, kept, seg)) == Along(Lead(l, kept), seg)
  {
    LeadSnoc(l, kept, seg);
    if seg == ".." && kept != [] {
      var n :| 0 <= n <= |kept| && CleanedAt(rooted, kept, n);
      var init, last := kept[..|kept| - 1], kept[|kept| - 1];
      assert last == ".." || Plain(last);
      if last != ".." {
        assert Lead(l, kept) == Lead(l, init) + [last];
      }
    }
  }

  lemma {:induction false} CleanSegsLead(rooted: bool, l: Loc, segs: seq<string>)
    requires (rooted ==> l == []) && forall seg :: seg in segs ==> '/' !in seg
    ensures Lead(l, CleanSegs(rooted, segs)) == Lead(l, segs)
  {
    if segs != [] {
      var init, seg := segs[..|segs| - 1], segs[|segs| - 1];
      CleanSegsLead(rooted, l, init);
      CleanSegsCleaned(rooted, init);
      CleanStepLead(rooted, l, CleanSegs(rooted, init), seg);
    }
  }

  /** Cleaning a path does not change where it leads (there being no symbolic links). */
  lemma CleanLeadsThere(cwd: Loc, path: string)
    ensures Leads(cwd, Clean(path)) == Leads(cwd, path)
  {
    var rooted := path != "" && path[0] == '/';
    var kept := CleanSegs(rooted, Split(path));
    CleanSegsLead(rooted, Start(cwd, path), Split(path));
    CleanSegsCleaned(rooted, Split(path));
    var n :| 0 <= n <= |kept| && CleanedAt(rooted, kept, n);
    if rooted {
      SplitConcat("", Join(kept));
      assert "" + "/" + Join(kept) == "/" + Join(kept);
      LeadConcat([], [""], Split(Join(kept)));
      assert Lead([], [""]) == [];
      if kept == [] {
        assert Lead([], Split("")) == [];
      } else {
        SplitJoin(kept);
      }
    } else if kept == [] {
      CleanDot();
      assert Lead(cwd, ["."]) == cwd;
    } else {
      CleanJoin(kept, n);
    }
  }

  // ---------- the parent and the base name ----------

  function UpToSlash(path: string): string {
    if path == "" || path[|path| - 1] == '/' then path else UpToSlash(path[..|path| - 1])
  }

  /** `filepath.Dir`. */
  function ParentPath(path: string): string { Clean(UpToSlash(path)) }

  function LastNonEmpty(segs: seq<string>): string {
    if segs == [] then "/"
    else if segs[|segs| - 1] != "" then segs[|segs| - 1] else LastNonEmpty(segs[..|segs| - 1])
  }

  /** `filepath.Base`. */
  function Base(path: string): string { if path == "" then "." else LastNonEmpty(Split(path)) }

  function Inner(path: string): seq<string> { Split(path)[..|Split(path)| - 1] }

  function Last(path: string): string { Split(path)[|Split(path)| - 1] }

  lemma {:induction false} UpToSlashOf(x: string, last: string)
    requires '/' !in last
    ensures UpToSlash(x + "/" + last) == x + "/"
    ensures UpToSlash(last) == ""
  {
    if last == "" {
      assert x + "/" + last == x + "/";
    } else {
      UpToSlashOf(x, last[..|last| - 1]);
      assert (x + "/" + last)[..|x + "/" + last| - 1] == x + "/" + last[..|last| - 1];
    }
  }

  /** A path is what comes up to its last slash and its last element. */
  lemma UpToSlashInner(path: string)
    ensures UpToSlash(path) == if Inner(path) == [] then "" else Join(Inner(path)) + "/"
    ensures path == UpToSlash(path) + Last(path)
  {
    var inner, last := Inner(path), Last(path);
    assert Split(path) == inner + [last];
    JoinSplit(path);
    UpToSlashOf(Join(inner), last);
    if inner != [] {
      JoinSnoc(inner, last);
    }
  }

  lemma UpToSlashSplit(path: string)
    ensures Split(UpToSlash(path)) == Inner(path) + [""]
    ensures forall cwd :: Start(cwd, UpToSlash(path)) == Start(cwd, path)
  {
    var inner := Inner(path);
    UpToSlashInner(path);
    if inner == [] {
      assert path == Last(path);
    } else {
      SplitJoin(inner);
      SplitConcat(Join(inner), "");
      assert Join(inner) + "/" + "" == UpToSlash(path);
      assert path[0] == UpToSlash(path)[0];
    }
  }

  function Parent(o: Output): Loc { Leads(o.cwd, ParentPath(o.path)) }

  function Target(o: Output): Loc { Leads(o.cwd, o.path) }

  lemma UpToSlashLeads(cwd: Loc, path: string)
    ensures Leads(cwd, UpToSlash(path)) == Lead(Start(cwd, path), Inner(path))
  {
    UpToSlashSplit(path);
    LeadSnoc(Start(cwd, path), Inner(path), "");
  }

  lemma LastStep(l: Loc, path: string)
    ensures Lead(l, Split(path)) == Along(Lead(l, Inner(path)), Last(path))
  {
    assert Split(path) == Inner(path) + [Last(path)];
  }

  /** The parent is where all elements but the last lead. */
  lemma ParentLeads(o: Output)
    ensures Parent(o) == Lead(Start(o.cwd, o.path), Inner(o.path))
    ensures Target(o) == Along(Parent(o), Last(o.path))
  {
    CleanLeadsThere(o.cwd, UpToSlash(o.path));
    UpToSlashLeads(o.cwd, o.path);
    LastStep(Start(o.cwd, o.path), o.path);
  }

  // ---------- making directories, staging, renaming ----------

  function Prefixes(l: Loc): set<Loc> { set k | 0 <= k <= |l| :: l[..k] }

  /** Something that is not a directory lies where one is needed. */
  predicate Obstructed(d: Disk, l: Loc) {
    exists k :: 0 <= k <= |l| && l[..k] in d && !d[l[..k]].Folder?
  }

  /** `os.MkdirAll`. */
  function MkdirAll(d: Disk, l: Loc): Disk {
    map m | m in d.Keys + Prefixes(l) :: if m in d then d[m] else Folder
  }

  /** `os.MkdirTemp` names the staging directory after the output, with a suffix of its own. */
  function StagingLoc(o: Output, suffix: string): Loc { Parent(o) + [Base(o.path) + ".tmp-" + suffix] }

  ghost predicate IsStagingLoc(o: Output, l: Loc) { exists suffix :: l == StagingLoc(o, suffix) }

  function Prepared(d: Disk, o: Output): Disk { MkdirAll(d, Parent(o)) }

  function Staged(d: Disk, o: Output, at: Loc): Disk { Prepared(d, o)[at := Folder] }

  /** `os.Rename` of a directory: the path must lead, through directories, to a place that is free. */
  predicate Renamable(d: Disk, o: Output) {
    Passable(d, Start(o.cwd, o.path), Split(o.path)) && Target(o) !in d
  }

  function Without(d: Disk, l: Loc): Disk { map m | m in d && m != l :: d[m] }

  /** What `Generate` insists on before it makes anything. */
  predicate Accepts(d: Disk, o: Output) {
    o.path != "" && Lstat(d, o).Absent? && !Obstructed(d, Parent(o))
  }

  /** No parent step before the last element. */
  predicate Straight(o: Output) { ".." !in Inner(o.path) }

  /**
   The staging directory lies outside the output, and the output is not one of the directories
   made for it, exactly when the path ends in a plain name.
   */
  lemma StagingOutsideIff(o: Output, suffix: string)
    requires o.path != ""
    ensures !(Target(o) <= StagingLoc(o, suffix)) <==> Plain(Last(o.path))
    ensures !(Target(o) <= Parent(o)) <==> Plain(Last(o.path))
    ensures Plain(Last(o.path)) ==> StagingLoc(o, suffix) == Parent(o) + [Last(o.path) + ".tmp-" + suffix]
  {
    ParentLeads(o);
    var last, parent := Last(o.path), Parent(o);
    if Plain(last) {
      assert Base(o.path) == last;
      assert StagingLoc(o, suffix)[|parent|] == last + ".tmp-" + suffix;
      assert |last + ".tmp-" + suffix| > |last|;
      assert Target(o)[|parent|] == last;
    } else {
      assert Target(o) <= parent <= StagingLoc(o, suffix);
    }
  }

  lemma {:induction false} StraightLead(l: Loc, segs: seq<string>)
    requires ".." !in segs
    ensures l <= Lead(l, segs)
    ensures segs != [] ==> Lead(l, segs[..|segs| - 1]) <= Lead(l, segs)
  {
    if segs != [] {
      StraightLead(l, segs[..|segs| - 1]);
    }
  }

  /** All the directories on the way to `l` exist. */
  ghost predicate Laid(d: Disk, l: Loc) {
    forall k :: 0 <= k <= |l| ==> l[..k] in d && d[l[..k]].Folder?
  }

  lemma LaidPrefix(d: Disk, a: Loc, b: Loc)
    requires Laid(d, b) && a <= b
    ensures Laid(d, a)
  {
    forall k | 0 <= k <= |a| ensures a[..k] in d && d[a[..k]].Folder? {
      assert a[..k] == b[..k];
    }
  }

  lemma {:induction false} StraightPassable(d: Disk, l: Loc, segs: seq<string>)
    requires ".." !in segs && Laid(d, Lead(l, segs))
    ensures Passable(d, l, segs)
  {
    if segs != [] {
      var init := segs[..|segs| - 1];
      StraightLead(l, segs);
      LaidPrefix(d, Lead(l, init), Lead(l, segs));
      StraightPassable(d, l, init);
      assert Lead(l, init)[..|Lead(l, init)|] == Lead(l, init);
    }
  }

  lemma PreparedLaid(d: Disk, l: Loc)
    requires !Obstructed(d, l)
    ensures Laid(MkdirAll(d, l), l)
  {
  }

  lemma {:induction false} FolderIsLaid(d: Disk, cwd: Loc, l: Loc)
    requires WellFormed(d, cwd) && l in d && d[l].Folder?
    ensures Laid(d, l)
    decreases |l|
  {
    if l != [] {
      FolderIsLaid(d, cwd, Above(l));
      forall k | 0 <= k <= |l| ensures l[..k] in d && d[l[..k]].Folder? {
        assert k < |l| ==> l[..k] == Above(l)[..k];
        assert k == |l| ==> l[..k] == l;
      }
    }
  }

  /** Where the way to the parent is laid, the path is walked to its end. */
  lemma StraightOutput(d: Disk, o: Output)
    requires Straight(o) && Laid(d, Parent(o))
    ensures Passable(d, Start(o.cwd, o.path), Split(o.path))
    ensures Lstat(d, o) == At(d, Target(o))
  {
    ParentLeads(o);
    var l := Start(o.cwd, o.path);
    StraightPassable(d, l, Inner(o.path));
    assert Parent(o)[..|Parent(o)|] == Parent(o);
    PassableLookUp(d, l, Split(o.path));
  }

  lemma TargetWasFree(d: Disk, o: Output)
    requires WellFormed(d, o.cwd) && Straight(o) && Plain(Last(o.path)) && Lstat(d, o).Absent?
    ensures Target(o) !in d
  {
    ParentLeads(o);
    if Target(o) in d {
      assert Above(Target(o)) == Parent(o);
      FolderIsLaid(d, o.cwd, Parent(o));
      StraightOutput(d, o);
      assert false;
    }
  }

  /** Making the parent's directories leaves the output's place alone if the path ends in a plain name. */
  lemma PlainTargetUntouched(d: Disk, o: Output, at: Loc)
    requires o.path != "" && Plain(Last(o.path)) && IsStagingLoc(o, at)
    ensures At(Prepared(d, o), Target(o)) == At(d, Target(o)) == At(Staged(d, o, at), Target(o))
  {
    var suffix :| at == StagingLoc(o, suffix);
    StagingOutsideIff(o, suffix);
    assert Target(o) !in Prefixes(Parent(o));
  }

  lemma StagedLaid(d: Disk, o: Output, at: Loc)
    requires Accepts(d, o) && IsStagingLoc(o, at)
    ensures Laid(Prepared(d, o), Parent(o)) && Laid(Staged(d, o, at), Parent(o))
  {
    PreparedLaid(d, Parent(o));
  }

  /**
   What is seen at the output while the parent is there and the staging directory may be:
   nothing, exactly when the path ends in a plain name; and only then can it be renamed to.
   */
  lemma PlainIffUnseen(d: Disk, o: Output, at: Loc)
    requires WellFormed(d, o.cwd) && Accepts(d, o) && Straight(o) && IsStagingLoc(o, at)
    ensures Lstat(Prepared(d, o), o).Absent? <==> Plain(Last(o.path))
    ensures Lstat(Staged(d, o, at), o).Absent? <==> Plain(Last(o.path))
    ensures Renamable(Staged(d, o, at), o) <==> Plain(Last(o.path))
  {
    StagedLaid(d, o, at);
    StraightOutput(Prepared(d, o), o);
    StraightOutput(Staged(d, o, at), o);
    if Plain(Last(o.path)) {
      TargetWasFree(d, o);
      PlainTargetUntouched(d, o, at);
    } else {
      TargetMadeOnTheWay(d, o, at);
    }
  }

  lemma TargetMadeOnTheWay(d: Disk, o: Output, at: Loc)
    requires Accepts(d, o) && !Plain(Last(o.path)) && IsStagingLoc(o, at)
    ensures Target(o) in Prepared(d, o) && Prepared(d, o)[Target(o)].Folder?
    ensures Target(o) in Staged(d, o, at) && Staged(d, o, at)[Target(o)].Folder?
  {
    StagingOutsideIff(o, "");
    StagedLaid(d, o, at);
    assert Target(o) == Parent(o)[..|Target(o)|];
  }

  /** A path that does not end in a plain name can never be renamed to, however it gets there. */
  lemma RenamableIsPlain(d: Disk, o: Output, at: Loc)
    requires Accepts(d, o) && IsStagingLoc(o, at) && Renamable(Staged(d, o, at), o)
    ensures Plain(Last(o.path))
  {
    if !Plain(Last(o.path)) {
      TargetMadeOnTheWay(d, o, at);
    }
  }

  lemma SlashAfterName(x: string)
    requires Plain(x)
    ensures Split(x + "/") == [x, ""]
  {
    SplitFirst(x, "");
    assert x + "/" + "" == x + "/";
  }

  /** A name with a trailing slash and nothing there passes every check, and is its own parent. */
  lemma TrailingSlashAccepted(d: Disk, cwd: Loc, x: string)
    requires WellFormed(d, cwd) && Plain(x) && cwd + [x] !in d
    ensures var o := Output(cwd, x + "/");
      Accepts(d, o) && Straight(o) && Last(o.path) == "" && Target(o) == Parent(o) == cwd + [x]
  {
    var o := Output(cwd, x + "/");
    SlashAfterName(x);
    var segs := Split(o.path);
    assert segs[..1] == [x] && segs[..1][..0] == [];
    assert Lead(cwd, segs[..1]) == cwd + [x];
    ParentLeads(o);
    assert LookUp(d, cwd, segs[..1]) == Absent;
    NotObstructed(d, cwd, x);
  }

  lemma NotObstructed(d: Disk, cwd: Loc, x: string)
    requires WellFormed(d, cwd) && cwd + [x] !in d
    ensures !Obstructed(d, cwd + [x])
  {
    var l := cwd + [x];
    FolderIsLaid(d, cwd, cwd);
    assert l[..|l|] == l;
    forall k | 0 <= k <= |l| && l[..k] in d ensures d[l[..k]].Folder? {
      assert k < |l| && l[..k] == cwd[..k];
    }
  }

  // ---------- the staging directory's name ----------

  lemma {:induction false} EmptyElementsStay(d: Disk, l: Loc, segs: seq<string>)
    requires l in d && d[l].Folder? && forall i :: 0 <= i < |segs| ==> segs[i] == ""
    ensures Lead(l, segs) == l && LookUp(d, l, segs) == Present(Folder)
  {
    if segs != [] {
      EmptyElementsStay(d, l, segs[..|segs| - 1]);
    }
  }

  lemma {:induction false} LastNonEmptyFound(segs: seq<string>)
    ensures LastNonEmpty(segs) in segs || forall seg :: seg in segs ==> seg == ""
  {
    if segs != [] {
      assert segs == segs[..|segs| - 1] + [segs[|segs| - 1]];
      LastNonEmptyFound(segs[..|segs| - 1]);
    }
  }

  /** An output that is not there has a base name without a slash, as `os.MkdirTemp` demands. */
  lemma BaseIsElement(d: Disk, o: Output)
    requires WellFormed(d, o.cwd) && Accepts(d, o)
    ensures '/' !in Base(o.path)
  {
    var segs := Split(o.path);
    LastNonEmptyFound(segs);
    if forall seg :: seg in segs ==> seg == "" {
      assert forall i :: 0 <= i < |segs| ==> segs[i] in segs;
      EmptyElementsStay(d, Start(o.cwd, o.path), segs);
      assert false;
    }
  }

  /** No name on disk is longer. */
  ghost function Longest(ls: set<Loc>): (n: nat)
    ensures forall l :: l in ls && l != [] ==> |l[|l| - 1]| <= n
  {
    if ls == {} then 0
    else
      var l :| l in ls;
      var rest := Longest(ls - {l});
      assert forall m :: m in ls ==> m == l || m in ls - {l};
      if l != [] && |l[|l| - 1]| > rest then |l[|l| - 1]| else rest
  }

  lemma LongSuffixIsFree(d: Disk, o: Output, suffix: string)
    requires |suffix| >= Longest(d.Keys)
    ensures StagingLoc(o, suffix) !in d
  {
    var l := StagingLoc(o, suffix);
    assert l[|l| - 1] == Base(o.path) + ".tmp-" + suffix;
  }

  /** `os.MkdirTemp` tries names until one is free. */
  method FreshSuffix(d: Disk, o: Output) returns (suffix: string)
    ensures StagingLoc(o, suffix) !in d
  {
    suffix := *;
    while StagingLoc(o, suffix) in d
      decreases Longest(d.Keys) - |suffix|
    {
      if |suffix| >= Longest(d.Keys) {
        LongSuffixIsFree(d, o, suffix);
      }
      suffix := suffix + "0";
    }
  }
}
