/** Enumerating every repo of an organisation: internal/chainguard/walk.go. */
module GroupWalk {
  import opened Core

  datatype Group = Group(id: string, name: string)

  datatype Repo = Repo(id: string, name: string)

  datatype ListError = ListFailed

  /** What the platform lists under a group ID; nothing says the groups form a tree. */
  datatype Org = Org(
    repos: string -> Result<seq<Repo>, ListError>,
    groups: string -> Result<seq<Group>, ListError>)

  const MAX_GROUP_DEPTH := 16

  datatype WalkError = TooDeep(id: string) | Cycle(id: string) | ReposFailed(id: string) | GroupsFailed(id: string)

  /** `name` below a slash-joined prefix; the empty prefix is the root's. */
  function Under(prefix: string, name: string): string {
    if prefix != "" then prefix + "/" + name else name
  }

  function RepoPaths(prefix: string, repos: seq<Repo>): seq<string> {
    if repos == [] then []
    else RepoPaths(prefix, repos[..|repos| - 1]) + [Under(prefix, repos[|repos| - 1].name)]
  }

  // ---------- the walk ----------

  /** The state the recursion shares; `listed` logs the IDs whose contents were asked for. */
  datatype Progress = Progress(visited: set<string>, out: seq<string>, listed: seq<string>)

  datatype Step = Step(st: Progress, err: Option<WalkError>)

  function Walk(org: Org, id: string, prefix: string, depth: nat, st: Progress): Step
    requires depth <= MAX_GROUP_DEPTH + 1
    decreases 2 * (MAX_GROUP_DEPTH + 1 - depth) + 1, 0
  {
    if depth > MAX_GROUP_DEPTH then Step(st, Some(TooDeep(id)))
    else if id in st.visited then Step(st, Some(Cycle(id)))
    else
      var seen := st.(visited := st.visited + {id}, listed := st.listed + [id]);
      match org.repos(id)
      case Err(_) => Step(seen, Some(ReposFailed(id)))
      case Ok(repos) =>
        var emitted := seen.(out := seen.out + RepoPaths(prefix, repos));
        match org.groups(id)
        case Err(_) => Step(emitted, Some(GroupsFailed(id)))
        case Ok(groups) => WalkGroups(org, groups, prefix, depth, emitted)
  }

  function WalkGroups(org: Org, groups: seq<Group>, prefix: string, depth: nat, st: Progress): Step
    requires depth <= MAX_GROUP_DEPTH
    decreases 2 * (MAX_GROUP_DEPTH + 1 - depth), |groups|
  {
    if groups == [] then Step(st, None)
    else
      var first := Walk(org, groups[0].id, Under(prefix, groups[0].name), depth + 1, st);
      if first.err.Some? then first else WalkGroups(org, groups[1..], prefix, depth, first.st)
  }

  class Walker {
    const org: Org
    var visited: set<string>
    var out: seq<string>
    ghost var listed: seq<string>

    constructor (org: Org)
      ensures this.org == org && visited == {} && out == [] && listed == []
    {
      this.org := org;
      visited, out, listed := {}, [], [];
    }

    ghost function Seen(): Progress
      reads this
    {
      Progress(visited, out, listed)
    }

    method WalkReposStep(parent: string, prefix: string, depth: nat) returns (err: Option<WalkError>)
      requires depth <= MAX_GROUP_DEPTH + 1
      modifies this
      ensures Step(Seen(), err) == Walk(org, parent, prefix, depth, old(Seen()))
      decreases MAX_GROUP_DEPTH + 1 - depth
    {
      if depth > MAX_GROUP_DEPTH {
        return Some(TooDeep(parent));
      }
      if parent in visited {
        return Some(Cycle(parent));
      }
      visited := visited + {parent};
      listed := listed + [parent];
      var repos := org.repos(parent);
      if repos.Err? {
        return Some(ReposFailed(parent));
      }
      EmitRepos(prefix, repos.value);
      var groups := org.groups(parent);
      if groups.Err? {
        return Some(GroupsFailed(parent));
      }
      var i := 0;
      while i < |groups.value|
        invariant 0 <= i <= |groups.value|
        invariant Walk(org, parent, prefix, depth, old(Seen()))
               == WalkGroups(org, groups.value[i..], prefix, depth, Seen())
      {
        var g := groups.value[i];
        err := WalkReposStep(g.id, Under(prefix, g.name), depth + 1);
        if err.Some? {
          return err;
        }
        assert groups.value[i..][1..] == groups.value[i + 1..];
        i := i + 1;
      }
      return None;
    }

    method EmitRepos(prefix: string, repos: seq<Repo>)
      modifies this`out
      ensures out == old(out) + RepoPaths(prefix, repos)
    {
      var i := 0;
      while i < |repos|
        invariant 0 <= i <= |repos|
        invariant out == old(out) + RepoPaths(prefix, repos[..i])
      {
        assert repos[..i + 1][..i] == repos[..i];
        out := out + [if prefix != "" then prefix + "/" + repos[i].name else repos[i].name];
        i := i + 1;
      }
      assert repos[..|repos|] == repos;
    }
  }

  const NOTHING_SEEN := Progress({}, [], [])

  /** The whole walk from a root. */
  function WalkRepos(org: Org, root: string): Result<seq<string>, WalkError> {
    var step := Walk(org, root, "", 0, NOTHING_SEEN);
    match step.err
    case Some(e) => Err(e)
    case None => Ok(step.st.out)
  }

  method RunWalk(org: Org, root: string) returns (r: Result<seq<string>, WalkError>)
    ensures r == WalkRepos(org, root)
  {
    var w := new Walker(org);
    var err := w.WalkReposStep(root, "", 0);
    match err
    case Some(e) => return Err(e);
    case None => return Ok(w.out);
  }

  // ---------- the reference: the unfolding of the group graph ----------

  /** A group reached from the root by the subgroup names `segs`. */
  datatype Visit = Visit(id: string, segs: seq<string>)

  /** Preorder over the subgroups, with no visited set; cut just below the depth cap. */
  function Unfold(org: Org, v: Visit): seq<Visit>
    decreases 2 * (if |v.segs| > MAX_GROUP_DEPTH then 0 else MAX_GROUP_DEPTH + 1 - |v.segs|) + 1, 0
  {
    if |v.segs| > MAX_GROUP_DEPTH || org.groups(v.id).Err? then [v]
    else [v] + UnfoldGroups(org, org.groups(v.id).value, v.segs)
  }

  function UnfoldGroups(org: Org, groups: seq<Group>, segs: seq<string>): seq<Visit>
    requires |segs| <= MAX_GROUP_DEPTH
    decreases 2 * (MAX_GROUP_DEPTH + 1 - |segs|), |groups|
  {
    if groups == [] then []
    else Unfold(org, Visit(groups[0].id, segs + [groups[0].name])) + UnfoldGroups(org, groups[1..], segs)
  }

  function PathOf(segs: seq<string>): string {
    if segs == [] then "" else Under(PathOf(segs[..|segs| - 1]), segs[|segs| - 1])
  }

  /** The repo paths of the visited groups, in visiting order. */
  function Emitted(org: Org, vs: seq<Visit>): seq<string> {
    if vs == [] then []
    else
      (if org.repos(vs[0].id).Ok? then RepoPaths(PathOf(vs[0].segs), org.repos(vs[0].id).value) else [])
      + Emitted(org, vs[1..])
  }

  ghost predicate Listable(org: Org, v: Visit) {
    |v.segs| <= MAX_GROUP_DEPTH && org.repos(v.id).Ok? && org.groups(v.id).Ok?
  }

  ghost function Ids(vs: seq<Visit>): set<string> { set v | v in vs :: v.id }

  ghost predicate DistinctIds(vs: seq<Visit>) {
    forall i, j :: 0 <= i < j < |vs| ==> vs[i].id != vs[j].id
  }

  /** No listing fails, nothing lies too deep, and no ID repeats or was seen before. */
  ghost predicate Walkable(org: Org, vs: seq<Visit>, visited: set<string>) {
    && (forall v :: v in vs ==> Listable(org, v) && v.id !in visited)
    && DistinctIds(vs)
  }

  lemma {:induction false} EmittedConcat(org: Org, a: seq<Visit>, b: seq<Visit>)
    ensures Emitted(org, a + b) == Emitted(org, a) + Emitted(org, b)
  {
    if a == [] {
      assert a + b == b;
    } else {
      EmittedConcat(org, a[1..], b);
      assert (a + b)[1..] == a[1..] + b;
    }
  }

  lemma WalkableConcat(org: Org, a: seq<Visit>, b: seq<Visit>, visited: set<string>)
    ensures Walkable(org, a + b, visited) <==> Walkable(org, a, visited) && Walkable(org, b, visited + Ids(a))
    ensures Ids(a + b) == Ids(a) + Ids(b)
  {
    var c := a + b;
    assert forall v :: v in c <==> v in a || v in b;
    if Walkable(org, c, visited) {
      forall i, j | 0 <= i < j < |a| ensures a[i].id != a[j].id {
        assert c[i] == a[i] && c[j] == a[j];
      }
      forall i, j | 0 <= i < j < |b| ensures b[i].id != b[j].id {
        assert c[|a| + i] == b[i] && c[|a| + j] == b[j];
      }
      forall v | v in b ensures v.id !in Ids(a) {
        var j :| 0 <= j < |b| && b[j] == v;
        assert c[|a| + j] == v;
        assert forall i :: 0 <= i < |a| ==> c[i] == a[i];
      }
    }
    if Walkable(org, a, visited) && Walkable(org, b, visited + Ids(a)) {
      forall i, j | 0 <= i < j < |c| ensures c[i].id != c[j].id {
        if i < |a| <= j {
          assert a[i] in a && b[j - |a|] in b && a[i].id in Ids(a);
        }
      }
    }
  }

  lemma WalkableCons(org: Org, v: Visit, rest: seq<Visit>, visited: set<string>)
    ensures Walkable(org, [v] + rest, visited)
       <==> Listable(org, v) && v.id !in visited && Walkable(org, rest, visited + {v.id})
    ensures Ids([v] + rest) == {v.id} + Ids(rest)
    ensures org.repos(v.id).Ok? ==>
      Emitted(org, [v] + rest) == RepoPaths(PathOf(v.segs), org.repos(v.id).value) + Emitted(org, rest)
  {
    WalkableConcat(org, [v], rest, visited);
    assert Ids([v]) == {v.id};
    assert v in [v];
    assert ([v] + rest)[1..] == rest;
  }

  lemma {:induction false} WalkMeaning(org: Org, v: Visit, st: Progress)
    requires |v.segs| <= MAX_GROUP_DEPTH + 1
    ensures var vs, step := Unfold(org, v), Walk(org, v.id, PathOf(v.segs), |v.segs|, st);
      && (step.err.None? <==> Walkable(org, vs, st.visited))
      && (step.err.None? ==> step.st.visited == st.visited + Ids(vs) && step.st.out == st.out + Emitted(org, vs))
    decreases 2 * (MAX_GROUP_DEPTH + 1 - |v.segs|) + 1, 0
  {
    var vs := Unfold(org, v);
    WalkableCons(org, v, vs[1..], st.visited);
    assert vs == [v] + vs[1..];
    if Listable(org, v) && v.id !in st.visited {
      var groups := org.groups(v.id).value;
      var paths := RepoPaths(PathOf(v.segs), org.repos(v.id).value);
      var seen := Progress(st.visited + {v.id}, st.out + paths, st.listed + [v.id]);
      WalkGroupsMeaning(org, groups, v.segs, seen);
      assert vs[1..] == UnfoldGroups(org, groups, v.segs);
      AppendAssoc(st.out, paths, Emitted(org, vs[1..]));
    }
  }

  lemma {:induction false} WalkGroupsMeaning(org: Org, groups: seq<Group>, segs: seq<string>, st: Progress)
    requires |segs| <= MAX_GROUP_DEPTH
    ensures var vs, step := UnfoldGroups(org, groups, segs), WalkGroups(org, groups, PathOf(segs), |segs|, st);
      && (step.err.None? <==> Walkable(org, vs, st.visited))
      && (step.err.None? ==> step.st.visited == st.visited + Ids(vs) && step.st.out == st.out + Emitted(org, vs))
    decreases 2 * (MAX_GROUP_DEPTH + 1 - |segs|), |groups|
  {
    if groups != [] {
      var g := groups[0];
      var v := Visit(g.id, segs + [g.name]);
      assert PathOf(v.segs) == Under(PathOf(segs), g.name) by {
        assert v.segs[..|segs|] == segs;
      }
      WalkMeaning(org, v, st);
      var first := Walk(org, g.id, PathOf(v.segs), |segs| + 1, st);
      var a, b := Unfold(org, v), UnfoldGroups(org, groups[1..], segs);
      WalkableConcat(org, a, b, st.visited);
      if first.err.None? {
        WalkGroupsMeaning(org, groups[1..], segs, first.st);
        EmittedConcat(org, a, b);
        AppendAssoc(st.out, Emitted(org, a), Emitted(org, b));
      }
    }
  }

  /**
   Exactness: the walk succeeds exactly when every listing in the unfolding succeeds, no group
   lies below the depth cap and no ID occurs twice; it then returns the repo paths in preorder.
   */
  lemma WalkExact(org: Org, root: string)
    ensures var vs := Unfold(org, Visit(root, []));
      && (WalkRepos(org, root).Ok? <==> Walkable(org, vs, {}))
      && (WalkRepos(org, root).Ok? ==> WalkRepos(org, root).value == Emitted(org, vs))
    ensures var vs := Unfold(org, Visit(root, []));
      WalkRepos(org, root).Ok? <==>
        && (forall v :: v in vs ==> |v.segs| <= 16 && org.repos(v.id).Ok? && org.groups(v.id).Ok?)
        && (forall i, j :: 0 <= i < j < |vs| ==> vs[i].id != vs[j].id)
  {
    WalkMeaning(org, Visit(root, []), NOTHING_SEEN);
  }

  /** What an error blames on the visits `vs`, given the IDs seen before them. */
  ghost predicate Blames(org: Org, vs: seq<Visit>, visited: set<string>, e: WalkError) {
    match e
    case TooDeep(id) => exists v :: v in vs && v.id == id && |v.segs| == 17
    case Cycle(id) => (id in visited && id in Ids(vs)) || exists i, j :: 0 <= i < j < |vs| && vs[i].id == vs[j].id == id
    case ReposFailed(id) => id in Ids(vs) && org.repos(id).Err?
    case GroupsFailed(id) => id in Ids(vs) && org.repos(id).Ok? && org.groups(id).Err?
  }

  lemma BlameLeft(org: Org, a: seq<Visit>, b: seq<Visit>, visited: set<string>, e: WalkError)
    requires Blames(org, a, visited, e)
    ensures Blames(org, a + b, visited, e)
  {
    WalkableConcat(org, a, b, visited);
    match e
    case TooDeep(id) =>
      var v :| v in a && v.id == id && |v.segs| == 17;
      assert v in a + b;
    case Cycle(id) =>
      if i, j :| 0 <= i < j < |a| && a[i].id == a[j].id == id {
        assert (a + b)[i].id == (a + b)[j].id == id;
      }
    case _ =>
  }

  lemma BlameRight(org: Org, a: seq<Visit>, b: seq<Visit>, visited: set<string>, e: WalkError)
    requires Blames(org, b, visited + Ids(a), e)
    ensures Blames(org, a + b, visited, e)
  {
    WalkableConcat(org, a, b, visited);
    match e
    case TooDeep(id) =>
      var v :| v in b && v.id == id && |v.segs| == 17;
      assert v in a + b;
    case Cycle(id) =>
      if i, j :| 0 <= i < j < |b| && b[i].id == b[j].id == id {
        assert (a + b)[|a| + i].id == (a + b)[|a| + j].id == id;
      } else if id in Ids(a) {
        var i :| 0 <= i < |a| && a[i].id == id;
        var j :| 0 <= j < |b| && b[j].id == id;
        assert (a + b)[i].id == (a + b)[|a| + j].id == id;
      }
    case _ =>
  }

  lemma {:induction false} WalkBlames(org: Org, v: Visit, st: Progress)
    requires |v.segs| <= MAX_GROUP_DEPTH + 1
    ensures var step := Walk(org, v.id, PathOf(v.segs), |v.segs|, st);
      step.err.Some? ==> Blames(org, Unfold(org, v), st.visited, step.err.value)
    decreases 2 * (MAX_GROUP_DEPTH + 1 - |v.segs|) + 1, 0
  {
    var vs := Unfold(org, v);
    assert vs == [v] + vs[1..] && v in vs;
    assert v.id in Ids(vs);
    if Listable(org, v) && v.id !in st.visited {
      var groups := org.groups(v.id).value;
      var seen := Progress(st.visited + {v.id}, st.out + RepoPaths(PathOf(v.segs), org.repos(v.id).value),
                           st.listed + [v.id]);
      WalkGroupsBlame(org, groups, v.segs, seen);
      assert vs[1..] == UnfoldGroups(org, groups, v.segs) && Ids([v]) == {v.id};
      var step := WalkGroups(org, groups, PathOf(v.segs), |v.segs|, seen);
      if step.err.Some? {
        BlameRight(org, [v], vs[1..], st.visited, step.err.value);
      }
    }
  }

  lemma {:induction false} WalkGroupsBlame(org: Org, groups: seq<Group>, segs: seq<string>, st: Progress)
    requires |segs| <= MAX_GROUP_DEPTH
    ensures var step := WalkGroups(org, groups, PathOf(segs), |segs|, st);
      step.err.Some? ==> Blames(org, UnfoldGroups(org, groups, segs), st.visited, step.err.value)
    decreases 2 * (MAX_GROUP_DEPTH + 1 - |segs|), |groups|
  {
    if groups != [] {
      var g := groups[0];
      var v := Visit(g.id, segs + [g.name]);
      assert PathOf(v.segs) == Under(PathOf(segs), g.name) by {
        assert v.segs[..|segs|] == segs;
      }
      var first := Walk(org, g.id, PathOf(v.segs), |segs| + 1, st);
      var a, b := Unfold(org, v), UnfoldGroups(org, groups[1..], segs);
      WalkBlames(org, v, st);
      WalkMeaning(org, v, st);
      if first.err.None? {
        WalkGroupsBlame(org, groups[1..], segs, first.st);
        var rest := WalkGroups(org, groups[1..], PathOf(segs), |segs|, first.st);
        BlamesJoin(org, a, b, st.visited, None, rest.err);
      } else {
        BlamesJoin(org, a, b, st.visited, first.err, None);
      }
    }
  }

  lemma BlamesJoin(org: Org, a: seq<Visit>, b: seq<Visit>, visited: set<string>, left: Option<WalkError>,
                   right: Option<WalkError>)
    requires left.Some? ==> Blames(org, a, visited, left.value)
    requires right.Some? ==> Blames(org, b, visited + Ids(a), right.value)
    ensures left.Some? ==> Blames(org, a + b, visited, left.value)
    ensures right.Some? ==> Blames(org, a + b, visited, right.value)
  {
    if left.Some? {
      BlameLeft(org, a, b, visited, left.value);
    }
    if right.Some? {
      BlameRight(org, a, b, visited, right.value);
    }
  }

  /** The error of a failed walk names a group below depth 16, a repeated one, or one that cannot be listed. */
  lemma WalkErrorMeaning(org: Org, root: string)
    requires WalkRepos(org, root).Err?
    ensures Blames(org, Unfold(org, Visit(root, [])), {}, WalkRepos(org, root).error)
  {
    WalkBlames(org, Visit(root, []), NOTHING_SEEN);
  }

  // ---------- every run, successful or not ----------

  ghost predicate ListedOnce(st: Progress) {
    && (forall i, j :: 0 <= i < j < |st.listed| ==> st.listed[i] != st.listed[j])
    && (forall id :: id in st.listed ==> id in st.visited)
  }

  /** Whatever the graph looks like, and however the walk ends, no group is listed twice. */
  lemma {:induction false} WalkListsOnce(org: Org, id: string, prefix: string, depth: nat, st: Progress)
    requires depth <= MAX_GROUP_DEPTH + 1 && ListedOnce(st)
    ensures ListedOnce(Walk(org, id, prefix, depth, st).st)
    decreases 2 * (MAX_GROUP_DEPTH + 1 - depth) + 1, 0
  {
    if depth <= MAX_GROUP_DEPTH && id !in st.visited && org.repos(id).Ok? && org.groups(id).Ok? {
      var seen := Progress(st.visited + {id}, st.out + RepoPaths(prefix, org.repos(id).value), st.listed + [id]);
      WalkGroupsListOnce(org, org.groups(id).value, prefix, depth, seen);
    }
  }

  lemma {:induction false} WalkGroupsListOnce(org: Org, groups: seq<Group>, prefix: string, depth: nat, st: Progress)
    requires depth <= MAX_GROUP_DEPTH && ListedOnce(st)
    ensures ListedOnce(WalkGroups(org, groups, prefix, depth, st).st)
    decreases 2 * (MAX_GROUP_DEPTH + 1 - depth), |groups|
  {
    if groups != [] {
      var g := groups[0];
      WalkListsOnce(org, g.id, Under(prefix, g.name), depth + 1, st);
      var first := Walk(org, g.id, Under(prefix, g.name), depth + 1, st);
      if first.err.None? {
        WalkGroupsListOnce(org, groups[1..], prefix, depth, first.st);
      }
    }
  }
}
