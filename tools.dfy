/**
 * What the list_files, search_files and read_file tools share: their errors,
 * the walk callback that prunes skipped directories, and the collection of
 * the paths the callback keeps.
 */
module Tools {
  import opened Wrappers
  import opened FilePath
  import opened Repository
  import opened FsTree
  import opened RemoteWalk
  import opened FileSystems
  import opened Skip

  /** Why getFileSystem found no file system. */
  datatype LookupError =
    | UnknownRepository(name: string)     // "unknown repository: <name>"
    | Dispatch(cause: DispatchError)

  /** The error a tool call reports. */
  datatype ToolError =
    | NoFileSystem(lookup: LookupError)
    | PathRejected(pathError: PathError)
    | PathMissing(path: string)           // "Path does not exist: <path>"
    | NotADirectory(path: string)         // "Path is not a directory: <path>"
    | FileMissing(file: string)           // "File does not exist: <file>"
    | NotAFile(file: string)              // "Path is not a file: <file>"
    | AccessDenied(file: string)          // "Access denied: <file>"
    | ListFailed(listError: FsError)      // the error of ReadDir
    | WalkFailed(walkError: FsError)      // the error a walk returned
    | WalkSkipped                         // a walk that returned filepath.SkipDir itself
    | ReadFailed(readError: FsError)      // the error of ReadFile
    | InvalidScheme(uri: string)          // "invalid URI scheme. Expected repo://, got: <uri>"
    | NoFilePath                          // "no file path specified in URI"

  /** `rel, _ := filepath.Rel(base, p)`: the relative path, or "" when Rel fails. */
  function RelOrEmpty(base: string, p: string): string {
    match Rel(base, p)
    case Ok(r) => r
    case Err(_) => ""
  }

  /**
   * The walk callback of both tools: an error is returned, an excluded path
   * (the roots) passes, a skipped directory is pruned and a skipped file
   * passes.
   */
  function PruneAnswer(excluded: set<string>, v: Visit): Signal {
    if v.err.Some? then Signal.Fail(v.err.value)
    else if v.path in excluded then Nil
    else if ShouldSkip(v.path) then (if v.info.Some? && v.info.value.isDir then SkipDir else Nil)
    else Nil
  }

  /** The pruning callback as a visitor. */
  function Pruner(excluded: set<string>): Visitor {
    v => PruneAnswer(excluded, v)
  }

  /** A visit whose path the callback goes on to consider: a regular file that is neither excluded nor skipped. */
  predicate Kept(excluded: set<string>, v: Visit) {
    v.err.None? && v.path !in excluded && !ShouldSkip(v.path) && v.info.Some? && v.info.value.isRegular
  }

  /** The outcome of a walk with the pruning callback: the paths it appended, or its error. */
  function WalkOutcome(run: Run, pick: Visit -> Option<string>): Result<seq<string>, ToolError> {
    match run.result
    case Nil => Ok(Collect(pick, run.trace))
    case SkipDir => Err(WalkSkipped)
    case Fail(e) => Err(WalkFailed(e))
  }

  /** What the callback appends over a sequence of visits, in order. */
  function Collect(pick: Visit -> Option<string>, trace: seq<Visit>): seq<string>
    decreases |trace|
  {
    if trace == [] then []
    else
      var n := |trace| - 1;
      Collect(pick, trace[..n]) + (if pick(trace[n]).Some? then [pick(trace[n]).value] else [])
  }

  /** The appends of the callback, one visit at a time. */
  method CollectPicked(pick: Visit -> Option<string>, trace: seq<Visit>) returns (files: seq<string>)
    ensures files == Collect(pick, trace)
  {
    files := [];
    var i := 0;
    while i < |trace|
      invariant 0 <= i <= |trace|
      invariant files == Collect(pick, trace[..i])
    {
      assert trace[..i + 1][..i] == trace[..i];
      var p := pick(trace[i]);
      if p.Some? {
        files := files + [p.value];
      }
      i := i + 1;
    }
    assert trace[..i] == trace;
  }

  /** Callbacks that pick alike on every visit collect alike. */
  lemma {:induction false} CollectAgrees(p1: Visit -> Option<string>, p2: Visit -> Option<string>, trace: seq<Visit>)
    requires forall i :: 0 <= i < |trace| ==> p1(trace[i]) == p2(trace[i])
    ensures Collect(p1, trace) == Collect(p2, trace)
    decreases |trace|
  {
    if trace != [] {
      var n := |trace| - 1;
      assert forall i :: 0 <= i < n ==> trace[..n][i] == trace[i];
      CollectAgrees(p1, p2, trace[..n]);
    }
  }

  /** A path is collected iff some visit picks it. */
  lemma {:induction false} CollectMembers(pick: Visit -> Option<string>, trace: seq<Visit>, x: string)
    ensures x in Collect(pick, trace) <==> exists i :: 0 <= i < |trace| && pick(trace[i]) == Some(x)
    decreases |trace|
  {
    if trace != [] {
      var n := |trace| - 1;
      CollectMembers(pick, trace[..n], x);
      if exists i :: 0 <= i < n && pick(trace[..n][i]) == Some(x) {
        var i :| 0 <= i < n && pick(trace[..n][i]) == Some(x);
        assert trace[i] == trace[..n][i];
      }
      if exists i :: 0 <= i < |trace| && pick(trace[i]) == Some(x) {
        var i :| 0 <= i < |trace| && pick(trace[i]) == Some(x);
        if i < n {
          assert trace[..n][i] == trace[i];
        }
      }
    }
  }

  /** The walk after the callback's error is the callback's only way to fail: it never returns SkipDir. */
  lemma {:induction false} PruneNeverSkips(t: Tree, path: string, excluded: set<string>)
    ensures Walk(t, path, Pruner(excluded)).result != SkipDir
    decreases t
  {
    if t.stat.Ok? && t.stat.value.isDir && PruneAnswer(excluded, Visit(path, Some(t.stat.value), None)) == Nil && t.readDirError.None? {
      PruneEntriesNeverSkip(t.children, path, excluded);
    }
  }

  lemma {:induction false} PruneEntriesNeverSkip(cs: seq<Child>, parent: string, excluded: set<string>)
    ensures WalkEntries(cs, parent, Pruner(excluded)).result != SkipDir
    decreases cs
  {
    if cs != [] {
      PruneChildNeverSkips(cs[0], parent, excluded);
      PruneEntriesNeverSkip(cs[1..], parent, excluded);
    }
  }

  lemma {:induction false} PruneChildNeverSkips(c: Child, parent: string, excluded: set<string>)
    ensures WalkChild(c, parent, Pruner(excluded)).result != SkipDir
    decreases c
  {
    if c.entry.isDir {
      PruneNeverSkips(c.tree, parent + "/" + c.entry.name, excluded);
    }
  }

  // ---------------------------------------------------------------------
  // Pruning: a walk with the callback never enters a skipped directory

  /** The listings below a tree name their entries with plain names, as a file system does. */
  ghost predicate WellNamed(t: Tree)
    decreases t
  {
    WellNamedEntries(t.children)
  }

  ghost predicate WellNamedEntries(cs: seq<Child>)
    decreases cs
  {
    cs != [] ==> WellNamedChild(cs[0]) && WellNamedEntries(cs[1..])
  }

  ghost predicate WellNamedChild(c: Child)
    decreases c
  {
    IsName(c.entry.name) && WellNamed(c.tree)
  }

  /** The path below `root` made of `names`. */
  function PathBelow(root: string, names: seq<string>): string {
    if names == [] then root else root + "/" + JoinSegs(names)
  }

  /**
   * A path a pruning walk from `root` can reach: the root, or the root
   * followed by names of which all but the last are not skipped.
   */
  ghost predicate Reached(root: string, p: string) {
    p == root ||
    (HasPrefix(p, root + "/") &&
     var names := Split(p[|root| + 1..]);
     (forall i :: 0 <= i < |names| ==> IsName(names[i])) &&
     (forall i :: 0 <= i < |names| - 1 ==> !SkipName(names[i])))
  }

  lemma PathBelowAppend(root: string, names: seq<string>, n: string)
    ensures PathBelow(root, names + [n]) == PathBelow(root, names) + "/" + n
  {
    if names == [] {
      assert names + [n] == [n];
    } else {
      JoinSegsAppend(names, n);
    }
  }

  lemma ReachedBelow(root: string, names: seq<string>)
    requires forall i :: 0 <= i < |names| ==> IsName(names[i])
    requires forall i :: 0 <= i < |names| - 1 ==> !SkipName(names[i])
    ensures Reached(root, PathBelow(root, names))
  {
    if names != [] {
      var p := PathBelow(root, names);
      assert p[..|root + "/"|] == root + "/";
      assert p[|root| + 1..] == JoinSegs(names);
      SplitJoin(names);
    }
  }

  /** The last name of a path below the root decides whether it is skipped. */
  lemma SkipOfLast(root: string, names: seq<string>, p: string)
    requires |names| >= 1 && forall i :: 0 <= i < |names| ==> IsName(names[i])
    requires p == PathBelow(root, names)
    ensures ShouldSkip(p) <==> SkipName(names[|names| - 1])
  {
    var k := |names| - 1;
    PathBelowAppend(root, names[..k], names[k]);
    assert names[..k] + [names[k]] == names;
    BaseOfChildAt(p, PathBelow(root, names[..k]), names[k]);
  }

  lemma BaseOfChildAt(p: string, q: string, n: string)
    requires IsName(n) && p == q + "/" + n
    ensures Base(p) == n
  {
    BaseOfChild(q, n);
  }

  /**
   * Every visit of a pruning walk that starts at `root` reaches a path of
   * Reached(root, _), provided no reachable path other than the root is excluded.
   */
  lemma {:induction false} WalkReaches(t: Tree, root: string, names: seq<string>, excluded: set<string>)
    requires WellNamed(t)
    requires forall i :: 0 <= i < |names| ==> IsName(names[i])
    requires forall i :: 0 <= i < |names| - 1 ==> !SkipName(names[i])
    requires forall e :: e in excluded ==> e == root || !Reached(root, e)
    ensures forall v :: v in Walk(t, PathBelow(root, names), Pruner(excluded)).trace ==> Reached(root, v.path)
    decreases t
  {
    var p := PathBelow(root, names);
    ReachedBelow(root, names);
    if t.stat.Ok? && PruneAnswer(excluded, Visit(p, Some(t.stat.value), None)) == Nil && t.stat.value.isDir && t.readDirError.None? {
      if names != [] {
        assert |p| > |root|;
        assert p !in excluded;
        SkipOfLast(root, names, p);
      }
      WalkEntriesReach(t.children, root, names, excluded);
    }
  }

  lemma {:induction false} WalkEntriesReach(cs: seq<Child>, root: string, names: seq<string>, excluded: set<string>)
    requires WellNamedEntries(cs)
    requires forall i :: 0 <= i < |names| ==> IsName(names[i]) && !SkipName(names[i])
    requires forall e :: e in excluded ==> e == root || !Reached(root, e)
    ensures forall v :: v in WalkEntries(cs, PathBelow(root, names), Pruner(excluded)).trace ==> Reached(root, v.path)
    decreases cs
  {
    if cs != [] {
      WalkChildReaches(cs[0], root, names, excluded);
      WalkEntriesReach(cs[1..], root, names, excluded);
    }
  }

  lemma {:induction false} WalkChildReaches(c: Child, root: string, names: seq<string>, excluded: set<string>)
    requires WellNamedChild(c)
    requires forall i :: 0 <= i < |names| ==> IsName(names[i]) && !SkipName(names[i])
    requires forall e :: e in excluded ==> e == root || !Reached(root, e)
    ensures forall v :: v in WalkChild(c, PathBelow(root, names), Pruner(excluded)).trace ==> Reached(root, v.path)
    decreases c
  {
    var more := names + [c.entry.name];
    PathBelowAppend(root, names, c.entry.name);
    assert forall i :: 0 <= i < |more| - 1 ==> more[i] == names[i];
    if c.entry.isDir {
      WalkReaches(c.tree, root, more, excluded);
    } else {
      ReachedBelow(root, more);
    }
  }

  /**
   * A kept visit below the root of a pruning walk is the root followed by
   * names none of which is skipped.
   */
  lemma KeptBelow(root: string, excluded: set<string>, v: Visit)
    requires Reached(root, v.path) && Kept(excluded, v) && v.path != root
    ensures var names := Split(v.path[|root| + 1..]);
      && v.path == root + "/" + JoinSegs(names)
      && (forall i :: 0 <= i < |names| ==> IsName(names[i]) && !SkipName(names[i]))
  {
    var names := Split(v.path[|root| + 1..]);
    JoinSplit(v.path[|root| + 1..]);
    assert v.path == root + "/" + v.path[|root| + 1..];
    SkipOfLast(root, names, v.path);
  }

  /** A path whose cleaned form is no longer than the root's is not reachable below the root. */
  lemma NotBelowRoot(root: string, e: string)
    requires root != "" && |CleanSegs(e)| <= |CleanSegs(root)|
    ensures e == root || !Reached(root, e)
  {
    if e != root && Reached(root, e) {
      var names := Split(e[|root| + 1..]);
      JoinSplit(e[|root| + 1..]);
      assert e == root + "/" + e[|root| + 1..];
      CleanSegsBelow(root, names);
      assert false;
    }
  }
}
