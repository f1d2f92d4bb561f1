/**
 * handleSearchFiles: the visible regular files of a repository whose base
 * name matches a pattern, as paths relative to the repository's root.
 */
module Search {
  import opened Wrappers
  import opened FilePath
  import opened FsTree
  import opened Ssh
  import opened RemoteWalk
  import opened FileSystems
  import opened Skip
  import opened Tools
  import opened Registry

  /** The directory the search walks: the full path of "." below the root. */
  function SearchRoot(fs: FileSystem): string {
    FullPath(fs, ".")
  }

  /**
   * What the search callback appends for a visit: a kept file whose base name
   * matches, as its path relative to the base, unless that is empty.
   */
  function SearchFound(excluded: set<string>, base: string, pattern: string, v: Visit): Option<string> {
    var rel := RelOrEmpty(base, v.path);
    if Kept(excluded, v) && Match(pattern, Base(v.path)) && rel != "" then Some(rel) else None
  }

  function SearchPick(excluded: set<string>, base: string, pattern: string): Visit -> Option<string> {
    v => SearchFound(excluded, base, pattern, v)
  }

  /**
   * The search as the callback is written: only the base path itself is let
   * through unjudged, which is the walked directory only when the base is
   * spelled clean.
   */
  function SearchAsWritten(fs: FileSystem, pattern: string, view: View): Result<seq<string>, ToolError> {
    var base := BasePath(fs);
    WalkOutcome(FsWalk(fs, ".", view, Pruner({base})), SearchPick({base}, base, pattern))
  }

  /** The search with the walked directory let through as well, as the recursive listing does with its target. */
  function SearchFiles(fs: FileSystem, pattern: string, view: View): Result<seq<string>, ToolError> {
    var base := BasePath(fs);
    var excluded := {base, SearchRoot(fs)};
    WalkOutcome(FsWalk(fs, ".", view, Pruner(excluded)), SearchPick(excluded, base, pattern))
  }

  /**
   * The search step by step, as the callback is written: the walk and its
   * callback. Whenever the walked directory is judged alike by both
   * callbacks, this is the search with the walked directory let through.
   */
  method SearchIn(fs: FileSystem, pattern: string, view: View) returns (r: Result<seq<string>, ToolError>)
    ensures r == SearchAsWritten(fs, pattern, view)
    ensures RootJudgedAlike(fs, view) ==> r == SearchFiles(fs, pattern, view)
  {
    var base := BasePath(fs);
    var excluded := {base};
    if RootJudgedAlike(fs, view) {
      SearchAsWrittenAgrees(fs, pattern, view);
    }
    var trace, result := WalkFs(fs, ".", view, Pruner(excluded));
    if result.Fail? {
      return Err(WalkFailed(result.error));
    } else if result == SkipDir {
      return Err(WalkSkipped);
    }
    var matches := CollectPicked(SearchPick(excluded, base, pattern), trace);
    return Ok(matches);
  }

  /** handleSearchFiles: the repository's file system, then the search. */
  method HandleSearchFiles(srv: Server, repo: string, pattern: string, probeOk: bool, steps: ConnectSteps, view: View)
    returns (fs: Result<FileSystem, LookupError>, r: Result<seq<string>, ToolError>)
    requires srv.Valid()
    modifies srv.pool
    ensures srv.Valid()
    ensures repo !in srv.repos ==> fs == Err(UnknownRepository(repo)) && unchanged(srv.pool)
    ensures fs.Ok? ==> srv.Serves(repo, fs.value) && r == SearchAsWritten(fs.value, pattern, view)
    ensures fs.Ok? && RootJudgedAlike(fs.value, view) ==> r == SearchFiles(fs.value, pattern, view)
    ensures fs.Err? ==> r == Err(NoFileSystem(fs.error))
    ensures srv.LookedUp(repo, old(srv.pool.conns), probeOk, steps, fs.Err?)
    ensures repo in srv.repos && srv.repos[repo].kind != "ssh" ==> unchanged(srv.pool)
  {
    fs := srv.GetFileSystem(repo, probeOk, steps);
    if fs.Err? {
      return fs, Err(NoFileSystem(fs.error));
    }
    r := SearchIn(fs.value, pattern, view);
  }

  // ---------------------------------------------------------------------
  // The callback as written

  /**
   * The walked directory is judged alike by the callback as written and by
   * the one that lets it through: it is the base itself, or its stat fails,
   * or it is skipped but not a directory, or not skipped and not a regular
   * file.
   */
  predicate RootJudgedAlike(fs: FileSystem, view: View) {
    var root := SearchRoot(fs);
    var stat := view(root).stat;
    root == BasePath(fs) || stat.Err? || (if ShouldSkip(root) then !stat.value.isDir else !stat.value.isRegular)
  }

  /**
   * Where the walked directory is judged alike, the search as written and the
   * search with the walked directory let through give the same answer: the
   * two callbacks differ only on the walked directory's own visit.
   */
  lemma SearchAsWrittenAgrees(fs: FileSystem, pattern: string, view: View)
    requires RootJudgedAlike(fs, view)
    ensures SearchAsWritten(fs, pattern, view) == SearchFiles(fs, pattern, view)
  {
    var base := BasePath(fs);
    var root := SearchRoot(fs);
    if root == base {
      assert {base, root} == {base};
    } else {
      AlikeRootWalks(view(root), root, base, pattern);
    }
  }

  /** The two callbacks walk a tree whose root they judge alike to the same answer. */
  lemma AlikeRootWalks(t: Tree, root: string, base: string, pattern: string)
    requires root != base
    requires t.stat.Err? || (if ShouldSkip(root) then !t.stat.value.isDir else !t.stat.value.isRegular)
    ensures WalkOutcome(Walk(t, root, Pruner({base})), SearchPick({base}, base, pattern))
         == WalkOutcome(Walk(t, root, Pruner({base, root})), SearchPick({base, root}, base, pattern))
  {
    var v1 := Pruner({base});
    var v2 := Pruner({base, root});
    assert forall x: Visit :: |x.path| > |root| ==> v1(x) == v2(x) by {
      forall x: Visit | |x.path| > |root| ensures v1(x) == v2(x) {
        assert x.path != root;
      }
    }
    WalkAgrees(t, root, v1, v2);
    var trace := Walk(t, root, v1).trace;
    WalkRootVisits(t, root, v1);
    var pick1 := SearchPick({base}, base, pattern);
    var pick2 := SearchPick({base, root}, base, pattern);
    forall i | 0 <= i < |trace| ensures pick1(trace[i]) == pick2(trace[i]) {
      assert trace[i] in trace;
    }
    CollectAgrees(pick1, pick2, trace);
  }

  /**
   * The other way the callback as written differs: a walked directory that is
   * a plain regular file, reached through a base that is not spelled clean
   * (/srv/notes.txt/, say), is itself appended, as ".", when its name
   * matches; the search with the walked directory let through finds nothing.
   */
  lemma FileRootAsWritten(fs: FileSystem, pattern: string, view: View)
    requires fs.LocalFS? || '\\' !in Join(BasePath(fs), ".")
    requires SearchRoot(fs) != BasePath(fs) && !ShouldSkip(SearchRoot(fs))
    requires view(SearchRoot(fs)).stat.Ok? && view(SearchRoot(fs)).stat.value.isRegular && !view(SearchRoot(fs)).stat.value.isDir
    ensures SearchAsWritten(fs, pattern, view) == Ok(if Match(pattern, Base(SearchRoot(fs))) then ["."] else [])
    ensures SearchFiles(fs, pattern, view) == Ok([])
  {
    SearchRootIsCleanBase(fs);
    FileRootWalks(view(SearchRoot(fs)), SearchRoot(fs), BasePath(fs), pattern);
  }

  /** How the two callbacks walk a plain regular file standing at the cleaned base that is not the base as spelled. */
  lemma FileRootWalks(t: Tree, root: string, base: string, pattern: string)
    requires root == Clean(base) && root != base && !ShouldSkip(root)
    requires t.stat.Ok? && t.stat.value.isRegular && !t.stat.value.isDir
    ensures WalkOutcome(Walk(t, root, Pruner({base})), SearchPick({base}, base, pattern))
         == Ok(if Match(pattern, Base(root)) then ["."] else [])
    ensures WalkOutcome(Walk(t, root, Pruner({base, root})), SearchPick({base, root}, base, pattern)) == Ok([])
  {
    var v := Visit(root, Some(t.stat.value), None);
    RelToClean(base);
    FileWalk(t, root, Pruner({base}));
    FileWalk(t, root, Pruner({base, root}));
    RootVisitFound(base, root, pattern, v);
    CollectOne(SearchPick({base}, base, pattern), v);
    CollectNothing(SearchPick({base, root}, base, pattern), v);
  }

  /** The cleaned form of a path is, relative to the path, ".". */
  lemma RelToClean(p: string)
    ensures RelOrEmpty(p, Clean(p)) == "."
  {
    CleanIdempotent(p);
  }

  /** The callback as written appends a plain regular file at the walked directory as "." when its name matches. */
  lemma RootVisitFound(base: string, root: string, pattern: string, v: Visit)
    requires v.path == root && root != base && !ShouldSkip(root) && RelOrEmpty(base, root) == "."
    requires v.err.None? && v.info.Some? && v.info.value.isRegular
    ensures SearchFound({base}, base, pattern, v) == if Match(pattern, Base(root)) then Some(".") else None
  {
  }

  /** A tree whose stat is not a directory is walked as its one visit, when the visitor lets it through. */
  lemma FileWalk(t: Tree, root: string, visit: Visitor)
    requires t.stat.Ok? && !t.stat.value.isDir && visit(Visit(root, Some(t.stat.value), None)) == Nil
    ensures Walk(t, root, visit) == Run([Visit(root, Some(t.stat.value), None)], Nil)
  {
  }

  /** What the callback appends for a single visit. */
  lemma CollectOne(pick: Visit -> Option<string>, v: Visit)
    ensures Collect(pick, [v]) == if pick(v).Some? then [pick(v).value] else []
  {
    assert [v][..0] == [] && [v][0] == v;
  }

  /**
   * When the base is not spelled clean, the walked directory is judged by
   * its own name: a hidden one is pruned at once and nothing is found.
   */
  lemma HiddenBaseFindsNothing(fs: FileSystem, pattern: string, view: View)
    requires SearchRoot(fs) != BasePath(fs) && ShouldSkip(SearchRoot(fs))
    requires view(SearchRoot(fs)).stat.Ok? && view(SearchRoot(fs)).stat.value.isDir
    ensures SearchAsWritten(fs, pattern, view) == Ok([])
  {
    var base := BasePath(fs);
    var root := SearchRoot(fs);
    var t := view(root);
    var v := Visit(root, Some(t.stat.value), None);
    var pick := SearchPick({base}, base, pattern);
    assert FsWalk(fs, ".", view, Pruner({base})) == Walk(t, root, Pruner({base}));
    PrunedDirectoryPicksNothing({base}, base, pattern, v);
    assert Pruner({base})(v) == SkipDir;
    WalkSkipDirPrunes(t, root, Pruner({base}));
    CollectNothing(pick, v);
  }

  /** A skipped directory that is not excluded is pruned, and the search callback appends nothing for it. */
  lemma PrunedDirectoryPicksNothing(excluded: set<string>, base: string, pattern: string, v: Visit)
    requires v.err.None? && v.info.Some? && v.info.value.isDir && v.path !in excluded && ShouldSkip(v.path)
    ensures PruneAnswer(excluded, v) == SkipDir && SearchFound(excluded, base, pattern, v) == None
  {
  }

  /** A single visit the callback does not pick collects nothing. */
  lemma CollectNothing(pick: Visit -> Option<string>, v: Visit)
    requires pick(v).None?
    ensures Collect(pick, [v]) == []
  {
    assert [v][..0] == [] && [v][0] == v;
  }

  /**
   * A clean directory with a hidden name, configured with a trailing slash
   * (/srv/.notes/, say), is such a base: it is walked without the slash.
   */
  lemma TrailingSlashBase(parent: string, n: string)
    requires IsAbs(parent) && IsName(n) && HasPrefix(n, ".")
    requires Clean(parent + "/" + n) == parent + "/" + n
    ensures var root := parent + "/" + n;
      && SearchRoot(LocalFS(root + "/")) == root
      && root != root + "/"
      && ShouldSkip(root)
  {
    var root := parent + "/" + n;
    var base := root + "/";
    JoinDot(base);
    assert base == root + "/" + "";
    CleanSegsJoin(root, "");
    SplitNoSeparator("");
    assert Resolve(IsAbs(root), CleanSegs(root), [""]) == CleanSegs(root);
    assert IsAbs(base) == IsAbs(root);
    BaseOfChild(parent, n);
  }

  // ---------------------------------------------------------------------
  // The search with the walked directory let through

  /**
   * The search walks the cleaned base (for a remote one, when it has no
   * backslash), absolute exactly when the base is. A base spelled clean is
   * thus walked as written, and RootJudgedAlike holds for it.
   */
  lemma SearchRootIsCleanBase(fs: FileSystem)
    requires fs.LocalFS? || '\\' !in Join(BasePath(fs), ".")
    ensures SearchRoot(fs) == Clean(BasePath(fs)) && IsAbs(SearchRoot(fs)) == IsAbs(BasePath(fs))
    ensures CleanSegs(SearchRoot(fs)) == CleanSegs(BasePath(fs))
  {
    var base := BasePath(fs);
    if base == "" {
      SplitNoSeparator(".");
      assert Split("") == [""];
      assert Join(base, ".") == Clean(".");
      assert CleanSegs(".") == CleanSegs("");
    } else {
      JoinDot(base);
    }
    CleanIsAbs(base);
    if fs.Remote? {
      RemotePathNormalised(fs.remote, ".");
    }
  }

  /**
   * A kept visit below the walked directory is appended, when its base name
   * matches, as its path below that directory, a path of plain, unskipped names.
   */
  lemma SearchFoundBelow(base: string, root: string, pattern: string, v: Visit)
    requires root == Clean(base)
    requires Reached(root, v.path) && Kept({base, root}, v)
    ensures var x := v.path[|root| + 1..];
      && v.path == root + "/" + x
      && SearchFound({base, root}, base, pattern, v) == (if Match(pattern, Base(v.path)) then Some(x) else None)
      && forall i :: 0 <= i < |Split(x)| ==> IsName(Split(x)[i]) && !SkipName(Split(x)[i])
  {
    KeptBelow(root, {base, root}, v);
    var x := v.path[|root| + 1..];
    var names := Split(x);
    JoinSplit(x);
    RelFromBase(base, names);
    JoinSegsHead(names);
  }

  /** The pruning walk of the search only reaches Reached paths below the cleaned base. */
  lemma SearchWalkReaches(fs: FileSystem, view: View)
    requires WellNamed(view(SearchRoot(fs)))
    requires fs.LocalFS? || '\\' !in Join(BasePath(fs), ".")
    ensures var root := SearchRoot(fs);
      forall v :: v in FsWalk(fs, ".", view, Pruner({BasePath(fs), root})).trace ==> Reached(root, v.path)
  {
    var base := BasePath(fs);
    var root := SearchRoot(fs);
    SearchRootIsCleanBase(fs);
    CleanNonEmpty(base);
    NotBelowRoot(root, base);
    NotBelowRoot(root, root);
    assert PathBelow(root, []) == root;
    WalkReaches(view(root), root, [], {base, root});
  }

  /** The visits of the search's walk. */
  function SearchTrace(fs: FileSystem, view: View): seq<Visit> {
    FsWalk(fs, ".", view, Pruner({BasePath(fs), SearchRoot(fs)})).trace
  }

  /**
   * Every match of the search is a kept visit of its walk whose base name
   * matches, given as its path relative to the base, a path of plain,
   * unskipped names.
   */
  lemma SearchFilesSound(fs: FileSystem, pattern: string, view: View, x: string)
    requires WellNamed(view(SearchRoot(fs)))
    requires fs.LocalFS? || '\\' !in Join(BasePath(fs), ".")
    requires SearchFiles(fs, pattern, view).Ok? && x in SearchFiles(fs, pattern, view).value
    ensures var trace := SearchTrace(fs, view);
      exists i :: 0 <= i < |trace| && Kept({BasePath(fs), SearchRoot(fs)}, trace[i])
        && Match(pattern, Base(trace[i].path)) && trace[i].path == SearchRoot(fs) + "/" + x
    ensures forall i :: 0 <= i < |Split(x)| ==> IsName(Split(x)[i]) && !SkipName(Split(x)[i])
  {
    var base := BasePath(fs);
    var root := SearchRoot(fs);
    var trace := SearchTrace(fs, view);
    var pick := SearchPick({base, root}, base, pattern);
    SearchWalkReaches(fs, view);
    SearchRootIsCleanBase(fs);
    CollectMembers(pick, trace, x);
    var i :| 0 <= i < |trace| && pick(trace[i]) == Some(x);
    assert trace[i] in trace;
    SearchFoundBelow(base, root, pattern, trace[i]);
  }

  /** Every kept visit of the search's walk whose base name matches is found, relative to the base. */
  lemma SearchFilesComplete(fs: FileSystem, pattern: string, view: View, i: nat)
    requires WellNamed(view(SearchRoot(fs)))
    requires fs.LocalFS? || '\\' !in Join(BasePath(fs), ".")
    requires SearchFiles(fs, pattern, view).Ok?
    requires i < |SearchTrace(fs, view)|
    requires Kept({BasePath(fs), SearchRoot(fs)}, SearchTrace(fs, view)[i])
    requires Match(pattern, Base(SearchTrace(fs, view)[i].path))
    ensures var p := SearchTrace(fs, view)[i].path; var root := SearchRoot(fs);
      && |p| > |root| && p == root + "/" + p[|root| + 1..]
      && p[|root| + 1..] in SearchFiles(fs, pattern, view).value
  {
    var base := BasePath(fs);
    var root := SearchRoot(fs);
    SearchWalkReaches(fs, view);
    SearchRootIsCleanBase(fs);
    SearchedTrace(base, root, pattern, SearchTrace(fs, view), i);
  }

  /** Over visits below the walked directory, a kept visit whose base name matches is collected as its path below it. */
  lemma SearchedTrace(base: string, root: string, pattern: string, trace: seq<Visit>, i: nat)
    requires root == Clean(base) && forall v :: v in trace ==> Reached(root, v.path)
    requires i < |trace| && Kept({base, root}, trace[i]) && Match(pattern, Base(trace[i].path))
    ensures var p := trace[i].path;
      && |p| > |root| && p == root + "/" + p[|root| + 1..]
      && p[|root| + 1..] in Collect(SearchPick({base, root}, base, pattern), trace)
  {
    assert trace[i] in trace;
    SearchFoundBelow(base, root, pattern, trace[i]);
    CollectMembers(SearchPick({base, root}, base, pattern), trace, trace[i].path[|root| + 1..]);
  }

  /** A directory holding one file is walked as the directory, then the file. */
  lemma WalkSingleFile(dir: Info, n: string, leaf: Tree, root: string, visit: Visitor)
    requires dir.isDir && visit(Visit(root, Some(dir), None)) == Nil
    ensures var w := Visit(root + "/" + n, Some(Info(n, false, true)), None);
      Walk(Tree(Ok(dir), None, [Child(Info(n, false, true), leaf)]), root, visit)
        == Run([Visit(root, Some(dir), None), w], visit(w))
  {
    var cs := [Child(Info(n, false, true), leaf)];
    var w := Visit(root + "/" + n, Some(Info(n, false, true)), None);
    assert cs[1..] == [];
    assert WalkChild(cs[0], root, visit) == Run([w], visit(w));
    assert WalkEntries(cs, root, visit) == Run([w], visit(w)) by {
      if visit(w) == Nil {
        assert WalkEntries(cs[1..], root, visit) == Run([], Nil);
        assert [w] + [] == [w];
      }
    }
    assert [Visit(root, Some(dir), None)] + [w] == [Visit(root, Some(dir), None), w];
  }

  /** A plain, unskipped file right below the walked directory passes the callback and is kept. */
  lemma PrunePassesFile(base: string, root: string, n: string)
    requires root == Clean(base)
    requires IsName(n) && !SkipName(n)
    ensures var w := Visit(root + "/" + n, Some(Info(n, false, true)), None);
      PruneAnswer({base, root}, w) == Nil && Kept({base, root}, w)
  {
    var p := root + "/" + n;
    CleanIsAbs(base);
    CleanNonEmpty(base);
    assert p != root;
    assert p != base by {
      ReachedBelow(root, [n]);
      assert PathBelow(root, [n]) == p;
      NotBelowRoot(root, base);
    }
    ShouldSkipChild(root, n);
  }

  /** Such a file whose name matches is found under its name. */
  lemma SearchFoundFile(base: string, root: string, pattern: string, n: string)
    requires root == Clean(base)
    requires IsName(n) && !SkipName(n) && Match(pattern, n)
    ensures SearchFound({base, root}, base, pattern, Visit(root + "/" + n, Some(Info(n, false, true)), None)) == Some(n)
  {
    PrunePassesFile(base, root, n);
    BaseOfChild(root, n);
    RelFromBase(base, [n]);
    assert JoinSegs([n]) == n;
  }

  /** What the callback appends over two visits. */
  lemma CollectTwo(pick: Visit -> Option<string>, v: Visit, w: Visit)
    requires pick(v).None? && pick(w).Some?
    ensures Collect(pick, [v, w]) == [pick(w).value]
  {
    assert [v, w][..1] == [v] && [v, w][1] == w;
    assert Collect(pick, [v]) == [] by {
      assert [v][..0] == [] && [v][0] == v;
    }
  }

  /** The search of a directory holding one plain, unskipped file sees the directory, then the file. */
  lemma SearchWalkSingleFile(fs: FileSystem, view: View, dir: Info, n: string, leaf: Tree)
    requires fs.LocalFS? || '\\' !in Join(BasePath(fs), ".")
    requires IsName(n) && !SkipName(n)
    requires view(SearchRoot(fs)) == Tree(Ok(dir), None, [Child(Info(n, false, true), leaf)]) && dir.isDir
    ensures var root := SearchRoot(fs);
      FsWalk(fs, ".", view, Pruner({BasePath(fs), root}))
        == Run([Visit(root, Some(dir), None), Visit(root + "/" + n, Some(Info(n, false, true)), None)], Nil)
  {
    var base := BasePath(fs);
    var root := SearchRoot(fs);
    SearchRootIsCleanBase(fs);
    PrunePassesFile(base, root, n);
    WalkSingleFile(dir, n, leaf, root, Pruner({base, root}));
  }

  /**
   * Below a base that is not spelled clean and whose directory is hidden, a
   * single matching file is found by the search, where the callback as
   * written finds nothing.
   */
  lemma HiddenBaseFileFound(fs: FileSystem, pattern: string, view: View, dir: Info, n: string, leaf: Tree)
    requires fs.LocalFS? || '\\' !in Join(BasePath(fs), ".")
    requires IsName(n) && !SkipName(n) && Match(pattern, n)
    requires view(SearchRoot(fs)) == Tree(Ok(dir), None, [Child(Info(n, false, true), leaf)]) && dir.isDir
    ensures SearchFiles(fs, pattern, view) == Ok([n])
  {
    var base := BasePath(fs);
    var root := SearchRoot(fs);
    var excluded := {base, root};
    SearchRootIsCleanBase(fs);
    var v := Visit(root, Some(dir), None);
    var w := Visit(root + "/" + n, Some(Info(n, false, true)), None);
    SearchWalkSingleFile(fs, view, dir, n, leaf);
    SearchFoundFile(base, root, pattern, n);
    var pick := SearchPick(excluded, base, pattern);
    assert pick(v) == None;
    assert pick(w) == Some(n);
    CollectTwo(pick, v, w);
  }
}
