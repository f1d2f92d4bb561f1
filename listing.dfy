/**
 * handleListFiles: the entries of a directory of a repository, either the
 * visible names of one listing or, recursively, the visible regular files
 * below it relative to the directory.
 */
module Listing {
  import opened Wrappers
  import opened FilePath
  import opened Repository
  import opened FsTree
  import opened Ssh
  import opened RemoteWalk
  import opened FileSystems
  import opened Skip
  import opened Tools
  import opened Registry

  // ---------------------------------------------------------------------
  // One listing

  /** How a listed entry is shown: directories carry a trailing "/". */
  function DisplayName(e: Info): string {
    if e.isDir then e.name + "/" else e.name
  }

  /** An entry the listing shows: one whose name is not skipped. */
  const Visible: Info -> bool := (e: Info) => !ShouldSkip(e.name)

  /** The entries that `shows` accepts, in order, as shown names. */
  function Listed(shows: Info -> bool, es: seq<Info>): seq<string>
    decreases |es|
  {
    if es == [] then []
    else
      var n := |es| - 1;
      Listed(shows, es[..n]) + (if shows(es[n]) then [DisplayName(es[n])] else [])
  }

  /** The non-recursive listing: the entries in order, skipped names left out. */
  function Displayed(es: seq<Info>): seq<string> {
    Listed(Visible, es)
  }

  /** The loop over the entries of ReadDir. */
  method ListEntries(es: seq<Info>) returns (files: seq<string>)
    ensures files == Displayed(es)
  {
    files := [];
    for i := 0 to |es|
      invariant files == Listed(Visible, es[..i])
    {
      assert es[..i + 1][..i] == es[..i];
      assert Visible(es[i]) == !ShouldSkip(es[i].name);
      if ShouldSkip(es[i].name) {
        continue;
      }
      if es[i].isDir {
        files := files + [es[i].name + "/"];
      } else {
        files := files + [es[i].name];
      }
    }
    assert es[..|es|] == es;
  }

  /** A shown name tells a directory from a file, and gives the entry's name back. */
  lemma DisplayNameMarksDirectories(e: Info)
    requires e.name != "" && e.name[|e.name| - 1] != '/'
    ensures var d := DisplayName(e);
      && (e.isDir <==> d[|d| - 1] == '/')
      && d[..|e.name|] == e.name
  {
  }

  /** A filtered listing holds exactly the shown names of the accepted entries. */
  lemma {:induction false} ListedMembers(shows: Info -> bool, es: seq<Info>, x: string)
    ensures x in Listed(shows, es) <==> exists i :: 0 <= i < |es| && shows(es[i]) && DisplayName(es[i]) == x
    decreases |es|
  {
    if es != [] {
      var n := |es| - 1;
      var init := es[..n];
      ListedMembers(shows, init, x);
      assert forall i :: 0 <= i < n ==> init[i] == es[i];
    }
  }

  /** A filtered listing of two runs of entries lists each in turn. */
  lemma {:induction false} ListedConcat(shows: Info -> bool, a: seq<Info>, b: seq<Info>)
    ensures Listed(shows, a + b) == Listed(shows, a) + Listed(shows, b)
    decreases |b|
  {
    if b == [] {
      assert a + b == a;
    } else {
      var n := |b| - 1;
      ListedConcat(shows, a, b[..n]);
      assert (a + b)[..|a + b| - 1] == a + b[..n];
      assert (a + b)[|a + b| - 1] == b[n];
    }
  }

  /** The listing shows exactly the entries whose names are not skipped. */
  lemma DisplayedMembers(es: seq<Info>, x: string)
    ensures x in Displayed(es) <==> exists i :: 0 <= i < |es| && !ShouldSkip(es[i].name) && DisplayName(es[i]) == x
  {
    ListedMembers(Visible, es, x);
    assert forall i :: 0 <= i < |es| ==> (Visible(es[i]) <==> !ShouldSkip(es[i].name));
  }

  /** The listing keeps the order of ReadDir: listing two runs of entries lists each in turn. */
  lemma DisplayedConcat(a: seq<Info>, b: seq<Info>)
    ensures Displayed(a + b) == Displayed(a) + Displayed(b)
  {
    ListedConcat(Visible, a, b);
  }

  // ---------------------------------------------------------------------
  // The recursive listing

  /** What the recursive callback appends for a visit: the path relative to the target, unless it is empty. */
  function ListFound(target: string, base: string, v: Visit): Option<string> {
    var rel := RelOrEmpty(target, v.path);
    if Kept({target, base}, v) && rel != "" then Some(rel) else None
  }

  function ListPick(target: string, base: string): Visit -> Option<string> {
    v => ListFound(target, base, v)
  }

  /** The recursive listing: the walk of the target with the pruning callback, and what it appended. */
  function RecursiveListing(fs: FileSystem, rel: string, view: View): Result<seq<string>, ToolError> {
    var base := BasePath(fs);
    var target := Join(base, rel);
    WalkOutcome(FsWalk(fs, rel, view, Pruner({target, base})), ListPick(target, base))
  }

  /**
   * handleListFiles once the file system is known: the path is validated,
   * must exist and be a directory, and is then listed.
   */
  function ListFiles(fs: FileSystem, path: string, recursive: bool, view: View, wd: Option<string>): Result<seq<string>, ToolError> {
    match ValidatePath(BasePath(fs), path, wd)
    case Err(e) => Err(PathRejected(e))
    case Ok(rel) =>
      match FsStat(fs, rel, view)
      case Err(_) => Err(PathMissing(path))
      case Ok(info) =>
        if !info.isDir then Err(NotADirectory(path))
        else if recursive then RecursiveListing(fs, rel, view)
        else
          match FsReadDir(fs, rel, view)
          case Err(e) => Err(ListFailed(e))
          case Ok(es) => Ok(Displayed(es))
  }

  /** The listing step by step: the walk and its callback, or the loop over ReadDir. */
  method ListFilesIn(fs: FileSystem, path: string, recursive: bool, view: View, wd: Option<string>) returns (r: Result<seq<string>, ToolError>)
    ensures r == ListFiles(fs, path, recursive, view, wd)
  {
    var v := ValidatePath(BasePath(fs), path, wd);
    if v.Err? {
      return Err(PathRejected(v.error));
    }
    var rel := v.value;
    var info := FsStat(fs, rel, view);
    if info.Err? {
      return Err(PathMissing(path));
    }
    if !info.value.isDir {
      return Err(NotADirectory(path));
    }
    if recursive {
      var base := BasePath(fs);
      var target := Join(base, rel);
      var trace, result := WalkFs(fs, rel, view, Pruner({target, base}));
      if result.Fail? {
        return Err(WalkFailed(result.error));
      } else if result == SkipDir {
        return Err(WalkSkipped);
      }
      var files := CollectPicked(ListPick(target, base), trace);
      return Ok(files);
    }
    var entries := FsReadDir(fs, rel, view);
    if entries.Err? {
      return Err(ListFailed(entries.error));
    }
    var files := ListEntries(entries.value);
    return Ok(files);
  }

  /** handleListFiles: the repository's file system, then the listing. */
  method HandleListFiles(srv: Server, repo: string, path: string, recursive: bool, probeOk: bool, steps: ConnectSteps,
                         view: View, wd: Option<string>) returns (fs: Result<FileSystem, LookupError>, r: Result<seq<string>, ToolError>)
    requires srv.Valid()
    modifies srv.pool
    ensures srv.Valid()
    ensures repo !in srv.repos ==> fs == Err(UnknownRepository(repo)) && unchanged(srv.pool)
    ensures fs.Ok? ==> srv.Serves(repo, fs.value) && r == ListFiles(fs.value, path, recursive, view, wd)
    ensures fs.Err? ==> r == Err(NoFileSystem(fs.error))
    ensures srv.LookedUp(repo, old(srv.pool.conns), probeOk, steps, fs.Err?)
    ensures repo in srv.repos && srv.repos[repo].kind != "ssh" ==> unchanged(srv.pool)
  {
    fs := srv.GetFileSystem(repo, probeOk, steps);
    if fs.Err? {
      return fs, Err(NoFileSystem(fs.error));
    }
    r := ListFilesIn(fs.value, path, recursive, view, wd);
  }

  // ---------------------------------------------------------------------
  // What the recursive listing contains

  /** The pruning callback never answers SkipDir at the top, so the recursive listing never fails that way. */
  lemma RecursiveListingNeverSkipped(fs: FileSystem, rel: string, view: View)
    ensures RecursiveListing(fs, rel, view) != Err(WalkSkipped)
  {
    var base := BasePath(fs);
    var p := FullPath(fs, rel);
    PruneNeverSkips(view(p), p, {Join(base, rel), base});
  }

  /** The pruning walk from the target of an accepted request only reaches Reached paths. */
  lemma ListingWalkReaches(fs: FileSystem, path: string, view: View, wd: Option<string>)
    requires AnchoredBase(BasePath(fs), wd) && ValidatePath(BasePath(fs), path, wd).Ok?
    requires var target := Join(BasePath(fs), ValidatePath(BasePath(fs), path, wd).value);
      WellNamed(view(target)) && (fs.LocalFS? || '\\' !in target)
    ensures var base := BasePath(fs); var rel := ValidatePath(base, path, wd).value; var target := Join(base, rel);
      && IsAbs(target) == IsAbs(base) && Clean(target) == target && target != ""
      && CleanSegs(target) == CleanSegs(base) + CleanSegs(rel)
      && FullPath(fs, rel) == target
      && forall v :: v in FsWalk(fs, rel, view, Pruner({target, base})).trace ==> Reached(target, v.path)
  {
    var base := BasePath(fs);
    var rel := ValidatePath(base, path, wd).value;
    var target := Join(base, rel);
    ValidatePathBelow(base, path, wd);
    CleanNonEmpty(target);
    if fs.Remote? {
      FullPathAgrees(base, fs.remote, rel);
    }
    NotBelowRoot(target, base);
    NotBelowRoot(target, target);
    assert PathBelow(target, []) == target;
    WalkReaches(view(target), target, [], {target, base});
  }

  /**
   * A kept visit below the target is appended as its path below the target,
   * a path of plain, unskipped names.
   */
  lemma ListFoundBelow(target: string, base: string, v: Visit)
    requires target != "" && Reached(target, v.path) && Kept({target, base}, v)
    ensures var x := v.path[|target| + 1..];
      && v.path == target + "/" + x
      && ListFound(target, base, v) == Some(x)
      && forall i :: 0 <= i < |Split(x)| ==> IsName(Split(x)[i]) && !SkipName(Split(x)[i])
  {
    KeptBelow(target, {target, base}, v);
    var x := v.path[|target| + 1..];
    var names := Split(x);
    JoinSplit(x);
    RelBelow(target, names);
    JoinSegsHead(names);
  }

  /** Over visits below the target, what the listing callback collects is exactly the kept paths below it. */
  lemma ListedTrace(target: string, base: string, trace: seq<Visit>, x: string)
    requires target != "" && forall v :: v in trace ==> Reached(target, v.path)
    ensures x in Collect(ListPick(target, base), trace) <==>
      exists i :: 0 <= i < |trace| && Kept({target, base}, trace[i]) && trace[i].path == target + "/" + x
    ensures x in Collect(ListPick(target, base), trace) ==>
      forall i :: 0 <= i < |Split(x)| ==> IsName(Split(x)[i]) && !SkipName(Split(x)[i])
  {
    var pick := ListPick(target, base);
    CollectMembers(pick, trace, x);
    if x in Collect(pick, trace) {
      var i :| 0 <= i < |trace| && pick(trace[i]) == Some(x);
      assert trace[i] in trace;
      ListFoundBelow(target, base, trace[i]);
    }
    if exists i :: 0 <= i < |trace| && Kept({target, base}, trace[i]) && trace[i].path == target + "/" + x {
      var i :| 0 <= i < |trace| && Kept({target, base}, trace[i]) && trace[i].path == target + "/" + x;
      assert trace[i] in trace;
      ListFoundBelow(target, base, trace[i]);
      assert trace[i].path[|target| + 1..] == x;
    }
  }

  /**
   * The recursive listing of an accepted directory holds exactly the kept
   * visits of its walk, each as its path below the target; every element of
   * it is a path of plain, unskipped names.
   */
  lemma RecursiveListingMembers(fs: FileSystem, path: string, view: View, wd: Option<string>, x: string)
    requires AnchoredBase(BasePath(fs), wd) && ValidatePath(BasePath(fs), path, wd).Ok?
    requires var target := Join(BasePath(fs), ValidatePath(BasePath(fs), path, wd).value);
      WellNamed(view(target)) && (fs.LocalFS? || '\\' !in target)
    requires RecursiveListing(fs, ValidatePath(BasePath(fs), path, wd).value, view).Ok?
    ensures var base := BasePath(fs); var rel := ValidatePath(base, path, wd).value; var target := Join(base, rel);
      var trace := FsWalk(fs, rel, view, Pruner({target, base})).trace;
      var list := RecursiveListing(fs, rel, view).value;
      && (x in list <==> exists i :: 0 <= i < |trace| && Kept({target, base}, trace[i]) && trace[i].path == target + "/" + x)
      && (x in list ==> forall i :: 0 <= i < |Split(x)| ==> IsName(Split(x)[i]) && !SkipName(Split(x)[i]))
  {
    var base := BasePath(fs);
    var rel := ValidatePath(base, path, wd).value;
    var target := Join(base, rel);
    var trace := FsWalk(fs, rel, view, Pruner({target, base})).trace;
    ListingWalkReaches(fs, path, view, wd);
    ListedTrace(target, base, trace, x);
  }
}
