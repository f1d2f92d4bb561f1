/**
 * The FileSystem a repository is served through: a local directory, or a
 * directory on an ssh host reached through the pool.
 */
module FileSystems {
  import opened Wrappers
  import opened FilePath
  import opened Repository
  import opened FsTree
  import opened Ssh
  import opened RemoteWalk

  datatype FileSystem = LocalFS(basePath: string) | Remote(remote: RemoteFS)

  datatype DispatchError =
    | UnknownType(kind: string)         // "unknown repository type: <type>"
    | ConnectFailed(cause: ConnectError)

  /** BasePath: the repository's root as configured. */
  function BasePath(fs: FileSystem): string {
    match fs
    case LocalFS(b) => b
    case Remote(r) => r.basePath
  }

  /** Type. */
  function TypeName(fs: FileSystem): string {
    if fs.LocalFS? then "local" else "ssh"
  }

  /** The full path a file system method opens for `path`, below the root. */
  function FullPath(fs: FileSystem, path: string): string {
    match fs
    case LocalFS(b) => Join(b, path)
    case Remote(r) => RemotePath(r, path)
  }

  /** Stat: what the file system reports for the full path of `path`. */
  function FsStat(fs: FileSystem, path: string, view: View): Result<Info, FsError> {
    view(FullPath(fs, path)).stat
  }

  /** ReadDir: the entries of the full path of `path`, in the order the listing gives them. */
  function FsReadDir(fs: FileSystem, path: string, view: View): Result<seq<Info>, FsError> {
    var t := view(FullPath(fs, path));
    if t.readDirError.Some? then Err(t.readDirError.value) else Ok(Entries(t.children))
  }

  /** Walk: the walk of the tree at the full path of `root`. */
  function FsWalk(fs: FileSystem, root: string, view: View, visit: Visitor): Run {
    var p := FullPath(fs, root);
    Walk(view(p), p, visit)
  }

  /**
   * Walk. The local walk is modelled by the same pre-order traversal as the
   * remote one.
   */
  method WalkFs(fs: FileSystem, root: string, view: View, visit: Visitor) returns (trace: seq<Visit>, result: Signal)
    ensures Run(trace, result) == FsWalk(fs, root, view, visit)
  {
    match fs
    case LocalFS(b) =>
      var p := Join(b, root);
      trace, result := WalkDir(view(p), p, visit);
    case Remote(r) =>
      trace, result := RemoteFsWalk(r, root, view, visit);
  }

  /**
   * What looking up an ssh repository does to the pool, from `before` to
   * `after`: a pooled connection that answers the probe is reused and the
   * pool stays as it was; otherwise exactly one connection attempt is made,
   * and the lookup fails iff one of its steps fails. The connections under
   * every other key stay as they were.
   */
  ghost predicate SshLookup(before: map<string, Connection>, after: map<string, Connection>, repo: Repository,
                      probeOk: bool, steps: ConnectSteps, failed: bool) {
    var key := ConnectionKey(repo);
    && (key in before && probeOk ==> !failed && after == before)
    && (!(key in before && probeOk) ==> (failed <==> FirstFailure(repo, steps).Some?))
    && forall k :: k != key ==> (k in after <==> k in before) && (k in after ==> after[k] == before[k])
  }

  /**
   * Repository.GetFileSystem: "local" and "" give a local file system at the
   * repository's path, "ssh" a remote one over the pooled connection, any
   * other type an error; only "ssh" touches the pool.
   */
  method GetFileSystem(repo: Repository, pool: SshPool, probeOk: bool, steps: ConnectSteps) returns (r: Result<FileSystem, DispatchError>)
    requires pool.Valid()
    modifies pool
    ensures pool.Valid()
    ensures repo.kind == "local" || repo.kind == "" ==> r == Ok(LocalFS(repo.path)) && unchanged(pool)
    ensures repo.kind !in {"local", "", "ssh"} ==> r == Err(UnknownType(repo.kind)) && unchanged(pool)
    ensures repo.kind == "ssh" ==> var key := ConnectionKey(repo);
      && (r.Ok? ==> key in pool.conns && r.value == Remote(RemoteFS(pool.conns[key], repo.path, repo)))
      && (r.Err? ==> r.error.ConnectFailed? && key !in pool.conns)
      && SshLookup(old(pool.conns), pool.conns, repo, probeOk, steps, r.Err?)
  {
    if repo.kind == "local" || repo.kind == "" {
      return Ok(LocalFS(repo.path));
    } else if repo.kind == "ssh" {
      var rfs := pool.GetRemoteFS(repo, probeOk, steps);
      if rfs.Err? {
        return Err(ConnectFailed(rfs.error));
      }
      return Ok(Remote(rfs.value));
    } else {
      return Err(UnknownType(repo.kind));
    }
  }

  /** Both kinds of file system read below the cleaned root the same way when no backslash is involved. */
  lemma FullPathAgrees(base: string, r: RemoteFS, path: string)
    requires r.basePath == base && '\\' !in Join(base, path)
    ensures FullPath(Remote(r), path) == FullPath(LocalFS(base), path)
  {
    RemotePathNormalised(r, path);
  }
}
