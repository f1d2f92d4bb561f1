/**
 * handleReadFile and handleReadResourceTemplate: the checks a file passes
 * before it is read, the read_file reply, and the repo:// URIs of the
 * resource template.
 */
module Reading {
  import opened Wrappers
  import opened FilePath
  import opened Repository
  import opened FsTree
  import opened Ssh
  import opened FileSystems
  import opened Skip
  import opened Tools
  import opened Registry

  /** ReadFile of the file system: the contents at a full path, or the error of the read. */
  type Reader = string -> Result<string, FsError>

  // ---------------------------------------------------------------------
  // The guards

  /**
   * The checks both read paths make, in order: the path is validated, must
   * exist, must be a regular file, and must not be skipped. The result is the
   * validated path the file is then read at.
   */
  function ReadGuards(fs: FileSystem, file: string, view: View, wd: Option<string>): Result<string, ToolError> {
    match ValidatePath(BasePath(fs), file, wd)
    case Err(e) => Err(PathRejected(e))
    case Ok(rel) =>
      match FsStat(fs, rel, view)
      case Err(_) => Err(FileMissing(file))
      case Ok(info) =>
        if !info.isRegular then Err(NotAFile(file))
        else if ShouldSkip(rel) then Err(AccessDenied(file))
        else Ok(rel)
  }

  /** The reply of read_file: a header naming the repository and the file, a blank line, and the contents. */
  function FileReply(repo: string, file: string, data: string): string {
    "File: " + repo + "/" + file + "\n\n" + data
  }

  /** handleReadFile once the file system is known. */
  function ReadFileOn(fs: FileSystem, repo: string, file: string, view: View, wd: Option<string>, read: Reader): Result<string, ToolError> {
    match ReadGuards(fs, file, view, wd)
    case Err(e) => Err(e)
    case Ok(rel) =>
      match read(FullPath(fs, rel))
      case Err(e) => Err(ReadFailed(e))
      case Ok(data) => Ok(FileReply(repo, file, data))
  }

  /** A file stopped by a guard is never read: the reply does not depend on the reader. */
  lemma GuardedFileIsNotRead(fs: FileSystem, repo: string, file: string, view: View, wd: Option<string>, read1: Reader, read2: Reader)
    requires ReadGuards(fs, file, view, wd).Err?
    ensures ReadFileOn(fs, repo, file, view, wd, read1) == ReadFileOn(fs, repo, file, view, wd, read2)
    ensures ReadFileOn(fs, repo, file, view, wd, read1) == Err(ReadGuards(fs, file, view, wd).error)
  {
  }

  /**
   * What is read is confined: for a base that is absolute, or relative to an
   * absolute working directory, a file that passes the guards is read at a
   * path with the base's segments as a prefix, is a regular file, and does
   * not have a skipped name. For an absolute base that path is the cleaned
   * target of the request.
   */
  lemma ReadIsConfined(fs: FileSystem, file: string, view: View, wd: Option<string>)
    requires AnchoredBase(BasePath(fs), wd) && ReadGuards(fs, file, view, wd).Ok?
    requires fs.LocalFS? || '\\' !in Join(BasePath(fs), ReadGuards(fs, file, view, wd).value)
    ensures var rel := ReadGuards(fs, file, view, wd).value; var p := FullPath(fs, rel);
      var b := CleanSegs(BasePath(fs));
      && rel == ValidatePath(BasePath(fs), file, wd).value
      && (IsAbs(BasePath(fs)) ==> p == Join(Clean(BasePath(fs)), file))
      && IsAbs(p) == IsAbs(BasePath(fs))
      && |b| <= |CleanSegs(p)| && CleanSegs(p)[..|b|] == b
      && !HasPrefix(rel, "..")
      && view(p).stat.Ok? && view(p).stat.value.isRegular
      && !ShouldSkip(rel)
  {
    var rel := ReadGuards(fs, file, view, wd).value;
    ValidatePathBelow(BasePath(fs), file, wd);
    if IsAbs(BasePath(fs)) {
      ValidatePathTarget(BasePath(fs), file, wd);
    }
    if fs.Remote? {
      FullPathAgrees(BasePath(fs), fs.remote, rel);
    }
  }

  // ---------------------------------------------------------------------
  // Backslashes in a request to a remote file system

  /**
   * The request \\..\\..\\c\\d: on Unix a single name, which ValidatePath
   * accepts as it is; once RemoteFS turns its backslashes into "/", two
   * steps up and then c/d.
   */
  function BackslashClimb(c: string, d: string): string {
    "\\..\\..\\" + c + "\\" + d
  }

  /**
   * As written, against a remote base /a/b: BackslashClimb(c, d) passes every
   * guard, and the path sent to the sftp server, /a/b//../../c/d, resolves to
   * /c/d, outside the base (for /srv/repo and etc, passwd: /etc/passwd).
   */
  lemma BackslashClimbEscapes(r: RemoteFS, a: string, b: string, c: string, d: string, view: View, wd: Option<string>)
    requires IsName(a) && IsName(b) && IsName(c) && IsName(d)
    requires '\\' !in a && '\\' !in b && '\\' !in c && '\\' !in d
    requires r.basePath == "/" + a + "/" + b
    requires FsStat(Remote(r), BackslashClimb(c, d), view).Ok? && FsStat(Remote(r), BackslashClimb(c, d), view).value.isRegular
    ensures ReadGuards(Remote(r), BackslashClimb(c, d), view, wd) == Ok(BackslashClimb(c, d))
    ensures FullPath(Remote(r), BackslashClimb(c, d)) == ClimbedPath(a, b, c, d)
    ensures CleanSegs(FullPath(Remote(r), BackslashClimb(c, d))) == [c, d]
  {
    var req := BackslashClimb(c, d);
    assert IsName(req) && !HasPrefix(req, "..") && !SkipName(req) by {
      assert req[0] == '\\';
    }
    ValidatePathNames(r.basePath, [req], wd);
    ShouldSkipName(req);
    ClimbJoined(a, b, req);
    ClimbRewritten(a, b, c, d);
    ClimbLands(a, b, c, d);
  }

  /**
   * The guards with the path confined as the sftp server will see it: a
   * remote request whose joined path holds a backslash is refused as a
   * traversal before anything else is asked of the server.
   */
  function ConfinedReadGuards(fs: FileSystem, file: string, view: View, wd: Option<string>): Result<string, ToolError> {
    var checked := ValidatePath(BasePath(fs), file, wd);
    if fs.Remote? && checked.Ok? && '\\' in Join(BasePath(fs), checked.value) then Err(PathRejected(Traversal(file)))
    else ReadGuards(fs, file, view, wd)
  }

  /**
   * With the corrected guards, what is read is confined on every file
   * system: the conditions of ReadIsConfined hold with no assumption on
   * backslashes.
   */
  lemma ConfinedReadIsConfined(fs: FileSystem, file: string, view: View, wd: Option<string>)
    requires AnchoredBase(BasePath(fs), wd) && ConfinedReadGuards(fs, file, view, wd).Ok?
    ensures var rel := ConfinedReadGuards(fs, file, view, wd).value; var p := FullPath(fs, rel);
      var b := CleanSegs(BasePath(fs));
      && ReadGuards(fs, file, view, wd) == Ok(rel)
      && rel == ValidatePath(BasePath(fs), file, wd).value
      && (IsAbs(BasePath(fs)) ==> p == Join(Clean(BasePath(fs)), file))
      && IsAbs(p) == IsAbs(BasePath(fs))
      && |b| <= |CleanSegs(p)| && CleanSegs(p)[..|b|] == b
      && !HasPrefix(rel, "..")
      && view(p).stat.Ok? && view(p).stat.value.isRegular
      && !ShouldSkip(rel)
  {
    ReadIsConfined(fs, file, view, wd);
  }

  /** The corrected guards refuse the request that escapes as written. */
  lemma ConfinedRefusesClimb(r: RemoteFS, a: string, b: string, c: string, d: string, view: View, wd: Option<string>)
    requires IsName(a) && IsName(b) && IsName(c) && IsName(d)
    requires r.basePath == "/" + a + "/" + b
    ensures ConfinedReadGuards(Remote(r), BackslashClimb(c, d), view, wd) == Err(PathRejected(Traversal(BackslashClimb(c, d))))
  {
    var req := BackslashClimb(c, d);
    assert IsName(req) && !HasPrefix(req, "..") by {
      assert req[0] == '\\';
    }
    ValidatePathNames(r.basePath, [req], wd);
    ClimbJoined(a, b, req);
    assert ("/" + a + "/" + b + "/" + req)[|a| + |b| + 3] == '\\';
  }

  /** The base /a/b joined with a name n is /a/b/n. */
  lemma ClimbJoined(a: string, b: string, n: string)
    requires IsName(a) && IsName(b) && IsName(n)
    ensures Join("/" + a + "/" + b, n) == "/" + a + "/" + b + "/" + n
  {
    var segs := [""] + [a, b, n];
    var p := "/" + a + "/" + b + "/" + n;
    assert [a, b, n] == [a] + [b, n] && [b, n] == [b] + [n];
    JoinSegsCons("", [a, b, n]);
    JoinSegsCons(a, [b, n]);
    JoinSegsCons(b, [n]);
    assert JoinSegs(segs) == p;
    SplitJoin(segs);
    ResolveFirst(true, [], "", [a, b, n]);
    ResolveNames(true, [], [a, b, n]);
    assert CleanSegs(p) == [a, b, n] by {
      assert IsAbs(p);
    }
    assert Format(true, [a, b, n]) == p;
  }

  /** Joining a first element onto the rest. */
  lemma JoinSegsCons(x: string, rest: seq<string>)
    requires |rest| >= 1
    ensures JoinSegs([x] + rest) == x + "/" + JoinSegs(rest)
  {
    assert ([x] + rest)[1..] == rest;
  }

  /** The path /a/b//../../c/d. */
  function ClimbedPath(a: string, b: string, c: string, d: string): string {
    "/" + a + "/" + b + "/" + "/" + ".." + "/" + ".." + "/" + c + "/" + d
  }

  /** Rewriting the backslashes of /a/b/BackslashClimb(c, d). */
  lemma ClimbRewritten(a: string, b: string, c: string, d: string)
    requires '\\' !in a && '\\' !in b && '\\' !in c && '\\' !in d
    ensures ForwardSlashes("/" + a + "/" + b + "/" + BackslashClimb(c, d)) == ClimbedPath(a, b, c, d)
  {
    var head := "/" + a + "/" + b + "/";
    var u := "\\";
    var up1 := head + u + "..";
    var up2 := up1 + u + "..";
    var down := up2 + u + c;
    assert "/" + a + "/" + b + "/" + BackslashClimb(c, d) == down + u + d;
    ForwardSlashesKeeps(head);
    ForwardSlashesAt(head, "..");
    ForwardSlashesAt(up1, "..");
    ForwardSlashesAt(up2, c);
    ForwardSlashesAt(down, d);
  }

  /** Rewriting x, a backslash and a text y without one. */
  lemma ForwardSlashesAt(x: string, y: string)
    requires '\\' !in y
    ensures ForwardSlashes(x + "\\" + y) == ForwardSlashes(x) + "/" + y
  {
    ForwardSlashesConcat(x + "\\", y);
    ForwardSlashesConcat(x, "\\");
    ForwardSlashesKeeps(y);
  }

  /** The rewrite works character by character. */
  lemma ForwardSlashesConcat(x: string, y: string)
    ensures ForwardSlashes(x + y) == ForwardSlashes(x) + ForwardSlashes(y)
  {
    var l := ForwardSlashes(x + y);
    var r := ForwardSlashes(x) + ForwardSlashes(y);
    assert |l| == |r|;
    forall i | 0 <= i < |l| ensures l[i] == r[i] {
      if i >= |x| {
        assert (x + y)[i] == y[i - |x|];
      }
    }
  }

  /** A text without a backslash is left as it is. */
  lemma ForwardSlashesKeeps(x: string)
    requires '\\' !in x
    ensures ForwardSlashes(x) == x
  {
  }

  /** /a/b//../../c/d resolves to c and d. */
  lemma ClimbLands(a: string, b: string, c: string, d: string)
    requires IsName(a) && IsName(b) && IsName(c) && IsName(d)
    ensures CleanSegs(ClimbedPath(a, b, c, d)) == [c, d]
  {
    var segs := ClimbSegments(a, b, c, d);
    ClimbSplits(a, b, c, d);
    SplitJoin(segs);
    assert IsAbs(ClimbedPath(a, b, c, d));
    ClimbResolves(a, b, c, d);
  }

  /** The elements of /a/b//../../c/d. */
  function ClimbSegments(a: string, b: string, c: string, d: string): seq<string> {
    [""] + ([a] + ([b] + ([""] + ([".."] + ([".."] + ([c] + [d]))))))
  }

  lemma ClimbSplits(a: string, b: string, c: string, d: string)
    ensures JoinSegs(ClimbSegments(a, b, c, d)) == ClimbedPath(a, b, c, d)
  {
    var down := [c] + [d];
    var up2 := [".."] + down;
    var up1 := [".."] + up2;
    var empty := [""] + up1;
    var inB := [b] + empty;
    var inA := [a] + inB;
    JoinSegsCons(c, [d]);
    JoinSegsCons("..", down);
    JoinSegsCons("..", up2);
    JoinSegsCons("", up1);
    JoinSegsCons(b, empty);
    JoinSegsCons(a, inB);
    JoinSegsCons("", inA);
  }

  lemma ClimbResolves(a: string, b: string, c: string, d: string)
    requires IsName(a) && IsName(b) && IsName(c) && IsName(d)
    ensures Resolve(true, [], ClimbSegments(a, b, c, d)) == [c, d]
  {
    var down := [c] + [d];
    var up2 := [".."] + down;
    var up1 := [".."] + up2;
    var empty := [""] + up1;
    var inB := [b] + empty;
    var inA := [a] + inB;
    ResolveFirst(true, [], "", inA);
    ResolveFirst(true, [], a, inB);
    assert Step(true, [], a) == [a];
    ResolveFirst(true, [a], b, empty);
    assert Step(true, [a], b) == [a, b];
    ResolveFirst(true, [a, b], "", up1);
    ResolveFirst(true, [a, b], "..", up2);
    assert Step(true, [a, b], "..") == [a];
    ResolveFirst(true, [a], "..", down);
    assert Step(true, [a], "..") == [];
    ResolveFirst(true, [], c, [d]);
    assert Step(true, [], c) == [c];
    ResolveFirst(true, [c], d, []);
    assert Step(true, [c], d) == [c, d];
  }

  /** Resolving starts with one step for the first element. */
  lemma ResolveFirst(rooted: bool, stack: seq<string>, e: string, rest: seq<string>)
    ensures Resolve(rooted, stack, [e] + rest) == Resolve(rooted, Step(rooted, stack, e), rest)
  {
    assert ([e] + rest)[0] == e && ([e] + rest)[1..] == rest;
  }

  /** A read that gets through the guards replies with the header, then exactly the contents read. */
  lemma ReadReply(fs: FileSystem, repo: string, file: string, view: View, wd: Option<string>, read: Reader)
    requires ReadFileOn(fs, repo, file, view, wd, read).Ok?
    ensures var reply := ReadFileOn(fs, repo, file, view, wd, read).value;
      var header := "File: " + repo + "/" + file + "\n\n";
      && ReadGuards(fs, file, view, wd).Ok?
      && read(FullPath(fs, ReadGuards(fs, file, view, wd).value)).Ok?
      && |header| <= |reply| && reply[..|header|] == header
      && reply[|header|..] == read(FullPath(fs, ReadGuards(fs, file, view, wd).value)).value
  {
    var header := "File: " + repo + "/" + file + "\n\n";
    var data := read(FullPath(fs, ReadGuards(fs, file, view, wd).value)).value;
    assert FileReply(repo, file, data) == header + data;
  }

  /** A hidden or node_modules file right below the base exists and is regular, yet it is refused. */
  lemma HiddenFileIsDenied(fs: FileSystem, n: string, view: View, wd: Option<string>)
    requires AnchoredBase(BasePath(fs), wd) && IsName(n) && !HasPrefix(n, "..") && SkipName(n)
    requires FsStat(fs, n, view).Ok? && FsStat(fs, n, view).value.isRegular
    ensures ReadGuards(fs, n, view, wd) == Err(AccessDenied(n))
  {
    ValidatePathNames(BasePath(fs), [n], wd);
    assert JoinSegs([n]) == n;
    ShouldSkipName(n);
  }

  /**
   * Only the last element is judged: a plain file inside a hidden directory
   * (.git/config, say) passes every guard.
   */
  lemma HiddenDirectoryFileIsReadable(fs: FileSystem, d: string, n: string, view: View, wd: Option<string>)
    requires AnchoredBase(BasePath(fs), wd) && IsName(d) && !HasPrefix(d, "..") && IsName(n) && !SkipName(n)
    requires FsStat(fs, d + "/" + n, view).Ok? && FsStat(fs, d + "/" + n, view).value.isRegular
    ensures ReadGuards(fs, d + "/" + n, view, wd) == Ok(d + "/" + n)
  {
    ValidatePathNames(BasePath(fs), [d, n], wd);
    assert JoinSegs([d, n]) == d + "/" + n;
    ShouldSkipChild(d, n);
  }

  /** handleReadFile: the repository's file system, then the guarded read. */
  method HandleReadFile(srv: Server, repo: string, file: string, probeOk: bool, steps: ConnectSteps,
                        view: View, wd: Option<string>, read: Reader) returns (fs: Result<FileSystem, LookupError>, r: Result<string, ToolError>)
    requires srv.Valid()
    modifies srv.pool
    ensures srv.Valid()
    ensures repo !in srv.repos ==> fs == Err(UnknownRepository(repo)) && unchanged(srv.pool)
    ensures fs.Ok? ==> srv.Serves(repo, fs.value) && r == ReadFileOn(fs.value, repo, file, view, wd, read)
    ensures fs.Err? ==> r == Err(NoFileSystem(fs.error))
    ensures srv.LookedUp(repo, old(srv.pool.conns), probeOk, steps, fs.Err?)
    ensures repo in srv.repos && srv.repos[repo].kind != "ssh" ==> unchanged(srv.pool)
  {
    fs := srv.GetFileSystem(repo, probeOk, steps);
    if fs.Err? {
      return fs, Err(NoFileSystem(fs.error));
    }
    var guard := ReadGuards(fs.value, file, view, wd);
    if guard.Err? {
      return fs, Err(guard.error);
    }
    var content := read(FullPath(fs.value, guard.value));
    if content.Err? {
      return fs, Err(ReadFailed(content.error));
    }
    r := Ok(FileReply(repo, file, content.value));
  }

  // ---------------------------------------------------------------------
  // repo:// URIs

  const Scheme: string := "repo://"

  /** strings.SplitN(s, "/", 2): the text before the first "/", and what follows it, if there is one. */
  function SplitFirst(s: string): (string, Option<string>)
    decreases |s|
  {
    if s == [] then ([], None)
    else if s[0] == '/' then ([], Some(s[1..]))
    else
      var rest := SplitFirst(s[1..]);
      ([s[0]] + rest.0, rest.1)
  }

  /** The first part has no separator; with one it is the text up to the first "/", else the whole text. */
  lemma {:induction false} SplitFirstSpec(s: string)
    ensures var (head, tail) := SplitFirst(s);
      && '/' !in head
      && (tail.None? <==> '/' !in s)
      && (tail.None? ==> head == s)
      && (tail.Some? ==> s == head + "/" + tail.value)
    decreases |s|
  {
    if s != [] && s[0] != '/' {
      SplitFirstSpec(s[1..]);
      var rest := SplitFirst(s[1..]);
      assert s == [s[0]] + s[1..];
      if rest.1.Some? {
        assert s == [s[0]] + rest.0 + "/" + rest.1.value;
      }
    } else if s != [] {
      assert s == [] + "/" + s[1..];
    }
  }

  /** Splitting a name joined to a path gives both back. */
  lemma {:induction false} SplitFirstJoin(name: string, rest: string)
    requires '/' !in name
    ensures SplitFirst(name + "/" + rest) == (name, Some(rest))
    decreases |name|
  {
    if name == [] {
      assert name + "/" + rest == ['/'] + rest;
    } else {
      SplitFirstJoin(name[1..], rest);
      var s := name + "/" + rest;
      assert s[0] == name[0] && s[0] != '/';
      assert s[1..] == name[1..] + "/" + rest;
      assert [name[0]] + name[1..] == name;
    }
  }

  /** A text without a separator is left whole. */
  lemma {:induction false} SplitFirstWhole(name: string)
    requires '/' !in name
    ensures SplitFirst(name) == (name, None)
    decreases |name|
  {
    if name != [] {
      SplitFirstWhole(name[1..]);
      assert name == [name[0]] + name[1..];
    }
  }

  /**
   * The URI of the resource template split into the repository name and the
   * file path ("" when there is none); any other scheme is refused.
   */
  function SplitUri(uri: string): Result<(string, string), ToolError> {
    if !HasPrefix(uri, Scheme) then Err(InvalidScheme(uri))
    else
      var (name, file) := SplitFirst(uri[|Scheme|..]);
      Ok((name, if file.Some? then file.value else ""))
  }

  /** A repo:// URI built from a name without separators and a file path splits back into them. */
  lemma SplitUriRoundTrip(name: string, file: string)
    requires '/' !in name
    ensures SplitUri(Scheme + name + "/" + file) == Ok((name, file))
    ensures SplitUri(Scheme + name) == Ok((name, ""))
  {
    var u := Scheme + name + "/" + file;
    assert u[..|Scheme|] == Scheme && u[|Scheme|..] == name + "/" + file;
    SplitFirstJoin(name, file);
    var w := Scheme + name;
    assert w[..|Scheme|] == Scheme && w[|Scheme|..] == name;
    SplitFirstWhole(name);
  }

  /** What a URI splits into rebuilds it: the name has no separator, and the file follows the first "/". */
  lemma SplitUriParts(uri: string)
    requires SplitUri(uri).Ok?
    ensures var (name, file) := SplitUri(uri).value;
      && '/' !in name
      && (uri == Scheme + name + "/" + file || (uri == Scheme + name && file == ""))
  {
    var rest := uri[|Scheme|..];
    assert uri == uri[..|Scheme|] + rest;
    SplitFirstSpec(rest);
    var (name, tail) := SplitFirst(rest);
    assert SplitUri(uri).value == (name, if tail.Some? then tail.value else "");
    if tail.Some? {
      assert Scheme + rest == Scheme + name + "/" + tail.value;
    }
  }

  /** handleReadResourceTemplate once the file system is known: an empty file path is refused, then the guarded read. */
  function ResourceOn(fs: FileSystem, file: string, view: View, wd: Option<string>, read: Reader): Result<string, ToolError> {
    if file == "" then Err(NoFilePath)
    else
      match ReadGuards(fs, file, view, wd)
      case Err(e) => Err(e)
      case Ok(rel) =>
        match read(FullPath(fs, rel))
        case Err(e) => Err(ReadFailed(e))
        case Ok(data) => Ok(data)
  }

  /** The resource and the tool read the same files; the resource returns the bare contents. */
  lemma ResourceMatchesReadFile(fs: FileSystem, repo: string, file: string, view: View, wd: Option<string>, read: Reader)
    requires file != ""
    ensures ResourceOn(fs, file, view, wd, read).Ok? <==> ReadFileOn(fs, repo, file, view, wd, read).Ok?
    ensures ResourceOn(fs, file, view, wd, read).Ok? ==>
      ReadFileOn(fs, repo, file, view, wd, read).value == FileReply(repo, file, ResourceOn(fs, file, view, wd, read).value)
    ensures ResourceOn(fs, file, view, wd, read).Err? ==>
      ResourceOn(fs, file, view, wd, read) == ReadFileOn(fs, repo, file, view, wd, read)
  {
  }

  /**
   * handleReadResourceTemplate: the scheme, then the repository's file
   * system, so an unknown repository is reported before a missing file path.
   */
  method HandleReadResource(srv: Server, uri: string, probeOk: bool, steps: ConnectSteps,
                            view: View, wd: Option<string>, read: Reader)
    returns (fs: Option<Result<FileSystem, LookupError>>, r: Result<string, ToolError>)
    requires srv.Valid()
    modifies srv.pool
    ensures srv.Valid()
    ensures SplitUri(uri).Err? ==> fs == None && r == Err(SplitUri(uri).error) && unchanged(srv.pool)
    ensures SplitUri(uri).Ok? ==> var (name, file) := SplitUri(uri).value;
      && fs.Some?
      && (name !in srv.repos ==> fs.value == Err(UnknownRepository(name)) && unchanged(srv.pool))
      && (fs.value.Ok? ==> srv.Serves(name, fs.value.value) && r == ResourceOn(fs.value.value, file, view, wd, read))
      && (fs.value.Err? ==> r == Err(NoFileSystem(fs.value.error)))
      && srv.LookedUp(name, old(srv.pool.conns), probeOk, steps, fs.value.Err?)
      && (name in srv.repos && srv.repos[name].kind != "ssh" ==> unchanged(srv.pool))
  {
    var parts := SplitUri(uri);
    if parts.Err? {
      return None, Err(parts.error);
    }
    var (name, file) := parts.value;
    var got := srv.GetFileSystem(name, probeOk, steps);
    fs := Some(got);
    if got.Err? {
      return fs, Err(NoFileSystem(got.error));
    }
    if file == "" {
      return fs, Err(NoFilePath);
    }
    var guard := ReadGuards(got.value, file, view, wd);
    if guard.Err? {
      return fs, Err(guard.error);
    }
    var content := read(FullPath(got.value, guard.value));
    if content.Err? {
      return fs, Err(ReadFailed(content.error));
    }
    r := Ok(content.value);
  }
}
