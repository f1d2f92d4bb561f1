/**
 * The repository registry: the repositories map, published all or nothing
 * by loadConfig and reloadConfig, the lookup of a repository's file system,
 * and the list_repos projection.
 */
module Registry {
  import opened Wrappers
  import opened FilePath
  import opened Repository
  import opened Ssh
  import opened FileSystems
  import opened Tools

  /** The config file as read and decoded: unreadable, not valid JSON, or its "repositories" object. */
  datatype ConfigFile = Unreadable | Malformed | Decoded(repositories: map<string, RawValue>)

  datatype LoadError =
    | ConfigUnreadable                    // "failed to read config file ..."
    | ConfigMalformed                     // "failed to parse config file: ..."
    | BadRepository(cause: ConfigError)   // the error of ParseRepository

  /** The loop over the repositories, in `order`: the first entry that fails to parse aborts it. */
  function ParseAll(entries: map<string, RawValue>, order: seq<string>, home: Option<string>): Result<map<string, Repository>, ConfigError>
    requires forall k :: k in order ==> k in entries
    decreases |order|
  {
    if order == [] then Ok(map[])
    else
      var n := |order| - 1;
      assert forall k :: k in order[..n] ==> k in order;
      match ParseAll(entries, order[..n], home)
      case Err(e) => Err(e)
      case Ok(m) =>
        match ParseRepository(order[n], entries[order[n]], home)
        case Err(e) => Err(e)
        case Ok(r) => Ok(m[order[n] := r])
  }

  /** Every repository of the config parses. */
  predicate AllParse(entries: map<string, RawValue>, home: Option<string>) {
    forall k :: k in entries ==> ParseRepository(k, entries[k], home).Ok?
  }

  /** Entry `i` is the first, in order, that does not parse, and fails with `e`. */
  predicate FirstFailing(entries: map<string, RawValue>, order: seq<string>, home: Option<string>, i: int, e: ConfigError)
    requires 0 <= i < |order| && forall k :: k in order ==> k in entries
  {
    && ParseRepository(order[i], entries[order[i]], home) == Err(e)
    && forall j :: 0 <= j < i ==> ParseRepository(order[j], entries[order[j]], home).Ok?
  }

  /**
   * The loop succeeds iff every entry it visits parses, and then builds the
   * map of exactly those entries; otherwise its error is that of the first
   * entry, in order, that does not parse.
   */
  lemma ParseAllSpec(entries: map<string, RawValue>, order: seq<string>, home: Option<string>)
    requires forall k :: k in order ==> k in entries
    ensures ParseAll(entries, order, home).Ok? <==> forall k :: k in order ==> ParseRepository(k, entries[k], home).Ok?
    ensures ParseAll(entries, order, home).Ok? ==> var m := ParseAll(entries, order, home).value;
      && (forall k :: k in m <==> k in order)
      && (forall k :: k in m ==> ParseRepository(k, entries[k], home) == Ok(m[k]))
    ensures ParseAll(entries, order, home).Err? ==>
      exists i :: 0 <= i < |order| && FirstFailing(entries, order, home, i, ParseAll(entries, order, home).error)
  {
    ParseAllSucceeds(entries, order, home);
    ParseAllFails(entries, order, home);
  }

  /** The success half: every entry parses, and the map holds exactly their parsed repositories. */
  lemma {:induction false} ParseAllSucceeds(entries: map<string, RawValue>, order: seq<string>, home: Option<string>)
    requires forall k :: k in order ==> k in entries
    ensures ParseAll(entries, order, home).Ok? <==> forall k :: k in order ==> ParseRepository(k, entries[k], home).Ok?
    ensures ParseAll(entries, order, home).Ok? ==> var m := ParseAll(entries, order, home).value;
      && (forall k :: k in m <==> k in order)
      && (forall k :: k in m ==> ParseRepository(k, entries[k], home) == Ok(m[k]))
    decreases |order|
  {
    if order != [] {
      var n := |order| - 1;
      var init := order[..n];
      assert forall k :: k in order <==> k in init || k == order[n];
      ParseAllSucceeds(entries, init, home);
    }
  }

  /** The failure half: the error is that of the first entry, in order, that does not parse. */
  lemma {:induction false} ParseAllFails(entries: map<string, RawValue>, order: seq<string>, home: Option<string>)
    requires forall k :: k in order ==> k in entries
    ensures ParseAll(entries, order, home).Err? ==>
      exists i :: 0 <= i < |order| && FirstFailing(entries, order, home, i, ParseAll(entries, order, home).error)
    decreases |order|
  {
    if order != [] {
      var n := |order| - 1;
      var init := order[..n];
      assert forall k :: k in init ==> k in order;
      assert forall j :: 0 <= j < n ==> order[j] == init[j];
      ParseAllFails(entries, init, home);
      ParseAllSucceeds(entries, init, home);
      var pr := ParseAll(entries, init, home);
      var last := ParseRepository(order[n], entries[order[n]], home);
      if pr.Err? {
        assert ParseAll(entries, order, home) == Err(pr.error);
        var i :| 0 <= i < n && FirstFailing(entries, init, home, i, pr.error);
        assert FirstFailing(entries, order, home, i, pr.error);
      } else if last.Err? {
        assert ParseAll(entries, order, home) == Err(last.error);
        assert forall j :: 0 <= j < n ==> init[j] in init;
        assert FirstFailing(entries, order, home, n, last.error);
      }
    }
  }

  /** parse-and-swap: the loop of loadConfig and reloadConfig building newRepos. */
  method ParseRepositories(entries: map<string, RawValue>, order: seq<string>, home: Option<string>) returns (r: Result<map<string, Repository>, ConfigError>)
    requires IterationOrder(entries, order)
    ensures r == ParseAll(entries, order, home)
  {
    var newRepos: map<string, Repository> := map[];
    var i := 0;
    while i < |order|
      invariant 0 <= i <= |order|
      invariant ParseAll(entries, order[..i], home) == Ok(newRepos)
    {
      var name := order[i];
      assert order[..i + 1][..i] == order[..i];
      var repo := ParseRepository(name, entries[name], home);
      if repo.Err? {
        ParseAllStops(entries, order, i + 1, home);
        return Err(repo.error);
      }
      newRepos := newRepos[name := repo.value];
      i := i + 1;
    }
    assert order[..i] == order;
    return Ok(newRepos);
  }

  /** Once a prefix of the loop fails, the whole loop fails with the same error. */
  lemma {:induction false} ParseAllStops(entries: map<string, RawValue>, order: seq<string>, i: nat, home: Option<string>)
    requires forall k :: k in order ==> k in entries
    requires i <= |order|
    requires forall k :: k in order[..i] ==> k in entries
    requires ParseAll(entries, order[..i], home).Err?
    ensures ParseAll(entries, order, home) == ParseAll(entries, order[..i], home)
    decreases |order|
  {
    if i < |order| {
      var n := |order| - 1;
      assert order[..n][..i] == order[..i];
      ParseAllStops(entries, order[..n], i, home);
    } else {
      assert order[..i] == order;
    }
  }

  /** The registry a config describes: every repository, parsed. */
  function ParsedAll(entries: map<string, RawValue>, home: Option<string>): map<string, Repository>
    requires AllParse(entries, home)
  {
    map k | k in entries :: ParseRepository(k, entries[k], home).value
  }

  /**
   * Visiting every key once, the loop succeeds iff every repository parses,
   * and then returns the parsed registry, whatever the iteration order.
   */
  lemma ParseAllComplete(entries: map<string, RawValue>, order: seq<string>, home: Option<string>)
    requires IterationOrder(entries, order)
    ensures ParseAll(entries, order, home).Ok? <==> AllParse(entries, home)
    ensures ParseAll(entries, order, home).Ok? ==> ParseAll(entries, order, home).value == ParsedAll(entries, home)
  {
    ParseAllSpec(entries, order, home);
    if ParseAll(entries, order, home).Ok? {
      var m := ParseAll(entries, order, home).value;
      assert forall k :: k in m <==> k in entries;
      assert AllParse(entries, home);
      var p := ParsedAll(entries, home);
      assert m.Keys == p.Keys;
      assert forall k :: k in m ==> m[k] == p[k];
    }
  }

  /** The loop's outcome, success or failure and the registry built, does not depend on the iteration order. */
  lemma ParseAllOrderIndependent(entries: map<string, RawValue>, o1: seq<string>, o2: seq<string>, home: Option<string>)
    requires IterationOrder(entries, o1) && IterationOrder(entries, o2)
    ensures ParseAll(entries, o1, home).Ok? <==> ParseAll(entries, o2, home).Ok?
    ensures ParseAll(entries, o1, home).Ok? ==> ParseAll(entries, o1, home) == ParseAll(entries, o2, home)
  {
    ParseAllComplete(entries, o1, home);
    ParseAllComplete(entries, o2, home);
  }

  /** Read, decode and parse the config file. */
  function ReadConfig(file: ConfigFile, order: seq<string>, home: Option<string>): Result<map<string, Repository>, LoadError>
    requires file.Decoded? ==> IterationOrder(file.repositories, order)
  {
    match file
    case Unreadable => Err(ConfigUnreadable)
    case Malformed => Err(ConfigMalformed)
    case Decoded(entries) =>
      match ParseAll(entries, order, home)
      case Err(e) => Err(BadRepository(e))
      case Ok(m) => Ok(m)
  }

  /** A config yields a registry iff it was read and decoded and all its repositories parse; its keys are the config's. */
  lemma ReadConfigAllOrNothing(file: ConfigFile, order: seq<string>, home: Option<string>)
    requires file.Decoded? ==> IterationOrder(file.repositories, order)
    ensures ReadConfig(file, order, home).Ok? <==> file.Decoded? && AllParse(file.repositories, home)
    ensures ReadConfig(file, order, home).Ok? ==> ReadConfig(file, order, home).value == ParsedAll(file.repositories, home)
    ensures ReadConfig(file, order, home).Ok? ==> ReadConfig(file, order, home).value.Keys == file.repositories.Keys
    ensures ReadConfig(file, order, home).Err? && file.Decoded? ==>
      exists k :: k in file.repositories && ParseRepository(k, file.repositories[k], home) == Err(ReadConfig(file, order, home).error.cause)
  {
    if file.Decoded? {
      ParseAllSpec(file.repositories, order, home);
      ParseAllComplete(file.repositories, order, home);
    }
  }

  /**
   * The config path loadConfig reads and keeps: filepath.Abs of the path it
   * found, or that path itself when Abs fails.
   */
  function StoredConfigPath(configPath: string, wd: Option<string>): string {
    match Abs(configPath, wd)
    case Ok(a) => a
    case Err(_) => configPath
  }

  /**
   * The kept path is absolute and clean when the path found is absolute or
   * the working directory is known and absolute; when neither holds it is the
   * path found.
   */
  lemma StoredConfigPathIsAbsolute(configPath: string, wd: Option<string>)
    ensures IsAbs(configPath) || (wd.Some? && IsAbs(wd.value)) ==>
      var p := StoredConfigPath(configPath, wd); IsAbs(p) && Clean(p) == p
    ensures !IsAbs(configPath) && wd.None? ==> StoredConfigPath(configPath, wd) == configPath
  {
    if IsAbs(configPath) {
      CleanIsAbs(configPath);
      CleanIdempotent(configPath);
    } else if wd.Some? && IsAbs(wd.value) {
      var q := wd.value + "/" + configPath;
      assert IsAbs(q);
      CleanIsAbs(q);
      CleanIdempotent(q);
    }
  }

  /** One entry of the list_repos result. */
  datatype RepoSummary = RepoSummary(name: string, kind: string, path: string, host: Option<string>, user: Option<string>)

  class Server {
    /** The registry: repository name to repository. */
    var repos: map<string, Repository>
    /** The config file the registry was last loaded from. */
    var configFilePath: string
    /** The shared ssh connection pool. */
    const pool: SshPool

    ghost predicate Valid()
      reads this, pool, pool.Objects()
    {
      pool.Valid()
    }

    constructor ()
      ensures repos == map[] && configFilePath == "" && fresh(pool) && pool.conns == map[]
      ensures Valid()
    {
      repos := map[];
      configFilePath := "";
      pool := new SshPool();
    }

    /**
     * loadConfig, from the read of the file on: the registry and the config
     * path are replaced together on success, and nothing changes on failure.
     */
    method Load(configPath: string, wd: Option<string>, file: ConfigFile, order: seq<string>, home: Option<string>) returns (r: Outcome<LoadError>)
      requires file.Decoded? ==> IterationOrder(file.repositories, order)
      modifies this
      ensures r.Pass? <==> ReadConfig(file, order, home).Ok?
      ensures r.Pass? ==> repos == ReadConfig(file, order, home).value && configFilePath == StoredConfigPath(configPath, wd)
      ensures r.Fail? ==> r.error == ReadConfig(file, order, home).error && repos == old(repos) && configFilePath == old(configFilePath)
    {
      var parsed := Parse(file, order, home);
      if parsed.Err? {
        return Fail(parsed.error);
      }
      repos := parsed.value;
      configFilePath := StoredConfigPath(configPath, wd);
      r := Pass;
    }

    /** reloadConfig: the same, from the file at the config path, which stays as it is. */
    method Reload(file: ConfigFile, order: seq<string>, home: Option<string>) returns (r: Outcome<LoadError>)
      requires file.Decoded? ==> IterationOrder(file.repositories, order)
      modifies this
      ensures configFilePath == old(configFilePath)
      ensures r.Pass? <==> ReadConfig(file, order, home).Ok?
      ensures r.Pass? ==> repos == ReadConfig(file, order, home).value
      ensures r.Fail? ==> r.error == ReadConfig(file, order, home).error && repos == old(repos)
    {
      var parsed := Parse(file, order, home);
      if parsed.Err? {
        return Fail(parsed.error);
      }
      repos := parsed.value;
      r := Pass;
    }

    /** The steps before the swap, shared by Load and Reload. */
    static method Parse(file: ConfigFile, order: seq<string>, home: Option<string>) returns (r: Result<map<string, Repository>, LoadError>)
      requires file.Decoded? ==> IterationOrder(file.repositories, order)
      ensures r == ReadConfig(file, order, home)
    {
      match file
      case Unreadable => return Err(ConfigUnreadable);
      case Malformed => return Err(ConfigMalformed);
      case Decoded(entries) =>
        var p := ParseRepositories(entries, order, home);
        if p.Err? {
          return Err(BadRepository(p.error));
        }
        return Ok(p.value);
    }

    /**
     * getFileSystem: an unknown name is reported without touching the pool;
     * a known one is dispatched on its type.
     */
    method GetFileSystem(name: string, probeOk: bool, steps: ConnectSteps) returns (r: Result<FileSystem, LookupError>)
      requires Valid()
      modifies pool
      ensures Valid()
      ensures name !in repos ==> r == Err(UnknownRepository(name)) && unchanged(pool)
      ensures name in repos ==> var repo := repos[name];
        && (repo.kind == "local" || repo.kind == "" ==> r == Ok(LocalFS(repo.path)) && unchanged(pool))
        && (repo.kind !in {"local", "", "ssh"} ==> r == Err(Dispatch(UnknownType(repo.kind))) && unchanged(pool))
        && (repo.kind == "ssh" ==> var key := ConnectionKey(repo);
              && (r.Ok? ==> key in pool.conns && r.value == Remote(RemoteFS(pool.conns[key], repo.path, repo)))
              && (r.Err? ==> r.error.Dispatch? && r.error.cause.ConnectFailed? && key !in pool.conns)
              && SshLookup(old(pool.conns), pool.conns, repo, probeOk, steps, r.Err?))
      ensures r.Ok? ==> Serves(name, r.value)
    {
      if name !in repos {
        return Err(UnknownRepository(name));
      }
      var fs := FileSystems.GetFileSystem(repos[name], pool, probeOk, steps);
      if fs.Err? {
        return Err(Dispatch(fs.error));
      }
      return Ok(fs.value);
    }

    /**
     * What getFileSystem for `name` did to the pool's connections, which were
     * `before`: for an ssh repository, SshLookup with `failed` telling whether
     * the lookup failed. Any other repository leaves the pool unchanged, which
     * the handlers state with `unchanged`.
     */
    ghost predicate LookedUp(name: string, before: map<string, Connection>, probeOk: bool, steps: ConnectSteps, failed: bool)
      reads this, pool
    {
      name in repos && repos[name].kind == "ssh" ==> SshLookup(before, pool.conns, repos[name], probeOk, steps, failed)
    }

    /**
     * `fs` is what getFileSystem gives for `name` in the present state: the
     * local directory of a local repository, or the remote root of an ssh
     * one over its pooled connection.
     */
    predicate Serves(name: string, fs: FileSystem)
      reads this, pool
    {
      && name in repos
      && var repo := repos[name];
      && var key := ConnectionKey(repo);
      || ((repo.kind == "local" || repo.kind == "") && fs == LocalFS(repo.path))
      || (repo.kind == "ssh" && key in pool.conns && fs == Remote(RemoteFS(pool.conns[key], repo.path, repo)))
    }

    /** handleListRepos: one summary per repository, in iteration order, and their number. */
    method ListRepos(order: seq<string>) returns (list: seq<RepoSummary>, count: nat)
      requires IterationOrder(repos, order)
      ensures count == |repos| == |list| == |order|
      ensures forall i :: 0 <= i < |list| ==> list[i].name == order[i]
      ensures forall s :: s in list ==> Summarises(repos, s)
      ensures forall n :: n in repos ==> exists i :: 0 <= i < |list| && list[i].name == n
    {
      list := [];
      var i := 0;
      while i < |order|
        invariant 0 <= i <= |order|
        invariant |list| == i
        invariant forall j :: 0 <= j < i ==> list[j].name == order[j]
        invariant forall s :: s in list ==> Summarises(repos, s)
      {
        var name := order[i];
        var repo := repos[name];
        var info := RepoSummary(name, repo.kind, repo.path, None, None);
        if repo.kind == "ssh" {
          info := info.(host := Some(repo.host), user := Some(repo.user));
        }
        list := list + [info];
        i := i + 1;
      }
      forall n | n in repos
        ensures exists i :: 0 <= i < |list| && list[i].name == n
      {
        var i :| 0 <= i < |order| && order[i] == n;
        assert list[i].name == n;
      }
      IterationOrderLength(repos, order);
      count := |repos|;
    }
  }

  /**
   * `s` describes the repository it names: its type and path, and its host
   * and user exactly when it is an ssh repository.
   */
  predicate Summarises(repos: map<string, Repository>, s: RepoSummary) {
    && s.name in repos
    && s.kind == repos[s.name].kind
    && s.path == repos[s.name].path
    && (s.host.Some? <==> repos[s.name].kind == "ssh")
    && (s.user.Some? <==> repos[s.name].kind == "ssh")
    && (repos[s.name].kind == "ssh" ==> s.host == Some(repos[s.name].host) && s.user == Some(repos[s.name].user))
  }
}
