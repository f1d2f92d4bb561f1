/**
 * Repository descriptors: parsing one entry of the configuration's
 * "repositories" object into a Repository record (defaults, "~" expansion,
 * ssh field validation), and the lexical containment check ValidatePath.
 */
module Repository {
  import opened Wrappers
  import opened FilePath

  /** A configured repository; fields the entry leaves out hold Go's zero values. */
  datatype Repository = Repository(
    kind: string,     // "local" or "ssh" (json "type")
    path: string,     // local root, or root on the remote host
    host: string,
    port: int,
    user: string,
    keyFile: string)  // json "key"

  /**
   * One entry of "repositories" after JSON decoding: a string, null (which
   * Go decodes into a string without error), an object whose fields decoded
   * into a Repository, or anything that decodes as neither.
   */
  datatype RawValue =
    | JsonString(s: string)
    | JsonNull
    | JsonObject(fields: Repository)
    | JsonOther

  datatype ConfigError =
    | ParseFailed(name: string)                   // "failed to parse repository <name>"
    | MissingField(name: string, field: string)   // "repository <name>: SSH repo requires '<field>'"

  const DefaultKeyFile: string := "~/.ssh/id_rsa"
  const DefaultSshPort: int := 22

  /**
   * Replace a leading "~" of a key path by the home directory
   * (`home` is what os.UserHomeDir returns; None: it failed, the key is kept).
   */
  function ExpandTilde(key: string, home: Option<string>): string {
    if key != "" && HasPrefix(key, "~") && home.Some? then Join(home.value, key[1..])
    else key
  }

  /** The defaults applied to a decoded object, in the order the code applies them. */
  function WithDefaults(o: Repository, home: Option<string>): Repository {
    var r1 := if o.kind == "" then o.(kind := "local") else o;
    var r2 := if r1.kind == "ssh" && r1.port == 0 then r1.(port := DefaultSshPort) else r1;
    var r3 := if r2.kind == "ssh" && r2.keyFile == "" then r2.(keyFile := DefaultKeyFile) else r2;
    r3.(keyFile := ExpandTilde(r3.keyFile, home))
  }

  /** An ssh repository needs a host, then a user, then a path; others are never rejected. */
  function CheckSsh(name: string, r: Repository): Result<Repository, ConfigError> {
    if r.kind != "ssh" then Ok(r)
    else if r.host == "" then Err(MissingField(name, "host"))
    else if r.user == "" then Err(MissingField(name, "user"))
    else if r.path == "" then Err(MissingField(name, "path"))
    else Ok(r)
  }

  /** ParseRepository. */
  function ParseRepository(name: string, raw: RawValue, home: Option<string>): Result<Repository, ConfigError> {
    match raw
    case JsonString(s) => Ok(Repository("local", s, "", 0, "", ""))
    case JsonNull => Ok(Repository("local", "", "", 0, "", ""))
    case JsonOther => Err(ParseFailed(name))
    case JsonObject(o) => CheckSsh(name, WithDefaults(o, home))
  }

  /**
   * ValidatePath: the requested path joined onto the absolute base, made
   * relative to the base again; a result starting with ".." is rejected.
   * `wd` is what os.Getwd returns, used by Abs for a relative base.
   */
  function ValidatePath(basePath: string, requested: string, wd: Option<string>): Result<string, PathError> {
    match Abs(basePath, wd)
    case Err(e) => Err(e)
    case Ok(absBase) =>
      var target := Join(absBase, requested);
      match Abs(target, wd)
      case Err(e) => Err(e)
      case Ok(absTarget) =>
        match Rel(absBase, absTarget)
        case Err(_) => Err(Traversal(requested))
        case Ok(rel) => if HasPrefix(rel, "..") then Err(Traversal(requested)) else Ok(rel)
  }

  // ---------------------------------------------------------------------
  // ParseRepository

  /** A bare string is a local repository at that path, every other field zero. */
  lemma ParseStringIsLocal(name: string, s: string, home: Option<string>)
    ensures ParseRepository(name, JsonString(s), home) == Ok(Repository("local", s, "", 0, "", ""))
  {
  }

  /** The defaults and the "~" expansion of an object entry, field by field. */
  lemma ParseObjectDefaults(name: string, o: Repository, home: Option<string>)
    requires ParseRepository(name, JsonObject(o), home).Ok?
    ensures var r := ParseRepository(name, JsonObject(o), home).value;
      && r.kind == (if o.kind == "" then "local" else o.kind)
      && r.path == o.path && r.host == o.host && r.user == o.user
      && r.port == (if o.kind == "ssh" && o.port == 0 then 22 else o.port)
      && r.keyFile == ExpandTilde(if o.kind == "ssh" && o.keyFile == "" then "~/.ssh/id_rsa" else o.keyFile, home)
  {
  }

  /** The ssh checks, in the order host, user, path, each naming the repository. */
  lemma ParseSshErrors(name: string, o: Repository, home: Option<string>)
    requires o.kind == "ssh"
    ensures var p := ParseRepository(name, JsonObject(o), home);
      && (p == Err(MissingField(name, "host")) <==> o.host == "")
      && (p == Err(MissingField(name, "user")) <==> o.host != "" && o.user == "")
      && (p == Err(MissingField(name, "path")) <==> o.host != "" && o.user != "" && o.path == "")
      && (p.Ok? <==> o.host != "" && o.user != "" && o.path != "")
  {
  }

  /** An object entry of any other type is never rejected by validation. */
  lemma ParseNonSshAccepted(name: string, o: Repository, home: Option<string>)
    requires o.kind != "ssh"
    ensures ParseRepository(name, JsonObject(o), home).Ok?
  {
  }

  /** Every error names the repository it came from. */
  lemma ParseErrorNamesRepository(name: string, raw: RawValue, home: Option<string>)
    requires ParseRepository(name, raw, home).Err?
    ensures ParseRepository(name, raw, home).error.name == name
  {
  }

  /**
   * An accepted ssh repository has a host, a user, a path, a non-zero port and
   * a key file (the home directory, when found, is never empty).
   */
  lemma ParsedSshIsComplete(name: string, raw: RawValue, home: Option<string>)
    requires home.Some? ==> home.value != ""
    requires ParseRepository(name, raw, home).Ok?
    ensures var r := ParseRepository(name, raw, home).value;
      r.kind != "" && (r.kind == "ssh" ==> r.host != "" && r.user != "" && r.path != "" && r.port != 0 && r.keyFile != "")
  {
    if raw.JsonObject? {
      var o := raw.fields;
      var r1 := if o.kind == "" then o.(kind := "local") else o;
      var r2 := if r1.kind == "ssh" && r1.port == 0 then r1.(port := DefaultSshPort) else r1;
      var r3 := if r2.kind == "ssh" && r2.keyFile == "" then r2.(keyFile := DefaultKeyFile) else r2;
      if r3.keyFile != "" && HasPrefix(r3.keyFile, "~") && home.Some? {
        CleanNonEmpty(home.value + "/" + r3.keyFile[1..]);
      }
    }
  }

  /** With an absolute home directory, an expanded key path is absolute and clean. */
  lemma ExpandedKeyIsAbsolute(key: string, home: string)
    requires HasPrefix(key, "~") && IsAbs(home)
    ensures var k := ExpandTilde(key, Some(home)); IsAbs(k) && Clean(k) == k
  {
    var s := home + "/" + key[1..];
    assert IsAbs(s);
    CleanIsAbs(s);
    CleanIdempotent(s);
  }

  /** The default key ~/.ssh/id_rsa lands in .ssh/id_rsa under the home directory. */
  lemma DefaultKeyUnderHome(home: string)
    requires IsAbs(home)
    ensures ExpandTilde(DefaultKeyFile, Some(home)) == Format(true, CleanSegs(home) + [".ssh", "id_rsa"])
  {
    var ns := [".ssh", "id_rsa"];
    DefaultKeyElements();
    CleanSegsJoin(home, DefaultKeyFile[1..]);
    assert Resolve(true, CleanSegs(home), [""] + ns) == Resolve(true, CleanSegs(home), ns) by {
      assert ([""] + ns)[0] == "" && ([""] + ns)[1..] == ns;
    }
    ResolveNames(true, CleanSegs(home), ns);
    assert IsAbs(home + "/" + DefaultKeyFile[1..]);
  }

  /** What follows the "~" of the default key: a separator, then .ssh and id_rsa. */
  lemma DefaultKeyElements()
    ensures Split(DefaultKeyFile[1..]) == [""] + [".ssh", "id_rsa"]
  {
    assert DefaultKeyFile == "~/" + ".ssh" + "/" + "id_rsa";
    assert ".ssh" == ['.', 's', 's', 'h'] && "id_rsa" == ['i', 'd', '_', 'r', 's', 'a'];
    TildeNames(".ssh", "id_rsa");
  }

  /** After "~", a key "~/a/b" splits into an empty element, then a and b. */
  lemma TildeNames(a: string, b: string)
    requires IsName(a) && IsName(b)
    ensures Split(("~/" + a + "/" + b)[1..]) == [""] + [a, b]
  {
    var ns := [a, b];
    var k := "~/" + a + "/" + b;
    assert JoinSegs(ns) == a + "/" + b;
    SplitJoin(ns);
    assert k[1..] == ['/'] + (a + "/" + b);
    SplitCons('/', a + "/" + b);
  }

  // ---------------------------------------------------------------------
  // ValidatePath

  /** The cleaned segments of the target: the requested elements resolved onto the base's. */
  function TargetSegs(basePath: string, requested: string): seq<string> {
    Resolve(true, CleanSegs(basePath), Split(requested))
  }

  /** Facts about the absolute base and the target that ValidatePath builds. */
  lemma ValidateTarget(basePath: string, requested: string)
    requires IsAbs(basePath)
    ensures var a := Clean(basePath); var t := Join(a, requested);
      && IsAbs(a) && CleanSegs(a) == CleanSegs(basePath) && Clean(a) == a
      && IsAbs(t) && CleanSegs(t) == TargetSegs(basePath, requested) && Clean(t) == t
      && t == Format(true, TargetSegs(basePath, requested))
      && Canonical(true, CleanSegs(basePath)) && Canonical(true, TargetSegs(basePath, requested))
  {
    var a := Clean(basePath);
    CleanIsAbs(basePath);
    CleanIdempotent(basePath);
    CleanSegsCanonical(basePath);
    assert a != "";
    CleanSegsJoin(a, requested);
    var s := a + "/" + requested;
    CleanIsAbs(s);
    CleanIdempotent(s);
    CleanSegsCanonical(s);
  }

  /**
   * What ValidatePath accepts, for an absolute base: exactly the requests whose
   * cleaned target lies under the base and whose first segment below it does
   * not begin with ".." (a string-prefix test, so "..foo" is refused too); the
   * result is then the target's segments below the base, "." for the base itself.
   */
  lemma ValidatePathSpec(basePath: string, requested: string, wd: Option<string>)
    requires IsAbs(basePath)
    ensures var b := CleanSegs(basePath); var t := TargetSegs(basePath, requested);
      var v := ValidatePath(basePath, requested, wd);
      && (v.Ok? <==> (|b| <= |t| && t[..|b|] == b && (|t| == |b| || !HasPrefix(t[|b|], ".."))))
      && (v.Ok? ==> v.value == Format(false, t[|b|..]))
      && (v.Err? ==> v.error == Traversal(requested))
  {
    var b := CleanSegs(basePath);
    var t := TargetSegs(basePath, requested);
    ValidateTarget(basePath, requested);
    var a := Clean(basePath);
    var target := Join(a, requested);
    assert Abs(basePath, wd) == Ok(a);
    assert Abs(target, wd) == Ok(target);
    assert a == Format(true, b);
    if t == b {
      assert Rel(a, target) == Ok(".");
      assert t[|b|..] == [];
    } else {
      assert t[..|t|] == t;
      if target == a {
        FormatInjective(true, t, true, b);
      }
      assert target != ".";
      var k := CommonPrefix(b, t);
      assert Rel(a, target) == Ok(JoinSegs(Ups(|b| - k) + t[k..]));
      var segs := Ups(|b| - k) + t[k..];
      if k < |b| {
        assert |b| <= |t| ==> t[..|b|][k] == t[k];
        assert segs[0] == "..";
        JoinSegsDotDotPrefix(segs);
      } else {
        assert t[..|b|] == b;
        assert segs == t[|b|..];
        JoinSegsDotDotPrefix(segs);
      }
    }
  }

  /** An accepted result is relative, never begins with "..", and none of its segments is "..". */
  lemma ValidatePathNeverEscapes(basePath: string, requested: string, wd: Option<string>)
    requires IsAbs(basePath)
    requires ValidatePath(basePath, requested, wd).Ok?
    ensures var r := ValidatePath(basePath, requested, wd).value;
      !IsAbs(r) && !HasPrefix(r, "..") && forall i :: 0 <= i < |CleanSegs(r)| ==> IsName(CleanSegs(r)[i])
  {
    ValidatePathSpec(basePath, requested, wd);
    ValidateTarget(basePath, requested);
    var b := CleanSegs(basePath);
    var t := TargetSegs(basePath, requested);
    var below := t[|b|..];
    assert Canonical(false, below) by {
      forall i | 0 <= i < |below| ensures IsName(below[i]) {
        assert below[i] == t[|b| + i];
      }
    }
    FormatParse(false, below);
  }

  /**
   * An accepted result is clean and joined onto the absolute base names the
   * same location as the request did.
   */
  lemma ValidatePathRoundTrip(basePath: string, requested: string, wd: Option<string>)
    requires IsAbs(basePath)
    requires ValidatePath(basePath, requested, wd).Ok?
    ensures var r := ValidatePath(basePath, requested, wd).value;
      && Clean(r) == r
      && Join(Clean(basePath), r) == Join(Clean(basePath), requested)
      && Join(Clean(basePath), r) == Clean(Join(Clean(basePath), requested))
  {
    ValidatePathSpec(basePath, requested, wd);
    ValidateTarget(basePath, requested);
    var r := ValidatePath(basePath, requested, wd).value;
    var a := Clean(basePath);
    var b := CleanSegs(basePath);
    var t := TargetSegs(basePath, requested);
    var below := t[|b|..];
    assert forall i :: 0 <= i < |below| ==> IsName(below[i]) by {
      forall i | 0 <= i < |below| ensures IsName(below[i]) {
        assert below[i] == t[|b| + i];
      }
    }
    assert Canonical(false, below);
    FormatParse(false, below);
    CleanSegsJoin(a, r);
    if below == [] {
      SplitNoSeparator(".");
      assert t == b;
    } else {
      SplitJoin(below);
      ResolveNames(true, b, below);
      assert b + below == t;
    }
    assert CleanSegs(a + "/" + r) == t;
    assert IsAbs(a + "/" + r);
  }

  /**
   * The directory a tool opens for an accepted request, the base joined with
   * the result, is the cleaned target of the request, at or below the base.
   */
  lemma ValidatePathTarget(basePath: string, requested: string, wd: Option<string>)
    requires IsAbs(basePath)
    requires ValidatePath(basePath, requested, wd).Ok?
    ensures var target := Join(basePath, ValidatePath(basePath, requested, wd).value);
      var b := CleanSegs(basePath);
      && target == Join(Clean(basePath), requested)
      && IsAbs(target) && Clean(target) == target
      && CleanSegs(target) == TargetSegs(basePath, requested)
      && |b| <= |CleanSegs(target)| && CleanSegs(target)[..|b|] == b
  {
    var r := ValidatePath(basePath, requested, wd).value;
    ValidatePathSpec(basePath, requested, wd);
    ValidateTarget(basePath, requested);
    ValidatePathRoundTrip(basePath, requested, wd);
    CleanIsAbs(basePath);
    CleanSegsJoin(basePath, r);
    CleanSegsJoin(Clean(basePath), r);
    assert IsAbs(basePath + "/" + r) && IsAbs(Clean(basePath) + "/" + r);
  }

  /** An absolute request is placed under the base, not substituted for it. */
  lemma ValidatePathAbsoluteRequest(basePath: string, x: string, wd: Option<string>)
    requires IsAbs(basePath)
    ensures ValidatePath(basePath, "/" + x, wd).Ok? == ValidatePath(basePath, x, wd).Ok?
    ensures ValidatePath(basePath, "/" + x, wd).Ok? ==>
      ValidatePath(basePath, "/" + x, wd).value == ValidatePath(basePath, x, wd).value
  {
    SplitConcat("", x);
    assert "" + "/" + x == "/" + x;
    assert Split("/" + x) == [""] + Split(x);
    assert TargetSegs(basePath, "/" + x) == TargetSegs(basePath, x);
    ValidatePathSpec(basePath, "/" + x, wd);
    ValidatePathSpec(basePath, x, wd);
  }

  /** "." and "" name the base itself. */
  lemma ValidatePathDot(basePath: string, wd: Option<string>)
    requires IsAbs(basePath)
    ensures ValidatePath(basePath, ".", wd) == Ok(".")
    ensures ValidatePath(basePath, "", wd) == Ok(".")
  {
    var b := CleanSegs(basePath);
    SplitNoSeparator(".");
    assert ["."][1..] == [] && [""][1..] == [];
    assert Resolve(true, b, ["."]) == Resolve(true, b, []);
    assert Split("") == [""];
    assert Resolve(true, b, [""]) == Resolve(true, b, []);
    assert TargetSegs(basePath, ".") == b;
    assert TargetSegs(basePath, "") == b;
    ValidatePathSpec(basePath, ".", wd);
    ValidatePathSpec(basePath, "", wd);
  }

  /** A single name that merely begins with ".." ("..foo", "...") is refused. */
  lemma ValidatePathDotDotName(basePath: string, n: string, wd: Option<string>)
    requires IsAbs(basePath) && IsName(n) && HasPrefix(n, "..")
    ensures ValidatePath(basePath, n, wd) == Err(Traversal(n))
  {
    SplitNoSeparator(n);
    var b := CleanSegs(basePath);
    ResolveNames(true, b, [n]);
    assert TargetSegs(basePath, n) == b + [n];
    assert (b + [n])[..|b|] == b;
    ValidatePathSpec(basePath, n, wd);
  }

  /** A relative base is resolved against the working directory first. */
  lemma ValidatePathRelativeBase(basePath: string, requested: string, w: string)
    requires !IsAbs(basePath) && IsAbs(w)
    ensures ValidatePath(basePath, requested, Some(w)) == ValidatePath(Join(w, basePath), requested, Some(w))
  {
    var a := Join(w, basePath);
    assert a == Clean(w + "/" + basePath);
    assert IsAbs(w + "/" + basePath);
    CleanIsAbs(w + "/" + basePath);
    CleanIdempotent(w + "/" + basePath);
    assert Abs(a, Some(w)) == Ok(a);
  }

  /**
   * The base can be resolved to an absolute path: it is absolute, or the
   * working directory is known and absolute, as os.Getwd returns it.
   */
  predicate AnchoredBase(basePath: string, wd: Option<string>) {
    IsAbs(basePath) || (wd.Some? && IsAbs(wd.value))
  }

  /**
   * For an anchored base: an accepted result is a clean relative
   * path of names, "." for the base itself, and the base as written joined
   * with it has the base's segments followed by those names.
   */
  lemma ValidatePathBelow(basePath: string, requested: string, wd: Option<string>)
    requires AnchoredBase(basePath, wd)
    requires ValidatePath(basePath, requested, wd).Ok?
    ensures var r := ValidatePath(basePath, requested, wd).value; var t := Join(basePath, r);
      && Clean(r) == r && !IsAbs(r) && !HasPrefix(r, "..")
      && (forall i :: 0 <= i < |CleanSegs(r)| ==> IsName(CleanSegs(r)[i]))
      && CleanSegs(t) == CleanSegs(basePath) + CleanSegs(r)
      && IsAbs(t) == IsAbs(basePath) && Clean(t) == t
  {
    var a := if IsAbs(basePath) then basePath else Join(wd.value, basePath);
    if !IsAbs(basePath) {
      ValidatePathRelativeBase(basePath, requested, wd.value);
      assert IsAbs(wd.value + "/" + basePath);
      CleanIsAbs(wd.value + "/" + basePath);
    }
    assert IsAbs(a) && ValidatePath(a, requested, wd) == ValidatePath(basePath, requested, wd);
    var r := ValidatePath(basePath, requested, wd).value;
    ValidatePathNeverEscapes(a, requested, wd);
    ValidatePathRoundTrip(a, requested, wd);
    JoinNames(basePath, r);
  }

  /** A path made of names, absolute or not, is accepted as the names below the base. */
  lemma ValidatePathNames(basePath: string, ns: seq<string>, wd: Option<string>)
    requires AnchoredBase(basePath, wd) && |ns| >= 1 && !HasPrefix(ns[0], "..")
    requires forall i :: 0 <= i < |ns| ==> IsName(ns[i])
    ensures ValidatePath(basePath, JoinSegs(ns), wd) == Ok(JoinSegs(ns))
    ensures ValidatePath(basePath, "/" + JoinSegs(ns), wd) == Ok(JoinSegs(ns))
  {
    if IsAbs(basePath) {
      AbsoluteBaseAcceptsNames(basePath, ns, wd);
    } else {
      var w := wd.value;
      assert IsAbs(w + "/" + basePath);
      CleanIsAbs(w + "/" + basePath);
      ValidatePathRelativeBase(basePath, JoinSegs(ns), w);
      ValidatePathRelativeBase(basePath, "/" + JoinSegs(ns), w);
      AbsoluteBaseAcceptsNames(Join(w, basePath), ns, wd);
    }
  }

  /** The same, for a base that is already absolute. */
  lemma AbsoluteBaseAcceptsNames(basePath: string, ns: seq<string>, wd: Option<string>)
    requires IsAbs(basePath) && |ns| >= 1 && !HasPrefix(ns[0], "..")
    requires forall i :: 0 <= i < |ns| ==> IsName(ns[i])
    ensures ValidatePath(basePath, JoinSegs(ns), wd) == Ok(JoinSegs(ns))
    ensures ValidatePath(basePath, "/" + JoinSegs(ns), wd) == Ok(JoinSegs(ns))
  {
    var b := CleanSegs(basePath);
    SplitJoin(ns);
    ResolveNames(true, b, ns);
    assert (b + ns)[..|b|] == b && (b + ns)[|b|..] == ns;
    ValidatePathSpec(basePath, JoinSegs(ns), wd);
    ValidatePathAbsoluteRequest(basePath, JoinSegs(ns), wd);
  }

  /**
   * A request "n/../../rest" climbs one level above the base; unless `rest`
   * re-enters the base's own last directory, it is refused.
   */
  lemma ValidatePathEscape(basePath: string, n: string, ns: seq<string>, wd: Option<string>)
    requires IsAbs(basePath) && |CleanSegs(basePath)| >= 1 && IsName(n)
    requires forall i :: 0 <= i < |ns| ==> IsName(ns[i])
    requires ns == [] || ns[0] != CleanSegs(basePath)[|CleanSegs(basePath)| - 1]
    ensures var req := JoinSegs([n, "..", ".."] + ns);
      ValidatePath(basePath, req, wd) == Err(Traversal(req))
  {
    var b := CleanSegs(basePath);
    var req := JoinSegs([n, "..", ".."] + ns);
    var t := b[..|b| - 1] + ns;
    EscapeTarget(basePath, n, ns);
    LeavesBase(b, ns);
    ValidatePathSpec(basePath, req, wd);
  }

  /** Replacing the last directory of the base by anything else leaves the base. */
  lemma LeavesBase(b: seq<string>, ns: seq<string>)
    requires |b| >= 1 && (ns == [] || ns[0] != b[|b| - 1])
    ensures var t := b[..|b| - 1] + ns; !(|b| <= |t| && t[..|b|] == b)
  {
    var t := b[..|b| - 1] + ns;
    if |b| <= |t| {
      assert t[|b| - 1] == ns[0];
      assert t[..|b|][|b| - 1] != b[|b| - 1];
    }
  }

  /** The target of "n/../../rest" is the base without its last directory, then rest. */
  lemma EscapeTarget(basePath: string, n: string, ns: seq<string>)
    requires IsAbs(basePath) && |CleanSegs(basePath)| >= 1 && IsName(n)
    requires forall i :: 0 <= i < |ns| ==> IsName(ns[i])
    ensures var b := CleanSegs(basePath);
      TargetSegs(basePath, JoinSegs([n, "..", ".."] + ns)) == b[..|b| - 1] + ns
  {
    var b := CleanSegs(basePath);
    var climb := [n, "..", ".."];
    var segs := climb + ns;
    ClimbHasNoSeparator(n);
    NoSeparatorsConcat(climb, ns);
    SplitJoin(segs);
    assert TargetSegs(basePath, JoinSegs(segs)) == Resolve(true, b, segs);
    CleanSegsCanonical(basePath);
    assert b[|b| - 1] != "..";
    ClimbAboveBase(b, n);
    ResolveConcat(true, b, climb, ns);
    ResolveNames(true, b[..|b| - 1], ns);
  }

  lemma ClimbHasNoSeparator(n: string)
    requires '/' !in n
    ensures forall i :: 0 <= i < 3 ==> '/' !in [n, "..", ".."][i]
  {
    assert ".." == ['.', '.'];
  }

  lemma NoSeparatorsConcat(a: seq<string>, b: seq<string>)
    requires forall i :: 0 <= i < |a| ==> '/' !in a[i]
    requires forall i :: 0 <= i < |b| ==> IsName(b[i])
    ensures forall i :: 0 <= i < |a + b| ==> '/' !in (a + b)[i]
  {
    forall i | 0 <= i < |a + b| ensures '/' !in (a + b)[i] {
      if i >= |a| {
        assert (a + b)[i] == b[i - |a|];
      }
    }
  }

  /** Resolving "n/../.." onto a non-empty stack of names drops its last name. */
  lemma ClimbAboveBase(b: seq<string>, n: string)
    requires |b| >= 1 && b[|b| - 1] != ".." && IsName(n)
    ensures Resolve(true, b, [n, "..", ".."]) == b[..|b| - 1]
  {
    assert Step(true, b, n) == b + [n];
    assert (b + [n])[..|b|] == b;
    assert Step(true, b + [n], "..") == b;
    assert Step(true, b, "..") == b[..|b| - 1];
    assert [n, "..", ".."][1..] == ["..", ".."];
    assert ["..", ".."][1..] == [".."];
    assert [".."][1..] == [];
  }

  // ---------------------------------------------------------------------
  // The containment check on a base of "/repos/docs"

  /** "/etc/passwd" is read as "etc/passwd" below the base. */
  lemma ExampleAbsoluteRequest(wd: Option<string>)
    ensures ValidatePath("/repos/docs", "/etc/passwd", wd) == Ok("etc/passwd")
  {
    assert "etc/passwd" == JoinSegs(["etc", "passwd"]);
    assert "/etc/passwd" == "/" + JoinSegs(["etc", "passwd"]);
    assert "etc"[..2] == "et";
    ValidatePathNames("/repos/docs", ["etc", "passwd"], wd);
  }

  lemma ExampleEscapeSegs()
    ensures "src/../../etc/passwd" == JoinSegs(["src", "..", ".."] + ["etc", "passwd"])
  {
    assert ["src", "..", ".."] + ["etc", "passwd"] == ["src", "..", "..", "etc", "passwd"];
    assert JoinSegs(["src", "..", "..", "etc", "passwd"]) == "src/" + JoinSegs(["..", "..", "etc", "passwd"]);
  }

  /** "src/../../etc/passwd" climbs out of any base that is not itself a directory named etc, and is refused. */
  lemma ExampleEscape(basePath: string, wd: Option<string>)
    requires IsAbs(basePath) && |CleanSegs(basePath)| >= 1
    requires CleanSegs(basePath)[|CleanSegs(basePath)| - 1] != "etc"
    ensures ValidatePath(basePath, "src/../../etc/passwd", wd) == Err(Traversal("src/../../etc/passwd"))
  {
    ExampleEscapeSegs();
    ExampleNames();
    ValidatePathEscape(basePath, "src", ["etc", "passwd"], wd);
  }

  lemma ExampleNames()
    ensures IsName("src") && IsName("etc") && IsName("passwd")
    ensures ["etc", "passwd"][0] == "etc" && ["etc", "passwd"][1] == "passwd"
  {
    assert "src" == ['s', 'r', 'c'] && "etc" == ['e', 't', 'c'];
    assert "passwd" == ['p', 'a', 's', 's', 'w', 'd'];
  }

  /** "..foo" is a name inside the base, but the prefix test refuses it. */
  lemma ExampleDotDotName(wd: Option<string>)
    ensures ValidatePath("/repos/docs", "..foo", wd) == Err(Traversal("..foo"))
  {
    assert "..foo"[..2] == "..";
    ValidatePathDotDotName("/repos/docs", "..foo", wd);
  }
}
