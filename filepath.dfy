/**
 * The lexical part of Go's path/filepath package on a Unix system, as used by
 * the repository code: Clean, Join, Abs, Rel and Base, after Pike's
 * "Lexical File Names in Plan 9".  A path is a string; it is taken apart at
 * every '/' into elements, and a cleaned path is kept as a rooted flag plus a
 * sequence of segments.
 */
module FilePath {
  import opened Wrappers

  predicate HasPrefix(s: string, prefix: string) {
    |prefix| <= |s| && s[..|prefix|] == prefix
  }

  /** filepath.IsAbs on Unix: the path starts at the root. */
  predicate IsAbs(s: string) {
    |s| > 0 && s[0] == '/'
  }

  /** An element that names an entry: not empty, not "." or "..", no separator. */
  predicate IsName(e: string) {
    e != "" && e != "." && e != ".." && '/' !in e
  }

  /** strings.Split(s, "/"): the text between consecutive separators. */
  function Split(s: string): (parts: seq<string>)
    ensures |parts| >= 1
    ensures forall i :: 0 <= i < |parts| ==> '/' !in parts[i]
    decreases |s|
  {
    if s == [] then [""]
    else if s[0] == '/' then [""] + Split(s[1..])
    else
      var rest := Split(s[1..]);
      [[s[0]] + rest[0]] + rest[1..]
  }

  /** strings.Join(segs, "/"). */
  function JoinSegs(segs: seq<string>): string
  {
    if |segs| == 0 then ""
    else if |segs| == 1 then segs[0]
    else segs[0] + "/" + JoinSegs(segs[1..])
  }

  /** One element of the Clean algorithm applied to the segments kept so far. */
  function Step(rooted: bool, stack: seq<string>, e: string): seq<string>
  {
    if e == "" || e == "." then stack
    else if e == ".." then
      if |stack| > 0 && stack[|stack| - 1] != ".." then stack[..|stack| - 1]
      else if rooted then stack
      else stack + [".."]
    else stack + [e]
  }

  /** The Clean algorithm over a sequence of elements, left to right. */
  function Resolve(rooted: bool, stack: seq<string>, elems: seq<string>): seq<string>
    decreases |elems|
  {
    if elems == [] then stack
    else Resolve(rooted, Step(rooted, stack, elems[0]), elems[1..])
  }

  /**
   * The segments of a cleaned path: names, and, in a relative path only,
   * ".." elements that all come before every name.
   */
  ghost predicate Canonical(rooted: bool, segs: seq<string>) {
    && (forall i :: 0 <= i < |segs| ==> segs[i] == ".." || IsName(segs[i]))
    && (forall i, j :: 0 <= i < j < |segs| && segs[j] == ".." ==> segs[i] == "..")
    && (rooted ==> forall i :: 0 <= i < |segs| ==> segs[i] != "..")
  }

  function CleanSegs(s: string): seq<string> {
    Resolve(IsAbs(s), [], Split(s))
  }

  /** The string of a cleaned path: "/" for the bare root, "." for the empty relative path. */
  function Format(rooted: bool, segs: seq<string>): string {
    if rooted then "/" + JoinSegs(segs)
    else if segs == [] then "."
    else JoinSegs(segs)
  }

  /** filepath.Clean. */
  function Clean(s: string): string {
    Format(IsAbs(s), CleanSegs(s))
  }

  /** filepath.Join of two elements: empty elements are ignored, the result is cleaned. */
  function Join(a: string, b: string): string {
    if a != "" then Clean(a + "/" + b)
    else if b != "" then Clean(b)
    else ""
  }

  datatype PathError =
    | NoWorkingDirectory                                   // os.Getwd failed
    | CannotMakeRelative(basePath: string, targPath: string) // Rel's error
    | Traversal(requested: string)                         // "path traversal detected"

  /**
   * filepath.Abs: an absolute path is cleaned, a relative one is joined onto the
   * working directory; `wd` is what os.Getwd returns (None: it failed).
   */
  function Abs(p: string, wd: Option<string>): Result<string, PathError> {
    if IsAbs(p) then Ok(Clean(p))
    else match wd
      case None => Err(NoWorkingDirectory)
      case Some(w) => Ok(Join(w, p))
  }

  /** The number of leading segments two sequences share. */
  function CommonPrefix(b: seq<string>, t: seq<string>): (k: nat)
    ensures k <= |b| && k <= |t| && b[..k] == t[..k]
    ensures k < |b| && k < |t| ==> b[k] != t[k]
    decreases |b|
  {
    if b == [] || t == [] || b[0] != t[0] then 0
    else 1 + CommonPrefix(b[1..], t[1..])
  }

  function Ups(n: nat): (r: seq<string>)
    ensures |r| == n && forall i :: 0 <= i < n ==> r[i] == ".."
  {
    if n == 0 then [] else [".."] + Ups(n - 1)
  }

  /**
   * filepath.Rel: the path that, joined onto `basePath`, gives `targPath`,
   * computed element by element after cleaning both.
   */
  function Rel(basePath: string, targPath: string): Result<string, PathError> {
    var base := Clean(basePath);
    var targ := Clean(targPath);
    if targ == base then Ok(".")
    else
      var b := CleanSegs(basePath);
      // Go compares the text of `targ`, which keeps its "." element.
      var t := if targ == "." then ["."] else CleanSegs(targPath);
      if IsAbs(base) != IsAbs(targ) then Err(CannotMakeRelative(basePath, targPath))
      else
        var k := CommonPrefix(b, t);
        if k < |b| && b[k] == ".." then Err(CannotMakeRelative(basePath, targPath))
        else Ok(JoinSegs(Ups(|b| - k) + t[k..]))
  }

  function TrimTrailingSlashes(s: string): (r: string)
    ensures |r| <= |s| && s[..|r|] == r
    ensures r == [] || r[|r| - 1] != '/'
  {
    if s != [] && s[|s| - 1] == '/' then TrimTrailingSlashes(s[..|s| - 1]) else s
  }

  /** The text after the last separator. */
  function LastElement(s: string): (r: string)
    ensures '/' !in r
  {
    if s == [] || s[|s| - 1] == '/' then []
    else LastElement(s[..|s| - 1]) + [s[|s| - 1]]
  }

  /** filepath.Base: the last element, trailing separators ignored. */
  function Base(path: string): string {
    if path == "" then "."
    else
      var t := TrimTrailingSlashes(path);
      if t == "" then "/" else LastElement(t)
  }

  // ---------------------------------------------------------------------
  // Splitting and joining

  lemma {:induction false} SplitNoSeparator(x: string)
    requires '/' !in x
    ensures Split(x) == [x]
    decreases |x|
  {
    if x != [] {
      assert '/' !in x[1..];
      SplitNoSeparator(x[1..]);
      assert [x[0]] + x[1..] == x;
    }
  }

  /** Split, one character at a time. */
  lemma SplitCons(c: char, rest: string)
    ensures Split([c] + rest) ==
      if c == '/' then [""] + Split(rest) else [[c] + Split(rest)[0]] + Split(rest)[1..]
  {
    assert ([c] + rest)[0] == c;
    assert ([c] + rest)[1..] == rest;
  }

  /** Splitting at a separator in the middle concatenates the two splits. */
  lemma {:induction false} SplitConcat(a: string, b: string)
    ensures Split(a + "/" + b) == Split(a) + Split(b)
    decreases |a|
  {
    if a == [] {
      assert a + "/" + b == ['/'] + b;
      SplitCons('/', b);
    } else {
      SplitConcat(a[1..], b);
      if a[0] == '/' { SplitConcatStepSlash(a[1..], b); } else { SplitConcatStep(a[0], a[1..], b); }
      assert [a[0]] + a[1..] == a;
    }
  }

  lemma SplitConcatStepSlash(tail: string, b: string)
    requires Split(tail + "/" + b) == Split(tail) + Split(b)
    ensures Split(['/'] + tail + "/" + b) == Split(['/'] + tail) + Split(b)
  {
    var x := tail + "/" + b;
    assert ['/'] + tail + "/" + b == ['/'] + x;
    SplitCons('/', x);
    SplitCons('/', tail);
  }

  lemma SplitConcatStep(c: char, tail: string, b: string)
    requires c != '/'
    requires Split(tail + "/" + b) == Split(tail) + Split(b)
    ensures Split([c] + tail + "/" + b) == Split([c] + tail) + Split(b)
  {
    var x := tail + "/" + b;
    assert [c] + tail + "/" + b == [c] + x;
    SplitCons(c, x);
    SplitCons(c, tail);
    var ra := Split(tail);
    var rb := Split(b);
    HeadAppend([c], ra, rb);
  }

  lemma HeadAppend(h: string, ra: seq<string>, rb: seq<string>)
    requires |ra| >= 1
    ensures [h + (ra + rb)[0]] + (ra + rb)[1..] == ([h + ra[0]] + ra[1..]) + rb
  {
    assert (ra + rb)[0] == ra[0];
    assert (ra + rb)[1..] == ra[1..] + rb;
  }

  lemma {:induction false} SplitJoin(segs: seq<string>)
    requires |segs| >= 1
    requires forall i :: 0 <= i < |segs| ==> '/' !in segs[i]
    ensures Split(JoinSegs(segs)) == segs
    decreases |segs|
  {
    if |segs| == 1 {
      SplitNoSeparator(segs[0]);
    } else {
      SplitConcat(segs[0], JoinSegs(segs[1..]));
      SplitNoSeparator(segs[0]);
      SplitJoin(segs[1..]);
      assert [segs[0]] + segs[1..] == segs;
    }
  }

  /** Joining the elements of a split gives the text back. */
  lemma {:induction false} JoinSplit(s: string)
    ensures JoinSegs(Split(s)) == s
    decreases |s|
  {
    if s != [] {
      JoinSplit(s[1..]);
      var rest := Split(s[1..]);
      if s[0] == '/' {
        assert Split(s) == [""] + rest;
        assert ([""] + rest)[1..] == rest;
        assert JoinSegs(Split(s)) == "" + "/" + JoinSegs(rest);
      } else {
        var parts := [[s[0]] + rest[0]] + rest[1..];
        assert Split(s) == parts;
        JoinSegsHead(rest);
        if |rest| == 1 {
          assert JoinSegs(parts) == [s[0]] + rest[0];
        } else {
          assert parts[1..] == rest[1..];
          assert JoinSegs(parts) == ([s[0]] + rest[0]) + "/" + JoinSegs(rest[1..]);
        }
      }
    }
  }

  /** A joined path begins with its first segment and a separator, if there is more. */
  lemma JoinSegsHead(segs: seq<string>)
    requires |segs| >= 1
    ensures JoinSegs(segs) == segs[0] + (if |segs| == 1 then "" else "/" + JoinSegs(segs[1..]))
  {
  }

  lemma {:induction false} JoinSegsAppend(segs: seq<string>, n: string)
    requires |segs| >= 1
    ensures JoinSegs(segs + [n]) == JoinSegs(segs) + "/" + n
    decreases |segs|
  {
    if |segs| == 1 {
      assert segs + [n] == [segs[0], n];
    } else {
      assert (segs + [n])[1..] == segs[1..] + [n];
      JoinSegsAppend(segs[1..], n);
    }
  }

  /** The ".." test of ValidatePath on a joined path looks at the first segment only. */
  lemma JoinSegsDotDotPrefix(segs: seq<string>)
    requires |segs| >= 1
    ensures HasPrefix(JoinSegs(segs), "..") <==> HasPrefix(segs[0], "..")
  {
    var rest := if |segs| == 1 then "" else "/" + JoinSegs(segs[1..]);
    var j := JoinSegs(segs);
    JoinSegsHead(segs);
    assert j == segs[0] + rest;
    assert rest != "" ==> rest[0] == '/';
    if |segs[0]| >= 2 {
      assert j[..2] == segs[0][..2];
    } else if |segs[0]| == 1 {
      assert |j| >= 2 ==> j[1] == rest[0];
    } else {
      assert j == rest;
    }
  }

  // ---------------------------------------------------------------------
  // The Clean algorithm

  lemma {:induction false} ResolveConcat(rooted: bool, stack: seq<string>, e1: seq<string>, e2: seq<string>)
    ensures Resolve(rooted, stack, e1 + e2) == Resolve(rooted, Resolve(rooted, stack, e1), e2)
    decreases |e1|
  {
    if e1 != [] {
      assert (e1 + e2)[0] == e1[0];
      assert (e1 + e2)[1..] == e1[1..] + e2;
      ResolveConcat(rooted, Step(rooted, stack, e1[0]), e1[1..], e2);
    } else {
      assert e1 + e2 == e2;
    }
  }

  lemma StepCanonical(rooted: bool, stack: seq<string>, e: string)
    requires Canonical(rooted, stack) && '/' !in e
    ensures Canonical(rooted, Step(rooted, stack, e))
  {
    var r := Step(rooted, stack, e);
    if e == ".." && |stack| > 0 && stack[|stack| - 1] != ".." {
      assert r == stack[..|stack| - 1];
    } else if e == ".." && !rooted && !(|stack| > 0 && stack[|stack| - 1] != "..") {
      assert r == stack + [".."];
      assert forall i :: 0 <= i < |stack| ==> stack[i] == ".." by {
        forall i | 0 <= i < |stack| ensures stack[i] == ".." {
          if |stack| > 0 {
            assert stack[|stack| - 1] == "..";
          }
        }
      }
    }
  }

  lemma {:induction false} ResolveCanonical(rooted: bool, stack: seq<string>, elems: seq<string>)
    requires Canonical(rooted, stack)
    requires forall i :: 0 <= i < |elems| ==> '/' !in elems[i]
    ensures Canonical(rooted, Resolve(rooted, stack, elems))
    decreases |elems|
  {
    if elems != [] {
      StepCanonical(rooted, stack, elems[0]);
      ResolveCanonical(rooted, Step(rooted, stack, elems[0]), elems[1..]);
    }
  }

  /** Clean's segments are canonical. */
  lemma CleanSegsCanonical(s: string)
    ensures Canonical(IsAbs(s), CleanSegs(s))
  {
    ResolveCanonical(IsAbs(s), [], Split(s));
  }

  /** Resolving the segments of a canonical path appends them unchanged. */
  lemma {:induction false} ResolveCanonicalAppends(rooted: bool, a: seq<string>, b: seq<string>)
    requires Canonical(rooted, a + b)
    ensures Resolve(rooted, a, b) == a + b
    decreases |b|
  {
    if b == [] {
      assert a + b == a;
    } else {
      var ab := a + b;
      assert ab[|a|] == b[0];
      if b[0] == ".." {
        assert !rooted;
        assert forall i :: 0 <= i < |a| ==> a[i] == ".." by {
          forall i | 0 <= i < |a| ensures a[i] == ".." {
            assert ab[i] == a[i];
          }
        }
        assert Step(rooted, a, b[0]) == a + [b[0]];
      } else {
        assert IsName(b[0]);
        assert Step(rooted, a, b[0]) == a + [b[0]];
      }
      assert (a + [b[0]]) + b[1..] == ab;
      ResolveCanonicalAppends(rooted, a + [b[0]], b[1..]);
    }
  }

  lemma FormatParseRooted(segs: seq<string>)
    requires Canonical(true, segs)
    ensures CleanSegs("/" + JoinSegs(segs)) == segs
  {
    var f := "/" + JoinSegs(segs);
    assert f == "" + "/" + JoinSegs(segs);
    SplitConcat("", JoinSegs(segs));
    if segs == [] {
      assert Split(f) == ["", ""];
      assert ["", ""][1..] == [""];
      assert Resolve(true, [], [""]) == [];
    } else {
      SplitJoin(segs);
      assert Split(f) == [""] + segs;
      assert Resolve(true, [], Split(f)) == Resolve(true, [], segs);
      ResolveCanonicalAppends(true, [], segs);
      assert [] + segs == segs;
    }
  }

  lemma FormatParseRelative(segs: seq<string>)
    requires Canonical(false, segs) && segs != []
    ensures !IsAbs(JoinSegs(segs)) && CleanSegs(JoinSegs(segs)) == segs
  {
    JoinSegsHead(segs);
    assert segs[0] != "";
    assert JoinSegs(segs)[0] == segs[0][0];
    SplitJoin(segs);
    ResolveCanonicalAppends(false, [], segs);
    assert [] + segs == segs;
  }

  /** Reading back a formatted canonical path gives the same path. */
  lemma FormatParse(rooted: bool, segs: seq<string>)
    requires Canonical(rooted, segs)
    ensures IsAbs(Format(rooted, segs)) == rooted
    ensures CleanSegs(Format(rooted, segs)) == segs
  {
    if rooted {
      FormatParseRooted(segs);
    } else if segs == [] {
      SplitNoSeparator(".");
    } else {
      FormatParseRelative(segs);
    }
  }

  /** Clean keeps absoluteness. */
  lemma CleanIsAbs(s: string)
    ensures IsAbs(Clean(s)) == IsAbs(s)
    ensures CleanSegs(Clean(s)) == CleanSegs(s)
  {
    CleanSegsCanonical(s);
    FormatParse(IsAbs(s), CleanSegs(s));
  }

  /** Cleaning a clean path changes nothing. */
  lemma CleanIdempotent(s: string)
    ensures Clean(Clean(s)) == Clean(s)
  {
    CleanIsAbs(s);
  }

  /** A cleaned path is never empty. */
  lemma CleanNonEmpty(s: string)
    ensures Clean(s) != ""
  {
    var segs := CleanSegs(s);
    if !IsAbs(s) && segs != [] {
      CleanSegsCanonical(s);
      JoinSegsHead(segs);
      assert segs[0] != "";
    }
  }

  /** Canonical segments are recovered from the formatted string, so Format is one-to-one. */
  lemma FormatInjective(r1: bool, s1: seq<string>, r2: bool, s2: seq<string>)
    requires Canonical(r1, s1) && Canonical(r2, s2)
    requires Format(r1, s1) == Format(r2, s2)
    ensures r1 == r2 && s1 == s2
  {
    FormatParse(r1, s1);
    FormatParse(r2, s2);
  }

  /** The segments of `a + "/" + b` are those of `b` resolved onto those of `a`. */
  lemma CleanSegsJoin(a: string, b: string)
    requires a != ""
    ensures CleanSegs(a + "/" + b) == Resolve(IsAbs(a), CleanSegs(a), Split(b))
  {
    SplitConcat(a, b);
    assert IsAbs(a + "/" + b) == IsAbs(a);
    ResolveConcat(IsAbs(a), [], Split(a), Split(b));
  }

  /** A name sequence resolved onto any canonical path is appended. */
  lemma {:induction false} ResolveNames(rooted: bool, stack: seq<string>, names: seq<string>)
    requires forall i :: 0 <= i < |names| ==> IsName(names[i])
    ensures Resolve(rooted, stack, names) == stack + names
    decreases |names|
  {
    if names == [] {
      assert stack + names == stack;
    } else {
      assert Step(rooted, stack, names[0]) == stack + [names[0]];
      ResolveNames(rooted, stack + [names[0]], names[1..]);
      assert (stack + [names[0]]) + names[1..] == stack + names;
    }
  }

  // ---------------------------------------------------------------------
  // Joining, Rel and Base on names

  lemma {:induction false} JoinSegsConcat(a: seq<string>, c: seq<string>)
    requires |a| >= 1 && |c| >= 1
    ensures JoinSegs(a + c) == JoinSegs(a) + "/" + JoinSegs(c)
    decreases |a|
  {
    if |a| == 1 {
      assert (a + c)[1..] == c;
    } else {
      assert (a + c)[1..] == a[1..] + c;
      JoinSegsConcat(a[1..], c);
    }
  }

  /** The path made of names below a directory is, relative to it, those names. */
  lemma RelBelow(a: string, segs: seq<string>)
    requires a != "" && |segs| >= 1
    requires forall i :: 0 <= i < |segs| ==> IsName(segs[i])
    ensures Rel(a, a + "/" + JoinSegs(segs)) == Ok(JoinSegs(segs))
  {
    var p := a + "/" + JoinSegs(segs);
    var b := CleanSegs(a);
    CleanSegsJoin(a, JoinSegs(segs));
    SplitJoin(segs);
    ResolveNames(IsAbs(a), b, segs);
    assert IsAbs(p) == IsAbs(a);
    RelExtension(a, p, segs);
  }

  /** A path whose cleaned segments extend those of `a` by names is, relative to `a`, those names. */
  lemma RelExtension(a: string, p: string, segs: seq<string>)
    requires IsAbs(a) == IsAbs(p) && |segs| >= 1
    requires CleanSegs(p) == CleanSegs(a) + segs
    ensures Rel(a, p) == Ok(JoinSegs(segs))
  {
    var rooted := IsAbs(a);
    var b := CleanSegs(a);
    var t := b + segs;
    CleanSegsCanonical(a);
    CleanSegsCanonical(p);
    var base := Clean(a);
    var targ := Clean(p);
    assert base == Format(rooted, b) && targ == Format(rooted, t);
    assert targ != base by {
      if targ == base {
        FormatInjective(rooted, t, rooted, b);
      }
    }
    assert targ != "." by {
      if targ == "." {
        assert Format(false, []) == ".";
        assert Canonical(false, []);
        FormatInjective(rooted, t, false, []);
      }
    }
    CleanIsAbs(a);
    CleanIsAbs(p);
    var k := CommonPrefix(b, t);
    assert k == |b| by {
      assert forall i :: 0 <= i < |b| ==> t[i] == b[i];
    }
    assert Ups(|b| - k) + t[k..] == segs;
  }

  /** Joining "." onto a path cleans it. */
  lemma JoinDot(a: string)
    requires a != ""
    ensures Join(a, ".") == Clean(a)
  {
    CleanSegsJoin(a, ".");
    SplitNoSeparator(".");
    assert Resolve(IsAbs(a), CleanSegs(a), ["."]) == CleanSegs(a);
    assert IsAbs(a + "/" + ".") == IsAbs(a);
  }

  /** Names below a path are appended to its cleaned segments. */
  lemma CleanSegsBelow(a: string, names: seq<string>)
    requires a != "" && |names| >= 1
    requires forall i :: 0 <= i < |names| ==> IsName(names[i])
    ensures CleanSegs(a + "/" + JoinSegs(names)) == CleanSegs(a) + names
  {
    CleanSegsJoin(a, JoinSegs(names));
    SplitJoin(names);
    ResolveNames(IsAbs(a), CleanSegs(a), names);
  }

  /** Joining a clean relative path of names ("." for none) onto a path appends its names to the path's segments. */
  lemma JoinNames(a: string, r: string)
    requires Clean(r) == r && !IsAbs(r)
    requires forall i :: 0 <= i < |CleanSegs(r)| ==> IsName(CleanSegs(r)[i])
    ensures var t := Join(a, r);
      CleanSegs(t) == CleanSegs(a) + CleanSegs(r) && IsAbs(t) == IsAbs(a) && Clean(t) == t
  {
    var names := CleanSegs(r);
    CleanNonEmpty(r);
    if a == "" {
      assert Join(a, r) == r;
      assert Split("") == [""];
      assert CleanSegs("") == Resolve(false, [], []);
      assert [] + names == names;
    } else {
      var s := a + "/" + r;
      CleanSegsJoin(a, r);
      if names == [] {
        assert r == ".";
        SplitNoSeparator(".");
        assert Resolve(IsAbs(a), CleanSegs(a), ["."]) == Resolve(IsAbs(a), CleanSegs(a), []);
      } else {
        assert r == JoinSegs(names);
        SplitJoin(names);
        ResolveNames(IsAbs(a), CleanSegs(a), names);
      }
      assert IsAbs(s) == IsAbs(a);
      CleanIsAbs(s);
      CleanIdempotent(s);
    }
  }

  /** A path of names below the cleaned base is, relative to the base as written, those names. */
  lemma RelFromBase(basePath: string, names: seq<string>)
    requires |names| >= 1
    requires forall i :: 0 <= i < |names| ==> IsName(names[i])
    ensures Rel(basePath, Clean(basePath) + "/" + JoinSegs(names)) == Ok(JoinSegs(names))
  {
    var a := Clean(basePath);
    CleanNonEmpty(basePath);
    CleanIsAbs(basePath);
    CleanSegsBelow(a, names);
    var p := a + "/" + JoinSegs(names);
    assert IsAbs(p) == IsAbs(a);
    RelExtension(basePath, p, names);
  }

  lemma {:induction false} LastElementOfName(d: string, n: string)
    requires '/' !in n
    ensures LastElement(d + "/" + n) == n
    decreases |n|
  {
    var s := d + "/" + n;
    if n == [] {
      assert s[|s| - 1] == '/';
    } else {
      var m := n[..|n| - 1];
      assert s[..|s| - 1] == d + "/" + m;
      assert '/' !in m by {
        assert forall i :: 0 <= i < |m| ==> m[i] == n[i];
      }
      LastElementOfName(d, m);
      assert m + [n[|n| - 1]] == n;
    }
  }

  lemma {:induction false} LastElementWhole(n: string)
    requires '/' !in n
    ensures LastElement(n) == n
    decreases |n|
  {
    if n != [] {
      var m := n[..|n| - 1];
      assert '/' !in m by {
        assert forall i :: 0 <= i < |m| ==> m[i] == n[i];
      }
      LastElementWhole(m);
      assert m + [n[|n| - 1]] == n;
    }
  }

  /** The base of a path ending in a name is that name. */
  lemma BaseOfChild(d: string, n: string)
    requires IsName(n)
    ensures Base(d + "/" + n) == n
  {
    var s := d + "/" + n;
    assert s[|s| - 1] == n[|n| - 1];
    assert TrimTrailingSlashes(s) == s;
    LastElementOfName(d, n);
  }

  /** A name is its own base. */
  lemma BaseOfName(n: string)
    requires IsName(n)
    ensures Base(n) == n
  {
    assert TrimTrailingSlashes(n) == n;
    LastElementWhole(n);
  }

  // ---------------------------------------------------------------------
  // filepath.Match, for the wildcards * and ?

  /**
   * The pattern matches the whole name: "*" matches any run of characters
   * other than the separator, "?" one such character, and every other
   * character itself.
   */
  function Match(pattern: string, name: string): bool
    decreases |pattern| + |name|
  {
    if pattern == [] then name == []
    else if pattern[0] == '*' then
      Match(pattern[1..], name) || (name != [] && name[0] != '/' && Match(pattern, name[1..]))
    else if name == [] then false
    else if pattern[0] == '?' then name[0] != '/' && Match(pattern[1..], name[1..])
    else pattern[0] == name[0] && Match(pattern[1..], name[1..])
  }

  predicate IsLiteral(pattern: string) {
    '*' !in pattern && '?' !in pattern
  }

  predicate HasSuffix(s: string, suffix: string) {
    |suffix| <= |s| && s[|s| - |suffix|..] == suffix
  }

  /** A pattern without wildcards matches exactly itself. */
  lemma {:induction false} MatchLiteral(pattern: string, name: string)
    requires IsLiteral(pattern)
    ensures Match(pattern, name) <==> pattern == name
    decreases |pattern|
  {
    if pattern != [] && name != [] {
      assert IsLiteral(pattern[1..]) by {
        assert forall i :: 0 <= i < |pattern| - 1 ==> pattern[1..][i] == pattern[i + 1];
      }
      MatchLiteral(pattern[1..], name[1..]);
      if pattern[0] == name[0] && pattern[1..] == name[1..] {
        assert pattern == [pattern[0]] + pattern[1..];
        assert name == [name[0]] + name[1..];
      }
    }
  }

  /** "*" matches exactly the texts without a separator. */
  lemma {:induction false} MatchStar(name: string)
    ensures Match("*", name) <==> '/' !in name
    decreases |name|
  {
    assert "*"[1..] == "";
    if name != [] {
      MatchStar(name[1..]);
      assert name == [name[0]] + name[1..];
    }
  }

  /** "*" followed by a literal matches the names that end with it, as in "*.md". */
  lemma {:induction false} MatchStarSuffix(suffix: string, name: string)
    requires IsLiteral(suffix) && '/' !in name
    ensures Match("*" + suffix, name) <==> HasSuffix(name, suffix)
    decreases |name|
  {
    var p := "*" + suffix;
    assert p[0] == '*' && p[1..] == suffix;
    MatchLiteral(suffix, name);
    if name != [] {
      assert '/' !in name[1..];
      MatchStarSuffix(suffix, name[1..]);
      if |suffix| < |name| {
        assert name[1..][|name| - 1 - |suffix|..] == name[|name| - |suffix|..];
      }
      if HasSuffix(name, suffix) && name != suffix {
        assert |suffix| < |name|;
      }
    } else {
      assert HasSuffix(name, suffix) ==> suffix == [];
    }
  }
}
