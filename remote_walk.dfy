/**
 * RemoteFS.walkDir: a pre-order walk of the remote tree that reports every
 * visited path to a visitor, lets the visitor prune a directory with SkipDir,
 * and stops at the first other error. The visitor is a function of what it is
 * shown; the callbacks the server passes have no other input.
 */
module RemoteWalk {
  import opened Wrappers
  import opened FilePath
  import opened FsTree
  import opened Ssh

  /** One call of the visitor: the path, its Info (None when stat failed) and the error, if any. */
  datatype Visit = Visit(path: string, info: Option<Info>, err: Option<FsError>)

  /** What a visitor or a walk returns: nil, filepath.SkipDir, or another error. */
  datatype Signal = Nil | SkipDir | Fail(error: FsError)

  type Visitor = Visit -> Signal

  /** The visits a walk makes, in order, and what it returns. */
  datatype Run = Run(trace: seq<Visit>, result: Signal)

  /** The walk of the tree at `path`. */
  function Walk(t: Tree, path: string, visit: Visitor): Run
    decreases t
  {
    match t.stat
    case Err(e) =>
      var v := Visit(path, None, Some(e));
      Run([v], visit(v))
    case Ok(info) =>
      var v := Visit(path, Some(info), None);
      var a := visit(v);
      if a == SkipDir then Run([v], Nil)
      else if a != Nil then Run([v], a)
      else if !info.isDir then Run([v], Nil)
      else if t.readDirError.Some? then
        var w := Visit(path, Some(info), t.readDirError);
        Run([v, w], visit(w))
      else
        var rest := WalkEntries(t.children, path, visit);
        Run([v] + rest.trace, rest.result)
  }

  /**
   * The entries of a listing, in order: a directory entry is walked, any
   * other entry is shown to the visitor with the listing's own Info.
   */
  function WalkEntries(cs: seq<Child>, parent: string, visit: Visitor): Run
    decreases cs
  {
    if cs == [] then Run([], Nil)
    else
      var first := WalkChild(cs[0], parent, visit);
      if first.result != Nil then first
      else
        var rest := WalkEntries(cs[1..], parent, visit);
        Run(first.trace + rest.trace, rest.result)
  }

  function WalkChild(c: Child, parent: string, visit: Visitor): Run
    decreases c
  {
    var childPath := parent + "/" + c.entry.name;
    if c.entry.isDir then Walk(c.tree, childPath, visit)
    else
      var v := Visit(childPath, Some(c.entry), None);
      Run([v], visit(v))
  }

  /** walkDir, with the sftp server's answers given by the tree. */
  method WalkDir(t: Tree, path: string, visit: Visitor) returns (trace: seq<Visit>, result: Signal)
    ensures Run(trace, result) == Walk(t, path, visit)
    decreases t
  {
    if t.stat.Err? {
      var v := Visit(path, None, Some(t.stat.error));
      return [v], visit(v);
    }
    var info := t.stat.value;
    var v := Visit(path, Some(info), None);
    var a := visit(v);
    if a != Nil {
      if a == SkipDir {
        return [v], Nil;
      }
      return [v], a;
    }
    if !info.isDir {
      return [v], Nil;
    }
    if t.readDirError.Some? {
      var w := Visit(path, Some(info), t.readDirError);
      return [v, w], visit(w);
    }
    var children := t.children;
    var done: seq<Visit> := [];
    var i := 0;
    while i < |children|
      invariant 0 <= i <= |children|
      invariant var rest := WalkEntries(children[i..], path, visit);
        WalkEntries(children, path, visit) == Run(done + rest.trace, rest.result)
    {
      var c := children[i];
      EntriesFrom(children, i, path, visit);
      var childPath := path + "/" + c.entry.name;
      var tr: seq<Visit>;
      var s: Signal;
      if c.entry.isDir {
        tr, s := WalkDir(c.tree, childPath, visit);
      } else {
        var cv := Visit(childPath, Some(c.entry), None);
        tr, s := [cv], visit(cv);
      }
      assert Run(tr, s) == WalkChild(c, path, visit);
      if s != Nil {
        return [v] + done + tr, s;
      }
      assert (done + tr) + WalkEntries(children[i + 1..], path, visit).trace
        == done + (tr + WalkEntries(children[i + 1..], path, visit).trace);
      done := done + tr;
      i := i + 1;
    }
    assert children[i..] == [];
    assert done + [] == done;
    return [v] + done, Nil;
  }

  /** The walk of the entries from the i-th on: that entry first, then, unless it stopped the walk, the rest. */
  lemma EntriesFrom(cs: seq<Child>, i: nat, parent: string, visit: Visitor)
    requires i < |cs|
    ensures var first := WalkChild(cs[i], parent, visit); var rest := WalkEntries(cs[i + 1..], parent, visit);
      WalkEntries(cs[i..], parent, visit) == if first.result != Nil then first else Run(first.trace + rest.trace, rest.result)
  {
    assert cs[i..][0] == cs[i] && cs[i..][1..] == cs[i + 1..];
  }

  /** RemoteFS.Walk: the walk of the remote tree at the remote path of `root`. */
  method RemoteFsWalk(fs: RemoteFS, root: string, view: View, visit: Visitor) returns (trace: seq<Visit>, result: Signal)
    ensures var p := RemotePath(fs, root); Run(trace, result) == Walk(view(p), p, visit)
  {
    var p := RemotePath(fs, root);
    trace, result := WalkDir(view(p), p, visit);
  }

  // ---------------------------------------------------------------------
  // Properties of the walk

  /** The root is visited first, with what its stat reports. */
  lemma WalkRootFirst(t: Tree, path: string, visit: Visitor)
    ensures var r := Walk(t, path, visit);
      && |r.trace| >= 1
      && r.trace[0].path == path
      && r.trace[0].info == (if t.stat.Ok? then Some(t.stat.value) else None)
      && r.trace[0].err == (if t.stat.Err? then Some(t.stat.error) else None)
  {
  }

  /** A directory whose visit answers SkipDir is not entered, and the walk returns nil. */
  lemma WalkSkipDirPrunes(t: Tree, path: string, visit: Visitor)
    requires t.stat.Ok? && visit(Visit(path, Some(t.stat.value), None)) == SkipDir
    ensures Walk(t, path, visit) == Run([Visit(path, Some(t.stat.value), None)], Nil)
  {
  }

  /** A stat failure is shown to the visitor without Info, and its answer is returned. */
  lemma WalkStatFailure(t: Tree, path: string, visit: Visitor)
    requires t.stat.Err?
    ensures var v := Visit(path, None, Some(t.stat.error));
      Walk(t, path, visit) == Run([v], visit(v))
  {
  }

  /**
   * The walk stops at the first visit answering an error other than a
   * SkipDir it absorbs: no earlier visit answered such an error, and a
   * non-nil result is the last visitor's answer.
   */
  lemma {:induction false} WalkStops(t: Tree, path: string, visit: Visitor)
    ensures var r := Walk(t, path, visit);
      && |r.trace| >= 1
      && (forall i :: 0 <= i < |r.trace| - 1 ==> !visit(r.trace[i]).Fail?)
      && (r.result != Nil ==> r.result == visit(r.trace[|r.trace| - 1]))
      && (r.result == Nil ==> !visit(r.trace[|r.trace| - 1]).Fail?)
    decreases t
  {
    if t.stat.Ok? && visit(Visit(path, Some(t.stat.value), None)) == Nil && t.stat.value.isDir && t.readDirError.None? {
      WalkEntriesStops(t.children, path, visit);
    }
  }

  lemma {:induction false} WalkEntriesStops(cs: seq<Child>, parent: string, visit: Visitor)
    ensures var r := WalkEntries(cs, parent, visit);
      && (forall i :: 0 <= i < |r.trace| - 1 ==> !visit(r.trace[i]).Fail?)
      && (r.result != Nil ==> |r.trace| >= 1 && r.result == visit(r.trace[|r.trace| - 1]))
      && (r.result == Nil && |r.trace| >= 1 ==> !visit(r.trace[|r.trace| - 1]).Fail?)
    decreases cs
  {
    if cs != [] {
      var c := cs[0];
      WalkChildStops(c, parent, visit);
      var first := WalkChild(c, parent, visit);
      if first.result == Nil {
        WalkEntriesStops(cs[1..], parent, visit);
        var rest := WalkEntries(cs[1..], parent, visit);
        assert forall i :: 0 <= i < |first.trace| ==> !visit(first.trace[i]).Fail?;
        StopsConcat(first.trace, rest.trace, visit);
      }
    }
  }

  /** Visits none of which failed, followed by visits none of which but the last failed. */
  lemma StopsConcat(a: seq<Visit>, b: seq<Visit>, visit: Visitor)
    requires forall i :: 0 <= i < |a| ==> !visit(a[i]).Fail?
    requires forall i :: 0 <= i < |b| - 1 ==> !visit(b[i]).Fail?
    ensures forall i :: 0 <= i < |a + b| - 1 ==> !visit((a + b)[i]).Fail?
    ensures |b| >= 1 ==> (a + b)[|a + b| - 1] == b[|b| - 1]
  {
    forall i | 0 <= i < |a + b| - 1
      ensures !visit((a + b)[i]).Fail?
    {
      if i < |a| {
        assert (a + b)[i] == a[i];
      } else {
        assert (a + b)[i] == b[i - |a|];
      }
    }
  }

  lemma {:induction false} WalkChildStops(c: Child, parent: string, visit: Visitor)
    ensures var r := WalkChild(c, parent, visit);
      && |r.trace| >= 1
      && (forall i :: 0 <= i < |r.trace| - 1 ==> !visit(r.trace[i]).Fail?)
      && (r.result != Nil ==> r.result == visit(r.trace[|r.trace| - 1]))
      && (r.result == Nil ==> !visit(r.trace[|r.trace| - 1]).Fail?)
    decreases c
  {
    if c.entry.isDir {
      WalkStops(c.tree, parent + "/" + c.entry.name, visit);
    }
  }

  /** A visit is at the root or below it, one "/" + name per level. */
  ghost predicate AtOrBelow(root: string, p: string) {
    p == root || HasPrefix(p, root + "/")
  }

  lemma AtOrBelowTrans(root: string, mid: string, n: string, p: string)
    requires AtOrBelow(root, mid) && AtOrBelow(mid + "/" + n, p)
    ensures AtOrBelow(root, p) && p != root
  {
    var q := mid + "/" + n;
    assert HasPrefix(q, root + "/") by {
      if mid != root {
        assert q[..|root + "/"|] == mid[..|root + "/"|];
      }
    }
    if p != q {
      assert p[..|root + "/"|] == q[..|root + "/"|];
    }
  }

  /** Every visited path is the root or lies below it. */
  lemma {:induction false} WalkStaysBelow(t: Tree, path: string, visit: Visitor)
    ensures forall v :: v in Walk(t, path, visit).trace ==> AtOrBelow(path, v.path)
    decreases t
  {
    if t.stat.Ok? && visit(Visit(path, Some(t.stat.value), None)) == Nil && t.stat.value.isDir && t.readDirError.None? {
      WalkEntriesStayBelow(t.children, path, visit);
    }
  }

  lemma {:induction false} WalkEntriesStayBelow(cs: seq<Child>, parent: string, visit: Visitor)
    ensures forall v :: v in WalkEntries(cs, parent, visit).trace ==>
      AtOrBelow(parent, v.path) && v.path != parent
    decreases cs
  {
    if cs != [] {
      WalkChildStaysBelow(cs[0], parent, visit);
      if WalkChild(cs[0], parent, visit).result == Nil {
        WalkEntriesStayBelow(cs[1..], parent, visit);
      }
    }
  }

  lemma {:induction false} WalkChildStaysBelow(c: Child, parent: string, visit: Visitor)
    ensures forall v :: v in WalkChild(c, parent, visit).trace ==>
      AtOrBelow(parent, v.path) && v.path != parent
    decreases c
  {
    var childPath := parent + "/" + c.entry.name;
    if c.entry.isDir {
      WalkStaysBelow(c.tree, childPath, visit);
    }
    forall v | v in WalkChild(c, parent, visit).trace
      ensures AtOrBelow(parent, v.path) && v.path != parent
    {
      AtOrBelowTrans(parent, parent, c.entry.name, v.path);
    }
  }

  // ---------------------------------------------------------------------
  // Two visitors that answer alike walk alike

  /**
   * Visitors that answer alike on every visit whose path is longer than `n`
   * walk a tree at such a path alike.
   */
  lemma {:induction false} WalkAgreesLonger(t: Tree, path: string, v1: Visitor, v2: Visitor, n: nat)
    requires |path| > n && forall x: Visit :: |x.path| > n ==> v1(x) == v2(x)
    ensures Walk(t, path, v1) == Walk(t, path, v2)
    decreases t
  {
    if t.stat.Ok? && t.stat.value.isDir && t.readDirError.None? {
      WalkEntriesAgreeLonger(t.children, path, v1, v2, n);
    }
  }

  lemma {:induction false} WalkEntriesAgreeLonger(cs: seq<Child>, parent: string, v1: Visitor, v2: Visitor, n: nat)
    requires |parent| >= n && forall x: Visit :: |x.path| > n ==> v1(x) == v2(x)
    ensures WalkEntries(cs, parent, v1) == WalkEntries(cs, parent, v2)
    decreases cs
  {
    if cs != [] {
      WalkChildAgreesLonger(cs[0], parent, v1, v2, n);
      WalkEntriesAgreeLonger(cs[1..], parent, v1, v2, n);
    }
  }

  lemma {:induction false} WalkChildAgreesLonger(c: Child, parent: string, v1: Visitor, v2: Visitor, n: nat)
    requires |parent| >= n && forall x: Visit :: |x.path| > n ==> v1(x) == v2(x)
    ensures WalkChild(c, parent, v1) == WalkChild(c, parent, v2)
    decreases c
  {
    if c.entry.isDir {
      WalkAgreesLonger(c.tree, parent + "/" + c.entry.name, v1, v2, n);
    }
  }

  /**
   * Visitors that answer alike below the root, on every error, and on the
   * root's own visit walk the tree alike.
   */
  lemma WalkAgrees(t: Tree, root: string, v1: Visitor, v2: Visitor)
    requires forall x: Visit :: |x.path| > |root| ==> v1(x) == v2(x)
    requires forall x: Visit :: x.err.Some? ==> v1(x) == v2(x)
    requires t.stat.Ok? ==> v1(Visit(root, Some(t.stat.value), None)) == v2(Visit(root, Some(t.stat.value), None))
    ensures Walk(t, root, v1) == Walk(t, root, v2)
  {
    if t.stat.Ok? && t.stat.value.isDir && t.readDirError.None? {
      WalkEntriesAgreeLonger(t.children, root, v1, v2, |root|);
    }
  }

  /** A visit of a walk at the root itself is the root's own visit or carries an error. */
  lemma WalkRootVisits(t: Tree, root: string, visit: Visitor)
    ensures forall x :: x in Walk(t, root, visit).trace ==>
      x.path != root || x.err.Some? || (t.stat.Ok? && x.info == Some(t.stat.value))
  {
    if t.stat.Ok? && visit(Visit(root, Some(t.stat.value), None)) == Nil && t.stat.value.isDir && t.readDirError.None? {
      WalkEntriesStayBelow(t.children, root, visit);
    }
  }
}
