/**
 * What a file system answers, seen from the outside: the result of a stat
 * and, for a directory, of a directory listing, at every path below a root.
 * The local and the remote (sftp) file systems are both read through this
 * view; the operating system and the sftp server are the oracle behind it.
 */
module FsTree {
  import opened Wrappers

  /** The parts of an os.FileInfo the core looks at. */
  datatype Info = Info(name: string, isDir: bool, isRegular: bool)

  /** An error reported by the file system or by a walk visitor. */
  datatype FsError = FsError(message: string)

  /**
   * The answers at one path: Stat, and ReadDir (consulted only when the stat
   * succeeded and reported a directory), which fails with `readDirError` or
   * lists `children`.
   */
  datatype Tree = Tree(stat: Result<Info, FsError>, readDirError: Option<FsError>, children: seq<Child>)

  /**
   * One entry of a listing: the Info the listing itself reports (not followed
   * through links) and the answers at parent + "/" + entry.name.
   */
  datatype Child = Child(entry: Info, tree: Tree)

  /** The answers at every full path. */
  type View = string -> Tree

  /** The entries of a listing, as ReadDir returns them. */
  function Entries(cs: seq<Child>): (es: seq<Info>)
    ensures |es| == |cs| && forall i :: 0 <= i < |cs| ==> es[i] == cs[i].entry
  {
    if cs == [] then [] else [cs[0].entry] + Entries(cs[1..])
  }
}
