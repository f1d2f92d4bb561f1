# fs-mcp core, modelled in Dafny

fs-mcp is an MCP server that exposes several file trees, called
repositories, to a client. A repository is either a local directory or a
directory on an ssh host read over sftp. The server offers the tools
`list_files`, `read_file`, `search_files` and `list_repos`, and a
`repo://<name>/<file>` resource template. This project models the part of
the server that decides what a client may see:

- parsing the repository entries of the config file, with their defaults and
  ssh checks, and publishing them all or nothing on load and on reload;
- `ValidatePath`, which confines every requested path to the repository
  root;
- the dispatch to a local or remote file system, and the ssh connection pool
  with its reuse-or-reconnect logic and its `Close`;
- remote path normalisation and the remote `walkDir`;
- `shouldSkip`, which hides dot-files and `node_modules`;
- the four tools and the resource template, each from the lookup of the
  repository to the reply.

Module layout, one file per module:

| file | module | what it holds |
|---|---|---|
| wrappers.dfy | Wrappers | Option, Result, Outcome, and `IterationOrder`: a sequence listing each key of a map once |
| filepath.dfy | FilePath | the lexical part of Go's `path/filepath` on Unix paths: Split, Clean, Join, Abs, Rel, Base, Match |
| repository.dfy | Repository | the Repository record, ParseRepository, ValidatePath |
| fstree.dfy | FsTree | what a file system answers at a path: a stat and a directory listing |
| ssh.dfy | Ssh | connectionKey, the clients, the SSHPool class, RemoteFS paths |
| remote_walk.dfy | RemoteWalk | RemoteFS.walkDir and the visitor protocol of `filepath.WalkFunc` |
| filesystem.dfy | FileSystems | the FileSystem interface and Repository.GetFileSystem |
| skip.dfy | Skip | shouldSkip |
| tools.dfy | Tools | tool errors, and the walk callback shared by list_files and search_files |
| registry.dfy | Registry | the global registry (loadConfig, reloadConfig, getFileSystem, list_repos) |
| listing.dfy | Listing | handleListFiles |
| search.dfy | Search | handleSearchFiles |
| reading.dfy | Reading | handleReadFile and handleReadResourceTemplate |

The operating system, the sftp server and the ssh handshake are parameters:

- `view: View` gives the stat and the directory listing at each full path;
- `read` gives the contents of a file at a full path;
- `probeOk` is the keep-alive answer of a pooled connection;
- `steps` says which of the four connection steps succeed;
- `wd` is the working directory, if it can be found;
- `home` is the home directory, if it can be found;
- `order` is the iteration order of a Go map.

Shared state that the code updates in place is modelled as classes:

- the pool `Ssh.SshPool`, with its connection map and the log of closes;
- the clients `Ssh.SshClient` and `Ssh.SftpClient`, with their open flags;
- the registry `Registry.Server`, with the repository map, the config path
  and the pool.

Loops that the code runs are methods that carry loop invariants:

- the parse loop: `Registry.ParseRepositories`;
- the directory-entry loop: `Listing.ListEntries`;
- the walk: `RemoteWalk.WalkDir`;
- the append callback: `Tools.CollectPicked`;
- the close loop: `Ssh.SshPool.Close`;
- the list_repos loop: `Registry.Server.ListRepos`.

Each of these methods is proved equal to a function, and the properties are
proved about that function.

## Model

| member | source | states |
|---|---|---|
| Repository.ParseStringIsLocal | repository.go:82-88 | a bare string entry is a local repository whose path is the string and whose other fields are empty |
| Repository.ParseObjectDefaults | repository.go:96-113 | an empty type becomes local; for ssh only, port 0 becomes 22 and an empty key becomes ~/.ssh/id_rsa; a key starting with ~ has the home directory put in its place, or is kept when there is no home |
| Repository.ParseSshErrors | repository.go:115-128 | an ssh entry fails on the first empty field among host, user and path, in that order, and is accepted exactly when all three are set |
| Repository.ParseNonSshAccepted | repository.go:115-128 | a decoded entry that is not ssh is never rejected |
| Repository.ParseErrorNamesRepository | repository.go:92-125 | every parse error names the repository it came from |
| Repository.ParsedSshIsComplete | repository.go:96-128 | an accepted repository has a type, and an ssh one has host, user, path, a non-zero port and a key file |
| Repository.ExpandedKeyIsAbsolute | repository.go:107-113 | a ~ key expanded under an absolute home is an absolute, clean path |
| Repository.DefaultKeyUnderHome | repository.go:103-113 | the default key expands to home/.ssh/id_rsa |
| Repository.ValidateTarget | repository.go:145-154 | the absolute base and target are clean absolute paths, and the target's elements are the base's with the request resolved on top |
| Repository.ValidatePathSpec | repository.go:144-163 | for an absolute base, a request is accepted iff its resolved target is at or below the base and the first element below the base does not start with ".."; the result is the elements below the base; every refusal is "path traversal detected" for the request |
| Repository.ValidatePathNeverEscapes | repository.go:157-159 | an accepted result never starts with ".." and has no ".." or "." element |
| Repository.ValidatePathRoundTrip | repository.go:150-162 | the result is clean, and joining it to the base gives the same path as joining the request, which is the cleaned join |
| Repository.ValidatePathTarget | repository.go:150-162 | the path a tool then opens is the clean target of the request and lies at or below the base |
| Repository.ValidatePathAbsoluteRequest | repository.go:150-157 | an absolute request is put under the base: "/"+x is accepted iff x is, with the same result |
| Repository.ValidatePathDot | repository.go:150-157 | "." and "" are accepted as "." |
| Repository.ValidatePathDotDotName | repository.go:158 | a single name that merely starts with ".." (such as "..foo") is refused, because the test is on the string prefix |
| Repository.ValidatePathRelativeBase | repository.go:145-151 | a relative base is made absolute against the working directory first |
| Repository.ValidatePathNames | repository.go:145-162 | for a base that is absolute or relative to an absolute working directory, a path of plain names not starting with ".." is accepted unchanged, with or without a leading "/" |
| Repository.ValidatePathEscape | repository.go:157-159 | a request that climbs one level above the base through "n/../.." is refused |
| Repository.ExampleAbsoluteRequest | repository.go:150-157 | "/etc/passwd" against /repos/docs is accepted as "etc/passwd" |
| Repository.ExampleEscape | repository.go:157-159 | "src/../../etc/passwd" is refused against any absolute base whose last directory is not etc, /repos/docs among them |
| Repository.ExampleDotDotName | repository.go:158 | "..foo" against /repos/docs is refused |
| FileSystems.GetFileSystem | repository.go:132-141 | "local" and "" give a LocalFS at the path and leave the pool alone; "ssh" goes to the pool and binds the pooled connection; any other type is "unknown repository type" |
| FileSystems.WalkFs | repository.go:57-59 | a walk of either kind of file system is the walk of the view at the full path of its root |
| FileSystems.FullPathAgrees | repository.go:42-59 | local and remote file systems open the same full path for a relative path when no backslash is involved |
| Ssh.DecimalRoundTrip | ssh.go:38 | the decimal form of the port reads back as the port |
| Ssh.ConnectionKeyShared | ssh.go:37-39 | the key is user "@" host ":" port, so repositories that differ only in path or key file share one |
| Ssh.ConnectionKeyInjective | ssh.go:37-39 | for users without "@", equal keys mean equal user, host and port |
| Ssh.SshPool.Connect | ssh.go:90-134 | fails at the first failing step among key read, key parse, dial and sftp; a dialled client is closed when sftp fails; on success both clients are new and open; one attempt is logged and the map is unchanged |
| Ssh.SshPool.GetConnection | ssh.go:55-87 | a pooled connection that answers the probe is returned with no attempt; otherwise the key is dropped, one connection attempt is made, and the map gets the new connection or loses the key; no connection is closed |
| Ssh.SshPool.GetRemoteFS | ssh.go:42-52 | a RemoteFS binds the pooled connection, the repository's path and the repository; a failure leaves the key out of the map; other keys keep their connections |
| Ssh.SshPool.CloseOne | ssh.go:142-144 | the sftp client is closed, then the ssh client |
| Ssh.SshPool.Close | ssh.go:137-147 | every pooled connection is closed, sftp client before ssh client, in map order, and the pool is left empty |
| Ssh.ForwardSlashes | ssh.go:158-159 | every backslash becomes "/" and every other character stays |
| Ssh.RemotePathNormalised | ssh.go:156-209 | a remote full path has no backslash and is the join of base and path when that has none |
| RemoteWalk.WalkDir | ssh.go:212-248 | the recursive walk computes exactly the visits and the signal of the walk function |
| RemoteWalk.RemoteFsWalk | ssh.go:205-209 | RemoteFS.Walk walks the normalised full path of its root |
| RemoteWalk.WalkRootFirst | ssh.go:212-218 | the first visit is the root, with its info or its stat error |
| RemoteWalk.WalkStatFailure | ssh.go:213-216 | a failed stat is one visit without info, and the visitor's answer is the result |
| RemoteWalk.WalkSkipDirPrunes | ssh.go:218-221 | SkipDir for the root is absorbed and nothing below it is visited |
| RemoteWalk.WalkStops | ssh.go:218-245 | no visit before the last failed, and a non-nil result is the visitor's answer to the last visit |
| RemoteWalk.WalkStaysBelow | ssh.go:234-237 | every visited path is the root or lies below it by "/"-joined entry names |
| Registry.ParseRepositories | main.go:221-228 | the parse loop computes ParseAll over the map's iteration order |
| Registry.ParseAllSpec | main.go:221-228 | the loop succeeds iff every entry parses, and then maps each name to its parsed repository; a failure is the error of the first failing entry in order |
| Registry.ParseAllStops | main.go:223-226 | once an entry fails, the later entries do not change the result |
| Registry.ParseAllComplete | main.go:221-228 | the loop succeeds iff every entry parses, whatever the order, and then gives the fully parsed map |
| Registry.ParseAllOrderIndependent | main.go:221-228 | two iteration orders succeed or fail together and agree on success |
| Registry.ReadConfigAllOrNothing | main.go:210-228 | reading succeeds iff the file is read and decoded and every entry parses; the map's keys are then exactly the config's keys; a parse error comes from an entry of the config |
| Registry.Server.Load | main.go:107-136 | on success the registry is replaced and the config path becomes the path found, made absolute by filepath.Abs when that succeeds; on failure neither changes |
| Registry.StoredConfigPathIsAbsolute | main.go:107-111 | the kept config path is absolute and clean when the path found is absolute or the working directory is known; without a working directory a relative path is kept as found |
| Registry.Server.Reload | main.go:205-235 | on success the registry is replaced wholesale; on failure it is unchanged; the config path never changes |
| Registry.Server.GetFileSystem | main.go:349-359 | an unknown name is "unknown repository" and leaves the pool untouched; a known one is dispatched on its type, and a returned file system serves that repository; for an ssh one, a pooled connection that answers the probe is reused with the pool unchanged, otherwise the lookup fails exactly when one of the connection steps fails, and other keys keep their connections |
| Registry.Server.ListRepos | main.go:557-583 | one entry per repository in map order with its type and path, and host and user exactly for ssh ones; the count is the number of repositories |
| Skip.ShouldSkipName | main.go:648-662 | a name is skipped iff it starts with "." or is node_modules |
| Skip.ShouldSkipChild | main.go:648-662 | a path is judged by its last element only |
| Skip.DotGitIsSkipped | main.go:648-662 | ".git" is skipped |
| Skip.NodeModulesIsSkipped | main.go:648-662 | "src/node_modules" is skipped |
| Skip.NodeModulesSuffixIsNotSkipped | main.go:648-662 | "my.node_modules" is not skipped |
| Skip.InsideDotGitIsNotSkipped | main.go:648-662 | ".git/config" is not skipped |
| Tools.CollectPicked | main.go:414-421 | the append callback collects, in visit order, what it picks from each visit |
| Tools.CollectMembers | main.go:414-421 | a path is collected iff some visit picks it |
| Tools.PruneNeverSkips | main.go:403-411 | a walk with the pruning callback never returns SkipDir itself |
| Tools.WalkReaches | main.go:403-411 | with ReadDir entries that are plain names: a walk with the pruning callback reaches only paths whose every directory above is unskipped: it never descends into a skipped directory |
| Tools.KeptBelow | main.go:403-421 | a kept visit below the root is the root followed by plain, unskipped names |
| Listing.ListEntries | main.go:429-438 | the non-recursive listing is the directory's entries in order, skipped names dropped and directories marked with "/" |
| Listing.DisplayedMembers | main.go:429-438 | a name is listed iff some entry is unskipped and displays as it |
| Listing.DisplayedConcat | main.go:429-438 | the listing of two runs of entries is the listing of the first followed by that of the second |
| Listing.DisplayNameMarksDirectories | main.go:433-437 | an entry displays as its name, with a trailing "/" exactly for directories |
| Listing.RecursiveListingNeverSkipped | main.go:399-423 | the recursive listing never fails with SkipDir |
| Listing.ListingWalkReaches | main.go:399-411 | for a base that is absolute or relative to an absolute working directory, for a local file system, or a remote one whose joined path holds no backslash, with ReadDir entries that are plain names: the walked root is the clean target, with the base's elements followed by the accepted names, and the walk reaches only paths below it through unskipped directories |
| Listing.RecursiveListingMembers | main.go:399-423 | for a base that is absolute or relative to an absolute working directory, for a local file system, or a remote one whose joined path holds no backslash, with ReadDir entries that are plain names: x is listed iff the walk kept a regular, unskipped file at target/x; every listed path is plain unskipped names relative to the target, so the root and anything inside a skipped directory are never listed |
| Listing.ListFilesIn | main.go:378-443 | list_files on a file system: a rejected path, then a missing path, then a non-directory are reported in that order; then the recursive or the flat listing |
| Listing.HandleListFiles | main.go:361-453 | the repository is looked up first, and an unknown one leaves the pool untouched; the lookup reuses, reconnects or fails as Registry.Server.GetFileSystem states; otherwise the result is the listing on the file system that serves it |
| Search.SearchIn | main.go:518-545 | the search callback, which lets only the base path through unjudged, computes the search as written; where the walked root is judged alike by both callbacks, that is SearchFiles |
| Search.HandleSearchFiles | main.go:499-555 | the repository is looked up first, and the lookup reuses, reconnects or fails as Registry.Server.GetFileSystem states; otherwise the result is the search as written on the file system that serves it, and SearchFiles where the walked root is judged alike |
| Search.SearchRootIsCleanBase | main.go:518 | for a local file system, or a remote one whose joined path holds no backslash: the search walks the cleaned base, which is absolute exactly when the base is and has the same elements |
| Search.SearchAsWrittenAgrees | main.go:518-545 | the search as written and SearchFiles agree when the walked root is the base as spelled, or its stat fails, or it is skipped and not a directory, or it is unskipped and not a regular file |
| Search.FileRootAsWritten | main.go:518-541 | for a local file system, or a remote one whose joined path holds no backslash, the other disagreement: an unskipped regular file reached through a base not spelled clean is found as "." by the search as written when its name matches, while SearchFiles finds nothing |
| Search.SearchFilesSound | main.go:518-541 | for any spelling of the base, for a local file system, or a remote one whose joined path holds no backslash, with ReadDir entries that are plain names: every match is a kept regular, unskipped file below the walked root whose base name matches the pattern, relative to the root, made of plain unskipped names |
| Search.SearchFilesComplete | main.go:518-541 | for any spelling of the base, for a local file system, or a remote one whose joined path holds no backslash, with ReadDir entries that are plain names: every kept file of the walk whose base name matches is a match |
| Search.HiddenBaseFindsNothing | main.go:518-525 | as written, a hidden base spelled with a trailing "/" prunes its own root, so the search finds nothing |
| Search.TrailingSlashBase | main.go:518-525 | for a hidden directory d, the base "d/" walks d, which is not the base and is skipped |
| Search.HiddenBaseFileFound | main.go:518-541 | for a local file system, or a remote one whose joined path holds no backslash, the corrected search finds a matching file directly below the walked root, whatever the base's spelling |
| Reading.GuardedFileIsNotRead | main.go:472-488 | a file refused by a guard gets that refusal, whatever reading it would have given |
| Reading.ReadIsConfined | main.go:472-491 | for a base that is absolute or relative to an absolute working directory, on a local file system or a remote one whose joined read path holds no backslash, a file that passes the guards is read at a path whose elements start with the base's, absolute exactly when the base is; it is a regular file and its path is not skipped; for an absolute base the path is the clean target of the request |
| Reading.BackslashClimbEscapes | ssh.go:156-202 | as written, against a remote base /a/b, the request `\..\..\c\d` is a single name to ValidatePath and passes every guard; the path sent to the sftp server is /a/b//../../c/d, whose elements resolve to c and d, outside the base |
| Reading.ConfinedReadIsConfined | main.go:472-491 | with the corrected guards, a file that passes is read inside the base on a local and a remote file system alike, with no condition on backslashes |
| Reading.ConfinedRefusesClimb | ssh.go:156-202 | the corrected guards refuse `\..\..\c\d` against /a/b as a traversal |
| Reading.ReadReply | main.go:490-496 | the reply is "File: repo/file", a blank line, then exactly the contents read |
| Reading.HiddenFileIsDenied | main.go:486-488 | for a base that is absolute or relative to an absolute working directory, a hidden or node_modules file directly below the base is refused with "Access denied" |
| Reading.HiddenDirectoryFileIsReadable | main.go:486-488 | for a base that is absolute or relative to an absolute working directory, a plain file inside a hidden directory, such as .git/config, passes every guard |
| Reading.HandleReadFile | main.go:455-496 | the repository is looked up first, and the lookup reuses, reconnects or fails as Registry.Server.GetFileSystem states; then validation, stat, regular-file and skip checks in that order, then the read |
| Reading.SplitFirstSpec | main.go:598 | SplitN at "/" with at most two parts: the first part has no "/", and with a second part the text is first "/" second |
| Reading.SplitUriRoundTrip | main.go:588-607 | repo://name/file splits into name and file, and repo://name into name and "" |
| Reading.SplitUriParts | main.go:588-607 | an accepted URI is rebuilt from its parts, and the repository name never contains "/" |
| Reading.ResourceMatchesReadFile | main.go:615-644 | for a non-empty file the resource and read_file succeed together; the resource gives the bare contents; a failure is the same error constructor for both, so the two agree up to wording: the texts differ in case ("File does not exist" at main.go:478, "file does not exist" at main.go:622), and read_file reports it as a tool-result error where the resource returns a Go error |
| Reading.HandleReadResource | main.go:585-645 | a URI without repo:// is refused without touching the pool; then the repository is looked up, reusing, reconnecting or failing as Registry.Server.GetFileSystem states, before an empty file path is refused; then the same guards as read_file |

## Left out

- JSON decoding and the MCP framing are left out. A config entry arrives already decoded: as a string, as an object, or as undecodable. Tool results are Dafny values, not JSON.
- Error texts are left out. Each error is a constructor, and the message it stands for is noted beside it.
- The tools' argument extraction ("repo parameter is required" and the defaults of path and recursive) is left out. The handlers take their arguments already extracted.
- list_files returns a nil file list for an empty directory, which JSON encodes as null. That is not modelled: an empty listing is the empty sequence.
- The config-file watcher, goroutines and the registry's read/write lock are not modelled. Each operation is one atomic step.
- The config-path discovery in loadConfig (~/.config/fs-mcp, the executable's directory, the current directory) is left out. Registry.Server.Load takes the path it found and the working directory, and keeps the path made absolute as filepath.Abs does. The file it reads is a parameter, so reading the absolute path rather than the found one is not modelled.
- main's check for an empty registry and its fatal exits are not modelled.
- Logging is left out.
- The operating system, ssh and sftp are oracles: `view`, `read`, `probeOk` and `steps`. os.ReadFile, ReadDir and Stat, sftp's Open/Stat/Read and the keep-alive request are not modelled beyond what they answer.
- The local file system's filepath.Walk is modelled as the same walk as RemoteFS.walkDir. These differences of the standard walk are not captured:
  - it sorts each directory's entries lexically; the model takes the view's order;
  - it Lstats the root and every child, so a symlink is visited as a symlink and never descended; the model stats them, so a symlinked root directory, or a symlink to a directory below it, is walked into;
  - it reads a directory before calling the callback for it, and on a read error calls the callback once, with that error; both callbacks then fail, so an unreadable .git, node_modules or hidden directory fails the local walk, where the model prunes it first and succeeds;
  - it makes child paths with filepath.Join, which cleans them; the model appends "/" and the name as walkDir does, so under the base "/" the local walk visits "/etc" where the model visits "//etc";
  - SkipDir from a file skips the rest of its directory; the pruning callback never returns SkipDir for a file, so this does not arise in the tools.
- The order of ReadDir's entries is a parameter, given by the view.
- FilePath.Match handles only `*` and `?`. Character classes and escapes are left out, and search_files ignores Match's error anyway.
- Paths are Unix paths. Windows volume names are not modelled; the only Windows trace kept is the backslash rewrite of ForwardSlashes.
- Go's map iteration order is a parameter (`order`) with IterationOrder: the order lists each key once.
- Ssh.SshPool.GetConnection: a pooled connection that fails the probe is deleted from the map but not closed. This follows the code, whose comment speaks only of removing it.
- Ssh.SshPool.Connect: its ghost `dialed` result only names the client it closed on an sftp failure. The key material, the ssh configuration and the insecure host-key callback are not modelled.
- Reading.HandleReadResource: the unreachable `len(parts) < 1` branch of the URI parse is not modelled, because SplitN always returns at least one part.
- The `Info` method of the file systems is left out: no tool uses it.
- The JSON field names of list_repos and of the other results are not modelled.
- The standard library's Clean, Join, Rel and Abs are modelled as the pure functions of filepath.dfy. Abs consults the working directory `wd`; when there is none, ValidatePath fails as the code does.
- Listing.ListingWalkReaches, Listing.RecursiveListingMembers, Reading.ReadIsConfined, Reading.HiddenFileIsDenied, Reading.HiddenDirectoryFileIsReadable and Repository.ValidatePathNames are proved for a base that is absolute or relative to a known absolute working directory (AnchoredBase). A relative base with no working directory makes ValidatePath fail, so nothing is listed or read there.
- Remote backslashes: RemoteFS turns every backslash of the joined path into "/" after ValidatePath has judged it with "/" as the only separator, so on a remote file system a backslash in the base or in the request changes which path the sftp server opens (see "## Findings"). The confinement and walk lemmas below therefore hold for a local file system, or for a remote one whose joined path holds no backslash; without that condition they are false, as Reading.BackslashClimbEscapes shows.
- ReadDir entries: the walk lemmas below take the listing of every directory to name its entries with plain names (no "/", not "." or ".."), which is what os.ReadDir and an sftp directory listing give. A server that answered with other names is not modelled.
- Listing.ListingWalkReaches: holds for a local file system or a remote target without a backslash, with ReadDir entries that are plain names.
- Listing.RecursiveListingMembers: holds for a local file system or a remote target without a backslash, with ReadDir entries that are plain names.
- Search.SearchRootIsCleanBase: holds for a local file system or a remote base whose join with "." holds no backslash; for a remote base /srv/a\b the walk starts at /srv/a/b.
- Search.SearchFilesSound: holds for a local file system or a remote base without a backslash, with ReadDir entries that are plain names.
- Search.SearchFilesComplete: holds for a local file system or a remote base without a backslash, with ReadDir entries that are plain names.
- Search.HiddenBaseFileFound: holds for a local file system or a remote base without a backslash.
- Search.FileRootAsWritten: holds for a local file system or a remote base without a backslash.
- Tools.WalkReaches: holds for ReadDir entries that are plain names.
- Reading.ReadIsConfined: holds for a local file system or a remote read path without a backslash; the corrected guards of Reading.ConfinedReadIsConfined drop that condition.
- Reading.ReadIsConfined: the path read equals Join(Clean(base), file) only for an absolute base. A relative base is joined as written, so a base with ".." reaches the same place with a different spelling (base "..", working directory "/a/b", file "../a/x" is read as "../x", not "../../a/x"); the model states the base's elements as a prefix instead.

## Findings

| source | as written | input that shows it | evidently intended | confidence | as-written member | corrected member |
|---|---|---|---|---|---|---|
| main.go:518-525 | The search callback lets only `basePath` itself through unjudged, but the walk visits `Join(basePath, ".")`, the cleaned base. | A repository whose path is a hidden directory with a trailing slash, `/srv/.notes/`. The walk's first visit is `/srv/.notes`, which is not `/srv/.notes/` and whose base name `.notes` is skipped. The whole tree is pruned and search_files returns no matches. list_files on the same repository lists its files, because it compares against the cleaned target. | Let the walked root through as well as the base, as list_files does with its target. | not executed | Search.SearchAsWritten, Search.SearchIn, Search.HandleSearchFiles, Search.HiddenBaseFindsNothing, Search.TrailingSlashBase, Search.FileRootAsWritten | Search.SearchFiles, Search.SearchAsWrittenAgrees, Search.SearchFilesSound, Search.SearchFilesComplete, Search.HiddenBaseFileFound |
| ssh.go:156-202 | RemoteFS turns every backslash of the joined path into "/" after ValidatePath (repository.go:144-163) has judged the request with "/" as the only separator. | An ssh repository at `/srv/repo` and read_file of `\..\..\etc\passwd`. On Unix that is a single name that does not start with ".." and is not hidden, so ValidatePath accepts it unchanged and shouldSkip lets it through. Stat and ReadFile then send `/srv/repo//../../etc/passwd`, which resolves to `/etc/passwd` on the remote host. list_files and search_files reach the remote tree through the same rewrite. | Judge the path the sftp server will receive: refuse a remote request whose joined path holds a backslash. | not executed | Reading.ReadGuards, Reading.BackslashClimbEscapes | Reading.ConfinedReadGuards, Reading.ConfinedReadIsConfined, Reading.ConfinedRefusesClimb |
