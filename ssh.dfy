/**
 * The pool of ssh/sftp sessions, keyed by user@host:port, and the remote
 * file system bound to one of them. The network, the key file and the sftp
 * server are oracles: each call is told how the liveness probe and each step
 * of a connection attempt turn out.
 */
module Ssh {
  import opened Wrappers
  import opened FilePath
  import opened Repository

  // ---------------------------------------------------------------------
  // Decimal notation of the port (fmt's %d)

  function DigitChar(d: nat): char
    requires d < 10
  {
    "0123456789"[d]
  }

  function DigitValue(c: char): int {
    c as int - '0' as int
  }

  predicate IsDigits(s: string) {
    |s| >= 1 && forall i :: 0 <= i < |s| ==> '0' <= s[i] <= '9'
  }

  /** The decimal digits of a natural number, most significant first, no leading zeros. */
  function Digits(n: nat): (s: string)
    ensures IsDigits(s)
    ensures |s| > 1 ==> s[0] != '0'
  {
    if n < 10 then [DigitChar(n)] else Digits(n / 10) + [DigitChar(n % 10)]
  }

  /** %d of an int: a minus sign for negative values, then the digits. */
  function Decimal(n: int): string {
    if n < 0 then "-" + Digits(-n) else Digits(n)
  }

  /** The number a string of digits denotes. */
  function DigitsValue(s: string): int {
    if s == [] then 0 else 10 * DigitsValue(s[..|s| - 1]) + DigitValue(s[|s| - 1])
  }

  /** The number Decimal wrote out. */
  function DecimalValue(s: string): int {
    if |s| > 0 && s[0] == '-' then -DigitsValue(s[1..]) else DigitsValue(s)
  }

  lemma {:induction false} DigitsRoundTrip(n: nat)
    ensures DigitsValue(Digits(n)) == n
  {
    if n >= 10 {
      var s := Digits(n / 10) + [DigitChar(n % 10)];
      assert s[..|s| - 1] == Digits(n / 10);
      DigitsRoundTrip(n / 10);
    }
  }

  /** Reading back what %d wrote gives the number. */
  lemma DecimalRoundTrip(n: int)
    ensures DecimalValue(Decimal(n)) == n
  {
    if n < 0 {
      var d := Digits(-n);
      var s := "-" + d;
      assert s[0] == '-' && s[1..] == d;
      assert DecimalValue(s) == -DigitsValue(d);
      DigitsRoundTrip(-n);
    } else {
      var d := Digits(n);
      assert '0' <= d[0] <= '9';
      assert DecimalValue(d) == DigitsValue(d);
      DigitsRoundTrip(n);
    }
  }

  /** The decimal text contains neither separator of a connection key. */
  lemma DecimalHasNoSeparators(n: int)
    ensures '@' !in Decimal(n) && ':' !in Decimal(n)
  {
    var d := if n < 0 then Digits(-n) else Digits(n);
    assert forall i :: 0 <= i < |d| ==> d[i] != '@' && d[i] != ':';
  }

  // ---------------------------------------------------------------------
  // Connection keys

  /** connectionKey: user "@" host ":" port. */
  function ConnectionKey(repo: Repository): string {
    repo.user + "@" + repo.host + ":" + Decimal(repo.port)
  }

  /** The address ssh dials: host ":" port. */
  function Address(repo: Repository): string {
    repo.host + ":" + Decimal(repo.port)
  }

  /** The key reads only the user, the host and the port. */
  lemma ConnectionKeyShared(r1: Repository, r2: Repository)
    requires r1.user == r2.user && r1.host == r2.host && r1.port == r2.port
    ensures ConnectionKey(r1) == ConnectionKey(r2)
    ensures ConnectionKey(r1) == r1.user + "@" + Address(r1)
  {
  }

  /** Two texts that split at a separator absent from the first parts split alike. */
  lemma SplitAtFirst(a: string, b: string, c: string, d: string, sep: char)
    requires sep !in a && sep !in c
    requires a + [sep] + b == c + [sep] + d
    ensures a == c && b == d
  {
    var s := a + [sep] + b;
    assert s[|a|] == sep && s[|c|] == sep;
    assert forall i :: 0 <= i < |a| ==> s[i] == a[i];
    assert forall i :: 0 <= i < |c| ==> s[i] == c[i];
    assert |a| == |c|;
    assert a == s[..|a|];
    assert c == s[..|c|];
    assert b == s[|a| + 1..];
    assert d == s[|c| + 1..];
  }

  /** Two texts that split at a separator absent from the last parts split alike. */
  lemma SplitAtLast(a: string, b: string, c: string, d: string, sep: char)
    requires sep !in b && sep !in d
    requires a + [sep] + b == c + [sep] + d
    ensures a == c && b == d
  {
    var s := a + [sep] + b;
    assert |s| == |a| + 1 + |b| == |c| + 1 + |d|;
    assert s[|a|] == sep && s[|c|] == sep;
    assert forall i :: |a| < i < |s| ==> s[i] == b[i - |a| - 1];
    assert forall i :: |c| < i < |s| ==> s[i] == d[i - |c| - 1];
    assert |a| == |c|;
    assert a == s[..|a|];
    assert c == s[..|c|];
    assert b == s[|a| + 1..];
    assert d == s[|c| + 1..];
  }

  /**
   * While user names contain no "@", the key determines the user, the host
   * and the port: distinct endpoints never share a pooled connection.
   */
  lemma ConnectionKeyInjective(r1: Repository, r2: Repository)
    requires '@' !in r1.user && '@' !in r2.user
    requires ConnectionKey(r1) == ConnectionKey(r2)
    ensures r1.user == r2.user && r1.host == r2.host && r1.port == r2.port
  {
    var d1 := Decimal(r1.port);
    var d2 := Decimal(r2.port);
    DecimalHasNoSeparators(r1.port);
    DecimalHasNoSeparators(r2.port);
    assert ConnectionKey(r1) == r1.user + ['@'] + (r1.host + ":" + d1);
    assert ConnectionKey(r2) == r2.user + ['@'] + (r2.host + ":" + d2);
    SplitAtFirst(r1.user, r1.host + ":" + d1, r2.user, r2.host + ":" + d2, '@');
    assert r1.host + ":" + d1 == r1.host + [':'] + d1;
    SplitAtLast(r1.host, d1, r2.host, d2, ':');
    DecimalRoundTrip(r1.port);
    DecimalRoundTrip(r2.port);
  }

  // ---------------------------------------------------------------------
  // Sessions

  /** An *ssh.Client: open from a successful dial until closed. */
  class SshClient {
    var open: bool

    constructor ()
      ensures open
    {
      open := true;
    }

    method Close()
      modifies this
      ensures !open
    {
      open := false;
    }
  }

  /** An *sftp.Client running over an ssh session. */
  class SftpClient {
    var open: bool

    constructor ()
      ensures open
    {
      open := true;
    }

    method Close()
      modifies this
      ensures !open
    {
      open := false;
    }
  }

  /** SSHConnection: the ssh session and the sftp client over it. */
  datatype Connection = Connection(client: SshClient, sftp: SftpClient)

  /** How each step of a connection attempt turns out. */
  datatype ConnectSteps = ConnectSteps(keyRead: bool, keyParsed: bool, dialed: bool, sftpStarted: bool)

  datatype ConnectError =
    | KeyReadFailed(keyPath: string)    // "failed to read SSH key <path>"
    | KeyParseFailed(keyPath: string)   // "failed to parse SSH key <path>"
    | DialFailed(addr: string)          // "failed to connect to <host:port>"
    | SftpFailed                        // "failed to create SFTP client"

  /** The error of the first step to fail, in the order read, parse, dial, sftp. */
  function FirstFailure(repo: Repository, steps: ConnectSteps): Option<ConnectError>
  {
    if !steps.keyRead then Some(KeyReadFailed(repo.keyFile))
    else if !steps.keyParsed then Some(KeyParseFailed(repo.keyFile))
    else if !steps.dialed then Some(DialFailed(Address(repo)))
    else if !steps.sftpStarted then Some(SftpFailed)
    else None
  }

  /** One event of SSHPool.Close. */
  datatype CloseEvent = SftpClosed(key: string) | ClientClosed(key: string)

  /** The events of closing the connections under `keys`, in that order: sftp first, then ssh. */
  ghost function CloseEvents(keys: seq<string>): seq<CloseEvent> {
    if keys == [] then [] else [SftpClosed(keys[0]), ClientClosed(keys[0])] + CloseEvents(keys[1..])
  }

  lemma {:induction false} CloseEventsAppend(keys: seq<string>, k: string)
    ensures CloseEvents(keys + [k]) == CloseEvents(keys) + [SftpClosed(k), ClientClosed(k)]
    decreases |keys|
  {
    if keys != [] {
      assert (keys + [k])[1..] == keys[1..] + [k];
      CloseEventsAppend(keys[1..], k);
    } else {
      assert keys + [k] == [k];
    }
  }

  lemma CloseEventsStep(keys: seq<string>, i: nat)
    requires i < |keys|
    ensures CloseEvents(keys[..i + 1]) == CloseEvents(keys[..i]) + [SftpClosed(keys[i]), ClientClosed(keys[i])]
  {
    CloseEventsAppend(keys[..i], keys[i]);
    assert keys[..i + 1] == keys[..i] + [keys[i]];
  }

  /** The remote file system of one repository: a pooled session and the repository's root. */
  datatype RemoteFS = RemoteFS(conn: Connection, basePath: string, repo: Repository)

  // ---------------------------------------------------------------------
  // The pool

  class SshPool {
    var conns: map<string, Connection>
    /** The key of every connection attempt, in order. */
    ghost var attempts: seq<string>
    /** What Close has closed, in order. */
    ghost var closeLog: seq<CloseEvent>

    /** The session objects of the pooled connections. */
    ghost function Objects(): set<object>
      reads this
    {
      (set k | k in conns :: conns[k].client as object) + (set k | k in conns :: conns[k].sftp as object)
    }

    /** Every pooled connection is open. */
    ghost predicate Valid()
      reads this, Objects()
    {
      forall k :: k in conns ==> conns[k].client.open && conns[k].sftp.open
    }

    /** NewSSHPool. */
    constructor ()
      ensures conns == map[] && attempts == [] && closeLog == []
      ensures Valid()
    {
      conns := map[];
      attempts := [];
      closeLog := [];
    }

    /**
     * connect: the first step to fail decides the error; an ssh session whose
     * sftp client could not be started is closed before the error is returned.
     * `dialed` is the session the dial opened, if it got that far.
     */
    method Connect(repo: Repository, steps: ConnectSteps) returns (r: Result<Connection, ConnectError>, ghost dialed: Option<SshClient>)
      modifies this
      ensures conns == old(conns) && closeLog == old(closeLog)
      ensures attempts == old(attempts) + [ConnectionKey(repo)]
      ensures r.Err? <==> FirstFailure(repo, steps).Some?
      ensures r.Err? ==> r.error == FirstFailure(repo, steps).value
      ensures dialed.Some? <==> steps.keyRead && steps.keyParsed && steps.dialed
      ensures dialed.Some? ==> fresh(dialed.value)
      ensures r.Err? && dialed.Some? ==> !dialed.value.open
      ensures r.Ok? ==> dialed == Some(r.value.client) && fresh(r.value.sftp)
      ensures r.Ok? ==> r.value.client.open && r.value.sftp.open
    {
      attempts := attempts + [ConnectionKey(repo)];
      dialed := None;
      if !steps.keyRead {
        return Err(KeyReadFailed(repo.keyFile)), dialed;
      }
      if !steps.keyParsed {
        return Err(KeyParseFailed(repo.keyFile)), dialed;
      }
      if !steps.dialed {
        return Err(DialFailed(Address(repo))), dialed;
      }
      var client := new SshClient();
      dialed := Some(client);
      if !steps.sftpStarted {
        client.Close();
        return Err(SftpFailed), dialed;
      }
      var sftp := new SftpClient();
      r := Ok(Connection(client, sftp));
    }

    /**
     * getConnection: a pooled connection whose probe succeeds is reused
     * without dialing; otherwise the stale entry is dropped and exactly one
     * connection attempt is made, whose connection is pooled under the key.
     * `probeOk` is the outcome of the keepalive request.
     */
    method GetConnection(repo: Repository, probeOk: bool, steps: ConnectSteps) returns (r: Result<Connection, ConnectError>)
      requires Valid()
      modifies this
      ensures Valid() && closeLog == old(closeLog)
      ensures var key := ConnectionKey(repo);
        if key in old(conns) && probeOk then
          && r == Ok(old(conns)[key])
          && conns == old(conns)
          && attempts == old(attempts)
        else
          && attempts == old(attempts) + [key]
          && (r.Err? <==> FirstFailure(repo, steps).Some?)
          && (r.Err? ==> r.error == FirstFailure(repo, steps).value && conns == old(conns) - {key})
          && (r.Ok? ==> conns == old(conns)[key := r.value] && fresh(r.value.client) && fresh(r.value.sftp))
    {
      var key := ConnectionKey(repo);
      if key in conns {
        if probeOk {
          return Ok(conns[key]);
        }
        conns := conns - {key};
      }
      ghost var before := conns;
      assert forall k :: k in before ==> before[k].client.open && before[k].sftp.open;
      ghost var dialed;
      r, dialed := Connect(repo, steps);
      if r.Err? {
        return;
      }
      conns := conns[key := r.value];
      forall k | k in conns
        ensures conns[k].client.open && conns[k].sftp.open
      {
        if k != key {
          assert conns[k] == before[k];
        }
      }
    }

    /** GetRemoteFS: the file system over the repository's connection, rooted at its path. */
    method GetRemoteFS(repo: Repository, probeOk: bool, steps: ConnectSteps) returns (r: Result<RemoteFS, ConnectError>)
      requires Valid()
      modifies this
      ensures Valid() && closeLog == old(closeLog)
      ensures var key := ConnectionKey(repo);
        && (r.Ok? ==> key in conns && r.value == RemoteFS(conns[key], repo.path, repo))
        && (r.Err? ==> key !in conns && conns == old(conns) - {key})
        && (key in old(conns) && probeOk ==> r.Ok? && conns == old(conns))
        && (!(key in old(conns) && probeOk) ==>
              attempts == old(attempts) + [key] && (r.Err? <==> FirstFailure(repo, steps).Some?))
        && forall k :: k != key ==> (k in conns <==> k in old(conns)) && (k in conns ==> conns[k] == old(conns)[k])
    {
      var c := GetConnection(repo, probeOk, steps);
      if c.Err? {
        return Err(c.error);
      }
      r := Ok(RemoteFS(c.value, repo.path, repo));
    }

    /** The body of Close for one pooled connection: its sftp client, then its ssh session. */
    method CloseOne(k: string)
      requires k in conns
      modifies this, conns[k].client, conns[k].sftp
      ensures conns == old(conns) && attempts == old(attempts)
      ensures !conns[k].client.open && !conns[k].sftp.open
      ensures closeLog == old(closeLog) + [SftpClosed(k), ClientClosed(k)]
    {
      var c := conns[k];
      c.sftp.Close();
      closeLog := closeLog + [SftpClosed(k)];
      c.client.Close();
      closeLog := closeLog + [ClientClosed(k)];
    }

    /**
     * Close: every pooled connection is closed, sftp before ssh, in the
     * order `range` visits the pool, and the pool is emptied.
     */
    method Close(order: seq<string>)
      requires IterationOrder(conns, order)
      modifies this, Objects()
      ensures conns == map[] && Valid() && attempts == old(attempts)
      ensures forall k :: k in old(conns) ==> !old(conns)[k].client.open && !old(conns)[k].sftp.open
      ensures closeLog == old(closeLog) + CloseEvents(order)
    {
      for i := 0 to |order|
        invariant conns == old(conns) && attempts == old(attempts)
        invariant forall j :: 0 <= j < i ==> !conns[order[j]].client.open && !conns[order[j]].sftp.open
        invariant closeLog == old(closeLog) + CloseEvents(order[..i])
      {
        CloseEventsStep(order, i);
        CloseOne(order[i]);
      }
      assert order[..|order|] == order;
      conns := map[];
    }
  }

  // ---------------------------------------------------------------------
  // Remote paths

  /** strings.ReplaceAll(s, `\`, "/"). */
  function ForwardSlashes(s: string): (r: string)
    ensures |r| == |s|
    ensures forall i :: 0 <= i < |s| ==> r[i] == (if s[i] == '\\' then '/' else s[i])
  {
    if s == [] then [] else [if s[0] == '\\' then '/' else s[0]] + ForwardSlashes(s[1..])
  }

  /** The path sent to the sftp server for `path` below the remote root. */
  function RemotePath(fs: RemoteFS, path: string): string {
    ForwardSlashes(Join(fs.basePath, path))
  }

  /**
   * A remote path holds no backslash; where the joined path held none, it
   * is exactly the joined path.
   */
  lemma RemotePathNormalised(fs: RemoteFS, path: string)
    ensures '\\' !in RemotePath(fs, path)
    ensures '\\' !in Join(fs.basePath, path) ==> RemotePath(fs, path) == Join(fs.basePath, path)
  {
    var j := Join(fs.basePath, path);
    var r := RemotePath(fs, path);
    assert forall i :: 0 <= i < |r| ==> r[i] != '\\';
  }
}
