/**
 * The Go client of the proxy (`IDProxyClient`): a deduplicated, append-only
 * list of Unix-socket paths, a rotation counter, round-robin failover over the
 * sockets for each request, and the discovery of sockets in a two-level
 * directory tree.
 *
 * The network and the file system are not modelled: one request to one
 * socket is the `Network` oracle, a directory listing is the `FileSystem`
 * oracle. The mutex and the atomic counter are there for concurrent callers;
 * the model runs calls one after another.
 */
module IdProxyClient {
  import opened Wrappers

  const DefaultSocketsRootPath: string := "/tmp/idproxy_sockets"
  const DefaultSocketName: string := "idproxy.sock"

  // ---------------------------------------------------------------------------
  // 32-bit integers as Go computes them
  // ---------------------------------------------------------------------------

  const Int32Min: int := -0x8000_0000
  const Int32Max: int := 0x7fff_ffff

  predicate IsInt32(x: int)
  {
    Int32Min <= x <= Int32Max
  }

  /** Two's-complement wrap-around of an `int32` result. */
  function Wrap32(x: int): (r: int)
    ensures IsInt32(r)
    ensures IsInt32(x) ==> r == x
    ensures x == Int32Max + 1 ==> r == Int32Min
  {
    (x + 0x8000_0000) % 0x1_0000_0000 - 0x8000_0000
  }

  /** Go's `%`: division truncates toward zero, so the remainder takes the sign of the dividend. */
  function GoRem(a: int, b: int): (r: int)
    requires b > 0
    ensures a >= 0 ==> r == a % b
    ensures a < 0 ==> -b < r <= 0
    ensures (a - r) % b == 0
  {
    if a >= 0 then
      var r := a % b;
      MultipleMod(a / b, b);
      r
    else
      var q := (-a) / b;
      var r := -((-a) % b);
      assert a - r == (-q) * b by { assert (-q) * b == -(q * b); }
      MultipleMod(-q, b);
      r
  }

  lemma MultipleMod(q: int, b: int)
    requires b > 0
    ensures (q * b) % b == 0
  {
    ModUnique(q * b, b, q, 0);
  }

  // ---------------------------------------------------------------------------
  // The socket list (`addSockets`)
  // ---------------------------------------------------------------------------

  predicate NoDuplicates<T(==)>(s: seq<T>)
  {
    forall i, j :: 0 <= i < j < |s| ==> s[i] != s[j]
  }

  /** The `addSockets` loop: each path not yet in the list is appended, in input order. */
  function AppendNew(s: seq<string>, paths: seq<string>): (r: seq<string>)
    ensures |s| <= |r| <= |s| + |paths|
    ensures r[..|s|] == s
    decreases |paths|
  {
    if paths == [] then s
    else AppendNew(if paths[0] in s then s else s + [paths[0]], paths[1..])
  }

  /** Position of the first occurrence of `x`. */
  function IndexOf(xs: seq<string>, x: string): (i: nat)
    requires x in xs
    ensures i < |xs| && xs[i] == x && x !in xs[..i]
  {
    if xs[0] == x then 0 else 1 + IndexOf(xs[1..], x)
  }

  /** The list keeps its elements, gains exactly the given paths, and gains no duplicate. */
  lemma {:induction false} AppendNewContents(s: seq<string>, paths: seq<string>)
    ensures forall x :: x in AppendNew(s, paths) <==> x in s || x in paths
    ensures NoDuplicates(s) ==> NoDuplicates(AppendNew(s, paths))
    decreases |paths|
  {
    if paths != [] {
      var s' := if paths[0] in s then s else s + [paths[0]];
      AppendNewContents(s', paths[1..]);
      assert paths == [paths[0]] + paths[1..];
    }
  }

  /** Paths that are all present already leave the list as it is. */
  lemma {:induction false} AppendNewPresent(s: seq<string>, paths: seq<string>)
    requires forall x :: x in paths ==> x in s
    ensures AppendNew(s, paths) == s
    decreases |paths|
  {
    if paths != [] {
      assert paths[0] in s;
      AppendNewPresent(s, paths[1..]);
    }
  }

  /** Adding the same paths a second time changes nothing. */
  lemma AppendNewIdempotent(s: seq<string>, paths: seq<string>)
    ensures AppendNew(AppendNew(s, paths), paths) == AppendNew(s, paths)
  {
    AppendNewContents(s, paths);
    AppendNewPresent(AppendNew(s, paths), paths);
  }

  /**
   * The appended part holds only paths that were absent, each taken from the
   * input, in the order of their first occurrence there.
   */
  lemma {:induction false} AppendNewOrder(s: seq<string>, paths: seq<string>)
    ensures var r := AppendNew(s, paths);
      && (forall a :: |s| <= a < |r| ==> r[a] in paths && r[a] !in s)
      && (forall a, b :: |s| <= a < b < |r| ==> IndexOf(paths, r[a]) < IndexOf(paths, r[b]))
    decreases |paths|
  {
    if paths != [] {
      var p := paths[0];
      var s' := if p in s then s else s + [p];
      var r := AppendNew(s, paths);
      assert r == AppendNew(s', paths[1..]);
      AppendNewOrder(s', paths[1..]);
      forall a | |s'| <= a < |r|
        ensures r[a] in paths && r[a] !in s && r[a] != p
        ensures IndexOf(paths, r[a]) == 1 + IndexOf(paths[1..], r[a])
      {
      }
      if p !in s {
        assert r[|s|] == p && IndexOf(paths, p) == 0;
        forall a | |s| < a < |r|
          ensures IndexOf(paths, r[a]) > 0
        {
        }
      }
    }
  }

  // ---------------------------------------------------------------------------
  // Socket rotation
  // ---------------------------------------------------------------------------

  /** `socketIdx` as written: the `int32` sum wraps and `%` truncates, so a negative counter gives a negative index. */
  function SocketIndexAsWritten(start: int, i: nat, n: nat): (r: int)
    requires n > 0
    ensures -(n as int) < r < n
    ensures (Wrap32(start + i) - r) % n == 0
    ensures r >= 0 <==> Wrap32(start + i) >= 0 || r == 0
  {
    GoRem(Wrap32(start + i), n)
  }

  /** Once the counter has wrapped, or the sum overflows, the index as written leaves the slice. */
  lemma IndexAsWrittenGoesNegative()
    ensures SocketIndexAsWritten(Int32Max, 1, 3) == -2
    ensures SocketIndexAsWritten(Int32Min, 0, 3) == -2
    ensures Wrap32(Int32Max + 1) == Int32Min
  {
  }

  /** Before any wrap-around the index as written agrees with the intended one. */
  lemma IndexAsWrittenBeforeWrap(start: int, i: nat, n: nat)
    requires n > 0 && 0 <= start && start + i <= Int32Max
    ensures SocketIndexAsWritten(start, i, n) == SocketIndex(start, i, n)
  {
  }

  /** Attempt `i` of a call that starts at `start`: the counter modulo the number of sockets, always in bounds. */
  function SocketIndex(start: int, i: nat, n: nat): (r: nat)
    requires n > 0
    ensures r < n
  {
    (start + i) % n
  }

  /** Euclidean remainder is determined by any quotient/remainder split. */
  lemma ModUnique(x: int, n: int, q: int, r: int)
    requires n > 0 && 0 <= r < n && x == q * n + r
    ensures x % n == r
  {
    var q' := x / n;
    var r' := x % n;
    assert x == q' * n + r';
    if q' > q {
      assert (q' - q) * n == q' * n - q * n;
      MulAtLeast(q' - q, n);
    } else if q' < q {
      assert (q - q') * n == q * n - q' * n;
      MulAtLeast(q - q', n);
    }
  }

  lemma {:induction false} MulAtLeast(a: int, n: int)
    requires a >= 1 && n > 0
    ensures a * n >= n
    decreases a
  {
    if a > 1 {
      MulAtLeast(a - 1, n);
      assert a * n == (a - 1) * n + n;
    }
  }

  /** The attempt of a call starting at `start` that lands on socket `j`. */
  function AttemptOfSocket(start: int, j: nat, n: nat): (i: nat)
    requires n > 0
    ensures i < n
  {
    (j - start) % n
  }

  /** Within one call every socket is tried exactly once: the indices are distinct and cover 0..n-1. */
  lemma RotationIsPermutation(start: int, n: nat)
    requires n > 0
    ensures forall i, k :: 0 <= i < k < n ==> SocketIndex(start, i, n) != SocketIndex(start, k, n)
    ensures forall j :: 0 <= j < n ==> SocketIndex(start, AttemptOfSocket(start, j, n), n) == j
  {
    forall i, k | 0 <= i < k < n
      ensures SocketIndex(start, i, n) != SocketIndex(start, k, n)
    {
      var q := (start + i) / n;
      var r := (start + i) % n;
      assert start + i == q * n + r;
      if r + (k - i) < n {
        ModUnique(start + k, n, q, r + (k - i));
      } else {
        ModUnique(start + k, n, q + 1, r + (k - i) - n);
      }
    }
    forall j | 0 <= j < n
      ensures SocketIndex(start, AttemptOfSocket(start, j, n), n) == j
    {
      var d := (j - start) / n;
      assert j - start == d * n + (j - start) % n;
      ModUnique(start + (j - start) % n, n, -d, j);
    }
  }

  /** Successive calls start on successive sockets while the counter does not wrap. */
  lemma SuccessiveStarts(counter: int, n: nat)
    requires n > 0 && IsInt32(counter) && counter < Int32Max
    ensures SocketIndex(Wrap32(counter + 1), 0, n) == (SocketIndex(counter, 0, n) + 1) % n
  {
    var q := counter / n;
    var r := counter % n;
    assert counter == q * n + r;
    assert Wrap32(counter + 1) == counter + 1;
    if r + 1 < n {
      ModUnique(counter + 1, n, q, r + 1);
      ModUnique(r + 1, n, 0, r + 1);
    } else {
      ModUnique(counter + 1, n, q + 1, 0);
      ModUnique(r + 1, n, 1, 0);
    }
  }

  // ---------------------------------------------------------------------------
  // One request to one socket (`doRequest`)
  // ---------------------------------------------------------------------------

  /** What an HTTP exchange over one socket gives back. */
  datatype Exchange =
    | DialFailed                              // dialling or sending failed
    | ReadFailed                              // the response body could not be read
    | Response(status: int, body: seq<Byte>)

  /** The network, uninterpreted: the exchange per socket and request body, and JSON string decoding. */
  datatype Network = Network(
    exchange: (string, seq<Byte>) -> Exchange,
    unmarshal: seq<Byte> -> Option<seq<Byte>>)

  const StatusOK: int := 200

  datatype ClientError =
    | NoSockets                                         // "no sockets available"
    | MarshalFailed                                     // the request could not be encoded as JSON
    | RequestFailed(socket: string)
    | ReadBodyFailed(socket: string)
    | BadStatus(socket: string, status: int, body: seq<Byte>)
    | UnmarshalFailed(body: seq<Byte>)
    | AllFailed(last: ClientError)                      // "all idproxy instances failed", wrapping the last error
    | ListRootFailed(root: string)
    | ListSubdirFailed(name: string)
    | GetSocketsFailed(cause: ClientError)              // "get sockets: ..."

  /** The errors one socket can report. */
  predicate IsSocketError(e: ClientError)
  {
    e.RequestFailed? || e.ReadBodyFailed? || e.BadStatus? || e.UnmarshalFailed?
  }

  /** `doRequest`: only a 200 answer whose body is a JSON string succeeds; any other status is an error carrying it. */
  function DoRequest(net: Network, sock: string, body: seq<Byte>): (r: Result<seq<Byte>, ClientError>)
    ensures r.Success? <==>
      && net.exchange(sock, body).Response?
      && net.exchange(sock, body).status == StatusOK
      && net.unmarshal(net.exchange(sock, body).body).Some?
    ensures r.Success? ==> r.value == net.unmarshal(net.exchange(sock, body).body).value
    ensures net.exchange(sock, body).Response? && net.exchange(sock, body).status != StatusOK ==>
      r == Failure(BadStatus(sock, net.exchange(sock, body).status, net.exchange(sock, body).body))
    ensures r.Failure? ==> IsSocketError(r.error)
  {
    match net.exchange(sock, body)
    case DialFailed => Failure(RequestFailed(sock))
    case ReadFailed => Failure(ReadBodyFailed(sock))
    case Response(status, answer) =>
      if status != StatusOK then Failure(BadStatus(sock, status, answer))
      else match net.unmarshal(answer)
        case None => Failure(UnmarshalFailed(answer))
        case Some(text) => Success(text)
  }

  // ---------------------------------------------------------------------------
  // Failover
  // ---------------------------------------------------------------------------

  /** The answers of the sockets in the order one call tries them. */
  function Attempts(net: Network, sockets: seq<string>, body: seq<Byte>, start: int): (rs: seq<Result<seq<Byte>, ClientError>>)
    requires |sockets| > 0
  {
    seq(|sockets|, i requires 0 <= i < |sockets| => DoRequest(net, sockets[SocketIndex(start, i, |sockets|)], body))
  }

  /** The first success in trying order, or an error wrapping the last failure. */
  function Failover(results: seq<Result<seq<Byte>, ClientError>>): (r: Result<seq<Byte>, ClientError>)
    requires |results| > 0
    ensures r.Success? <==> exists i :: 0 <= i < |results| && results[i].Success?
    ensures r.Success? ==> exists i :: 0 <= i < |results| && results[i] == r && forall j :: 0 <= j < i ==> results[j].Failure?
    ensures r.Failure? ==> r == Failure(AllFailed(results[|results| - 1].error))
    decreases |results|
  {
    if results[0].Success? then results[0]
    else if |results| == 1 then Failure(AllFailed(results[0].error))
    else
      var r := Failover(results[1..]);
      assert forall i :: 1 <= i < |results| ==> results[i] == results[1..][i - 1];
      r
  }

  /** Skipping failures at the front does not change the outcome. */
  lemma {:induction false} FailoverSkip(results: seq<Result<seq<Byte>, ClientError>>, k: nat)
    requires k < |results|
    requires forall j :: 0 <= j < k ==> results[j].Failure?
    ensures Failover(results) == Failover(results[k..])
    decreases k
  {
    if k > 0 {
      assert results[1..][k - 1..] == results[k..];
      FailoverSkip(results[1..], k - 1);
    }
  }

  /** When every socket fails the error wraps that of the last one tried, index (start+n-1) mod n. */
  lemma AllFailedReportsLastTried(net: Network, sockets: seq<string>, body: seq<Byte>, start: int)
    requires |sockets| > 0
    requires forall i :: 0 <= i < |sockets| ==> DoRequest(net, sockets[i], body).Failure?
    ensures Failover(Attempts(net, sockets, body, start))
      == Failure(AllFailed(DoRequest(net, sockets[(start + |sockets| - 1) % |sockets|], body).error))
  {
    var rs := Attempts(net, sockets, body, start);
    assert rs[|sockets| - 1] == DoRequest(net, sockets[SocketIndex(start, |sockets| - 1, |sockets|)], body);
  }

  /**
   * Two sockets, every request answered 500: the call made with the counter at
   * 1 tries socket 2 and then socket 1, and reports the failure of socket 1.
   */
  lemma SecondCallReportsFirstSocket(net: Network, s1: string, s2: string, body: seq<Byte>, answer: seq<Byte>)
    requires net.exchange(s1, body) == Response(500, answer) && net.exchange(s2, body) == Response(500, answer)
    ensures Failover(Attempts(net, [s1, s2], body, 1)) == Failure(AllFailed(BadStatus(s1, 500, answer)))
  {
    var sockets := [s1, s2];
    forall i | 0 <= i < |sockets|
      ensures DoRequest(net, sockets[i], body).Failure?
    {
      assert sockets[i] == s1 || sockets[i] == s2;
    }
    AllFailedReportsLastTried(net, sockets, body, 1);
    assert (1 + |sockets| - 1) % |sockets| == 0;
  }

  /**
   * The failover loop of `ExecuteAuthorizedRequest`: attempt `i` asks socket
   * `(start + i) mod n`; the first success is returned and no later socket is
   * asked; after n failures the last error is wrapped. `tried` lists the
   * socket indices asked, in order.
   */
  method TryInTurn(net: Network, sockets: seq<string>, body: seq<Byte>, start: int)
    returns (r: Result<seq<Byte>, ClientError>, ghost tried: seq<nat>)
    requires |sockets| > 0
    ensures r == Failover(Attempts(net, sockets, body, start))
    ensures 1 <= |tried| <= |sockets|
    ensures forall k :: 0 <= k < |tried| ==> tried[k] == SocketIndex(start, k, |sockets|)
    ensures forall k :: 0 <= k < |tried| - 1 ==> DoRequest(net, sockets[tried[k]], body).Failure?
    ensures r.Success? ==> r == DoRequest(net, sockets[tried[|tried| - 1]], body)
    ensures r.Failure? ==> |tried| == |sockets|
  {
    var n := |sockets|;
    ghost var results := Attempts(net, sockets, body, start);
    var lastErr := NoSockets;
    tried := [];
    var i := 0;
    while i < n
      invariant 0 <= i <= n && |tried| == i
      invariant forall k :: 0 <= k < i ==> tried[k] == SocketIndex(start, k, n) && results[k].Failure?
      invariant i > 0 ==> lastErr == results[i - 1].error
    {
      var idx := SocketIndex(start, i, n);
      tried := tried + [idx];
      var response := DoRequest(net, sockets[idx], body);
      if response.Success? {
        FailoverSkip(results, i);
        return response, tried;
      }
      lastErr := response.error;
      i := i + 1;
    }
    r := Failure(AllFailed(lastErr));
  }

  // ---------------------------------------------------------------------------
  // Socket discovery (`getSockets`)
  // ---------------------------------------------------------------------------

  datatype DirEntry = DirEntry(name: string, isDir: bool, isSocket: bool)

  /** The file system, uninterpreted: `os.ReadDir` (None on error) and `path.Join`. */
  datatype FileSystem = FileSystem(
    readDir: string -> Option<seq<DirEntry>>,
    join: (string, string) -> string)

  /** A non-directory entry with the socket name and socket mode. */
  predicate IsSocketEntry(e: DirEntry, socketName: string)
  {
    !e.isDir && e.name == socketName && e.isSocket
  }

  /** The socket paths of one subdirectory listing, in listing order. */
  function Matches(fs: FileSystem, subPath: string, socketName: string, subEntries: seq<DirEntry>): seq<string>
  {
    if subEntries == [] then []
    else
      var e := subEntries[|subEntries| - 1];
      Matches(fs, subPath, socketName, subEntries[..|subEntries| - 1])
        + (if IsSocketEntry(e, socketName) then [fs.join(subPath, e.name)] else [])
  }

  /** The paths collected over the root listing `entries`; the first unreadable subdirectory aborts. */
  function Collected(fs: FileSystem, root: string, socketName: string, entries: seq<DirEntry>)
    : Result<seq<string>, ClientError>
  {
    if entries == [] then Success([])
    else
      var e := entries[|entries| - 1];
      match Collected(fs, root, socketName, entries[..|entries| - 1])
      case Failure(err) => Failure(err)
      case Success(found) =>
        if !e.isDir then Success(found)
        else match fs.readDir(fs.join(root, e.name))
          case None => Failure(ListSubdirFailed(e.name))
          case Some(subEntries) => Success(found + Matches(fs, fs.join(root, e.name), socketName, subEntries))
  }

  /** What `getSockets` returns. */
  function ListSockets(fs: FileSystem, root: string, socketName: string): Result<seq<string>, ClientError>
  {
    match fs.readDir(root)
    case None => Failure(ListRootFailed(root))
    case Some(entries) => Collected(fs, root, socketName, entries)
  }

  /** A subdirectory contributes `subPath/socketName` once per socket entry of that name, and nothing else. */
  lemma {:induction false} MatchesContents(fs: FileSystem, subPath: string, socketName: string, subEntries: seq<DirEntry>)
    ensures |Matches(fs, subPath, socketName, subEntries)| <= |subEntries|
    ensures forall x :: x in Matches(fs, subPath, socketName, subEntries) <==>
      (exists e :: e in subEntries && IsSocketEntry(e, socketName)) && x == fs.join(subPath, socketName)
  {
    if subEntries != [] {
      var init := subEntries[..|subEntries| - 1];
      var e := subEntries[|subEntries| - 1];
      MatchesContents(fs, subPath, socketName, init);
      assert subEntries == init + [e];
      forall x
        ensures x in Matches(fs, subPath, socketName, subEntries) <==>
          (exists e' :: e' in subEntries && IsSocketEntry(e', socketName)) && x == fs.join(subPath, socketName)
      {
        if exists e' :: e' in subEntries && IsSocketEntry(e', socketName) {
          var e' :| e' in subEntries && IsSocketEntry(e', socketName);
          if e' != e {
            assert e' in init;
          }
        }
      }
    }
  }

  /** An error in a prefix of the listing is the error of the whole listing. */
  lemma {:induction false} CollectedPrefixFailure(fs: FileSystem, root: string, socketName: string, entries: seq<DirEntry>, k: nat)
    requires k <= |entries|
    requires Collected(fs, root, socketName, entries[..k]).Failure?
    ensures Collected(fs, root, socketName, entries) == Collected(fs, root, socketName, entries[..k])
    decreases |entries| - k
  {
    if k < |entries| {
      assert entries[..k + 1][..k] == entries[..k];
      CollectedPrefixFailure(fs, root, socketName, entries, k + 1);
    } else {
      assert entries[..k] == entries;
    }
  }

  /**
   * The listing succeeds exactly when every subdirectory can be read; then it
   * holds exactly `root/d/socketName` for every subdirectory `d` with a socket
   * entry of that name.
   */
  lemma {:induction false} CollectedContents(fs: FileSystem, root: string, socketName: string, entries: seq<DirEntry>)
    ensures Collected(fs, root, socketName, entries).Success? <==>
      forall d :: d in entries && d.isDir ==> fs.readDir(fs.join(root, d.name)).Some?
    ensures Collected(fs, root, socketName, entries).Success? ==>
      forall x :: x in Collected(fs, root, socketName, entries).value <==>
        exists d :: && d in entries && d.isDir
                    && (exists e :: e in fs.readDir(fs.join(root, d.name)).value && IsSocketEntry(e, socketName))
                    && x == fs.join(fs.join(root, d.name), socketName)
  {
    if entries != [] {
      var init := entries[..|entries| - 1];
      var e := entries[|entries| - 1];
      assert entries == init + [e];
      CollectedContents(fs, root, socketName, init);
      if e.isDir && fs.readDir(fs.join(root, e.name)).Some? {
        MatchesContents(fs, fs.join(root, e.name), socketName, fs.readDir(fs.join(root, e.name)).value);
      }
    }
  }

  // ---------------------------------------------------------------------------
  // The client object
  // ---------------------------------------------------------------------------

  class Client {
    const socketsRootPath: string
    const socketName: string
    var sockets: seq<string>
    /** The `int32` rotation counter. */
    var currentSocket: int

    ghost predicate Valid()
      reads this
    {
      NoDuplicates(sockets) && IsInt32(currentSocket)
    }

    /** `NewClient`: no sockets yet, the counter at zero. */
    constructor (socketsRootPath: string, socketName: string)
      ensures this.socketsRootPath == socketsRootPath && this.socketName == socketName
      ensures sockets == [] && currentSocket == 0
      ensures Valid()
    {
      this.socketsRootPath := socketsRootPath;
      this.socketName := socketName;
      sockets := [];
      currentSocket := 0;
    }

    /** `NewClientWithDefaults`. */
    constructor WithDefaults()
      ensures socketsRootPath == DefaultSocketsRootPath && socketName == DefaultSocketName
      ensures sockets == [] && currentSocket == 0
      ensures Valid()
    {
      socketsRootPath := DefaultSocketsRootPath;
      socketName := DefaultSocketName;
      sockets := [];
      currentSocket := 0;
    }

    /** `addSockets`: append each path that is not in the list yet. */
    method AddSockets(paths: seq<string>)
      requires Valid()
      modifies this`sockets
      ensures Valid()
      ensures sockets == AppendNew(old(sockets), paths)
    {
      var i := 0;
      while i < |paths|
        invariant 0 <= i <= |paths|
        invariant NoDuplicates(sockets)
        invariant AppendNew(sockets, paths[i..]) == AppendNew(old(sockets), paths)
      {
        var path := paths[i];
        assert paths[i..][1..] == paths[i + 1..];
        if path !in sockets {
          sockets := sockets + [path];
        }
        i := i + 1;
      }
    }

    /**
     * `ExecuteAuthorizedRequest`, given the marshalled request body (None when
     * marshalling failed). `tried` lists the socket indices in the order they
     * were tried.
     */
    method ExecuteAuthorizedRequest(requestBody: Option<seq<Byte>>, net: Network)
      returns (r: Result<seq<Byte>, ClientError>, ghost tried: seq<nat>)
      requires Valid()
      modifies this`currentSocket
      ensures Valid()
      ensures sockets == [] ==> r == Failure(NoSockets) && currentSocket == old(currentSocket) && tried == []
      ensures sockets != [] && requestBody.None? ==>
        r == Failure(MarshalFailed) && currentSocket == old(currentSocket) && tried == []
      ensures sockets != [] && requestBody.Some? ==>
        && currentSocket == Wrap32(old(currentSocket) + 1)
        && r == Failover(Attempts(net, sockets, requestBody.value, old(currentSocket)))
        && 1 <= |tried| <= |sockets|
        && (forall k :: 0 <= k < |tried| ==> tried[k] == SocketIndex(old(currentSocket), k, |sockets|))
        && (forall k :: 0 <= k < |tried| - 1 ==> DoRequest(net, sockets[tried[k]], requestBody.value).Failure?)
        && (r.Success? ==> r == DoRequest(net, sockets[tried[|tried| - 1]], requestBody.value))
        && (r.Failure? ==> |tried| == |sockets|)
    {
      tried := [];
      if |sockets| == 0 {
        return Failure(NoSockets), tried;
      }
      if requestBody.None? {
        return Failure(MarshalFailed), tried;
      }
      var start := currentSocket;
      currentSocket := Wrap32(currentSocket + 1);
      r, tried := TryInTurn(net, sockets, requestBody.value, start);
    }

    /** `getSockets`: every `root/d/socketName` that is a socket, one level down. */
    method GetSockets(fs: FileSystem) returns (r: Result<seq<string>, ClientError>)
      ensures r == ListSockets(fs, socketsRootPath, socketName)
    {
      var listing := fs.readDir(socketsRootPath);
      if listing.None? {
        return Failure(ListRootFailed(socketsRootPath));
      }
      var entries := listing.value;
      var found: seq<string> := [];
      var i := 0;
      while i < |entries|
        invariant 0 <= i <= |entries|
        invariant Collected(fs, socketsRootPath, socketName, entries[..i]) == Success(found)
      {
        var entry := entries[i];
        assert entries[..i + 1][..i] == entries[..i];
        if entry.isDir {
          var subPath := fs.join(socketsRootPath, entry.name);
          var subListing := fs.readDir(subPath);
          if subListing.None? {
            CollectedPrefixFailure(fs, socketsRootPath, socketName, entries, i + 1);
            return Failure(ListSubdirFailed(entry.name));
          }
          var subEntries := subListing.value;
          ghost var before := found;
          var j := 0;
          while j < |subEntries|
            invariant 0 <= j <= |subEntries|
            invariant found == before + Matches(fs, subPath, socketName, subEntries[..j])
          {
            var subEntry := subEntries[j];
            assert subEntries[..j + 1][..j] == subEntries[..j];
            if !subEntry.isDir && subEntry.name == socketName && subEntry.isSocket {
              found := found + [fs.join(subPath, subEntry.name)];
            }
            j := j + 1;
          }
          assert subEntries[..j] == subEntries;
        }
        i := i + 1;
      }
      assert entries[..i] == entries;
      r := Success(found);
    }

    /** `GetAndAddSockets`: on a listing error nothing changes, otherwise the found sockets are added. */
    method GetAndAddSockets(fs: FileSystem) returns (err: Option<ClientError>)
      requires Valid()
      modifies this`sockets
      ensures Valid()
      ensures ListSockets(fs, socketsRootPath, socketName).Failure? ==>
        err == Some(GetSocketsFailed(ListSockets(fs, socketsRootPath, socketName).error)) && sockets == old(sockets)
      ensures ListSockets(fs, socketsRootPath, socketName).Success? ==>
        err == None && sockets == AppendNew(old(sockets), ListSockets(fs, socketsRootPath, socketName).value)
    {
      var found := GetSockets(fs);
      if found.Failure? {
        return Some(GetSocketsFailed(found.error));
      }
      AddSockets(found.value);
      err := None;
    }
  }
}
