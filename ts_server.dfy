/**
 * `LivedownServer` of src/server.ts as a state machine. Each socket.io,
 * chokidar or HTTP callback is one method that runs to completion; file
 * reads are given as outcomes and `md.render` is a function the server is
 * built with.
 */
module TsServer {
  import opened Wrappers
  import opened Seqs
  import opened Decimal
  import opened Push

  /** `this.sock`: the no-op emitter it starts as, or the socket of a connection. */
  datatype Sock = Noop | Connected(id: nat)

  /** How a returned promise settles. */
  datatype Outcome = Resolved | Rejected

  /** Watchers are told apart by the order they were created in. */
  datatype WatcherOp = Created(id: nat, path: string) | Closed(id: nat)

  /** `opts.port || 1337`: an absent or zero port falls back to 1337. */
  function DefaultPort(opt: Option<int>): int {
    if opt.None? || opt.value == 0 then 1337 else opt.value
  }

  function UriOf(port: int): string {
    "http://localhost:" + IntToString(port)
  }

  /** The watchers created and not closed since, according to the log. */
  function OpenWatchers(log: seq<WatcherOp>): set<nat>
    decreases |log|
  {
    if log == [] then {}
    else
      var before := OpenWatchers(log[..|log| - 1]);
      match log[|log| - 1]
      case Created(id, _) => before + {id}
      case Closed(id) => before - {id}
  }

  function AsSet(w: Option<nat>): set<nat> {
    if w.Some? then {w.value} else {}
  }

  // ---------------------------------------------------------------------------
  // Node's `path.basename` on POSIX paths

  /** The end of `p[..i]` once its trailing separators are dropped. */
  function NameEnd(p: string, i: nat): (e: nat)
    requires i <= |p|
    ensures e <= i && (e == 0 || p[e - 1] != '/')
    ensures forall j | e <= j < i :: p[j] == '/'
    decreases i
  {
    if i > 0 && p[i - 1] == '/' then NameEnd(p, i - 1) else i
  }

  /** The start of the last piece of `p[..e]`: just after its last separator, or 0. */
  function NameStart(p: string, e: nat): (b: nat)
    requires e <= |p|
    ensures b <= e && (b == 0 || p[b - 1] == '/')
    ensures forall j | b <= j < e :: p[j] != '/'
    decreases e
  {
    if e == 0 || p[e - 1] == '/' then e else NameStart(p, e - 1)
  }

  /** Node's `path.basename` on POSIX paths: the last piece, trailing separators ignored. */
  function Basename(p: string): string {
    var e := NameEnd(p, |p|);
    p[NameStart(p, e)..e]
  }

  /** The connection handler's emissions to socket `id`, one handler per `start`. */
  function ConnectionEmissions(render: string -> string, id: nat, files: seq<string>, outcomes: seq<ReadOutcome>): seq<Emission>
    requires |files| == |outcomes|
    decreases |files|
  {
    if files == [] then []
    else
      var n := |files| - 1;
      ConnectionEmissions(render, id, files[..n], outcomes[..n]) + HandlerEmissions(render, id, files[n], outcomes[n])
  }

  /** One `connection` handler of `start`: the title, then the content if the read succeeded. */
  function HandlerEmissions(render: string -> string, id: nat, file: string, read: ReadOutcome): seq<Emission> {
    [Emission(One(id), "title", Some(Basename(file)))]
      + (if read.ReadOk? then [Emission(One(id), "content", Some(render(read.text)))] else [])
  }

  class LivedownServer {
    const port: int
    const uri: string
    /** `md.render`. */
    const render: string -> string
    var sock: Sock
    var watcher: Option<nat>
    var nextWatcher: nat
    /** Every `chokidar.watch` and `close`, in order. */
    var watcherLog: seq<WatcherOp>
    /** The file path each `connection` handler registered by `start` captured. */
    var connectionFiles: seq<string>
    /** Whether `start` has registered the DELETE route. */
    var deleteRoute: bool
    var listening: bool
    var emitted: seq<Emission>
    var exited: bool

    /** No watcher but the current one is open. */
    ghost predicate Valid()
      reads this
    {
      OpenWatchers(watcherLog) <= AsSet(watcher)
    }

    /** The current watcher is open, so its `change` listener can fire. */
    predicate Watching()
      reads this
    {
      watcher.Some? && watcher.value in OpenWatchers(watcherLog)
    }

    constructor(opts: Option<int>, render: string -> string)
      ensures port == DefaultPort(opts) && uri == UriOf(port) && this.render == render
      ensures sock == Noop && watcher == None && nextWatcher == 0 && watcherLog == []
      ensures connectionFiles == [] && !deleteRoute && !listening && emitted == [] && !exited
      ensures Valid()
    {
      port := DefaultPort(opts);
      uri := UriOf(DefaultPort(opts));
      this.render := render;
      sock := Noop;
      watcher := None;
      nextWatcher := 0;
      watcherLog := [];
      connectionFiles := [];
      deleteRoute := false;
      listening := false;
      emitted := [];
      exited := false;
    }

    /** `sock.emit`: dropped by the no-op emitter, sent to the socket otherwise. */
    method EmitToSock(event: string, data: string)
      modifies this
      ensures emitted == old(emitted) + (if sock.Connected? then [Emission(One(sock.id), event, Some(data))] else [])
      ensures sock == old(sock) && watcher == old(watcher) && nextWatcher == old(nextWatcher)
      ensures watcherLog == old(watcherLog) && connectionFiles == old(connectionFiles)
      ensures deleteRoute == old(deleteRoute) && listening == old(listening) && exited == old(exited)
    {
      if sock.Connected? {
        emitted := emitted + [Emission(One(sock.id), event, Some(data))];
      }
    }

    /** `watch`: close the current watcher, then watch `path` with a new one. */
    method Watch(path: string)
      requires Valid()
      modifies this
      ensures Valid() && Watching()
      ensures watcher == Some(old(nextWatcher)) && nextWatcher == old(nextWatcher) + 1
      ensures watcherLog == old(watcherLog)
        + (if old(watcher).Some? then [Closed(old(watcher).value)] else []) + [Created(old(nextWatcher), path)]
      ensures OpenWatchers(watcherLog) == {old(nextWatcher)}
      ensures sock == old(sock) && connectionFiles == old(connectionFiles) && deleteRoute == old(deleteRoute)
      ensures listening == old(listening) && emitted == old(emitted) && exited == old(exited)
    {
      var closed := [];
      if watcher.Some? {
        closed := [Closed(watcher.value)];
        watcherLog := watcherLog + closed;
        OpenAfterClose(old(watcherLog), watcher.value);
      }
      var id := nextWatcher;
      watcherLog := watcherLog + [Created(id, path)];
      assert watcherLog[..|watcherLog| - 1] == old(watcherLog) + closed;
      watcher := Some(id);
      nextWatcher := nextWatcher + 1;
    }

    /** The watcher's `change` listener: re-read the file and send it to `sock`. */
    method OnChange(read: ReadOutcome)
      modifies this
      ensures emitted == old(emitted)
        + (if old(Watching()) && read.ReadOk? && sock.Connected?
           then [Emission(One(sock.id), "content", Some(render(read.text)))] else [])
      ensures sock == old(sock) && watcher == old(watcher) && nextWatcher == old(nextWatcher)
      ensures watcherLog == old(watcherLog) && connectionFiles == old(connectionFiles)
      ensures deleteRoute == old(deleteRoute) && listening == old(listening) && exited == old(exited)
    {
      if Watching() {
        match read {
          case ReadOk(text) =>
            EmitToSock("content", render(text));
          case ReadFailed =>
        }
      }
    }

    /**
     * A socket connects: the constructor's listener and then each listener
     * `start` registered set `sock`; each of the latter sends the title and
     * then, if its read (`outcomes[k]`) succeeds, the rendered content.
     */
    method OnConnection(id: nat, outcomes: seq<ReadOutcome>)
      requires |outcomes| == |connectionFiles|
      modifies this
      ensures connectionFiles == old(connectionFiles) && sock == Connected(id)
      ensures emitted == old(emitted) + ConnectionEmissions(render, id, connectionFiles, outcomes)
      ensures watcher == old(watcher) && nextWatcher == old(nextWatcher) && watcherLog == old(watcherLog)
      ensures deleteRoute == old(deleteRoute) && listening == old(listening) && exited == old(exited)
    {
      sock := Connected(id);
      var files := connectionFiles;
      var k := 0;
      while k < |files|
        invariant connectionFiles == files && 0 <= k <= |files| && sock == Connected(id)
        invariant emitted == old(emitted) + ConnectionEmissions(render, id, files[..k], outcomes[..k])
        invariant watcher == old(watcher) && nextWatcher == old(nextWatcher) && watcherLog == old(watcherLog)
        invariant deleteRoute == old(deleteRoute) && listening == old(listening) && exited == old(exited)
      {
        RunHandler(id, files[k], outcomes[k]);
        ConnectionEmissionsPrefix(render, id, files, outcomes, k);
        SeqAssoc(old(emitted), ConnectionEmissions(render, id, files[..k], outcomes[..k]),
          HandlerEmissions(render, id, files[k], outcomes[k]));
        k := k + 1;
      }
      assert files[..k] == files && outcomes[..k] == outcomes;
    }

    /** One `connection` listener registered by `start` for `file`. */
    method RunHandler(id: nat, file: string, read: ReadOutcome)
      modifies this
      ensures sock == Connected(id)
      ensures emitted == old(emitted) + HandlerEmissions(render, id, file, read)
      ensures watcher == old(watcher) && nextWatcher == old(nextWatcher) && watcherLog == old(watcherLog)
      ensures connectionFiles == old(connectionFiles) && deleteRoute == old(deleteRoute)
      ensures listening == old(listening) && exited == old(exited)
    {
      sock := Connected(id);
      EmitToSock("title", Basename(file));
      match read {
        case ReadOk(text) =>
          EmitToSock("content", render(text));
        case ReadFailed =>
      }
    }

    /** DELETE `/`: once `start` has added the route, send `kill` to every socket and exit. */
    method OnDelete()
      modifies this
      ensures emitted == old(emitted) + (if deleteRoute then [Emission(Everyone, "kill", None)] else [])
      ensures exited == (old(exited) || deleteRoute)
      ensures sock == old(sock) && watcher == old(watcher) && nextWatcher == old(nextWatcher)
      ensures watcherLog == old(watcherLog) && connectionFiles == old(connectionFiles)
      ensures deleteRoute == old(deleteRoute) && listening == old(listening)
    {
      if deleteRoute {
        emitted := emitted + [Emission(Everyone, "kill", None)];
        exited := true;
      }
    }

    /**
     * `start`: register the DELETE route and a connection listener for
     * `path`, watch `path`, then listen; the promise rejects when listening
     * fails.
     */
    method Start(path: string, listenFails: bool) returns (result: Outcome)
      requires Valid()
      modifies this
      ensures Valid() && Watching()
      ensures connectionFiles == old(connectionFiles) + [path] && deleteRoute
      ensures watcher == Some(old(nextWatcher))
      ensures watcherLog == old(watcherLog)
        + (if old(watcher).Some? then [Closed(old(watcher).value)] else []) + [Created(old(nextWatcher), path)]
      ensures result == (if listenFails then Rejected else Resolved)
      ensures listening == (old(listening) || !listenFails)
      ensures sock == old(sock) && emitted == old(emitted) && exited == old(exited)
    {
      deleteRoute := true;
      connectionFiles := connectionFiles + [path];
      Watch(path);
      if listenFails {
        result := Rejected;
      } else {
        listening := true;
        result := Resolved;
      }
    }

    /**
     * `stop`: close the watcher if there is one (the field keeps it), then
     * close the HTTP server, which fails when it is not listening.
     */
    method Stop() returns (result: Outcome)
      requires Valid()
      modifies this
      ensures Valid() && !Watching() && OpenWatchers(watcherLog) == {}
      ensures watcherLog == old(watcherLog) + (if old(watcher).Some? then [Closed(old(watcher).value)] else [])
      ensures result == (if old(listening) then Resolved else Rejected) && !listening
      ensures watcher == old(watcher) && nextWatcher == old(nextWatcher) && sock == old(sock)
      ensures connectionFiles == old(connectionFiles) && deleteRoute == old(deleteRoute)
      ensures emitted == old(emitted) && exited == old(exited)
    {
      if watcher.Some? {
        watcherLog := watcherLog + [Closed(watcher.value)];
        OpenAfterClose(old(watcherLog), watcher.value);
      }
      if listening {
        listening := false;
        result := Resolved;
      } else {
        result := Rejected;
      }
    }
  }

  // ---------------------------------------------------------------------------
  // Properties

  /** Closing the only open watcher leaves none open. */
  lemma OpenAfterClose(log: seq<WatcherOp>, id: nat)
    requires OpenWatchers(log) <= {id}
    ensures OpenWatchers(log + [Closed(id)]) == {}
  {
    assert (log + [Closed(id)])[..|log|] == log;
  }

  /** An absent or zero port gives 1337; any other port is kept. */
  lemma PortDefaults(opt: Option<int>)
    ensures DefaultPort(opt) == 1337 <==> opt.None? || opt.value == 0 || opt.value == 1337
    ensures opt.Some? && opt.value != 0 ==> DefaultPort(opt) == opt.value
  {
  }

  /** The URI ends in the port's digits, which read back as the port. */
  lemma UriNamesPort(port: nat)
    ensures |UriOf(port)| > |"http://localhost:"|
    ensures UriOf(port)[..|"http://localhost:"|] == "http://localhost:"
    ensures var digits := UriOf(port)[|"http://localhost:"|..]; AllDigits(digits) && ParseDigits(digits) == port
  {
    var prefix := "http://localhost:";
    assert UriOf(port) == prefix + NatToString(port);
    assert UriOf(port)[|prefix|..] == NatToString(port);
    ParseNatToString(port);
  }

  /** Different ports give different URIs. */
  lemma UriInjective(p: nat, q: nat)
    requires p != q
    ensures UriOf(p) != UriOf(q)
  {
    UriNamesPort(p);
    UriNamesPort(q);
  }

  /** The default server's URI. */
  lemma DefaultUri()
    ensures UriOf(DefaultPort(None)) == "http://localhost:1337"
  {
    assert NatToString(1337) == "1337" by {
      assert NatToString(1) == "1";
      assert NatToString(13) == "13";
      assert NatToString(133) == "133";
    }
  }

  /** A separator-free run ending at `e` after a separator starts right after it. */
  lemma {:induction false} NameStartAfter(p: string, k: nat, e: nat)
    requires k < e <= |p| && p[k] == '/'
    requires forall j | k < j < e :: p[j] != '/'
    ensures NameStart(p, e) == k + 1
    decreases e
  {
    if e > k + 1 {
      NameStartAfter(p, k, e - 1);
    }
  }

  /** The title of `dir/name` is `name`. */
  lemma BasenameOfJoin(dir: string, name: string)
    requires name != [] && '/' !in name
    ensures Basename(dir + "/" + name) == name
  {
    var p := dir + "/" + name;
    assert p[|p| - 1] == name[|name| - 1];
    assert NameEnd(p, |p|) == |p|;
    assert p[|dir|] == '/';
    forall j | |dir| < j < |p| ensures p[j] != '/' {
      assert p[j] == name[j - |dir| - 1];
    }
    NameStartAfter(p, |dir|, |p|);
    assert p[|dir| + 1..] == name;
  }

  /** Trailing separators do not change the title. */
  lemma BasenameIgnoresTrailingSlash(p: string)
    ensures Basename(p + "/") == Basename(p)
  {
    var q := p + "/";
    assert NameEnd(q, |q|) == NameEnd(q, |p|);
    NameEndPrefix(p, q, |p|);
    NameStartPrefix(p, q, NameEnd(p, |p|));
    assert q[..|p|] == p;
  }

  lemma {:induction false} NameEndPrefix(p: string, q: string, i: nat)
    requires i <= |p| <= |q| && q[..|p|] == p
    ensures NameEnd(q, i) == NameEnd(p, i)
    decreases i
  {
    if i > 0 {
      assert q[i - 1] == p[i - 1];
      NameEndPrefix(p, q, i - 1);
    }
  }

  lemma {:induction false} NameStartPrefix(p: string, q: string, e: nat)
    requires e <= |p| <= |q| && q[..|p|] == p
    ensures NameStart(q, e) == NameStart(p, e)
    decreases e
  {
    if e > 0 {
      assert q[e - 1] == p[e - 1];
      NameStartPrefix(p, q, e - 1);
    }
  }

  /** A title never holds a separator; the root's title is empty. */
  lemma BasenameShape(p: string)
    ensures '/' !in Basename(p)
    ensures Basename("/") == "" && Basename("") == ""
  {
    var e := NameEnd(p, |p|);
    var b := NameStart(p, e);
    forall i | 0 <= i < e - b ensures p[b..e][i] != '/' {
      assert p[b..e][i] == p[b + i];
    }
    assert NameEnd("/", 1) == 0;
  }

  lemma {:induction false} ConnectionEmissionsAppend(render: string -> string, id: nat,
      files: seq<string>, outcomes: seq<ReadOutcome>, file: string, read: ReadOutcome)
    requires |files| == |outcomes|
    ensures ConnectionEmissions(render, id, files + [file], outcomes + [read])
      == ConnectionEmissions(render, id, files, outcomes) + HandlerEmissions(render, id, file, read)
  {
    assert (files + [file])[..|files|] == files;
    assert (outcomes + [read])[..|outcomes|] == outcomes;
  }

  lemma ConnectionEmissionsPrefix(render: string -> string, id: nat, files: seq<string>, outcomes: seq<ReadOutcome>, k: nat)
    requires |files| == |outcomes| && k < |files|
    ensures ConnectionEmissions(render, id, files[..k + 1], outcomes[..k + 1])
      == ConnectionEmissions(render, id, files[..k], outcomes[..k]) + HandlerEmissions(render, id, files[k], outcomes[k])
  {
    assert files[..k + 1][..k] == files[..k];
    assert outcomes[..k + 1][..k] == outcomes[..k];
  }

  /**
   * After one `start`, a connection gets the title first, then the content
   * exactly when the read succeeds, all addressed to that socket.
   */
  lemma ConnectionAfterStart(render: string -> string, id: nat, file: string, read: ReadOutcome)
    ensures ConnectionEmissions(render, id, [file], [read])[0] == Emission(One(id), "title", Some(Basename(file)))
    ensures read.ReadOk? ==>
      ConnectionEmissions(render, id, [file], [read])
      == [Emission(One(id), "title", Some(Basename(file))), Emission(One(id), "content", Some(render(read.text)))]
    ensures read.ReadFailed? ==>
      ConnectionEmissions(render, id, [file], [read])
      == [Emission(One(id), "title", Some(Basename(file)))]
  {
    ConnectionEmissionsAppend(render, id, [], [], file, read);
  }

  /** Before `start`, a connection only changes `sock`. */
  lemma ConnectionBeforeStart(render: string -> string, id: nat)
    ensures ConnectionEmissions(render, id, [], []) == []
  {
  }

  /** Every emission of a connection goes to the connecting socket. */
  lemma {:induction false} ConnectionEmissionsTarget(render: string -> string, id: nat,
      files: seq<string>, outcomes: seq<ReadOutcome>)
    requires |files| == |outcomes|
    ensures forall k | 0 <= k < |ConnectionEmissions(render, id, files, outcomes)| ::
      ConnectionEmissions(render, id, files, outcomes)[k].to == One(id)
    decreases |files|
  {
    if files != [] {
      var n := |files| - 1;
      ConnectionEmissionsTarget(render, id, files[..n], outcomes[..n]);
    }
  }
}
