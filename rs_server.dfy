/**
 * `LivedownServer` of src/server.rs: the shared `AppState` written by
 * `start`, the socket.io connection handler, the task that turns file-change
 * notices into `content` broadcasts, and the three HTTP handlers. Each
 * handler runs to completion; file reads, emits that can fail and the
 * embedded client files are given to the model.
 */
module RsServer {
  import opened Wrappers
  import opened Seqs
  import opened OsPath
  import opened Push

  /** `u16`. */
  newtype Port = x: int | 0 <= x < 0x1_0000

  type byte = bv8

  /** An entry of the client files built into the binary. */
  datatype EmbeddedFile = EmbeddedFile(contents: seq<byte>, utf8: Option<string>)

  /** The client files built into the binary, by their path inside the bundle. */
  type Bundle = map<string, EmbeddedFile>

  datatype Response = Response(status: int, contentType: Option<string>, body: seq<byte>)

  /** `serve_index`'s result: the page, or a bare status. */
  datatype IndexResponse = Page(html: string) | Status(code: int)

  /** `start`'s result: serving, or the step whose error it returned. */
  datatype StartResult = Serving | AbsolutizeFailed | WatchFailed | BindFailed

  /** One `recv` on the change channel, with what the task then observes. */
  datatype Notice =
    | Changed(path: string, read: ReadOutcome, sent: bool)
    | RecvFailed

  const Untitled := "Untitled"

  // ---------------------------------------------------------------------------
  // Titles

  /** The title sent on connection: the file name as UTF-8, else "Untitled". */
  function TitleOf(file: OsString): (t: string)
    ensures FileName(file).None? ==> t == Untitled
    ensures FileName(file).Some? && !IsUtf8(FileName(file).value) ==> t == Untitled
    ensures FileName(file).Some? && IsUtf8(FileName(file).value) ==> t == Lossy(FileName(file).value)
  {
    match FileName(file)
    case None => Untitled
    case Some(name) =>
      match ToStr(name)
      case None => Untitled
      case Some(s) => s
  }

  // ---------------------------------------------------------------------------
  // Connections

  /**
   * What one connection receives, given whether the SocketIo layer is in
   * place, the current file, and the outcomes of its emits and its read.
   */
  function ConnectionPush(render: string -> string, socketio: bool, current: Option<OsString>,
      id: nat, titleSent: bool, read: ReadOutcome, contentSent: bool): seq<Emission>
  {
    if !socketio || current.None? || !titleSent then []
    else
      [Emission(One(id), "title", Some(TitleOf(current.value)))]
        + (if read.ReadOk? && contentSent then [Emission(One(id), "content", Some(render(read.text)))] else [])
  }

  // ---------------------------------------------------------------------------
  // Change broadcasts

  /** Where the change task stops: the first failed `recv`, or the end. */
  function FirstFailure(inbox: seq<Notice>): (n: nat)
    ensures n <= |inbox|
    ensures forall j | 0 <= j < n :: inbox[j].Changed?
    ensures n < |inbox| ==> inbox[n].RecvFailed?
    decreases |inbox|
  {
    if inbox == [] || inbox[0].RecvFailed? then 0 else 1 + FirstFailure(inbox[1..])
  }

  /** The broadcast one notice leads to. */
  function BroadcastFor(render: string -> string, current: Option<OsString>, notice: Notice): seq<Emission>
  {
    if notice.Changed? && current.Some? && Lossy(current.value) == notice.path
       && notice.read.ReadOk? && notice.sent
    then [Emission(Everyone, "content", Some(render(notice.read.text)))]
    else []
  }

  function Broadcasts(render: string -> string, current: Option<OsString>, notices: seq<Notice>): seq<Emission>
    decreases |notices|
  {
    if notices == [] then []
    else
      var n := |notices| - 1;
      Broadcasts(render, current, notices[..n]) + BroadcastFor(render, current, notices[n])
  }

  // ---------------------------------------------------------------------------
  // Static files

  /** The end of the run of `/` starting at `i`. */
  function SlashRunEnd(s: string, i: nat): (j: nat)
    requires i <= |s|
    ensures i <= j <= |s| && (j == |s| || s[j] != '/')
    ensures forall k | i <= k < j :: s[k] == '/'
    decreases |s| - i
  {
    if i < |s| && s[i] == '/' then SlashRunEnd(s, i + 1) else i
  }

  /** `trim_start_matches('/')`. */
  function TrimLeadingSlashes(s: string): string {
    s[SlashRunEnd(s, 0)..]
  }

  /** `serve_static`: the bundled file at the trimmed path with its MIME type, else 404. */
  function ServeStatic(bundle: Bundle, mime: string -> string, path: string): (r: Response)
  {
    var key := TrimLeadingSlashes(path);
    if key in bundle then Response(200, Some(mime(key)), bundle[key].contents)
    else Response(404, None, [])
  }

  /** `serve_index`: the bundled `index.html` as text (empty when not UTF-8), else 404. */
  function ServeIndex(bundle: Bundle): (r: IndexResponse)
    ensures r.Status? <==> "index.html" !in bundle
    ensures r.Status? ==> r.code == 404
    ensures r.Page? ==> r.html == (if bundle["index.html"].utf8.Some? then bundle["index.html"].utf8.value else "")
  {
    if "index.html" in bundle then
      var file := bundle["index.html"];
      Page(if file.utf8.Some? then file.utf8.value else "")
    else Status(404)
  }

  // ---------------------------------------------------------------------------
  // The server

  class LivedownServer {
    const port: Port
    /** `MarkdownProcessor::render`. */
    const render: string -> string
    /** `AppState::current_file`. */
    var currentFile: Option<OsString>
    /** Whether `AppState::socketio` holds the SocketIo instance. */
    var socketio: bool
    /** `AppState::file_watcher`, by the path it watches. */
    var fileWatcher: Option<OsString>
    var emitted: seq<Emission>
    /** Whether the delayed `process::exit(0)` has been scheduled. */
    var exitScheduled: bool

    /** `new`: nothing stored yet. */
    constructor(port: Port, render: string -> string)
      ensures this.port == port && this.render == render
      ensures currentFile == None && !socketio && fileWatcher == None
      ensures emitted == [] && !exitScheduled
    {
      this.port := port;
      this.render := render;
      currentFile := None;
      socketio := false;
      fileWatcher := None;
      emitted := [];
      exitScheduled := false;
    }

    /**
     * `start`, up to serving: store the absolute path, then the SocketIo
     * instance, then watch the file and store the watcher, then bind. Each
     * `?` returns early with what has been stored so far.
     */
    method Start(absolute: Option<OsString>, watchOk: bool, bindOk: bool) returns (r: StartResult)
      modifies this
      ensures absolute.None? ==>
        r == AbsolutizeFailed && currentFile == old(currentFile) && socketio == old(socketio)
        && fileWatcher == old(fileWatcher)
      ensures absolute.Some? ==> currentFile == absolute && socketio
      ensures absolute.Some? && !watchOk ==> r == WatchFailed && fileWatcher == old(fileWatcher)
      ensures absolute.Some? && watchOk ==> fileWatcher == absolute && r == (if bindOk then Serving else BindFailed)
      ensures emitted == old(emitted) && exitScheduled == old(exitScheduled)
    {
      if absolute.None? {
        return AbsolutizeFailed;
      }
      currentFile := absolute;
      socketio := true;
      if !watchOk {
        return WatchFailed;
      }
      fileWatcher := absolute;
      r := if bindOk then Serving else BindFailed;
    }

    /**
     * The connection handler: with a current file, send its title; stop if
     * that emit fails; otherwise read the file and send the rendered
     * content, which is lost if its emit fails.
     */
    method OnConnection(id: nat, titleSent: bool, read: ReadOutcome, contentSent: bool)
      modifies this
      ensures emitted == old(emitted) + ConnectionPush(render, socketio, currentFile, id, titleSent, read, contentSent)
      ensures currentFile == old(currentFile) && socketio == old(socketio)
      ensures fileWatcher == old(fileWatcher) && exitScheduled == old(exitScheduled)
    {
      if socketio && currentFile.Some? {
        var title := TitleOf(currentFile.value);
        if !titleSent {
          return;
        }
        emitted := emitted + [Emission(One(id), "title", Some(title))];
        match read {
          case ReadOk(content) =>
            if contentSent {
              emitted := emitted + [Emission(One(id), "content", Some(render(content)))];
            }
          case ReadFailed =>
        }
      }
    }

    /**
     * The change task: for each notice until the first failed `recv`,
     * re-read and broadcast when the notice names the current file.
     */
    method ChangeLoop(inbox: seq<Notice>) returns (consumed: nat)
      modifies this
      ensures emitted == old(emitted) + Broadcasts(render, currentFile, inbox[..FirstFailure(inbox)])
      ensures consumed == (if FirstFailure(inbox) < |inbox| then FirstFailure(inbox) + 1 else |inbox|)
      ensures currentFile == old(currentFile) && socketio == old(socketio)
      ensures fileWatcher == old(fileWatcher) && exitScheduled == old(exitScheduled)
    {
      var i := 0;
      while i < |inbox| && inbox[i].Changed?
        invariant i <= FirstFailure(inbox)
        invariant emitted == old(emitted) + Broadcasts(render, currentFile, inbox[..i])
        invariant currentFile == old(currentFile) && socketio == old(socketio)
        invariant fileWatcher == old(fileWatcher) && exitScheduled == old(exitScheduled)
      {
        HandleChange(inbox[i]);
        BroadcastsPrefix(render, currentFile, inbox, i);
        SeqAssoc(old(emitted), Broadcasts(render, currentFile, inbox[..i]), BroadcastFor(render, currentFile, inbox[i]));
        i := i + 1;
      }
      assert i == FirstFailure(inbox);
      if i < |inbox| {
        consumed := i + 1;
      } else {
        consumed := i;
      }
    }

    /**
     * One received change: when it names the current file and the read
     * succeeded, broadcast the rendered content (lost if the send fails).
     */
    method HandleChange(notice: Notice)
      requires notice.Changed?
      modifies this
      ensures emitted == old(emitted) + BroadcastFor(render, currentFile, notice)
      ensures currentFile == old(currentFile) && socketio == old(socketio)
      ensures fileWatcher == old(fileWatcher) && exitScheduled == old(exitScheduled)
    {
      if currentFile.Some? && Lossy(currentFile.value) == notice.path {
        match notice.read {
          case ReadOk(content) =>
            if notice.sent {
              emitted := emitted + [Emission(Everyone, "content", Some(render(content)))];
            }
          case ReadFailed =>
        }
      }
    }

    /**
     * DELETE `/`: broadcast `kill` when a SocketIo is stored (lost if the
     * emit fails), schedule the exit, and answer 200.
     */
    method ShutdownHandler(sent: bool) returns (status: int)
      modifies this
      ensures status == 200 && exitScheduled
      ensures emitted == old(emitted) + (if socketio && sent then [Emission(Everyone, "kill", None)] else [])
      ensures currentFile == old(currentFile) && socketio == old(socketio) && fileWatcher == old(fileWatcher)
    {
      if socketio && sent {
        emitted := emitted + [Emission(Everyone, "kill", None)];
      }
      exitScheduled := true;
      status := 200;
    }
  }

  // ---------------------------------------------------------------------------
  // Properties

  /** The title of `dir/name` for a text name is that name. */
  lemma TitleOfJoin(dir: OsString, name: string)
    requires dir == [] || dir[|dir| - 1] == Slash
    requires '/' !in name && name != "" && name != "." && name != ".."
    ensures TitleOf(dir + FromString(name)) == name
  {
    var n := FromString(name);
    assert SlashFree(n);
    assert IsNormal(n) && n != [Dot, Dot] by {
      if n == [Dot] { FromStringInjective(name, "."); }
      if n == [Dot, Dot] { FromStringInjective(name, ".."); }
    }
    FileNameOfJoin(dir, n);
    LossyFromString(name);
  }

  /** A file name that is not UTF-8 gives "Untitled". */
  lemma NonUtf8TitleIsUntitled(dir: OsString, name: OsString)
    requires dir == [] || dir[|dir| - 1] == Slash
    requires SlashFree(name) && IsNormal(name) && name != [Dot, Dot] && !IsUtf8(name)
    ensures TitleOf(dir + name) == Untitled
  {
    FileNameOfJoin(dir, name);
  }

  /** The root has no file name, so its title is "Untitled". */
  lemma RootTitleIsUntitled()
    ensures TitleOf([Slash]) == Untitled
  {
    RootHasNoFileName();
  }

  /**
   * A connection gets nothing without a current file or when the title
   * cannot be sent; otherwise the title first, then at most the content,
   * all to that socket alone.
   */
  lemma ConnectionPushShape(render: string -> string, socketio: bool, current: Option<OsString>,
      id: nat, titleSent: bool, read: ReadOutcome, contentSent: bool)
    ensures var p := ConnectionPush(render, socketio, current, id, titleSent, read, contentSent);
      (p == [] <==> !socketio || current.None? || !titleSent)
      && (p != [] ==> p[0] == Emission(One(id), "title", Some(TitleOf(current.value))))
      && (|p| == 2 <==> socketio && current.Some? && titleSent && read.ReadOk? && contentSent)
      && (|p| == 2 ==> p[1] == Emission(One(id), "content", Some(render(read.text))))
      && |p| <= 2 && forall k | 0 <= k < |p| :: p[k].to == One(id)
  {
  }

  lemma {:induction false} BroadcastsAppend(render: string -> string, current: Option<OsString>, a: seq<Notice>, b: seq<Notice>)
    ensures Broadcasts(render, current, a + b) == Broadcasts(render, current, a) + Broadcasts(render, current, b)
    decreases |b|
  {
    if b == [] {
      assert a + b == a;
    } else {
      var n := |b| - 1;
      calc {
        Broadcasts(render, current, a + b);
      == { assert (a + b)[..|a + b| - 1] == a + b[..n]; }
        Broadcasts(render, current, a + b[..n]) + BroadcastFor(render, current, b[n]);
      == { BroadcastsAppend(render, current, a, b[..n]); }
        Broadcasts(render, current, a) + Broadcasts(render, current, b[..n]) + BroadcastFor(render, current, b[n]);
      }
    }
  }

  lemma BroadcastsPrefix(render: string -> string, current: Option<OsString>, inbox: seq<Notice>, i: nat)
    requires i < |inbox|
    ensures Broadcasts(render, current, inbox[..i + 1])
      == Broadcasts(render, current, inbox[..i]) + BroadcastFor(render, current, inbox[i])
  {
    assert inbox[..i + 1][..i] == inbox[..i];
  }

  /** Only notices naming the current file lead to broadcasts, one each at most, all `content` to everyone. */
  lemma {:induction false} BroadcastsShape(render: string -> string, current: Option<OsString>, notices: seq<Notice>)
    ensures |Broadcasts(render, current, notices)| <= |notices|
    ensures forall k | 0 <= k < |Broadcasts(render, current, notices)| ::
      Broadcasts(render, current, notices)[k].to == Everyone && Broadcasts(render, current, notices)[k].event == "content"
    decreases |notices|
  {
    if notices != [] {
      BroadcastsShape(render, current, notices[..|notices| - 1]);
    }
  }

  /** Notices for other paths, failed reads and a missing current file broadcast nothing. */
  lemma {:induction false} QuietNotices(render: string -> string, current: Option<OsString>, notices: seq<Notice>)
    requires forall k | 0 <= k < |notices| ::
      current.None? || notices[k].RecvFailed? || notices[k].path != Lossy(current.value) || notices[k].read.ReadFailed?
    ensures Broadcasts(render, current, notices) == []
    decreases |notices|
  {
    if notices != [] {
      QuietNotices(render, current, notices[..|notices| - 1]);
    }
  }

  /** A change to the current file, read and sent, broadcasts its rendering; the rest are unaffected. */
  lemma CurrentFileBroadcast(render: string -> string, file: OsString, before: seq<Notice>, text: string, after: seq<Notice>)
    ensures Broadcasts(render, Some(file), before + [Changed(Lossy(file), ReadOk(text), true)] + after)
      == Broadcasts(render, Some(file), before) + [Emission(Everyone, "content", Some(render(text)))]
        + Broadcasts(render, Some(file), after)
  {
    var item := Changed(Lossy(file), ReadOk(text), true);
    BroadcastsAppend(render, Some(file), before + [item], after);
    BroadcastsAppend(render, Some(file), before, [item]);
    assert [item][..0] == [];
  }

  /** Notices after the first failed `recv` are never looked at. */
  lemma AfterFailureIgnored(inbox: seq<Notice>, rest: seq<Notice>)
    requires FirstFailure(inbox) < |inbox|
    ensures FirstFailure(inbox + rest) == FirstFailure(inbox)
    ensures (inbox + rest)[..FirstFailure(inbox)] == inbox[..FirstFailure(inbox)]
  {
    var n := FirstFailure(inbox);
    FirstFailureIs(inbox + rest, n);
  }

  lemma {:induction false} FirstFailureIs(inbox: seq<Notice>, n: nat)
    requires n < |inbox| && inbox[n].RecvFailed?
    requires forall j | 0 <= j < n :: inbox[j].Changed?
    ensures FirstFailure(inbox) == n
    decreases n
  {
    if n > 0 {
      FirstFailureIs(inbox[1..], n - 1);
    }
  }

  /**
   * The comparison is on lossy strings: two distinct paths whose names are
   * different invalid bytes print alike, so a change to one is taken for the
   * other.
   */
  lemma LossyComparisonConflates(render: string -> string, text: string)
    ensures var current, other := [Slash, Invalid(0x80)], [Slash, Invalid(0x81)];
      current != other
      && Broadcasts(render, Some(current), [Changed(Lossy(other), ReadOk(text), true)])
        == [Emission(Everyone, "content", Some(render(text)))]
  {
    var current, other := [Slash, Invalid(0x80)], [Slash, Invalid(0x81)];
    assert Lossy(current) == Lossy(other);
    var item := Changed(Lossy(other), ReadOk(text), true);
    assert [item][..0] == [];
  }

  /** The trimmed path starts with no `/`, and only `/` was dropped. */
  lemma TrimShape(s: string)
    ensures var t := TrimLeadingSlashes(s);
      |t| <= |s| && (t == [] || t[0] != '/') && s == s[..|s| - |t|] + t
      && forall k | 0 <= k < |s| - |t| :: s[k] == '/'
  {
  }

  /** Leading `/` do not matter to `serve_static`. */
  lemma TrimIgnoresSlash(s: string)
    ensures TrimLeadingSlashes("/" + s) == TrimLeadingSlashes(s)
  {
    ShiftSlashRun("/" + s, s, 1, 0);
    assert ("/" + s)[1..] == s;
  }

  lemma {:induction false} ShiftSlashRun(s: string, t: string, d: nat, i: nat)
    requires d <= |s| && t == s[d..] && i <= |t|
    ensures SlashRunEnd(s, d + i) == d + SlashRunEnd(t, i)
    decreases |t| - i
  {
    if i < |t| {
      assert s[d + i] == t[i];
      if t[i] == '/' {
        ShiftSlashRun(s, t, d, i + 1);
      }
    }
  }

  /** Trimming twice is trimming once. */
  lemma TrimIdempotent(s: string)
    ensures TrimLeadingSlashes(TrimLeadingSlashes(s)) == TrimLeadingSlashes(s)
  {
  }

  /** `serve_static` answers 200 exactly for bundled paths, with the file's bytes. */
  lemma ServeStaticFinds(bundle: Bundle, mime: string -> string, path: string)
    ensures ServeStatic(bundle, mime, path).status == 200 <==> TrimLeadingSlashes(path) in bundle
    ensures ServeStatic(bundle, mime, path).status != 200 ==> ServeStatic(bundle, mime, path).status == 404
    ensures TrimLeadingSlashes(path) in bundle ==>
      ServeStatic(bundle, mime, path).body == bundle[TrimLeadingSlashes(path)].contents
  {
  }

  /** `/assets/app.js` and `//assets/app.js` are served as the bundle's `assets/app.js`. */
  lemma StaticRequestPath(bundle: Bundle, mime: string -> string, name: string)
    requires name == [] || name[0] != '/'
    ensures ServeStatic(bundle, mime, "/" + name) == ServeStatic(bundle, mime, name)
    ensures ServeStatic(bundle, mime, "//" + name) == ServeStatic(bundle, mime, name)
  {
    TrimIgnoresSlash(name);
    TrimIgnoresSlash("/" + name);
    assert "//" + name == "/" + ("/" + name);
  }
}
