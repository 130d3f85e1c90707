/**
 * The event loop that `FileWatcher::new` (rust-livedown/src/file_watcher.rs)
 * spawns: it receives notify results one at a time and broadcasts, per
 * event, the lossy text of the first Markdown path.
 */
module FileWatcher {
  import opened Wrappers
  import opened OsPath

  /** notify's `EventKind`, without the sub-kinds, which the loop ignores. */
  datatype EventKind = Any | Access | Create | Modify | Remove | Other

  datatype FsEvent = FsEvent(kind: EventKind, paths: seq<OsString>)

  /** The `Result<Event, notify::Error>` the watcher callback forwards. */
  datatype WatchResult = Event(event: FsEvent) | WatchError(message: string)

  /**
   * One `file_rx.recv()`: a forwarded result, or the receiver error that
   * ends the loop. `subscribed` says whether the broadcast channel has a
   * live receiver when this result is handled, that is, whether a send
   * made for it succeeds.
   */
  datatype Incoming = Received(result: WatchResult, subscribed: bool) | RecvError

  /** The `error!` lines the loop writes. */
  datatype LogLine = BroadcastFailed(path: string) | WatcherError(message: string) | ReceiverError

  /** What the loop has done so far: paths put on the channel, error lines, and whether it ended. */
  datatype LoopState = LoopState(delivered: seq<string>, log: seq<LogLine>, stopped: bool)

  /** Only modify, create and remove events are looked at. */
  predicate Counts(kind: EventKind) {
    kind.Modify? || kind.Create? || kind.Remove?
  }

  const MdExt: OsString := [Ch('m'), Ch('d')]
  const MarkdownExt: OsString := [Ch('m'), Ch('a'), Ch('r'), Ch('k'), Ch('d'), Ch('o'), Ch('w'), Ch('n')]

  /** The extension is exactly `md` or `markdown`, compared byte for byte. */
  predicate IsMarkdownPath(p: OsString) {
    Extension(p) == Some(MdExt) || Extension(p) == Some(MarkdownExt)
  }

  /** The index of the first Markdown path at or after `i`. */
  function FirstMarkdownFrom(paths: seq<OsString>, i: nat): (r: Option<nat>)
    requires i <= |paths|
    ensures r.Some? ==> i <= r.value < |paths|
    decreases |paths| - i
  {
    if i == |paths| then None
    else if IsMarkdownPath(paths[i]) then Some(i)
    else FirstMarkdownFrom(paths, i + 1)
  }

  lemma {:induction false} FirstMarkdownFromIsFirst(paths: seq<OsString>, i: nat)
    requires i <= |paths|
    ensures var r := FirstMarkdownFrom(paths, i);
      r.Some? ==> IsMarkdownPath(paths[r.value]) && forall j | i <= j < r.value :: !IsMarkdownPath(paths[j])
    ensures FirstMarkdownFrom(paths, i).None? ==> forall j | i <= j < |paths| :: !IsMarkdownPath(paths[j])
    decreases |paths| - i
  {
    if i < |paths| && !IsMarkdownPath(paths[i]) {
      var r := FirstMarkdownFrom(paths, i + 1);
      assert FirstMarkdownFrom(paths, i) == r;
      FirstMarkdownFromIsFirst(paths, i + 1);
      var end := if r.Some? then r.value else |paths|;
      forall j | i <= j < end ensures !IsMarkdownPath(paths[j]) {
        if j > i {
          assert i + 1 <= j < end;
        }
      }
    }
  }

  /** The index of the first Markdown path. */
  function FirstMarkdown(paths: seq<OsString>): (r: Option<nat>)
    ensures r.Some? ==>
      r.value < |paths| && IsMarkdownPath(paths[r.value]) && forall j | 0 <= j < r.value :: !IsMarkdownPath(paths[j])
    ensures r.None? ==> forall j | 0 <= j < |paths| :: !IsMarkdownPath(paths[j])
  {
    FirstMarkdownFromIsFirst(paths, 0);
    FirstMarkdownFrom(paths, 0)
  }

  /** The path one event broadcasts, if any. */
  function EventBroadcast(e: FsEvent): Option<string> {
    if !Counts(e.kind) then None
    else
      match FirstMarkdown(e.paths)
      case None => None
      case Some(k) => Some(Lossy(e.paths[k]))
  }

  const Init := LoopState([], [], false)

  /** One turn of the loop; after a receiver error nothing more happens. */
  function Step(st: LoopState, item: Incoming): LoopState {
    if st.stopped then st
    else
      match item
      case RecvError => st.(log := st.log + [ReceiverError], stopped := true)
      case Received(WatchError(m), _) => st.(log := st.log + [WatcherError(m)])
      case Received(Event(e), subscribed) =>
        match EventBroadcast(e)
        case None => st
        case Some(path) =>
          if subscribed then st.(delivered := st.delivered + [path])
          else st.(log := st.log + [BroadcastFailed(path)])
  }

  function Fold(st: LoopState, items: seq<Incoming>): LoopState
    decreases |items|
  {
    if items == [] then st else Step(Fold(st, items[..|items| - 1]), items[|items| - 1])
  }

  /** The loop's effect on a whole sequence of received items. */
  function Run(inbox: seq<Incoming>): LoopState {
    Fold(Init, inbox)
  }

  lemma RunSnoc(inbox: seq<Incoming>, i: nat)
    requires i < |inbox|
    ensures Run(inbox[..i + 1]) == Step(Run(inbox[..i]), inbox[i])
  {
    assert inbox[..i + 1][..i] == inbox[..i];
  }

  /**
   * The `for` over an event's paths: send the first Markdown path's lossy
   * text, or log the failed send, and stop looking.
   */
  method SendFirstMarkdown(paths: seq<OsString>, subscribed: bool, delivered: seq<string>, log: seq<LogLine>)
    returns (delivered': seq<string>, log': seq<LogLine>)
    ensures FirstMarkdown(paths).None? ==> delivered' == delivered && log' == log
    ensures FirstMarkdown(paths).Some? && subscribed ==>
      delivered' == delivered + [Lossy(paths[FirstMarkdown(paths).value])] && log' == log
    ensures FirstMarkdown(paths).Some? && !subscribed ==>
      delivered' == delivered && log' == log + [BroadcastFailed(Lossy(paths[FirstMarkdown(paths).value]))]
  {
    delivered', log' := delivered, log;
    var k := 0;
    while k < |paths|
      invariant 0 <= k <= |paths|
      invariant forall j | 0 <= j < k :: !IsMarkdownPath(paths[j])
    {
      var ext := Extension(paths[k]);
      if ext.Some? && (ext.value == MdExt || ext.value == MarkdownExt) {
        var pathStr := Lossy(paths[k]);
        if subscribed {
          delivered' := delivered' + [pathStr];
        } else {
          log' := log' + [BroadcastFailed(pathStr)];
        }
        FirstMarkdownAt(paths, k);
        break;
      }
      k := k + 1;
    }
  }

  /** The first Markdown path is the one before which there is none. */
  lemma FirstMarkdownAt(paths: seq<OsString>, k: nat)
    requires k < |paths| && IsMarkdownPath(paths[k])
    requires forall j | 0 <= j < k :: !IsMarkdownPath(paths[j])
    ensures FirstMarkdown(paths) == Some(k)
  {
  }

  /**
   * The spawned task: receive until the receiver fails, and for each event
   * of a counted kind send the first Markdown path, then stop looking.
   * `consumed` is how many items were taken from the receiver.
   */
  method RunEventLoop(inbox: seq<Incoming>) returns (delivered: seq<string>, log: seq<LogLine>, consumed: nat)
    ensures delivered == Run(inbox).delivered && log == Run(inbox).log
    ensures consumed <= |inbox| && forall j | 0 <= j < consumed - 1 :: !inbox[j].RecvError?
    ensures consumed < |inbox| ==> 0 < consumed && inbox[consumed - 1].RecvError?
    ensures Run(inbox) == Run(inbox[..consumed])
  {
    delivered, log := [], [];
    var i := 0;
    while i < |inbox|
      invariant 0 <= i <= |inbox|
      invariant Run(inbox[..i]) == LoopState(delivered, log, false)
      invariant forall j | 0 <= j < i :: !inbox[j].RecvError?
    {
      RunSnoc(inbox, i);
      match inbox[i] {
        case RecvError =>
          log := log + [ReceiverError];
          consumed := i + 1;
          StoppedRunEnds(inbox, i + 1);
          return;
        case Received(result, subscribed) =>
          match result {
            case WatchError(m) =>
              log := log + [WatcherError(m)];
            case Event(e) =>
              if Counts(e.kind) {
                delivered, log := SendFirstMarkdown(e.paths, subscribed, delivered, log);
              }
          }
      }
      i := i + 1;
    }
    assert inbox[..i] == inbox;
    consumed := |inbox|;
  }

  // ---------------------------------------------------------------------------
  // Properties

  lemma {:induction false} StoppedStays(st: LoopState, items: seq<Incoming>)
    requires st.stopped
    ensures Fold(st, items) == st
    decreases |items|
  {
    if items != [] {
      StoppedStays(st, items[..|items| - 1]);
    }
  }

  lemma StoppedRunEnds(inbox: seq<Incoming>, n: nat)
    requires n <= |inbox| && Run(inbox[..n]).stopped
    ensures Run(inbox) == Run(inbox[..n])
  {
    FoldAppend(Init, inbox[..n], inbox[n..]);
    assert inbox[..n] + inbox[n..] == inbox;
    StoppedStays(Run(inbox[..n]), inbox[n..]);
  }

  lemma {:induction false} FoldAppend(st: LoopState, a: seq<Incoming>, b: seq<Incoming>)
    ensures Fold(st, a + b) == Fold(Fold(st, a), b)
    decreases |b|
  {
    if b == [] {
      assert a + b == a;
    } else {
      assert (a + b)[..|a + b| - 1] == a + b[..|b| - 1];
      FoldAppend(st, a, b[..|b| - 1]);
    }
  }

  /** `p` is `q` run on top of the earlier output of `st`. */
  predicate Extends(st: LoopState, p: LoopState, q: LoopState) {
    p.delivered == st.delivered + q.delivered && p.log == st.log + q.log && p.stopped == q.stopped
  }

  lemma StepExtends(st: LoopState, p: LoopState, q: LoopState, x: Incoming)
    requires Extends(st, p, q)
    ensures Extends(st, Step(p, x), Step(q, x))
  {
    if !p.stopped {
      match x
      case RecvError =>
        assert p.log + [ReceiverError] == st.log + (q.log + [ReceiverError]);
      case Received(WatchError(m), _) =>
        assert p.log + [WatcherError(m)] == st.log + (q.log + [WatcherError(m)]);
      case Received(Event(e), subscribed) =>
        match EventBroadcast(e)
        case None =>
        case Some(path) =>
          assert p.delivered + [path] == st.delivered + (q.delivered + [path]);
          assert p.log + [BroadcastFailed(path)] == st.log + (q.log + [BroadcastFailed(path)]);
    }
  }

  /** From a running state, the loop adds exactly what it would add from the start. */
  lemma {:induction false} FoldFromRunning(st: LoopState, b: seq<Incoming>)
    requires !st.stopped
    ensures Extends(st, Fold(st, b), Run(b))
    decreases |b|
  {
    if b != [] {
      FoldFromRunning(st, b[..|b| - 1]);
      StepExtends(st, Fold(st, b[..|b| - 1]), Run(b[..|b| - 1]), b[|b| - 1]);
    }
  }

  /** Paths go on the channel in the order their events arrive. */
  lemma OrderPreserved(a: seq<Incoming>, b: seq<Incoming>)
    requires !Run(a).stopped
    ensures Run(a + b).delivered == Run(a).delivered + Run(b).delivered
    ensures Run(a + b).log == Run(a).log + Run(b).log
  {
    FoldAppend(Init, a, b);
    FoldFromRunning(Run(a), b);
  }

  /** The loop ends at the first receiver error: nothing after it is handled. */
  lemma StopsAtReceiverError(a: seq<Incoming>, b: seq<Incoming>)
    ensures Run(a + [RecvError] + b) == Run(a + [RecvError])
    ensures Run(a + [RecvError]).delivered == Run(a).delivered
    ensures Run(a + [RecvError]).stopped
  {
    FoldAppend(Init, a + [RecvError], b);
    assert (a + [RecvError])[..|a|] == a;
    StoppedStays(Run(a + [RecvError]), b);
  }

  /** Each item puts at most one path on the channel. */
  lemma AtMostOnePerEvent(a: seq<Incoming>, x: Incoming)
    ensures |Run(a + [x]).delivered| <= |Run(a).delivered| + 1
  {
    assert (a + [x])[..|a|] == a;
  }

  /** Events of any other kind are ignored entirely. */
  lemma OnlyCountedKinds(a: seq<Incoming>, e: FsEvent, subscribed: bool)
    requires !Counts(e.kind)
    ensures Run(a + [Received(Event(e), subscribed)]) == Run(a)
  {
    assert (a + [Received(Event(e), subscribed)])[..|a|] == a;
  }

  /** A watcher error is logged, sends nothing, and the loop goes on. */
  lemma WatcherErrorSkipped(a: seq<Incoming>, m: string, subscribed: bool, b: seq<Incoming>)
    requires !Run(a).stopped
    ensures Run(a + [Received(WatchError(m), subscribed)]).log == Run(a).log + [WatcherError(m)]
    ensures !Run(a + [Received(WatchError(m), subscribed)]).stopped
    ensures Run(a + [Received(WatchError(m), subscribed)] + b).delivered == Run(a).delivered + Run(b).delivered
  {
    var x := Received(WatchError(m), subscribed);
    assert (a + [x])[..|a|] == a;
    OrderPreserved(a + [x], b);
  }

  /** A failed send is logged and the loop goes on with the next item. */
  lemma FailedSendContinues(a: seq<Incoming>, e: FsEvent, b: seq<Incoming>)
    requires !Run(a).stopped && EventBroadcast(e).Some?
    ensures Run(a + [Received(Event(e), false)]).log == Run(a).log + [BroadcastFailed(EventBroadcast(e).value)]
    ensures !Run(a + [Received(Event(e), false)]).stopped
    ensures Run(a + [Received(Event(e), false)] + b).delivered == Run(a).delivered + Run(b).delivered
  {
    var x := Received(Event(e), false);
    assert (a + [x])[..|a|] == a;
    OrderPreserved(a + [x], b);
  }

  /** A counted event with a Markdown path delivers the first such path's lossy text. */
  lemma MarkdownEventDelivers(a: seq<Incoming>, e: FsEvent, k: nat)
    requires !Run(a).stopped && Counts(e.kind)
    requires k < |e.paths| && IsMarkdownPath(e.paths[k])
    requires forall j | 0 <= j < k :: !IsMarkdownPath(e.paths[j])
    ensures Run(a + [Received(Event(e), true)]).delivered == Run(a).delivered + [Lossy(e.paths[k])]
  {
    var x := Received(Event(e), true);
    assert (a + [x])[..|a|] == a;
    FirstMarkdownAt(e.paths, k);
  }

  /** The path one item puts on the channel: at most one, and only if a receiver is live. */
  function Sent(x: Incoming): seq<string> {
    match x
    case Received(Event(e), true) => if EventBroadcast(e).Some? then [EventBroadcast(e).value] else []
    case _ => []
  }

  /**
   * What reaches the channel, read front to back: the first Markdown path
   * of each counted event that has a live receiver, up to the first
   * receiver error.
   */
  function DeliveredPaths(inbox: seq<Incoming>): seq<string>
    decreases |inbox|
  {
    if inbox == [] || inbox[0].RecvError? then [] else Sent(inbox[0]) + DeliveredPaths(inbox[1..])
  }

  /** No receiver error was received. */
  predicate NoRecvError(inbox: seq<Incoming>) {
    forall j | 0 <= j < |inbox| :: !inbox[j].RecvError?
  }

  /** The first item is handled first, from the initial state. */
  lemma RunCons(x: Incoming, rest: seq<Incoming>)
    ensures Run([x] + rest) == Fold(Step(Init, x), rest)
  {
    FoldAppend(Init, [x], rest);
    assert [x][..0] == [];
  }

  lemma NoRecvErrorCons(x: Incoming, rest: seq<Incoming>)
    ensures NoRecvError([x] + rest) <==> !x.RecvError? && NoRecvError(rest)
  {
    var inbox := [x] + rest;
    assert inbox[0] == x;
    forall j | 0 <= j < |rest| ensures rest[j] == inbox[j + 1] { }
    if !NoRecvError(rest) {
      var j :| 0 <= j < |rest| && rest[j].RecvError?;
      assert inbox[j + 1].RecvError?;
    }
  }

  /** Handling one item other than a receiver error from the start sends `Sent` and keeps going. */
  lemma StepFromInit(x: Incoming)
    requires !x.RecvError?
    ensures Step(Init, x).delivered == Sent(x) && !Step(Init, x).stopped && |Sent(x)| <= 1
  {
  }

  /**
   * The loop delivers exactly `DeliveredPaths`, at most one path per item,
   * and it has ended exactly when a receiver error arrived.
   */
  lemma {:induction false} RunDeliversInOrder(inbox: seq<Incoming>)
    ensures Run(inbox).delivered == DeliveredPaths(inbox)
    ensures |Run(inbox).delivered| <= |inbox|
    ensures Run(inbox).stopped <==> !NoRecvError(inbox)
    decreases |inbox|
  {
    if inbox != [] {
      var x, rest := inbox[0], inbox[1..];
      assert inbox == [x] + rest;
      RunCons(x, rest);
      NoRecvErrorCons(x, rest);
      RunDeliversInOrder(rest);
      var first := Step(Init, x);
      if x.RecvError? {
        StoppedStays(first, rest);
      } else {
        StepFromInit(x);
        FoldFromRunning(first, rest);
      }
    }
  }

  /** An event broadcasts a path exactly when it is counted and some path is Markdown. */
  lemma BroadcastIffMarkdown(e: FsEvent)
    ensures EventBroadcast(e).Some? <==> Counts(e.kind) && exists j | 0 <= j < |e.paths| :: IsMarkdownPath(e.paths[j])
  {
  }

  const UpperMdExt: OsString := [Ch('M'), Ch('D')]

  /** A path's markdown status follows from its extension alone. */
  lemma MarkdownByExtension(p: OsString, ext: OsString)
    requires Extension(p) == Some(ext)
    ensures IsMarkdownPath(p) <==> ext == MdExt || ext == MarkdownExt
  {
  }

  lemma SecondPathBroadcast(kind: EventKind, p: OsString, q: OsString)
    requires Counts(kind) && !IsMarkdownPath(p) && IsMarkdownPath(q)
    ensures EventBroadcast(FsEvent(kind, [p, q])) == Some(Lossy(q))
  {
    var paths := [p, q];
    assert paths[0] == p && paths[1] == q;
    FirstMarkdownAt(paths, 1);
  }

  /**
   * Extensions compare case-sensitively: of a path with extension `MD`
   * followed by one with extension `md`, the second is broadcast.
   */
  lemma CaseVariantSkipped(upper: OsString, lower: OsString)
    requires Extension(upper) == Some(UpperMdExt) && Extension(lower) == Some(MdExt)
    ensures EventBroadcast(FsEvent(Modify, [upper, lower])) == Some(Lossy(lower))
  {
    assert UpperMdExt != MdExt by {
      assert UpperMdExt[0] != MdExt[0];
    }
    MarkdownByExtension(upper, UpperMdExt);
    MarkdownByExtension(lower, MdExt);
    SecondPathBroadcast(Modify, upper, lower);
  }

  /** `notes.MD` and `notes.md` in one directory have those extensions. */
  lemma CaseVariantPaths(dir: OsString, stem: OsString)
    requires dir == [] || dir[|dir| - 1] == Slash
    requires stem != [] && SlashFree(stem)
    ensures Extension(dir + (stem + [Dot] + UpperMdExt)) == Some(UpperMdExt)
    ensures Extension(dir + (stem + [Dot] + MdExt)) == Some(MdExt)
  {
    ExtensionOfJoin(dir, stem, UpperMdExt);
    ExtensionOfJoin(dir, stem, MdExt);
  }
}
