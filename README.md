# livedown, modelled in Dafny

livedown previews a Markdown file in the browser. A server watches the
file. It renders the file to HTML and pushes `title` and `content` events
over socket.io to every open viewer. A DELETE request to `/` makes it send
`kill` and exit. The repository holds two servers:

- A Node one: `src/server.ts` and `src/utils.ts`, built on markdown-it and
  chokidar.
- A Rust one: `src/server.rs`, `src/markdown.rs` and
  `rust-livedown/src/file_watcher.rs`, built on pulldown-cmark, syntect and
  notify.

This project models the core of both servers and proves properties about
the model:

- **The Rust renderer's own logic**:
  - the rewriting of the parser's event stream (heading ids and fenced code
    blocks);
  - the shape of the highlighted code block;
  - the two LaTeX passes;
  - the emoji table and its replacement passes;
  - the order in which `render` applies them.
- **The Node command-line splitter**: `splitCommandLine`.
- **The Rust watcher's event loop**: which events lead to a broadcast, and
  when the loop stops.
- **Both servers' session state**:
  - who receives which event on a connection, on a file change and on
    shutdown;
  - how watchers are replaced and closed;
  - the Rust server's static-file and index handlers.

Files:

- `common.dfy`:
  - `Wrappers`: `Option`.
  - `Seqs`: associativity of sequence concatenation.
  - `Decimal`: decimal printing of numbers, and a parser that reads them
    back.
  - `TextUtil`: substring and concatenation helpers.
- `markdown_events.dfy` (`MarkdownEvents`): `process_events`,
  `highlight_code` and Rust's `str::lines`.
- `latex_math.dfy` (`LatexMath`): `process_latex_math`. It implements the
  two regular expressions as leftmost, non-overlapping, shortest-match
  scanners.
- `emoji.dfy` (`Emoji`): `get_emoji_map` and `process_emojis`.
- `render.dfy` (`Render`): `render`'s pipeline.
- `command_line.dfy` (`CommandLine`): `splitCommandLine`.
- `os_path.dfy` (`OsPath`): the parts of Rust's `OsStr`/`Path` that the
  Rust side relies on, for Unix paths:
  - `to_string_lossy`;
  - `to_str`;
  - `file_name`;
  - `extension`.
- `file_watcher.dfy` (`FileWatcher`): the event loop of `FileWatcher::new`.
- `push.dfy` (`Push`): what both servers push to viewers.
- `ts_server.dfy` (`TsServer`): `LivedownServer` of `src/server.ts`, as a
  class.
- `rs_server.dfy` (`RsServer`): `LivedownServer` and the HTTP handlers of
  `src/server.rs`.

Collaborators whose code is not part of this model are parameters of the
model:

- the Markdown parsers;
- pulldown-cmark's HTML printer;
- syntect's line styling;
- `html_escape`;
- markdown-it's `render`;
- MIME guessing.

They are function-typed parameters or fields, so every statement about
them holds for every choice.

Each callback of the two servers is modelled as one atomic step:

- a socket.io connection;
- a watcher change;
- an HTTP request.

What the environment decides is passed in as a value:

- whether a file read succeeds, and what it returns;
- whether an emit is delivered;
- whether listening or binding succeeds.

Each server's emits are logged in its `emitted` field. A log entry names
the recipient (one socket or every socket), the event and the payload.

Three behaviours of the code are worth stating plainly:

- The Node server keeps a single `sock`. Every connection overwrites it,
  so change content goes only to the most recent socket
  (`TsServer.LivedownServer.OnChange`).
- A second `stop` of the Node server rejects, because the HTTP server's
  `close` reports that the server is not running
  (`TsServer.LivedownServer.Stop`).
- The Rust renderer numbers heading anchors `heading-<n>`, where `n` is
  the number of events already output
  (`MarkdownEvents.HeadingIdIsOutputIndex`).

## Model

| member | source | states |
|---|---|---|
| MarkdownEvents.ProcessEvents | src/markdown.rs:79-132 | The `for` loop over the parser's events, with its flag and two buffers, returns exactly the output of the arm-by-arm step specification run over the whole event sequence. |
| MarkdownEvents.RunFromAppend | src/markdown.rs:85-129 | Processing `a + b` equals processing `a` and then `b` from the resulting state. The loop carries no other state. |
| MarkdownEvents.OutputExtends | src/markdown.rs:85-129 | The loop only appends to its output. Whatever was output earlier stays a prefix. |
| MarkdownEvents.HeadingsCarryIds | src/markdown.rs:100-117 | Every heading start in the output carries an id. |
| MarkdownEvents.HeadingIdIsOutputIndex | src/markdown.rs:100-117 | A heading start is output at position `n`, the number of events output before it. It keeps its given id, or else gets `heading-<n>`. |
| MarkdownEvents.GeneratedIdsDistinct | src/markdown.rs:107-110 | Two headings without ids get different generated ids. |
| MarkdownEvents.FencedBlockCollapses | src/markdown.rs:87-98 | A fenced block whose body is text and other inert events becomes one Html event: `highlight_code` of the concatenated text in that language. No event from inside the block reaches the output. |
| MarkdownEvents.InsideBlock | src/markdown.rs:97-99 | Inside a fenced block, text is appended to the buffer in order and nothing is output. |
| MarkdownEvents.PassThrough | src/markdown.rs:119-127 | Outside fenced blocks, events that are neither fenced starts nor heading starts are output unchanged and in order. This includes indented code blocks. |
| MarkdownEvents.HighlightCode | src/markdown.rs:134-164 | The line-by-line loop returns `highlight_code`'s result. An empty language or blank code gives exactly `<pre><code>` + escaped code + `</code></pre>`. |
| MarkdownEvents.HighlightedNamesLanguage | src/markdown.rs:160-163 | With a language and non-blank code, the result starts `<pre class="highlight ` and holds both `highlight-<lang>` and `language-<lang>`. |
| MarkdownEvents.StyledBodyOneChunkPerLine | src/markdown.rs:150-158 | When no styled line holds a line feed, the body has exactly one line feed per source line and ends with one. |
| MarkdownEvents.Lines | src/markdown.rs:150 | Rust's `str::lines`: no line holds a line feed. A trailing `\r` before a line feed is dropped. |
| MarkdownEvents.LinesRoundTrip | src/markdown.rs:150 | Joining `str::lines` back with a line feed after each line gives the input, plus a final line feed if it lacked one (for inputs without carriage returns). |
| MarkdownEvents.RustBlockIsHighlighted | src/markdown.rs:248-253 | The code-highlighting test: the Rust sample's block holds `highlight-rust` and `language-rust`. |
| LatexMath.ProcessLatexMath | src/markdown.rs:56-77 | The display `replace_all` pass, then the inline one, on the printed HTML. What each pass does is stated by the rows that follow. |
| LatexMath.DisplayMatchComplete | src/markdown.rs:25 | The display scanner finds a match of `\$\$([^$]+?)\$\$` at the start of the text exactly when one exists. |
| LatexMath.InlineMatchComplete | src/markdown.rs:24 | The inline scanner finds a match of `\$([^$\n]+?)\$` at the start of the text exactly when one exists. |
| LatexMath.NoDollarUnchanged | src/markdown.rs:56-77 | Text without a dollar sign passes both math passes unchanged. |
| LatexMath.DisplayRewritesPair | src/markdown.rs:58-66 | `$$X$$` with X non-empty and dollar-free becomes the `katex-display` span around `\[X\]`. The rest of the text is processed after it. |
| LatexMath.InlineRewritesPair | src/markdown.rs:69-74 | `$X$` with X non-empty and free of dollars and line feeds becomes the `katex` span around `\(X\)`. |
| LatexMath.DisplayMathWins | src/markdown.rs:57-58 | Because the display pass runs first, `$$X$$` becomes a display span, not inline math. |
| LatexMath.InlineAloneMisreadsDisplay | src/markdown.rs:57 | The inline pass alone would turn `$$X$$` into `$` + inline span + `$`. This is why the display pass must come first. |
| LatexMath.DisplayKeepsInlinePair | src/markdown.rs:58-66 | The display pass leaves a single-dollar pair alone. |
| LatexMath.InlineSample | src/markdown.rs:267-269 | The inline-math test input becomes the expected `katex` span. |
| LatexMath.IntegralSampleIsDisplay | src/markdown.rs:271-274 | The integral test input becomes the expected display span. |
| LatexMath.QuadraticSampleIsDisplay | src/markdown.rs:276-279 | The multi-line test input, with line feeds inside the math, becomes the expected display span. |
| Emoji.EmojiMap | src/markdown.rs:178-226 | The 42 entries of `get_emoji_map`, code to emoji, in fourteen groups. Their shape is stated by the next row. |
| Emoji.EmojiMapWellFormed | src/markdown.rs:178-226 | Every key of the table is a short code (lower-case letters and `_`). Every value is an emoji with no colon that does not start like a code. |
| Emoji.ProcessEmojis | src/markdown.rs:166-176 | The loop over the map returns one `replace` pass per code, in the map's iteration order. |
| Emoji.ReplaceAll | src/markdown.rs:172 | Rust's `str::replace`: leftmost, non-overlapping occurrences of the pattern are replaced, and scanning resumes after each one. The passes' properties are the rows that follow. |
| Emoji.ColonFreeUnchanged | src/markdown.rs:166-176 | Text without a colon is unchanged by the emoji passes. |
| Emoji.AllCodesReplaced | src/markdown.rs:171-173 | In text made of known codes separated by colon-free text, every code becomes its emoji, whatever the iteration order. |
| Emoji.KnownCodeReplaced | src/markdown.rs:171-173 | A known `:code:` between colon-free texts becomes its emoji. |
| Emoji.UnknownCodeKept | src/markdown.rs:171-173 | An unknown `:code:` between colon-free texts is left as it is. |
| Emoji.SingleColonKept | src/markdown.rs:171-173 | A lone colon is left as it is. |
| Emoji.SmileHeartSample | src/markdown.rs:255-261 | The emoji test text gets 😄 and ❤️ in place of `:smile:` and `:heart:`. |
| Emoji.OverlappingCodesFollowOrder | src/markdown.rs:171-172 | For `:x:o:`, the result depends on whether `x` or `o` comes first in the iteration order. Replacements do not commute. |
| Render.Render | src/markdown.rs:36-54 | `render` is parse, then process events, then print HTML, then the math pass, then the emoji pass. |
| Render.PlainHtmlUntouched | src/markdown.rs:51-53 | Printed HTML with neither `$` nor `:` passes both text passes unchanged. |
| Render.EmojiInsideMath | src/markdown.rs:51-53 | Math runs first. A short code written as inline math ends up as its emoji inside a `katex` span. |
| Render.EmojiTest | src/markdown.rs:255-261 | When the paragraph is printed as is, the rendered emoji test holds 😄 and ❤️. |
| Render.InlineMathTest | src/markdown.rs:264-269 | When the paragraph is printed as is, the rendered inline-math test holds the `katex` span. |
| CommandLine.SplitCommandLine | src/utils.ts:11-22 | An undefined or empty command gives no words. Otherwise the words are `Tokens` of the command. The rows that follow state what they are. |
| CommandLine.Tokens | src/utils.ts:16-21 | The global matches of the pattern (plain runs and closed quoted spans glued together), left to right, each with its quotes removed. A match is taken as long as possible, and the search moves on one character where none starts. |
| CommandLine.EmptyCommand | src/utils.ts:12-14 | An absent or empty command gives no words. |
| CommandLine.BlankCommand | src/utils.ts:16-19 | A command of JavaScript white space only matches nothing, so it gives no words. |
| CommandLine.TokensQuoteFree | src/utils.ts:21 | No word holds a quote character. |
| CommandLine.QuoteFreeSplitsOnSpace | src/utils.ts:16 | Without quotes, the words are exactly the white-space-separated runs. This equals an independent word splitter. |
| CommandLine.QuoteFreeTokensAreWords | src/utils.ts:16 | Without quotes, every word is non-empty and free of white space. |
| CommandLine.QuotedGlue | src/utils.ts:16-21 | A closed quoted part glues to the plain runs around it into one word. The quotes are removed and the white space inside is kept. |
| CommandLine.UnclosedQuote | src/utils.ts:16-21 | A quote with no quote after it is dropped, and splits the text around it. This holds whenever the text before it has an even number of quotes, so that each of them is closed there. |
| CommandLine.QuotedThenUnclosed | src/utils.ts:16-21 | `'x y' a'b` gives `x y`, `a` and `b`. |
| CommandLine.UnclosedQuoteExample | src/utils.ts:16-21 | `a'b` gives `a` and `b`. |
| CommandLine.EmptyQuotes | src/utils.ts:16-21 | `''` gives one empty word. |
| CommandLine.TokensSplit | src/utils.ts:16 | The words of a quote-free text followed by a separating remainder are the words of each part. |
| CommandLine.DocExample | src/utils.ts:8-9 | `'google chrome' --incognito` gives `google chrome` and `--incognito`. |
| OsPath.Lossy | rust-livedown/src/file_watcher.rs:51 | `to_string_lossy`: one character per unit, the unit's character when it is text, U+FFFD when it is an invalid byte run. |
| OsPath.FileName | src/server.rs:83-84 | `file_name`: the last normal component, never `..`, and none when there is none. |
| OsPath.Extension | rust-livedown/src/file_watcher.rs:49 | `extension`: only a path with a file name has one, and it holds no dot. |
| OsPath.ToStr | src/server.rs:85 | `to_str` succeeds exactly on valid UTF-8, with the lossy text. |
| OsPath.FileNameOfJoin | src/server.rs:83-84 | The file name of `dir/name` is `name`. |
| OsPath.ExtensionOfJoin | rust-livedown/src/file_watcher.rs:49 | The extension of `stem.ext` with a non-empty stem is `ext`. |
| OsPath.HiddenFileHasNoExtension | rust-livedown/src/file_watcher.rs:49 | `.md` has no extension. |
| OsPath.DotFreeNameHasNoExtension | rust-livedown/src/file_watcher.rs:49 | A name without a dot has no extension. |
| OsPath.TrailingSlashIgnored | src/server.rs:83-84 | A trailing separator does not change the file name. |
| OsPath.RootHasNoFileName | src/server.rs:83-86 | `/` and the empty path have no file name. |
| FileWatcher.FirstMarkdown | rust-livedown/src/file_watcher.rs:48-60 | It finds the first path whose extension is `md` or `markdown`, and none when no path has one. |
| FileWatcher.SendFirstMarkdown | rust-livedown/src/file_watcher.rs:48-62 | The `for` loop with `break` sends the lossy string of the first Markdown path, once. A failed send is logged instead. |
| FileWatcher.EventBroadcast | rust-livedown/src/file_watcher.rs:42-62 | The path one event sends: the lossy string of its first Markdown path, for a modify, create or remove event. Its properties are `FileWatcher.BroadcastIffMarkdown` and the rows above. |
| FileWatcher.Step | rust-livedown/src/file_watcher.rs:35-73 | One turn of the loop: a receiver error is logged and ends it, a watcher error is logged, and an event sends its path or logs the failed send. After the end nothing changes. Its properties are the rows that follow. |
| FileWatcher.RunEventLoop | rust-livedown/src/file_watcher.rs:34-75 | The loop's broadcasts and log equal the step specification over its inbox. It consumes items up to and including the first receiver error. |
| FileWatcher.RunDeliversInOrder | rust-livedown/src/file_watcher.rs:34-75 | What reaches the channel is, in order, the path of each counted Markdown event with a live receiver before the first receiver error. That is at most one path per item. The loop has ended exactly when a receiver error arrived. |
| FileWatcher.OrderPreserved | rust-livedown/src/file_watcher.rs:34-75 | Broadcasts come out in the order of the events. |
| FileWatcher.StopsAtReceiverError | rust-livedown/src/file_watcher.rs:70-73 | Nothing after a receiver error has any effect. |
| FileWatcher.AtMostOnePerEvent | rust-livedown/src/file_watcher.rs:59 | Each event yields at most one broadcast. |
| FileWatcher.OnlyCountedKinds | rust-livedown/src/file_watcher.rs:42-47 | Events other than modify, create and remove change nothing. |
| FileWatcher.WatcherErrorSkipped | rust-livedown/src/file_watcher.rs:65-67 | A watcher error adds exactly its log line, sends nothing, and the loop continues. |
| FileWatcher.FailedSendContinues | rust-livedown/src/file_watcher.rs:53-58 | A failed broadcast adds exactly its log line, and the loop continues. |
| FileWatcher.MarkdownEventDelivers | rust-livedown/src/file_watcher.rs:48-53 | A counted event with a first Markdown path delivers that path's lossy string. |
| FileWatcher.BroadcastIffMarkdown | rust-livedown/src/file_watcher.rs:42-50 | An event broadcasts exactly when its kind counts and some path has a Markdown extension. |
| FileWatcher.MarkdownByExtension | rust-livedown/src/file_watcher.rs:49-50 | A path counts as Markdown exactly when its extension is `md` or `markdown`. |
| FileWatcher.SecondPathBroadcast | rust-livedown/src/file_watcher.rs:48-60 | When only the second path is Markdown, the event broadcasts that path. |
| FileWatcher.CaseVariantSkipped | rust-livedown/src/file_watcher.rs:50 | The comparison is case-sensitive: `MD` is skipped, and a later `md` path is sent. |
| TsServer.DefaultPort | src/server.ts:34 | The given port, or 1337 when it is absent or zero. Its behaviour is stated by the next row. |
| TsServer.UriOf | src/server.ts:35 | The template `http://localhost:${port}`. Its properties are `TsServer.UriNamesPort` and `TsServer.UriInjective`. |
| TsServer.PortDefaults | src/server.ts:34 | An absent or zero port falls back to 1337. Any other port is kept. |
| TsServer.UriNamesPort | src/server.ts:35 | The URI is `http://localhost:` followed by the port's digits, which read back as the port. |
| TsServer.UriInjective | src/server.ts:35 | Different ports give different URIs. |
| TsServer.DefaultUri | src/server.ts:34-35 | The default URI is `http://localhost:1337`. |
| TsServer.LivedownServer.constructor | src/server.ts:33-36 | The port default and the URI. `sock` is the no-op emitter, with no watcher, nothing emitted and nothing registered. |
| TsServer.LivedownServer.Watch | src/server.ts:78-94 | It logs closing the current watcher before creating the new one. Afterwards exactly the new watcher is open. |
| TsServer.LivedownServer.OnChange | src/server.ts:85-93 | With the current watcher open and a successful read, it emits the rendered text as `content` to the socket in `sock`. A no-op `sock` drops it. A failed read emits nothing. No other field changes. |
| TsServer.LivedownServer.OnConnection | src/server.ts:142-153 | `sock` becomes the new socket. Each listener `start` registered sends it the title, then the content if its read succeeds. |
| TsServer.LivedownServer.OnDelete | src/server.ts:135-139 | Once `start` has added the route, it emits `kill` to every socket and exits. Before that it changes nothing. |
| TsServer.LivedownServer.Start | src/server.ts:112-168 | It registers the connection listener and the DELETE route, watches the path with a new watcher, then listens. It rejects when listening fails. |
| TsServer.LivedownServer.Stop | src/server.ts:96-110 | It closes the watcher if there is one, leaving no watcher open (the field keeps it). Then it closes the server: it resolves if the server was listening and rejects otherwise. |
| TsServer.OpenAfterClose | src/server.ts:78-83 | Closing the only open watcher leaves none open. |
| TsServer.ConnectionAfterStart | src/server.ts:142-153 | After one `start`, a connection gets the title `basename(filePath)` first, then the content exactly when the read succeeds. |
| TsServer.ConnectionBeforeStart | src/server.ts:69-71 | Before `start`, a connection only sets `sock`. |
| TsServer.ConnectionEmissionsTarget | src/server.ts:143-149 | Everything a connection is sent goes to that socket. |
| TsServer.Basename | src/server.ts:144 | POSIX `path.basename`: the last run without `/`, ignoring trailing separators. The rows that follow state its properties. |
| TsServer.BasenameOfJoin | src/server.ts:144 | The title of `dir/name` is `name`. |
| TsServer.BasenameIgnoresTrailingSlash | src/server.ts:144 | A trailing separator does not change the title. |
| TsServer.BasenameShape | src/server.ts:144 | A title holds no separator. The root's title is empty. |
| RsServer.TitleOf | src/server.rs:83-86 | The title is the file name when it is UTF-8. It is `Untitled` when there is no file name or it is not UTF-8. |
| RsServer.TitleOfJoin | src/server.rs:83-86 | The title of `dir/name`, for a text name other than `.` and `..`, is `name`. |
| RsServer.NonUtf8TitleIsUntitled | src/server.rs:85-86 | A file name that is not UTF-8 gives `Untitled`. |
| RsServer.RootTitleIsUntitled | src/server.rs:84-86 | `/` gives `Untitled`. |
| RsServer.LivedownServer.constructor | src/server.rs:38-47 | It keeps the port, with no current file, no SocketIo, no watcher and nothing emitted. |
| RsServer.LivedownServer.Start | src/server.rs:55-120 | It stores the absolute path first, then the SocketIo, then the watcher. Each failing `?` returns with what was stored so far. |
| RsServer.LivedownServer.OnConnection | src/server.rs:74-105 | What the connection receives is given by the push specification (next row). |
| RsServer.ConnectionPushShape | src/server.rs:80-104 | Without a current file, or when the title emit fails, nothing is sent. Otherwise the title comes first, then the content exactly when the read and its emit succeed, all to that socket. |
| RsServer.LivedownServer.ChangeLoop | src/server.rs:127-148 | The `while let` loop emits exactly the broadcasts of the notices before the first failed `recv`, and consumes that failure too. |
| RsServer.LivedownServer.HandleChange | src/server.rs:130-145 | One received change emits the rendered content to everyone exactly when it names the current file, the read succeeds and the emit succeeds. Otherwise it emits nothing. |
| RsServer.BroadcastsShape | src/server.rs:131-146 | There is at most one broadcast per notice, each a `content` event to every socket. |
| RsServer.QuietNotices | src/server.rs:132-143 | Notices for other paths, failed reads and a missing current file broadcast nothing. |
| RsServer.CurrentFileBroadcast | src/server.rs:133-140 | A notice naming the current file's lossy string, read and sent, broadcasts its rendering. The notices around it are unaffected. |
| RsServer.BroadcastsAppend | src/server.rs:128-147 | Broadcasts of consecutive notices concatenate. |
| RsServer.AfterFailureIgnored | src/server.rs:128 | Notices after the first failed `recv` are never looked at. |
| RsServer.LossyComparisonConflates | src/server.rs:133 | The check compares lossy strings. A change to another path whose invalid bytes print alike broadcasts the current file. |
| RsServer.TrimShape | src/server.rs:208 | The trimmed path starts with no `/`, and only `/` were removed. |
| RsServer.TrimIgnoresSlash | src/server.rs:208 | An extra leading `/` does not change the trimmed path. |
| RsServer.TrimIdempotent | src/server.rs:208 | Trimming twice is trimming once. |
| RsServer.ServeStatic | src/server.rs:207-224 | `serve_static`: look up the path without its leading slashes in the bundle. Its behaviour is stated by the next row. |
| RsServer.ServeStaticFinds | src/server.rs:207-224 | 200 with the file's bytes exactly when the trimmed path is bundled, 404 otherwise. |
| RsServer.StaticRequestPath | src/server.rs:207-211 | `/name` and `//name` are served as `name`. |
| RsServer.ServeIndex | src/server.rs:197-205 | 404 exactly when `index.html` is not bundled. Otherwise its text, or empty text when it is not UTF-8. |
| RsServer.LivedownServer.ShutdownHandler | src/server.rs:226-241 | It emits `kill` to every socket only when a SocketIo is stored (and the emit succeeds), schedules the exit, and always answers 200. |

## Left out

- The Markdown parsers (pulldown-cmark and markdown-it with its plugins),
  pulldown-cmark's HTML printer, syntect's syntax lookup and styling, and
  `html_escape`. They are function parameters whose output is not specified.
  Their code is not part of this model.
- MarkdownEvents.HighlightCode: the theme lookup and the two `unwrap`s
  at src/markdown.rs:145, 152 and 155 are taken to succeed. The theme name
  is a constant of `new`, and styling failures are not modelled, so the
  panics are not captured.
- Emoji.ProcessEmojis: the iteration order of the emoji `HashMap` is a
  parameter (any order naming each code once), not a particular hash order.
- Concurrency and timing:
  - `tokio::spawn`, `RwLock`, the broadcast channel's capacity and lag, the
    sleeps before opening the browser and before `process::exit`;
  - interleavings across `await`. Every callback is one atomic step, so the
    Node connection listener's content goes to the connecting socket even
    though the code sends it through `sock` after an `await`.
- Transport:
  - Express and axum routing, CORS, the `GET /` route and `express.static`
    of the Node server, socket.io itself;
  - listening, binding and closing, which appear only as success or failure
    inputs;
  - Node's `listen` reports errors through an `error` event, not through
    the callback. The model follows the code's callback and rejects.
- File reads and the watcher libraries: their outcomes are inputs.
  `watch_file`/`unwatch_file` are thin wrappers and are not modelled.
  Closing a chokidar watcher is taken to succeed.
- `path_absolutize`: the absolute path is an input, or absent when it
  fails.
- `mime_guess` is a function parameter.
- `contents_utf8` is an input of each bundled file.
- `include_dir`'s lookup is exact on the bundle's keys. Path-component
  normalisation of lookups is not modelled.
- `isPathRelative` (src/utils.ts:3-5): it depends on the working directory
  and Node's `path` resolution. Only the flag it sets for `sendFile` uses
  it, and that is part of the transport.
- TsServer.LivedownServer.constructor: the port is an optional integer;
  `NaN` and non-integer ports are not modelled.
- JavaScript strings are modelled as sequences of code points rather than
  UTF-16 code units, in `splitCommandLine` and `basename`.
- Node's `path.basename` is modelled for POSIX separators only.
- OsPath: the OS string model keeps each non-UTF-8 byte run as a unit that
  `to_string_lossy` prints as one U+FFFD. The byte-level decoding of
  invalid UTF-8 is not modelled. Paths are Unix paths.
- The command-line interfaces, the browser client, the compiled `dist/`
  copies and the build scripts are not part of this model.
