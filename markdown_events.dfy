/**
 * The event post-processing of the Rust renderer (src/markdown.rs): the
 * one-pass transformer over the parser's event stream that collapses fenced
 * code blocks into highlighted HTML and gives every heading an id, and the
 * HTML shape of a highlighted block.
 *
 * The markdown parser, the syntax highlighter and the HTML escaper are foreign
 * code: the parser's output is an input here, and the other two are the
 * function-valued fields of a `Highlighter`.
 */
module MarkdownEvents {
  import opened Wrappers
  import opened Decimal
  import opened TextUtil

  datatype CodeBlockKind = Indented | Fenced(lang: string)

  /** The tags that open a container; the ones the renderer does not inspect are `OtherTag`. */
  datatype Tag =
    | Heading(level: nat, id: Option<string>, classes: seq<string>, attrs: seq<(string, Option<string>)>)
    | CodeBlock(kind: CodeBlockKind)
    | Item
    | OtherTag(name: string)

  datatype TagEnd = EndHeading(level: nat) | EndCodeBlock | EndItem | EndOther(name: string)

  /** A parser event; events the renderer never inspects are `OtherEvent`. */
  datatype Event =
    | Start(tag: Tag)
    | End(tagEnd: TagEnd)
    | Text(text: string)
    | Html(html: string)
    | OtherEvent(name: string, text: string)

  /**
   * The foreign collaborators of `highlight_code`: HTML escaping of a plain
   * block, and the styled HTML of one line. The highlighter keeps parse state
   * from line to line, so the styled HTML of a line may depend on every line
   * before it: `styleLine(lang, lines)` styles the last of `lines`.
   */
  datatype Highlighter = Highlighter(escape: string -> string, styleLine: (string, seq<string>) -> string)

  // ---------------------------------------------------------------------------
  // Text helpers with Rust's semantics

  /** Rust's `char::is_whitespace`: the Unicode White_Space property. */
  predicate IsRustWhitespace(c: char) {
    ('\t' <= c <= '\r') || c == ' ' || c == '\U{85}' || c == '\U{A0}' || c == '\U{1680}'
    || ('\U{2000}' <= c <= '\U{200A}') || c == '\U{2028}' || c == '\U{2029}' || c == '\U{202F}'
    || c == '\U{205F}' || c == '\U{3000}'
  }

  /** `code.trim().is_empty()`. */
  predicate IsBlank(code: string) {
    forall i :: 0 <= i < |code| ==> IsRustWhitespace(code[i])
  }

  /** The index of the first line feed in `s`, if any. */
  function NewlineIndex(s: string): (r: Option<nat>)
    ensures r.Some? ==> r.value < |s| && s[r.value] == '\n' && '\n' !in s[..r.value]
    ensures r.None? ==> '\n' !in s
    decreases |s|
  {
    if s == [] then None
    else if s[0] == '\n' then Some(0)
    else match NewlineIndex(s[1..])
      case None => None
      case Some(j) =>
        assert s[..j + 1] == [s[0]] + s[1..][..j];
        Some(j + 1)
  }

  function StripCr(line: string): string {
    if line != [] && line[|line| - 1] == '\r' then line[..|line| - 1] else line
  }

  /**
   * Rust's `str::lines`: split after each line feed, drop the line feed and
   * then one carriage return before it; a last line without a line feed is
   * kept as it is, and an empty last line is not produced.
   */
  function Lines(s: string): (ls: seq<string>)
    ensures forall i :: 0 <= i < |ls| ==> '\n' !in ls[i]
    decreases |s|
  {
    if s == [] then []
    else match NewlineIndex(s)
      case None => [s]
      case Some(j) => [StripCr(s[..j])] + Lines(s[j + 1..])
  }

  /** Every line followed by a line feed. */
  function JoinTerminated(lines: seq<string>): string
    decreases |lines|
  {
    if lines == [] then [] else lines[0] + "\n" + JoinTerminated(lines[1..])
  }

  /**
   * Splitting into lines and terminating each one again gives back the text,
   * with a final line feed added when it had none (for text without carriage
   * returns).
   */
  lemma {:induction false} LinesRoundTrip(s: string)
    requires '\r' !in s
    ensures JoinTerminated(Lines(s)) == if s == [] || s[|s| - 1] == '\n' then s else s + "\n"
    decreases |s|
  {
    if s != [] {
      match NewlineIndex(s)
      case None =>
        calc {
          JoinTerminated(Lines(s));
          JoinTerminated([s]);
        == { assert [s][1..] == []; }
          s + "\n" + JoinTerminated([]);
        == { assert s + "\n" + [] == s + "\n"; }
          s + "\n";
        }
        assert s[|s| - 1] in s;
      case Some(j) =>
        var head, rest := s[..j], s[j + 1..];
        NoCarriageReturnAround(s, j);
        LinesRoundTrip(rest);
        calc {
          JoinTerminated(Lines(s));
          JoinTerminated([StripCr(head)] + Lines(rest));
          JoinTerminated([head] + Lines(rest));
        == { assert ([head] + Lines(rest))[1..] == Lines(rest); }
          head + "\n" + JoinTerminated(Lines(rest));
        }
        RejoinAtNewline(s, j, JoinTerminated(Lines(rest)));
    }
  }

  /** The part before a line feed, the line feed, and the terminated part after it. */
  lemma RejoinAtNewline(s: string, j: nat, r: string)
    requires j < |s| && s[j] == '\n'
    requires var rest := s[j + 1..];
      r == if rest == [] || rest[|rest| - 1] == '\n' then rest else rest + "\n"
    ensures s[..j] + "\n" + r == if s == [] || s[|s| - 1] == '\n' then s else s + "\n"
  {
    var rest := s[j + 1..];
    SplitAtNewline(s, j);
    if rest != [] && rest[|rest| - 1] != '\n' {
      assert s[..j] + "\n" + (rest + "\n") == s[..j] + "\n" + rest + "\n";
    }
  }

  /** Text without carriage returns has none on either side of a line feed. */
  lemma NoCarriageReturnAround(s: string, j: nat)
    requires '\r' !in s && j < |s|
    ensures '\r' !in s[..j] && '\r' !in s[j + 1..] && StripCr(s[..j]) == s[..j]
  {
    var head, rest := s[..j], s[j + 1..];
    forall i | 0 <= i < |head| ensures head[i] != '\r' {
      assert head[i] == s[i];
    }
    forall i | 0 <= i < |rest| ensures rest[i] != '\r' {
      assert rest[i] == s[j + 1 + i];
    }
    if head != [] {
      assert head[|head| - 1] in head;
    }
  }

  /** Text cut at a line feed is the part before, the line feed and the part after. */
  lemma SplitAtNewline(s: string, j: nat)
    requires j < |s| && s[j] == '\n'
    ensures s == s[..j] + "\n" + s[j + 1..]
    ensures s[j + 1..] == [] ==> s[|s| - 1] == '\n'
    ensures s[j + 1..] != [] ==> s[|s| - 1] == s[j + 1..][|s[j + 1..]| - 1]
  {
    assert s == s[..j] + [s[j]] + s[j + 1..];
  }

  function CountNewlines(s: string): nat
    decreases |s|
  {
    if s == [] then 0 else CountNewlines(s[..|s| - 1]) + (if s[|s| - 1] == '\n' then 1 else 0)
  }

  lemma {:induction false} CountNewlinesAppend(a: string, b: string)
    ensures CountNewlines(a + b) == CountNewlines(a) + CountNewlines(b)
    decreases |b|
  {
    if b != [] {
      assert (a + b)[..|a + b| - 1] == a + b[..|b| - 1];
      CountNewlinesAppend(a, b[..|b| - 1]);
    } else {
      assert a + b == a;
    }
  }

  lemma {:induction false} CountNewlinesNone(s: string)
    requires '\n' !in s
    ensures CountNewlines(s) == 0
    decreases |s|
  {
    if s != [] {
      var init := s[..|s| - 1];
      assert '\n' !in init by {
        forall i | 0 <= i < |init| ensures init[i] != '\n' { assert init[i] == s[i]; }
      }
      CountNewlinesNone(init);
    }
  }

  // ---------------------------------------------------------------------------
  // highlight_code

  /** The highlighted lines, each followed by a line feed, in source order. */
  function StyledBody(h: Highlighter, lang: string, lines: seq<string>): string
    decreases |lines|
  {
    if lines == [] then [] else StyledBody(h, lang, lines[..|lines| - 1]) + h.styleLine(lang, lines) + "\n"
  }

  const PlainOpen := "<pre><code>"
  const CodeClose := "</code></pre>"
  const PreOpen := "<pre class=\"highlight "
  const CodeOpen := "\"><code class=\""
  const TagClose := "\">"

  /** The wrapper around highlighted code: `pre` and `code` elements classed by the language. */
  function HighlightWrap(lang: string, body: string): string {
    PreOpen + ("highlight-" + lang) + CodeOpen + ("language-" + lang) + TagClose + body + CodeClose
  }

  /** What `highlight_code(code, lang)` returns. */
  function HighlightedHtml(h: Highlighter, code: string, lang: string): string {
    if lang == [] || IsBlank(code) then
      PlainOpen + h.escape(code) + CodeClose
    else
      HighlightWrap(lang, StyledBody(h, lang, Lines(code)))
  }

  /** `highlight_code`: the line-by-line loop that appends each styled line and a line feed. */
  method HighlightCode(h: Highlighter, code: string, lang: string) returns (html: string)
    ensures lang == [] || IsBlank(code) ==> html == "<pre><code>" + h.escape(code) + "</code></pre>"
    ensures html == HighlightedHtml(h, code, lang)
  {
    if lang == [] || IsBlank(code) {
      return PlainOpen + h.escape(code) + CodeClose;
    }
    var lines := Lines(code);
    var highlighted := "";
    for i := 0 to |lines|
      invariant highlighted == StyledBody(h, lang, lines[..i])
    {
      assert lines[..i + 1][..i] == lines[..i];
      highlighted := highlighted + h.styleLine(lang, lines[..i + 1]) + "\n";
    }
    assert lines[..|lines|] == lines;
    html := HighlightWrap(lang, highlighted);
  }

  /**
   * The highlighted body holds exactly one line feed per source line when the
   * styled HTML of a line holds none, and it ends with a line feed.
   */
  lemma {:induction false} StyledBodyOneChunkPerLine(h: Highlighter, lang: string, lines: seq<string>)
    requires forall k :: 1 <= k <= |lines| ==> '\n' !in h.styleLine(lang, lines[..k])
    ensures CountNewlines(StyledBody(h, lang, lines)) == |lines|
    ensures lines != [] ==> StyledBody(h, lang, lines)[|StyledBody(h, lang, lines)| - 1] == '\n'
    decreases |lines|
  {
    if lines != [] {
      var init := lines[..|lines| - 1];
      forall k | 1 <= k <= |init| ensures '\n' !in h.styleLine(lang, init[..k]) {
        assert init[..k] == lines[..k];
      }
      StyledBodyOneChunkPerLine(h, lang, init);
      assert lines[..|lines|] == lines;
      var chunk := h.styleLine(lang, lines);
      CountNewlinesNone(chunk);
      CountNewlinesAppend(StyledBody(h, lang, init), chunk);
      CountNewlinesAppend(StyledBody(h, lang, init) + chunk, "\n");
    }
  }

  /**
   * A highlighted block names its language twice: in the `highlight-{lang}`
   * class of `pre` and the `language-{lang}` class of `code`.
   */
  lemma HighlightedNamesLanguage(h: Highlighter, code: string, lang: string)
    requires lang != [] && !IsBlank(code)
    ensures OccursAt(HighlightedHtml(h, code, lang), "<pre class=\"highlight ", 0)
    ensures Contains(HighlightedHtml(h, code, lang), "highlight-" + lang)
    ensures Contains(HighlightedHtml(h, code, lang), "language-" + lang)
  {
    WrapNamesLanguage(lang, StyledBody(h, lang, Lines(code)));
  }

  lemma WrapNamesLanguage(lang: string, body: string)
    ensures OccursAt(HighlightWrap(lang, body), PreOpen, 0)
    ensures Contains(HighlightWrap(lang, body), "highlight-" + lang)
    ensures Contains(HighlightWrap(lang, body), "language-" + lang)
  {
    var x := "highlight-" + lang;
    var y := "language-" + lang;
    var tail := TagClose + body + CodeClose;
    var r := HighlightWrap(lang, body);
    assert r == PreOpen + x + (CodeOpen + y + tail);
    OccursInMiddle(PreOpen, x, CodeOpen + y + tail);
    assert r[..|PreOpen|] == PreOpen;
    LanguageClassOccurs(lang, body);
  }

  lemma LanguageClassOccurs(lang: string, body: string)
    ensures Contains(HighlightWrap(lang, body), "language-" + lang)
  {
    var y := "language-" + lang;
    var head := PreOpen + ("highlight-" + lang) + CodeOpen;
    var tail := TagClose + body + CodeClose;
    assert HighlightWrap(lang, body) == head + y + tail;
    OccursInMiddle(head, y, tail);
  }

  /** The Rust program of the highlighting test in src/markdown.rs. */
  const RustSample := "fn main() {\n    println!(\"Hello\");\n}\n"

  /** The test case of src/markdown.rs: a Rust block is wrapped in `highlight-rust` and `language-rust`. */
  lemma RustBlockIsHighlighted(h: Highlighter)
    ensures Contains(HighlightedHtml(h, RustSample, "rust"), "highlight-rust")
    ensures Contains(HighlightedHtml(h, RustSample, "rust"), "language-rust")
  {
    SampleIsNotBlank();
    HighlightedNamesLanguage(h, RustSample, "rust");
    ClassNamesOfRust();
  }

  lemma SampleIsNotBlank()
    ensures !IsBlank(RustSample)
  {
    assert !IsRustWhitespace(RustSample[0]);
  }

  lemma ClassNamesOfRust()
    ensures "highlight-" + "rust" == "highlight-rust" && "language-" + "rust" == "language-rust"
  {
  }

  // ---------------------------------------------------------------------------
  // process_events

  /** The loop state of `process_events`: the flag, the two buffers and the output so far. */
  datatype ScanState = ScanState(inCodeBlock: bool, lang: string, content: string, out: seq<Event>)

  const Initial := ScanState(false, [], [], [])

  /** The id a heading start gets when `n` events have been output before it. */
  function HeadingId(id: Option<string>, n: nat): string {
    match id
    case Some(given) => given
    case None => "heading-" + NatToString(n)
  }

  predicate IsFencedStart(e: Event) {
    e.Start? && e.tag.CodeBlock? && e.tag.kind.Fenced?
  }

  predicate IsHeadingStart(e: Event) {
    e.Start? && e.tag.Heading?
  }

  /** One iteration of the `for event in parser` loop, arm by arm. */
  function Step(h: Highlighter, st: ScanState, e: Event): ScanState {
    if IsFencedStart(e) then
      st.(inCodeBlock := true, lang := e.tag.kind.lang, content := [])
    else if e == End(EndCodeBlock) && st.inCodeBlock then
      st.(inCodeBlock := false, out := st.out + [Html(HighlightedHtml(h, st.content, st.lang))])
    else if e.Text? && st.inCodeBlock then
      st.(content := st.content + e.text)
    else if IsHeadingStart(e) then
      st.(out := st.out + [Start(e.tag.(id := Some(HeadingId(e.tag.id, |st.out|))))])
    else if e == Start(Item) then
      st.(out := st.out + [Start(Item)])
    else if !st.inCodeBlock then
      st.(out := st.out + [e])
    else
      st
  }

  /** The loop state after consuming `events` from `st`. */
  function RunFrom(h: Highlighter, st: ScanState, events: seq<Event>): ScanState
    decreases |events|
  {
    if events == [] then st else Step(h, RunFrom(h, st, events[..|events| - 1]), events[|events| - 1])
  }

  /** The events `process_events` returns. */
  function ProcessedEvents(h: Highlighter, events: seq<Event>): seq<Event> {
    RunFrom(h, Initial, events).out
  }

  /** `process_events`: the `for` loop over the parser's events with its flag and two buffers. */
  method ProcessEvents(h: Highlighter, parser: seq<Event>) returns (events: seq<Event>)
    ensures events == ProcessedEvents(h, parser)
  {
    events := [];
    var inCodeBlock := false;
    var codeBlockLang := "";
    var codeBlockContent := "";
    for i := 0 to |parser|
      invariant ScanState(inCodeBlock, codeBlockLang, codeBlockContent, events) == RunFrom(h, Initial, parser[..i])
    {
      var event := parser[i];
      assert parser[..i + 1][..i] == parser[..i];
      if IsFencedStart(event) {
        inCodeBlock := true;
        codeBlockLang := event.tag.kind.lang;
        codeBlockContent := "";
      } else if event == End(EndCodeBlock) && inCodeBlock {
        inCodeBlock := false;
        var highlighted := HighlightCode(h, codeBlockContent, codeBlockLang);
        events := events + [Html(highlighted)];
      } else if event.Text? && inCodeBlock {
        codeBlockContent := codeBlockContent + event.text;
      } else if IsHeadingStart(event) {
        var headingId := HeadingId(event.tag.id, |events|);
        events := events + [Start(event.tag.(id := Some(headingId)))];
      } else if event == Start(Item) {
        events := events + [Start(Item)];
      } else if !inCodeBlock {
        events := events + [event];
      }
    }
    assert parser[..|parser|] == parser;
  }

  // ---------------------------------------------------------------------------
  // Properties of process_events

  lemma {:induction false} RunFromAppend(h: Highlighter, st: ScanState, a: seq<Event>, b: seq<Event>)
    ensures RunFrom(h, st, a + b) == RunFrom(h, RunFrom(h, st, a), b)
    decreases |b|
  {
    if b == [] {
      assert a + b == a;
    } else {
      assert (a + b)[..|a + b| - 1] == a + b[..|b| - 1];
      RunFromAppend(h, st, a, b[..|b| - 1]);
    }
  }

  /** Output is only ever appended to. */
  lemma {:induction false} OutputExtends(h: Highlighter, st: ScanState, events: seq<Event>)
    ensures |st.out| <= |RunFrom(h, st, events).out|
    ensures RunFrom(h, st, events).out[..|st.out|] == st.out
    decreases |events|
  {
    if events != [] {
      OutputExtends(h, st, events[..|events| - 1]);
    }
  }

  predicate HeadingsHaveIds(out: seq<Event>) {
    forall i :: 0 <= i < |out| && IsHeadingStart(out[i]) ==> out[i].tag.id.Some?
  }

  /** Every heading start that `process_events` outputs carries an id. */
  lemma {:induction false} HeadingsCarryIds(h: Highlighter, events: seq<Event>)
    ensures HeadingsHaveIds(ProcessedEvents(h, events))
  {
    HeadingsCarryIdsFrom(h, Initial, events);
  }

  lemma {:induction false} HeadingsCarryIdsFrom(h: Highlighter, st: ScanState, events: seq<Event>)
    requires HeadingsHaveIds(st.out)
    ensures HeadingsHaveIds(RunFrom(h, st, events).out)
    decreases |events|
  {
    if events != [] {
      HeadingsCarryIdsFrom(h, st, events[..|events| - 1]);
    }
  }

  /**
   * The heading start at input position `j` is output at index `n`, the number
   * of events output before it; it keeps its own id, or gets `heading-n`.
   */
  lemma HeadingIdIsOutputIndex(h: Highlighter, events: seq<Event>, j: nat)
    requires j < |events| && IsHeadingStart(events[j])
    ensures var n := |ProcessedEvents(h, events[..j])|;
      n < |ProcessedEvents(h, events)|
      && ProcessedEvents(h, events)[n] == Start(events[j].tag.(id := Some(HeadingId(events[j].tag.id, n))))
  {
    var n := |ProcessedEvents(h, events[..j])|;
    assert events[..j + 1][..j] == events[..j];
    var mid := RunFrom(h, Initial, events[..j + 1]);
    assert mid.out == ProcessedEvents(h, events[..j]) + [Start(events[j].tag.(id := Some(HeadingId(events[j].tag.id, n))))];
    RunFromAppend(h, Initial, events[..j + 1], events[j + 1..]);
    assert events[..j + 1] + events[j + 1..] == events;
    OutputExtends(h, mid, events[j + 1..]);
  }

  /** Two headings without an id get different generated ids. */
  lemma GeneratedIdsDistinct(h: Highlighter, events: seq<Event>, j1: nat, j2: nat)
    requires j1 < j2 < |events|
    requires IsHeadingStart(events[j1]) && events[j1].tag.id.None?
    requires IsHeadingStart(events[j2]) && events[j2].tag.id.None?
    ensures HeadingId(None, |ProcessedEvents(h, events[..j1])|) != HeadingId(None, |ProcessedEvents(h, events[..j2])|)
  {
    var n1 := |ProcessedEvents(h, events[..j1])|;
    var n2 := |ProcessedEvents(h, events[..j2])|;
    assert events[..j1 + 1][..j1] == events[..j1];
    assert |ProcessedEvents(h, events[..j1 + 1])| == n1 + 1;
    RunFromAppend(h, Initial, events[..j1 + 1], events[j1 + 1..j2]);
    assert events[..j1 + 1] + events[j1 + 1..j2] == events[..j2];
    OutputExtends(h, RunFrom(h, Initial, events[..j1 + 1]), events[j1 + 1..j2]);
    NatToStringInjective(n1, n2);
    PrefixKeepsDistinct("heading-", NatToString(n1), NatToString(n2));
  }

  /** Events that a fenced block swallows without effect on the flag or the output. */
  predicate InertInBlock(e: Event) {
    !IsFencedStart(e) && e != End(EndCodeBlock) && !IsHeadingStart(e) && e != Start(Item)
  }

  /** The text of a block: its Text events concatenated in order. */
  function BlockText(body: seq<Event>): string
    decreases |body|
  {
    if body == [] then []
    else BlockText(body[..|body| - 1]) + (if body[|body| - 1].Text? then body[|body| - 1].text else [])
  }

  lemma {:induction false} InsideBlock(h: Highlighter, st: ScanState, body: seq<Event>)
    requires st.inCodeBlock
    requires forall i :: 0 <= i < |body| ==> InertInBlock(body[i])
    ensures RunFrom(h, st, body) == st.(content := st.content + BlockText(body))
    decreases |body|
  {
    if body == [] {
      assert st.content + [] == st.content;
    } else {
      InsideBlock(h, st, body[..|body| - 1]);
    }
  }

  /**
   * A fenced code block becomes exactly one Html event: the highlighted HTML
   * of its Text events concatenated in order, in its declared language;
   * nothing else from inside the block is output, and the flag is clear after.
   */
  lemma FencedBlockCollapses(h: Highlighter, st: ScanState, lang: string, body: seq<Event>)
    requires forall i :: 0 <= i < |body| ==> InertInBlock(body[i])
    ensures var r := RunFrom(h, st, [Start(CodeBlock(Fenced(lang)))] + body + [End(EndCodeBlock)]);
      !r.inCodeBlock && r.out == st.out + [Html(HighlightedHtml(h, BlockText(body), lang))]
  {
    var open := Start(CodeBlock(Fenced(lang)));
    var st1 := st.(inCodeBlock := true, lang := lang, content := []);
    assert RunFrom(h, st, [open]) == st1 by {
      assert [open][..0] == [];
    }
    RunFromAppend(h, st, [open], body);
    InsideBlock(h, st1, body);
    assert [] + BlockText(body) == BlockText(body);
    RunFromAppend(h, st, [open] + body, [End(EndCodeBlock)]);
    assert [End(EndCodeBlock)][..0] == [];
  }

  /**
   * Outside a fenced block, a run of events with no fenced start and no heading
   * start is output unchanged and in order; this includes the start, text and
   * end of an indented code block.
   */
  lemma {:induction false} PassThrough(h: Highlighter, st: ScanState, mid: seq<Event>)
    requires !st.inCodeBlock
    requires forall i :: 0 <= i < |mid| ==> !IsFencedStart(mid[i]) && !IsHeadingStart(mid[i])
    ensures RunFrom(h, st, mid) == st.(out := st.out + mid)
    decreases |mid|
  {
    if mid == [] {
      assert st.out + [] == st.out;
    } else {
      PassThrough(h, st, mid[..|mid| - 1]);
      assert st.out + mid[..|mid| - 1] + [mid[|mid| - 1]] == st.out + mid;
    }
  }
}
