/**
 * `MarkdownProcessor::render` of src/markdown.rs: parse, rewrite the events,
 * print them as HTML, then rewrite LaTeX math and only after that emoji codes.
 */
module Render {
  import opened TextUtil
  import opened MarkdownEvents
  import opened LatexMath
  import opened Emoji

  /**
   * The foreign pieces `render` relies on: pulldown-cmark's parser with the
   * options `render` turns on, its `html::push_html`, and the syntect
   * highlighter.
   */
  datatype Collaborators = Collaborators(
    parse: string -> seq<Event>,
    pushHtml: seq<Event> -> string,
    highlighter: Highlighter)

  /** The two text passes over the printed HTML, math first, then emoji. */
  function PostProcess(html: string, order: seq<string>): string
    requires InTable(EmojiMap(), order)
  {
    EmojiPasses(EmojiMap(), order, ProcessLatexMath(html))
  }

  function RenderedHtml(c: Collaborators, markdown: string, order: seq<string>): string
    requires InTable(EmojiMap(), order)
  {
    PostProcess(c.pushHtml(ProcessedEvents(c.highlighter, c.parse(markdown))), order)
  }

  /** `render`, with the emoji table's iteration order for this call given as `order`. */
  method Render(c: Collaborators, markdown: string, order: seq<string>) returns (html: string)
    requires IsIterationOrder(EmojiMap(), order)
    ensures html == RenderedHtml(c, markdown, order)
  {
    var events := ProcessEvents(c.highlighter, c.parse(markdown));
    var htmlOutput := c.pushHtml(events);
    var latexProcessed := ProcessLatexMath(htmlOutput);
    html := ProcessEmojis(latexProcessed, order);
  }

  /** Printed HTML with neither a dollar sign nor a colon comes out unchanged. */
  lemma PlainHtmlUntouched(html: string, order: seq<string>)
    requires InTable(EmojiMap(), order) && NoDollar(html) && ':' !in html
    ensures PostProcess(html, order) == html
  {
    NoDollarUnchanged(html);
    ColonFreeUnchanged(EmojiMap(), order, html);
  }

  lemma InlineMarkupColonFree()
    ensures ':' !in InlineOpen && ':' !in InlineClose
  {
  }

  /** The math pass wraps a short code written between single dollar signs. */
  lemma MathWrapsCode(before: string, w: string, after: string)
    requires IsCode(w) && NoDollar(before) && NoDollar(after)
    ensures ProcessLatexMath(before + "$" + Shortcode(w) + "$" + after)
      == before + InlineSpan(Shortcode(w)) + after
  {
    assert InlineSafe(Shortcode(w)) by {
      forall i | 0 <= i < |Shortcode(w)| ensures Shortcode(w)[i] != '$' && Shortcode(w)[i] != '\n' {
        if 0 < i < |Shortcode(w)| - 1 {
          assert Shortcode(w)[i] == w[i - 1];
        }
      }
    }
    InlineMathBetween(before, Shortcode(w), after);
  }

  /** The emoji pass replaces a short code inside a `katex` span. */
  lemma EmojiInSpan(order: seq<string>, before: string, w: string, after: string)
    requires IsIterationOrder(EmojiMap(), order) && w in EmojiMap()
    requires ':' !in before && ':' !in after
    ensures EmojiPasses(EmojiMap(), order, before + InlineSpan(Shortcode(w)) + after)
      == before + InlineSpan(EmojiMap()[w]) + after
  {
    InlineMarkupColonFree();
    var lead, tail := before + InlineOpen, InlineClose + after;
    Regroup(before, InlineOpen, Shortcode(w), InlineClose, after);
    KnownCodeReplaced(order, lead, w, tail);
    Regroup(before, InlineOpen, EmojiMap()[w], InlineClose, after);
  }

  lemma PostProcessVia(html: string, mid: string, order: seq<string>)
    requires InTable(EmojiMap(), order) && ProcessLatexMath(html) == mid
    ensures PostProcess(html, order) == EmojiPasses(EmojiMap(), order, mid)
  {
  }

  /**
   * Math is rewritten before emoji: a short code written as inline math is
   * first wrapped in a `katex` span, and then the emoji pass replaces it
   * inside that span.
   */
  lemma EmojiInsideMath(order: seq<string>, before: string, w: string, after: string)
    requires IsIterationOrder(EmojiMap(), order) && w in EmojiMap()
    requires NoDollar(before) && ':' !in before && NoDollar(after) && ':' !in after
    ensures PostProcess(before + "$" + Shortcode(w) + "$" + after, order)
      == before + InlineSpan(EmojiMap()[w]) + after
  {
    KnownCode(w);
    MathWrapsCode(before, w, after);
    PostProcessVia(before + "$" + Shortcode(w) + "$" + after, before + InlineSpan(Shortcode(w)) + after, order);
    EmojiInSpan(order, before, w, after);
  }

  /**
   * The emoji test of src/markdown.rs: when the parser and `push_html` print
   * "Hello :smile: world :heart:" as one paragraph, the result holds both
   * emoji, whatever the iteration order.
   */
  lemma EmojiTest(c: Collaborators, order: seq<string>)
    requires IsIterationOrder(EmojiMap(), order)
    requires c.pushHtml(ProcessedEvents(c.highlighter, c.parse("Hello :smile: world :heart:")))
      == "<p>" + "Hello :smile: world :heart:" + "</p>\n"
    ensures Contains(RenderedHtml(c, "Hello :smile: world :heart:", order), "\U{1F604}")
    ensures Contains(RenderedHtml(c, "Hello :smile: world :heart:", order), "\U{2764}\U{FE0F}")
  {
    var printed := "<p>" + "Hello :smile: world :heart:" + "</p>\n";
    calc {
      RenderedHtml(c, "Hello :smile: world :heart:", order);
      PostProcess(printed, order);
      { EmojiSampleMathPass(); }
      EmojiPasses(EmojiMap(), order, printed);
      { SmileHeartSample(order, "<p>", "</p>\n"); }
      "<p>" + "Hello " + "\U{1F604}" + " world " + "\U{2764}\U{FE0F}" + "</p>\n";
    }
    ContainsBoth("<p>" + "Hello ", "\U{1F604}", " world ", "\U{2764}\U{FE0F}", "</p>\n");
  }

  /** The emoji test's paragraph has no dollar sign, so the math pass leaves it. */
  lemma EmojiSampleMathPass()
    ensures ProcessLatexMath("<p>" + "Hello :smile: world :heart:" + "</p>\n")
      == "<p>" + "Hello :smile: world :heart:" + "</p>\n"
  {
    assert NoDollar("<p>" + "Hello :smile: world :heart:" + "</p>\n");
    NoDollarUnchanged("<p>" + "Hello :smile: world :heart:" + "</p>\n");
  }

  /**
   * The inline-math test of src/markdown.rs: when the paragraph is printed
   * as is, the result holds the `katex` span.
   */
  lemma InlineMathTest(c: Collaborators, order: seq<string>)
    requires IsIterationOrder(EmojiMap(), order)
    requires c.pushHtml(ProcessedEvents(c.highlighter, c.parse(InlineSampleText + "$" + InlineSampleMath + "$")))
      == "<p>" + InlineSampleText + "$" + InlineSampleMath + "$" + "</p>\n"
    ensures Contains(RenderedHtml(c, InlineSampleText + "$" + InlineSampleMath + "$", order), InlineSpan(InlineSampleMath))
  {
    var html := "<p>" + InlineSampleText + "$" + InlineSampleMath + "$" + "</p>\n";
    var math := "<p>" + InlineSampleText + InlineSpan(InlineSampleMath) + "</p>\n";
    calc {
      RenderedHtml(c, InlineSampleText + "$" + InlineSampleMath + "$", order);
      PostProcess(html, order);
      { InlineSampleMathPass(); }
      EmojiPasses(EmojiMap(), order, math);
      { InlineSampleEmojiPass(order); }
      math;
    }
    OccursInMiddle("<p>" + InlineSampleText, InlineSpan(InlineSampleMath), "</p>\n");
  }

  /** The math pass on the printed inline-math paragraph. */
  lemma InlineSampleMathPass()
    ensures ProcessLatexMath("<p>" + InlineSampleText + "$" + InlineSampleMath + "$" + "</p>\n")
      == "<p>" + InlineSampleText + InlineSpan(InlineSampleMath) + "</p>\n"
  {
    var pre := "<p>" + InlineSampleText;
    assert NoDollar(pre) && InlineSafe(InlineSampleMath) && NoDollar("</p>\n");
    InlineMathBetween(pre, InlineSampleMath, "</p>\n");
  }

  /** The paragraph after the math pass holds a single colon. */
  lemma InlineSampleColon()
    ensures "<p>" + InlineSampleText + InlineSpan(InlineSampleMath) + "</p>\n"
      == ("<p>" + "This is inline math") + ":" + (" " + InlineSpan(InlineSampleMath) + "</p>\n")
    ensures ':' !in "<p>" + "This is inline math"
    ensures ':' !in " " + InlineSpan(InlineSampleMath) + "</p>\n"
  {
    InlineMarkupColonFree();
    assert ':' !in InlineSampleMath && ':' !in "</p>\n";
  }

  /** The emoji pass on the paragraph after the math pass. */
  lemma InlineSampleEmojiPass(order: seq<string>)
    requires InTable(EmojiMap(), order)
    ensures EmojiPasses(EmojiMap(), order, "<p>" + InlineSampleText + InlineSpan(InlineSampleMath) + "</p>\n")
      == "<p>" + InlineSampleText + InlineSpan(InlineSampleMath) + "</p>\n"
  {
    InlineSampleColon();
    SingleColonKept(order, "<p>" + "This is inline math", " " + InlineSpan(InlineSampleMath) + "</p>\n");
  }
}
