/**
 * `process_latex_math` of src/markdown.rs: two left-to-right rewrites of the
 * rendered HTML, display math `$$…$$` first and inline math `$…$` second,
 * each with leftmost, non-overlapping matching as `Regex::replace_all` does.
 */
module LatexMath {
  import opened Wrappers

  predicate NoDollar(s: string) {
    '$' !in s
  }

  /** Neither a dollar sign nor a line feed: the class `[^$\n]` of the inline pattern. */
  predicate InlineSafe(s: string) {
    '$' !in s && '\n' !in s
  }

  const DisplayOpen := "<span class=\"katex-display\">\\["
  const DisplayClose := "\\]</span>"
  const InlineOpen := "<span class=\"katex\">\\("
  const InlineClose := "\\)</span>"

  function DisplaySpan(x: string): string {
    DisplayOpen + x + DisplayClose
  }

  function InlineSpan(x: string): string {
    InlineOpen + x + InlineClose
  }

  // ---------------------------------------------------------------------------
  // The two patterns, stated declaratively

  /** `\$\$([^$]+?)\$\$` matches at the start of `s` with a capture of length `k`. */
  predicate DisplayMatchesWith(s: string, k: nat) {
    0 < k && 4 + k <= |s| && s[0] == '$' && s[1] == '$' && NoDollar(s[2..2 + k])
    && s[2 + k] == '$' && s[3 + k] == '$'
  }

  /** `\$([^$\n]+?)\$` matches at the start of `s` with a capture of length `k`. */
  predicate InlineMatchesWith(s: string, k: nat) {
    0 < k && 2 + k <= |s| && s[0] == '$' && InlineSafe(s[1..1 + k]) && s[1 + k] == '$'
  }

  // ---------------------------------------------------------------------------
  // Scanners

  /** The length of the longest prefix of `s` without a dollar sign. */
  function DollarFreeLen(s: string): (n: nat)
    ensures n <= |s| && NoDollar(s[..n]) && (n < |s| ==> s[n] == '$')
    decreases |s|
  {
    if s == [] || s[0] == '$' then 0
    else
      var k := DollarFreeLen(s[1..]);
      assert s[..1 + k] == [s[0]] + s[1..][..k];
      1 + k
  }

  /** The length of the longest prefix of `s` without a dollar sign or a line feed. */
  function InlineSafeLen(s: string): (n: nat)
    ensures n <= |s| && InlineSafe(s[..n]) && (n < |s| ==> s[n] == '$' || s[n] == '\n')
    decreases |s|
  {
    if s == [] || s[0] == '$' || s[0] == '\n' then 0
    else
      var k := InlineSafeLen(s[1..]);
      assert s[..1 + k] == [s[0]] + s[1..][..k];
      1 + k
  }

  /** The capture length of the display match at the start of `s`, if any. */
  function DisplayMatch(s: string): (r: Option<nat>)
    ensures r.Some? ==> DisplayMatchesWith(s, r.value)
  {
    if |s| >= 2 && s[0] == '$' && s[1] == '$' then
      var k := DollarFreeLen(s[2..]);
      if 0 < k && 3 + k < |s| && s[3 + k] == '$' then Some(k) else None
    else None
  }

  /** The capture length of the inline match at the start of `s`, if any. */
  function InlineMatch(s: string): (r: Option<nat>)
    ensures r.Some? ==> InlineMatchesWith(s, r.value)
  {
    if |s| >= 1 && s[0] == '$' then
      var k := InlineSafeLen(s[1..]);
      if 0 < k && 1 + k < |s| && s[1 + k] == '$' then Some(k) else None
    else None
  }

  /** The display scanner finds a match exactly when the pattern matches at the start. */
  lemma DisplayMatchComplete(s: string)
    ensures DisplayMatch(s).Some? <==> exists k: nat :: DisplayMatchesWith(s, k)
  {
    if DisplayMatch(s).None? {
      forall k: nat | DisplayMatchesWith(s, k) ensures false {
        DollarRunIsMaximal(s[2..], k);
      }
    }
  }

  /** The inline scanner finds a match exactly when the pattern matches at the start. */
  lemma InlineMatchComplete(s: string)
    ensures InlineMatch(s).Some? <==> exists k: nat :: InlineMatchesWith(s, k)
  {
    if InlineMatch(s).None? {
      forall k: nat | InlineMatchesWith(s, k) ensures false {
        InlineRunIsMaximal(s[1..], k);
      }
    }
  }

  /** A dollar-free run ended by a dollar sign is the longest one. */
  lemma DollarRunIsMaximal(t: string, k: nat)
    requires k < |t| && NoDollar(t[..k]) && t[k] == '$'
    ensures k == DollarFreeLen(t)
  {
  }

  /** A run without dollar signs or line feeds, ended by a dollar sign, is the longest one. */
  lemma InlineRunIsMaximal(t: string, k: nat)
    requires k < |t| && InlineSafe(t[..k]) && t[k] == '$'
    ensures k == InlineSafeLen(t)
  {
  }

  /** The display pass: `display_math_regex.replace_all`. */
  function ReplaceDisplay(s: string): string
    decreases |s|
  {
    if s == [] then []
    else match DisplayMatch(s)
      case Some(k) => DisplaySpan(s[2..2 + k]) + ReplaceDisplay(s[4 + k..])
      case None => [s[0]] + ReplaceDisplay(s[1..])
  }

  /** The inline pass: `inline_math_regex.replace_all`. */
  function ReplaceInline(s: string): string
    decreases |s|
  {
    if s == [] then []
    else match InlineMatch(s)
      case Some(k) => InlineSpan(s[1..1 + k]) + ReplaceInline(s[2 + k..])
      case None => [s[0]] + ReplaceInline(s[1..])
  }

  /** `process_latex_math`: display math first, then inline math. */
  function ProcessLatexMath(html: string): string {
    ReplaceInline(ReplaceDisplay(html))
  }

  // ---------------------------------------------------------------------------
  // Properties

  /** Text without a dollar sign is copied through by the display pass. */
  lemma {:induction false} DisplaySkipsPlain(pre: string, t: string)
    requires NoDollar(pre)
    ensures ReplaceDisplay(pre + t) == pre + ReplaceDisplay(t)
    decreases |pre|
  {
    if pre != [] {
      var s := pre + t;
      assert s[0] == pre[0] && pre[0] != '$';
      assert DisplayMatch(s).None?;
      assert s[1..] == pre[1..] + t;
      DisplaySkipsPlain(pre[1..], t);
      assert ReplaceDisplay(s) == [pre[0]] + (pre[1..] + ReplaceDisplay(t));
      assert [pre[0]] + pre[1..] == pre;
    } else {
      assert pre + t == t;
    }
  }

  /** Text without a dollar sign is copied through by the inline pass. */
  lemma {:induction false} InlineSkipsPlain(pre: string, t: string)
    requires NoDollar(pre)
    ensures ReplaceInline(pre + t) == pre + ReplaceInline(t)
    decreases |pre|
  {
    if pre != [] {
      var s := pre + t;
      assert s[0] == pre[0] && pre[0] != '$';
      assert InlineMatch(s).None?;
      assert s[1..] == pre[1..] + t;
      InlineSkipsPlain(pre[1..], t);
      assert ReplaceInline(s) == [pre[0]] + (pre[1..] + ReplaceInline(t));
      assert [pre[0]] + pre[1..] == pre;
    } else {
      assert pre + t == t;
    }
  }

  /** A string with no dollar sign is left unchanged by the whole math pass. */
  lemma NoDollarUnchanged(s: string)
    requires NoDollar(s)
    ensures ReplaceDisplay(s) == s && ReplaceInline(s) == s && ProcessLatexMath(s) == s
  {
    DisplaySkipsPlain(s, []);
    InlineSkipsPlain(s, []);
    assert s + [] == s;
  }

  /**
   * `$$X$$`, with X a non-empty run without a dollar sign (line feeds
   * allowed), becomes a `katex-display` span around `\[X\]`; scanning then
   * resumes after the closing `$$`.
   */
  lemma DisplayRewritesPair(pre: string, x: string, post: string)
    requires NoDollar(pre) && x != [] && NoDollar(x)
    ensures ReplaceDisplay(pre + "$$" + x + "$$" + post) == pre + DisplaySpan(x) + ReplaceDisplay(post)
  {
    var t := "$$" + x + "$$" + post;
    var a := DisplaySpan(x);
    var b := ReplaceDisplay(post);
    calc {
      ReplaceDisplay(pre + "$$" + x + "$$" + post);
      { assert pre + "$$" + x + "$$" + post == pre + t; }
      ReplaceDisplay(pre + t);
      { DisplaySkipsPlain(pre, t); }
      pre + ReplaceDisplay(t);
      { DisplayPairAtStart(x, post); }
      pre + (a + b);
      pre + a + b;
    }
  }

  lemma DisplayPairAtStart(x: string, post: string)
    requires x != [] && NoDollar(x)
    ensures ReplaceDisplay("$$" + x + "$$" + post) == DisplaySpan(x) + ReplaceDisplay(post)
  {
    var t := "$$" + x + "$$" + post;
    var k := |x|;
    assert t[2..] == x + ("$$" + post);
    assert t[2..][..k] == x;
    DollarRunIsMaximal(t[2..], k);
    assert DisplayMatch(t) == Some(k);
    assert t[2..2 + k] == x;
    assert t[4 + k..] == post;
  }

  /**
   * `$X$`, with X non-empty and free of dollar signs and line feeds, becomes a
   * `katex` span around `\(X\)`; scanning then resumes after the closing `$`.
   */
  lemma InlineRewritesPair(pre: string, x: string, post: string)
    requires NoDollar(pre) && x != [] && InlineSafe(x)
    ensures ReplaceInline(pre + "$" + x + "$" + post) == pre + InlineSpan(x) + ReplaceInline(post)
  {
    var t := "$" + x + "$" + post;
    var a := InlineSpan(x);
    var b := ReplaceInline(post);
    calc {
      ReplaceInline(pre + "$" + x + "$" + post);
      { assert pre + "$" + x + "$" + post == pre + t; }
      ReplaceInline(pre + t);
      { InlineSkipsPlain(pre, t); }
      pre + ReplaceInline(t);
      { InlinePairAtStart(x, post); }
      pre + (a + b);
      pre + a + b;
    }
  }

  lemma InlinePairAtStart(x: string, post: string)
    requires x != [] && InlineSafe(x)
    ensures ReplaceInline("$" + x + "$" + post) == InlineSpan(x) + ReplaceInline(post)
  {
    var t := "$" + x + "$" + post;
    var k := |x|;
    assert t[1..] == x + ("$" + post);
    assert t[1..][..k] == x;
    InlineRunIsMaximal(t[1..], k);
    assert InlineMatch(t) == Some(k);
    assert t[1..1 + k] == x;
    assert t[2 + k..] == post;
  }

  lemma SpansHaveNoDollar(x: string)
    requires NoDollar(x)
    ensures NoDollar(DisplaySpan(x)) && NoDollar(InlineSpan(x))
  {
    assert NoDollar(DisplayOpen) && NoDollar(DisplayClose) && NoDollar(InlineOpen) && NoDollar(InlineClose);
  }

  /** The display pass runs first, so `$$X$$` ends up as display math ... */
  lemma DisplayMathWins(x: string)
    requires x != [] && NoDollar(x)
    ensures ProcessLatexMath("$$" + x + "$$") == DisplaySpan(x)
  {
    var a := DisplaySpan(x);
    calc {
      ProcessLatexMath("$$" + x + "$$");
      ReplaceInline(ReplaceDisplay("$$" + x + "$$"));
      { assert "$$" + x + "$$" == "$$" + x + "$$" + []; DisplayPairAtStart(x, []); }
      ReplaceInline(a + ReplaceDisplay([]));
      { assert a + ReplaceDisplay([]) == a; }
      ReplaceInline(a);
      { SpansHaveNoDollar(x); NoDollarUnchanged(a); }
      a;
    }
  }

  /** ... whereas the inline pass alone would leave a stray dollar sign on each side. */
  lemma InlineAloneMisreadsDisplay(x: string)
    requires x != [] && InlineSafe(x)
    ensures ReplaceInline("$$" + x + "$$") == "$" + InlineSpan(x) + "$"
  {
    var t := "$" + x + "$" + "$";
    var a := InlineSpan(x);
    calc {
      ReplaceInline("$$" + x + "$$");
      { assert "$$" + x + "$$" == ['$'] + t; }
      ReplaceInline(['$'] + t);
      { InlineSkipsDoubleDollar(t); }
      ['$'] + ReplaceInline(t);
      { InlinePairThenDollar(x); }
      ['$'] + (a + "$");
      "$" + a + "$";
    }
  }

  /** An inline pair followed by a lone dollar sign, which stays. */
  lemma InlinePairThenDollar(x: string)
    requires x != [] && InlineSafe(x)
    ensures ReplaceInline("$" + x + "$" + "$") == InlineSpan(x) + "$"
  {
    calc {
      ReplaceInline("$" + x + "$" + "$");
      { InlinePairAtStart(x, "$"); }
      InlineSpan(x) + ReplaceInline("$");
      { LoneDollarKept(); }
      InlineSpan(x) + "$";
    }
  }

  /** A dollar sign followed by another does not start inline math. */
  lemma InlineSkipsDoubleDollar(t: string)
    requires t != [] && t[0] == '$'
    ensures ReplaceInline(['$'] + t) == ['$'] + ReplaceInline(t)
  {
    var s := ['$'] + t;
    assert s[1..] == t;
    assert InlineSafeLen(s[1..]) == 0;
    assert InlineMatch(s).None?;
  }

  lemma LoneDollarKept()
    ensures ReplaceInline("$") == "$"
  {
    assert InlineMatch("$").None?;
    assert "$"[1..] == [];
  }

  /** An inline pair with dollar-free text around it is left alone by the display pass. */
  lemma DisplayKeepsInlinePair(pre: string, x: string, post: string)
    requires NoDollar(pre) && x != [] && InlineSafe(x) && NoDollar(post)
    ensures ReplaceDisplay(pre + "$" + x + "$" + post) == pre + "$" + x + "$" + post
  {
    var t := "$" + x + "$" + post;
    calc {
      ReplaceDisplay(pre + "$" + x + "$" + post);
      { assert pre + "$" + x + "$" + post == pre + t; }
      ReplaceDisplay(pre + t);
      { DisplaySkipsPlain(pre, t); }
      pre + ReplaceDisplay(t);
      { DisplayKeepsInlineAtStart(x, post); }
      pre + t;
      pre + "$" + x + "$" + post;
    }
  }

  lemma DisplayKeepsInlineAtStart(x: string, post: string)
    requires x != [] && InlineSafe(x) && NoDollar(post)
    ensures ReplaceDisplay("$" + x + "$" + post) == "$" + x + "$" + post
  {
    var u := "$" + post;
    calc {
      ReplaceDisplay("$" + x + "$" + post);
      { assert "$" + x + "$" + post == "$" + x + u; }
      ReplaceDisplay("$" + x + u);
      { DollarThenPlain(x, u); }
      "$" + x + ReplaceDisplay(u);
      { DollarThenPlain(post, []); assert u + [] == u; assert "$" + post + [] == u; }
      "$" + x + u;
    }
  }

  /** A lone dollar sign followed by dollar-free text: both are copied through by the display pass. */
  lemma DollarThenPlain(x: string, u: string)
    requires NoDollar(x) && (x != [] || u == [])
    ensures ReplaceDisplay("$" + x + u) == "$" + x + ReplaceDisplay(u)
  {
    var t := "$" + x + u;
    if x == [] {
      assert t == "$";
      LoneDollarDisplay();
    } else {
      calc {
        ReplaceDisplay(t);
        { assert t[1] == x[0]; DisplaySkipsLoneDollar(t); }
        "$" + ReplaceDisplay(t[1..]);
        { assert t[1..] == x + u; }
        "$" + ReplaceDisplay(x + u);
        { DisplaySkipsPlain(x, u); }
        "$" + (x + ReplaceDisplay(u));
        "$" + x + ReplaceDisplay(u);
      }
    }
  }

  lemma LoneDollarDisplay()
    ensures ReplaceDisplay("$") == "$"
  {
    assert DisplayMatch("$").None?;
    assert "$"[1..] == [];
  }

  /** A dollar sign not followed by another does not start display math. */
  lemma DisplaySkipsLoneDollar(t: string)
    requires t != [] && t[0] == '$' && (|t| < 2 || t[1] != '$')
    ensures ReplaceDisplay(t) == "$" + ReplaceDisplay(t[1..])
  {
    assert DisplayMatch(t).None?;
  }

  /**
   * Inline math between dollar-free text: the display pass leaves it and the
   * inline pass wraps it.
   */
  lemma InlineMathBetween(pre: string, x: string, post: string)
    requires NoDollar(pre) && x != [] && InlineSafe(x) && NoDollar(post)
    ensures ProcessLatexMath(pre + "$" + x + "$" + post) == pre + InlineSpan(x) + post
  {
    DisplayKeepsInlinePair(pre, x, post);
    InlineRewritesPair(pre, x, post);
    NoDollarUnchanged(post);
  }

  const InlineSampleText := "This is inline math" + ":" + " "
  const InlineSampleMath := "E = mc^2"
  const IntegralSample := "\\int_{-\\infty}" + "^{\\infty}" + " e^{-x^2}" + " dx = " + "\\sqrt{\\pi}"
  const QuadraticSample := "\nx = " + "\\frac{-b \\pm " + "\\sqrt{b^2 - 4ac}}" + "{2a}\n"

  lemma NoDollarAppend(a: string, b: string)
    requires NoDollar(a) && NoDollar(b)
    ensures NoDollar(a + b)
  {
  }

  /** The inline test of src/markdown.rs. */
  lemma InlineSample()
    ensures ProcessLatexMath(InlineSampleText + "$" + InlineSampleMath + "$")
      == InlineSampleText + InlineSpan(InlineSampleMath)
  {
    assert NoDollar(InlineSampleText) && InlineSafe(InlineSampleMath);
    InlineMathBetween(InlineSampleText, InlineSampleMath, []);
    assert InlineSampleText + "$" + InlineSampleMath + "$" + [] == InlineSampleText + "$" + InlineSampleMath + "$";
    assert InlineSampleText + InlineSpan(InlineSampleMath) + [] == InlineSampleText + InlineSpan(InlineSampleMath);
  }

  /** The display test of src/markdown.rs. */
  lemma IntegralSampleIsDisplay()
    ensures ProcessLatexMath("$$" + IntegralSample + "$$") == DisplaySpan(IntegralSample)
  {
    assert NoDollar(IntegralSample) by {
      var p1, p2, p3, p4, p5 := "\\int_{-\\infty}", "^{\\infty}", " e^{-x^2}", " dx = ", "\\sqrt{\\pi}";
      assert NoDollar(p1) && NoDollar(p2) && NoDollar(p3) && NoDollar(p4) && NoDollar(p5);
      NoDollarAppend(p1, p2);
      NoDollarAppend(p1 + p2, p3);
      NoDollarAppend(p1 + p2 + p3, p4);
      NoDollarAppend(p1 + p2 + p3 + p4, p5);
    }
    DisplayMathWins(IntegralSample);
  }

  /** The multi-line display test of src/markdown.rs: `[^$]` admits line feeds. */
  lemma QuadraticSampleIsDisplay()
    ensures ProcessLatexMath("$$" + QuadraticSample + "$$") == DisplaySpan(QuadraticSample)
  {
    assert NoDollar(QuadraticSample) by {
      var p1, p2, p3, p4 := "\nx = ", "\\frac{-b \\pm ", "\\sqrt{b^2 - 4ac}}", "{2a}\n";
      assert NoDollar(p1) && NoDollar(p2) && NoDollar(p3) && NoDollar(p4);
      NoDollarAppend(p1, p2);
      NoDollarAppend(p1 + p2, p3);
      NoDollarAppend(p1 + p2 + p3, p4);
    }
    DisplayMathWins(QuadraticSample);
  }
}
