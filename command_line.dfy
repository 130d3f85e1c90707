/**
 * `splitCommandLine` of src/utils.ts: the global matches of
 * `([^\s"']+|["'][^"']*["'])+`, each with its quote characters removed.
 * The scanners walk one string by index; a match that starts at `i` ends at
 * `GlueEnd(s, i)`.
 */
module CommandLine {
  import opened Wrappers
  import opened Seqs

  /** JavaScript's `\s`: the ECMAScript white space and line terminators. */
  predicate IsJsSpace(c: char) {
    c == '\t' || c == '\n' || c == '\U{0B}' || c == '\U{0C}' || c == '\r' || c == ' '
    || c == '\U{A0}' || c == '\U{1680}' || ('\U{2000}' <= c <= '\U{200A}')
    || c == '\U{2028}' || c == '\U{2029}' || c == '\U{202F}' || c == '\U{205F}'
    || c == '\U{3000}' || c == '\U{FEFF}'
  }

  predicate IsQuote(c: char) {
    c == '"' || c == '\''
  }

  /** The class `[^\s"']`. */
  predicate IsPlain(c: char) {
    !IsJsSpace(c) && !IsQuote(c)
  }

  predicate QuoteFree(s: string) {
    forall i | 0 <= i < |s| :: !IsQuote(s[i])
  }

  predicate AllPlain(s: string) {
    forall i | 0 <= i < |s| :: IsPlain(s[i])
  }

  /** Where the run of `[^\s"']` starting at `i` ends. */
  function PlainEnd(s: string, i: nat): (j: nat)
    requires i <= |s|
    ensures i <= j <= |s| && (j < |s| ==> !IsPlain(s[j]))
    ensures i < |s| && IsPlain(s[i]) ==> i < j
    decreases |s| - i
  {
    if i == |s| || !IsPlain(s[i]) then i else PlainEnd(s, i + 1)
  }

  /** Where the run of `[^"']` starting at `i` ends. */
  function QuoteEnd(s: string, i: nat): (j: nat)
    requires i <= |s|
    ensures i <= j <= |s| && (j < |s| ==> IsQuote(s[j]))
    decreases |s| - i
  {
    if i == |s| || IsQuote(s[i]) then i else QuoteEnd(s, i + 1)
  }

  /**
   * Where one piece of the pattern starting at `i` ends: a plain run, or a
   * quoted span closed by the next quote of either kind; `i` itself when no
   * piece starts there.
   */
  function PieceEnd(s: string, i: nat): (j: nat)
    requires i <= |s|
    ensures i <= j <= |s|
  {
    if i == |s| then i
    else if IsPlain(s[i]) then PlainEnd(s, i)
    else if IsQuote(s[i]) then
      var close := QuoteEnd(s, i + 1);
      if close < |s| then close + 1 else i
    else i
  }

  /** Where the match starting at `i` ends: as many glued pieces as possible. */
  function GlueEnd(s: string, i: nat): (j: nat)
    requires i <= |s|
    ensures i <= j <= |s|
    decreases |s| - i
  {
    var p := PieceEnd(s, i);
    if p == i then i else GlueEnd(s, p)
  }

  /** `s.replace(/["']/g, '')`. */
  function RemoveQuotes(s: string): string
    decreases |s|
  {
    if s == [] then []
    else if IsQuote(s[0]) then RemoveQuotes(s[1..])
    else [s[0]] + RemoveQuotes(s[1..])
  }

  /**
   * The global matches of `s`, left to right, with quotes removed: a match
   * at the start is taken whole and the search resumes after it; otherwise
   * the search moves on by one character.
   */
  function Tokens(s: string): seq<string>
    decreases |s|
  {
    if s == [] then []
    else
      var j := GlueEnd(s, 0);
      if 0 < j then [RemoveQuotes(s[..j])] + Tokens(s[j..]) else Tokens(s[1..])
  }

  /** The matches the search finds once it has reached index `i`. */
  function TokensFrom(s: string, i: nat): seq<string>
    requires i <= |s|
  {
    Tokens(s[i..])
  }

  /** `splitCommandLine(cmd)`; `None` is an undefined argument. */
  function SplitCommandLine(cmd: Option<string>): seq<string> {
    if cmd.None? || cmd.value == [] then [] else Tokens(cmd.value)
  }

  // ---------------------------------------------------------------------------
  // Quote removal

  lemma {:induction false} RemoveQuotesIsQuoteFree(s: string)
    ensures QuoteFree(RemoveQuotes(s))
    decreases |s|
  {
    if s != [] {
      RemoveQuotesIsQuoteFree(s[1..]);
    }
  }

  lemma {:induction false} RemoveQuotesOfQuoteFree(s: string)
    requires QuoteFree(s)
    ensures RemoveQuotes(s) == s
    decreases |s|
  {
    if s != [] {
      RemoveQuotesOfQuoteFree(s[1..]);
    }
  }

  lemma {:induction false} RemoveQuotesAppend(a: string, b: string)
    ensures RemoveQuotes(a + b) == RemoveQuotes(a) + RemoveQuotes(b)
    decreases |a|
  {
    if a != [] {
      assert (a + b)[1..] == a[1..] + b;
      RemoveQuotesAppend(a[1..], b);
    } else {
      assert a + b == b;
    }
  }

  // ---------------------------------------------------------------------------
  // Where runs and matches end

  lemma {:induction false} PlainEndIs(s: string, i: nat, j: nat)
    requires i <= j <= |s| && (forall k | i <= k < j :: IsPlain(s[k]))
    requires j == |s| || !IsPlain(s[j])
    ensures PlainEnd(s, i) == j
    decreases j - i
  {
    if i < j {
      PlainEndIs(s, i + 1, j);
    }
  }

  lemma {:induction false} PlainEndRun(s: string, i: nat)
    requires i <= |s|
    ensures forall k | i <= k < PlainEnd(s, i) :: IsPlain(s[k])
    decreases |s| - i
  {
    if i < |s| && IsPlain(s[i]) {
      PlainEndRun(s, i + 1);
    }
  }

  lemma {:induction false} QuoteEndIs(s: string, i: nat, j: nat)
    requires i <= j <= |s| && (forall k | i <= k < j :: !IsQuote(s[k]))
    requires j == |s| || IsQuote(s[j])
    ensures QuoteEnd(s, i) == j
    decreases j - i
  {
    if i < j {
      QuoteEndIs(s, i + 1, j);
    }
  }

  lemma GlueAtStop(s: string, i: nat)
    requires i <= |s| && (i == |s| || IsJsSpace(s[i]))
    ensures GlueEnd(s, i) == i
  {
  }

  lemma GlueAfterPlain(s: string, i: nat, j: nat)
    requires i <= j <= |s| && (forall k | i <= k < j :: IsPlain(s[k]))
    requires j == |s| || !IsPlain(s[j])
    ensures GlueEnd(s, i) == GlueEnd(s, j)
  {
    PlainEndIs(s, i, j);
  }

  lemma GlueAfterQuoted(s: string, i: nat, j: nat)
    requires i < j < |s| && IsQuote(s[i]) && IsQuote(s[j])
    requires forall k | i < k < j :: !IsQuote(s[k])
    ensures GlueEnd(s, i) == GlueEnd(s, j + 1)
  {
    QuoteEndIs(s, i + 1, j);
  }

  lemma GlueAtUnclosed(s: string, i: nat)
    requires i < |s| && IsQuote(s[i])
    requires forall k | i < k < |s| :: !IsQuote(s[k])
    ensures GlueEnd(s, i) == i
  {
    QuoteEndIs(s, i + 1, |s|);
  }

  lemma TokensStart(s: string)
    ensures TokensFrom(s, 0) == Tokens(s)
  {
    assert s[0..] == s;
  }

  lemma TokensAtEnd(s: string)
    ensures TokensFrom(s, |s|) == []
  {
    assert s[|s|..] == [];
  }

  lemma TokensSkip(s: string, i: nat)
    requires i < |s| && GlueEnd(s, i) == i
    ensures TokensFrom(s, i) == TokensFrom(s, i + 1)
  {
    var u := s[i..];
    ShiftGlueEnd(s, i, u, 0);
    assert u[1..] == s[i + 1..];
  }

  lemma TokensTake(s: string, i: nat, j: nat)
    requires i < j <= |s| && j == GlueEnd(s, i)
    ensures TokensFrom(s, i) == [RemoveQuotes(s[i..j])] + TokensFrom(s, j)
  {
    var u := s[i..];
    ShiftGlueEnd(s, i, u, 0);
    assert u[..j - i] == s[i..j];
    assert u[j - i..] == s[j..];
  }

  // ---------------------------------------------------------------------------
  // Scanning a suffix, and a prefix no match leaves

  /** `t` is the text of `s` from index `d` on. */
  predicate SuffixAt(s: string, d: nat, t: string) {
    d + |t| == |s| && forall k | 0 <= k < |t| :: t[k] == s[d + k]
  }

  lemma {:induction false} ShiftPlainEnd(s: string, d: nat, t: string, i: nat)
    requires SuffixAt(s, d, t) && i <= |t|
    ensures PlainEnd(s, d + i) == d + PlainEnd(t, i)
    decreases |t| - i
  {
    if i < |t| {
      assert t[i] == s[d + i];
      if IsPlain(t[i]) {
        ShiftPlainEnd(s, d, t, i + 1);
      }
    }
  }

  lemma {:induction false} ShiftQuoteEnd(s: string, d: nat, t: string, i: nat)
    requires SuffixAt(s, d, t) && i <= |t|
    ensures QuoteEnd(s, d + i) == d + QuoteEnd(t, i)
    decreases |t| - i
  {
    if i < |t| {
      assert t[i] == s[d + i];
      if !IsQuote(t[i]) {
        ShiftQuoteEnd(s, d, t, i + 1);
      }
    }
  }

  lemma ShiftPieceEnd(s: string, d: nat, t: string, i: nat)
    requires SuffixAt(s, d, t) && i <= |t|
    ensures PieceEnd(s, d + i) == d + PieceEnd(t, i)
  {
    if i < |t| {
      assert t[i] == s[d + i];
      if IsPlain(t[i]) {
        ShiftPlainEnd(s, d, t, i);
      } else if IsQuote(t[i]) {
        ShiftQuoteEnd(s, d, t, i + 1);
      }
    }
  }

  lemma {:induction false} ShiftGlueEnd(s: string, d: nat, t: string, i: nat)
    requires SuffixAt(s, d, t) && i <= |t|
    ensures GlueEnd(s, d + i) == d + GlueEnd(t, i)
    decreases |t| - i
  {
    var p := PieceEnd(t, i);
    ShiftPieceEnd(s, d, t, i);
    if p != i {
      ShiftGlueEnd(s, d, t, p);
    }
  }

  /**
   * Before a quote-free boundary `m` that no match can cross, matching the
   * whole text finds the matches of the text before `m`, then those after.
   */
  lemma {:induction false} PrefixGlueEnd(s: string, m: nat, i: nat)
    requires i < m <= |s| && QuoteFree(s[..m])
    requires GlueEnd(s, m) == m && (m == |s| || !IsPlain(s[m]))
    ensures GlueEnd(s, i) == GlueEnd(s[..m], i)
  {
    var a := s[..m];
    assert a[i] == s[i];
    if IsPlain(s[i]) {
      var p := PlainEnd(a, i);
      PlainEndRun(a, i);
      forall k | i <= k < p ensures IsPlain(s[k]) {
        assert a[k] == s[k];
      }
      if p < m {
        assert a[p] == s[p];
        PlainEndIs(s, i, p);
        GlueAtStop(s, p);
      } else {
        PlainEndIs(s, i, m);
      }
    } else {
      assert !IsQuote(a[i]);
    }
  }

  lemma {:induction false} PrefixTokens(s: string, m: nat, i: nat)
    requires i <= m <= |s| && QuoteFree(s[..m])
    requires GlueEnd(s, m) == m && (m == |s| || !IsPlain(s[m]))
    ensures TokensFrom(s, i) == TokensFrom(s[..m], i) + TokensFrom(s, m)
    decreases m - i
  {
    var a := s[..m];
    if i < m {
      PrefixGlueEnd(s, m, i);
      var j := GlueEnd(s, i);
      if i < j {
        calc {
          TokensFrom(s, i);
        == { TokensTake(s, i, j); }
          [RemoveQuotes(s[i..j])] + TokensFrom(s, j);
        == { PrefixTokens(s, m, j); }
          [RemoveQuotes(s[i..j])] + (TokensFrom(a, j) + TokensFrom(s, m));
        == { assert s[i..j] == a[i..j]; SeqAssoc([RemoveQuotes(a[i..j])], TokensFrom(a, j), TokensFrom(s, m)); }
          [RemoveQuotes(a[i..j])] + TokensFrom(a, j) + TokensFrom(s, m);
        == { TokensTake(a, i, j); }
          TokensFrom(a, i) + TokensFrom(s, m);
        }
      } else {
        calc {
          TokensFrom(s, i);
        == { TokensSkip(s, i); }
          TokensFrom(s, i + 1);
        == { PrefixTokens(s, m, i + 1); }
          TokensFrom(a, i + 1) + TokensFrom(s, m);
        == { TokensSkip(a, i); }
          TokensFrom(a, i) + TokensFrom(s, m);
        }
      }
    } else {
      assert TokensFrom(a, i) == [];
    }
  }

  /**
   * Quote-free text followed by text that neither continues a plain run nor
   * starts a match splits into the arguments of each.
   */
  lemma TokensSplit(a: string, rest: string)
    requires QuoteFree(a)
    requires rest == [] || (!IsPlain(rest[0]) && GlueEnd(rest, 0) == 0)
    ensures Tokens(a + rest) == Tokens(a) + Tokens(rest)
  {
    var s := a + rest;
    var m := |a|;
    assert s[..m] == a && s[m..] == rest;
    ShiftGlueEnd(s, m, rest, 0);
    PrefixTokens(s, m, 0);
  }

  // ---------------------------------------------------------------------------
  // Properties

  /** An undefined or empty command yields no arguments. */
  lemma EmptyCommand()
    ensures SplitCommandLine(None) == [] && SplitCommandLine(Some([])) == []
  {
  }

  lemma {:induction false} BlankFrom(s: string, i: nat)
    requires i <= |s| && forall k | 0 <= k < |s| :: IsJsSpace(s[k])
    ensures TokensFrom(s, i) == []
    decreases |s| - i
  {
    if i < |s| {
      BlankFrom(s, i + 1);
    }
  }

  /** Input with nothing but white space has no match and yields no arguments. */
  lemma BlankCommand(s: string)
    requires forall k | 0 <= k < |s| :: IsJsSpace(s[k])
    ensures SplitCommandLine(Some(s)) == []
  {
    BlankFrom(s, 0);
  }

  lemma {:induction false} TokensFromQuoteFree(s: string, i: nat)
    requires i <= |s|
    ensures forall n | 0 <= n < |TokensFrom(s, i)| :: QuoteFree(TokensFrom(s, i)[n])
    decreases |s| - i
  {
    if i < |s| {
      var j := GlueEnd(s, i);
      if i < j {
        TokensTake(s, i, j);
        RemoveQuotesIsQuoteFree(s[i..j]);
        TokensFromQuoteFree(s, j);
      } else {
        TokensSkip(s, i);
        TokensFromQuoteFree(s, i + 1);
      }
    } else {
      TokensAtEnd(s);
    }
  }

  /** No argument holds a quote character. */
  lemma TokensQuoteFree(cmd: Option<string>)
    ensures forall n | 0 <= n < |SplitCommandLine(cmd)| :: QuoteFree(SplitCommandLine(cmd)[n])
  {
    if cmd.Some? {
      TokensFromQuoteFree(cmd.value, 0);
      TokensStart(cmd.value);
    }
  }

  lemma RemoveQuotesWord(a: string, q: char, x: string, q': char, b: string)
    requires QuoteFree(a) && QuoteFree(b) && QuoteFree(x) && IsQuote(q) && IsQuote(q')
    ensures RemoveQuotes(a + [q] + x + [q'] + b) == a + x + b
  {
    var w1 := a + [q];
    var w2 := w1 + x;
    var w3 := w2 + [q'];
    RemoveQuotesOfQuoteFree(a);
    RemoveQuotesOfQuoteFree(x);
    RemoveQuotesOfQuoteFree(b);
    RemoveQuotesAppend(a, [q]);
    assert RemoveQuotes(w1) == a;
    RemoveQuotesAppend(w1, x);
    assert RemoveQuotes(w2) == a + x;
    RemoveQuotesAppend(w2, [q']);
    assert RemoveQuotes(w3) == a + x;
    RemoveQuotesAppend(w3, b);
  }

  /** What each position of `a q x q' b rest` holds. */
  lemma QuotedLayout(a: string, q: char, x: string, q': char, b: string, rest: string)
    requires AllPlain(a) && AllPlain(b) && QuoteFree(x)
    ensures var s, open, close := a + [q] + x + [q'] + b + rest, |a|, |a| + 1 + |x|;
      var end := close + 1 + |b|;
      s[open] == q && s[close] == q' && (end < |s| ==> s[end] == rest[0])
      && (forall k | 0 <= k < open :: IsPlain(s[k]))
      && (forall k | open < k < close :: !IsQuote(s[k]))
      && (forall k | close < k < end :: IsPlain(s[k]))
  {
    var s, open, close := a + [q] + x + [q'] + b + rest, |a|, |a| + 1 + |x|;
    var end := close + 1 + |b|;
    forall k | 0 <= k < open ensures IsPlain(s[k]) {
      assert s[k] == a[k];
    }
    forall k | open < k < close ensures !IsQuote(s[k]) {
      assert s[k] == x[k - open - 1];
    }
    forall k | close < k < end ensures IsPlain(s[k]) {
      assert s[k] == b[k - close - 1];
    }
  }

  /**
   * A plain run, a closed quoted span and a plain run, followed by the end
   * or by white space, form one match.
   */
  lemma GlueOverQuoted(s: string, open: nat, close: nat, end: nat)
    requires open < close < end <= |s| && IsQuote(s[open]) && IsQuote(s[close])
    requires forall k | 0 <= k < open :: IsPlain(s[k])
    requires forall k | open < k < close :: !IsQuote(s[k])
    requires forall k | close < k < end :: IsPlain(s[k])
    requires end == |s| || IsJsSpace(s[end])
    ensures GlueEnd(s, 0) == end
  {
    calc {
      GlueEnd(s, 0);
    == { GlueAfterPlain(s, 0, open); }
      GlueEnd(s, open);
    == { GlueAfterQuoted(s, open, close); }
      GlueEnd(s, close + 1);
    == { GlueAfterPlain(s, close + 1, end); }
      GlueEnd(s, end);
    == { GlueAtStop(s, end); }
      end;
    }
  }

  /**
   * A quoted span keeps its inner white space and is glued to the plain text
   * on both sides into one argument.
   */
  lemma QuotedGlue(a: string, q: char, x: string, q': char, b: string, rest: string)
    requires AllPlain(a) && AllPlain(b) && QuoteFree(x) && IsQuote(q) && IsQuote(q')
    requires rest == [] || IsJsSpace(rest[0])
    ensures Tokens(a + [q] + x + [q'] + b + rest) == [a + x + b] + Tokens(rest)
  {
    var word := a + [q] + x + [q'] + b;
    var s := word + rest;
    var end := |word|;
    QuotedLayout(a, q, x, q', b, rest);
    GlueOverQuoted(s, |a|, |a| + 1 + |x|, end);
    assert s[0..end] == word && s[end..] == rest;
    assert QuoteFree(a) && QuoteFree(b);
    RemoveQuotesWord(a, q, x, q', b);
    calc {
      Tokens(s);
    == { TokensTake(s, 0, end); }
      [RemoveQuotes(word)] + TokensFrom(s, end);
    ==
      [a + x + b] + Tokens(rest);
    }
  }

  /** `''` is one empty argument. */
  lemma EmptyQuotes()
    ensures SplitCommandLine(Some("''")) == [""]
  {
    assert "''" == [] + ['\''] + [] + ['\''] + [] + [];
    QuotedGlue([], '\'', [], '\'', [], []);
  }

  /** A quoted word, a space, then a plain word. */
  lemma QuotedThenPlain(x: string, flag: string)
    requires QuoteFree(x) && flag != [] && AllPlain(flag)
    ensures Tokens(['\''] + x + ['\''] + " " + flag) == [x, flag]
  {
    var rest := " " + flag;
    assert ['\''] + x + ['\''] + " " + flag == [] + ['\''] + x + ['\''] + [] + rest;
    QuotedGlue([], '\'', x, '\'', [], rest);
    assert [] + x + [] == x;
    TokensSkip(rest, 0);
    assert rest[1..] == flag;
    OneWord(flag);
  }

  /** The example of the doc comment: `'google chrome' --incognito`. */
  lemma DocExample()
    ensures SplitCommandLine(Some("'google chrome' --incognito")) == ["google chrome", "--incognito"]
  {
    var x, flag := "google chrome", "--incognito";
    DocPieces();
    QuotedThenPlain(x, flag);
    DocText();
  }

  lemma DocPieces()
    ensures QuoteFree("google chrome") && AllPlain("--incognito")
  {
    var flag := "--incognito";
    forall k | 0 <= k < |flag| ensures IsPlain(flag[k]) {
      assert flag[k] in "-incogt";
    }
  }

  lemma DocText()
    ensures "'google chrome' --incognito" == ['\''] + "google chrome" + ['\''] + " " + "--incognito"
  {
  }

  // Input without quote characters

  /**
   * An independent reading of white-space splitting: one character at a
   * time from index `i`, `cur` holding the word in progress and `acc` the
   * finished words.
   */
  function WordsAcc(s: string, i: nat, cur: string, acc: seq<string>): seq<string>
    requires i <= |s|
    decreases |s| - i
  {
    if i == |s| then (if cur == [] then acc else acc + [cur])
    else if IsJsSpace(s[i]) then WordsAcc(s, i + 1, [], if cur == [] then acc else acc + [cur])
    else WordsAcc(s, i + 1, cur + [s[i]], acc)
  }

  function Words(s: string): seq<string> {
    WordsAcc(s, 0, [], [])
  }

  /** In quote-free text a match is exactly one plain run. */
  lemma PlainRunToken(s: string, i: nat)
    requires QuoteFree(s) && i < |s| && IsPlain(s[i])
    ensures TokensFrom(s, i) == [s[i..PlainEnd(s, i)]] + TokensFrom(s, PlainEnd(s, i))
  {
    var p := PlainEnd(s, i);
    PlainEndRun(s, i);
    GlueAfterPlain(s, i, p);
    GlueAtStop(s, p);
    TokensTake(s, i, p);
    assert QuoteFree(s[i..p]) by {
      forall k | 0 <= k < p - i ensures !IsQuote(s[i..p][k]) {
        assert s[i..p][k] == s[i + k];
      }
    }
    RemoveQuotesOfQuoteFree(s[i..p]);
  }

  lemma {:induction false} WordsAccIsTokens(s: string, i: nat, cur: string, acc: seq<string>)
    requires QuoteFree(s) && i <= |s|
    ensures cur == [] ==> WordsAcc(s, i, cur, acc) == acc + TokensFrom(s, i)
    ensures cur != [] ==>
      WordsAcc(s, i, cur, acc) == acc + [cur + s[i..PlainEnd(s, i)]] + TokensFrom(s, PlainEnd(s, i))
    decreases |s| - i
  {
    if i == |s| {
      assert cur + s[i..i] == cur;
    } else if IsJsSpace(s[i]) {
      WordsAccIsTokens(s, i + 1, [], if cur == [] then acc else acc + [cur]);
      TokensSkip(s, i);
      assert cur + s[i..i] == cur;
    } else {
      WordsAccIsTokens(s, i + 1, cur + [s[i]], acc);
      WordsAccPlain(s, i, cur, acc);
    }
  }

  /** The step of `WordsAccIsTokens` at a plain character. */
  lemma WordsAccPlain(s: string, i: nat, cur: string, acc: seq<string>)
    requires QuoteFree(s) && i < |s| && !IsJsSpace(s[i])
    requires WordsAcc(s, i + 1, cur + [s[i]], acc)
      == acc + [cur + [s[i]] + s[i + 1..PlainEnd(s, i + 1)]] + TokensFrom(s, PlainEnd(s, i + 1))
    ensures cur == [] ==> WordsAcc(s, i, cur, acc) == acc + TokensFrom(s, i)
    ensures cur != [] ==>
      WordsAcc(s, i, cur, acc) == acc + [cur + s[i..PlainEnd(s, i)]] + TokensFrom(s, PlainEnd(s, i))
  {
    var p := PlainEnd(s, i);
    assert IsPlain(s[i]) && PlainEnd(s, i + 1) == p by {
      assert !IsQuote(s[i]);
    }
    assert cur + [s[i]] + s[i + 1..p] == cur + s[i..p] by {
      assert s[i..p] == [s[i]] + s[i + 1..p];
    }
    assert WordsAcc(s, i, cur, acc) == WordsAcc(s, i + 1, cur + [s[i]], acc);
    if cur == [] {
      assert cur + s[i..p] == s[i..p];
      PlainRunToken(s, i);
      SeqAssoc(acc, [s[i..p]], TokensFrom(s, p));
    }
  }

  /** Without quote characters, the arguments are the white-space separated words. */
  lemma QuoteFreeSplitsOnSpace(s: string)
    requires QuoteFree(s)
    ensures Tokens(s) == Words(s)
  {
    WordsAccIsTokens(s, 0, [], []);
    assert [] + TokensFrom(s, 0) == TokensFrom(s, 0);
  }

  lemma {:induction false} QuoteFreeTokensFrom(s: string, i: nat)
    requires QuoteFree(s) && i <= |s|
    ensures forall n | 0 <= n < |TokensFrom(s, i)| ::
      TokensFrom(s, i)[n] != [] && AllPlain(TokensFrom(s, i)[n])
    decreases |s| - i
  {
    if i < |s| {
      if IsPlain(s[i]) {
        var p := PlainEnd(s, i);
        PlainRunToken(s, i);
        PlainEndRun(s, i);
        assert AllPlain(s[i..p]) by {
          forall k | 0 <= k < p - i ensures IsPlain(s[i..p][k]) {
            assert s[i..p][k] == s[i + k];
          }
        }
        QuoteFreeTokensFrom(s, p);
      } else {
        TokensSkip(s, i);
        QuoteFreeTokensFrom(s, i + 1);
      }
    } else {
      TokensAtEnd(s);
    }
  }

  /** Without quote characters, every argument is non-empty and free of white space. */
  lemma QuoteFreeTokensAreWords(s: string)
    requires QuoteFree(s)
    ensures forall n | 0 <= n < |Tokens(s)| :: Tokens(s)[n] != [] && AllPlain(Tokens(s)[n])
  {
    QuoteFreeTokensFrom(s, 0);
    TokensStart(s);
  }

  /** The number of quote characters in `s` from index `i` on. */
  function QuotesFrom(s: string, i: nat): nat
    requires i <= |s|
    decreases |s| - i
  {
    if i == |s| then 0 else (if IsQuote(s[i]) then 1 else 0) + QuotesFrom(s, i + 1)
  }

  lemma {:induction false} QuoteEndRun(s: string, i: nat)
    requires i <= |s|
    ensures forall k | i <= k < QuoteEnd(s, i) :: !IsQuote(s[k])
    decreases |s| - i
  {
    if i < |s| && !IsQuote(s[i]) {
      QuoteEndRun(s, i + 1);
    }
  }

  lemma {:induction false} QuotesFromSkip(s: string, i: nat, j: nat)
    requires i <= j <= |s| && forall k | i <= k < j :: !IsQuote(s[k])
    ensures QuotesFrom(s, i) == QuotesFrom(s, j)
    decreases j - i
  {
    if i < j {
      QuotesFromSkip(s, i + 1, j);
    }
  }

  /**
   * With an even number of quotes ahead, a piece inside `a` ends in
   * `a + [q] + b` where it ends in `a` (a quote there is always closed),
   * and an even number of quotes is left after it.
   */
  lemma PieceBeforeUnclosed(a: string, q: char, b: string, k: nat)
    requires IsQuote(q) && QuoteFree(b) && k <= |a|
    ensures QuotesFrom(a, k) % 2 == 0 ==>
      PieceEnd(a + [q] + b, k) == PieceEnd(a, k) && QuotesFrom(a, PieceEnd(a, k)) % 2 == 0
      && (k < |a| && IsQuote(a[k]) ==> k < PieceEnd(a, k))
  {
    var s := a + [q] + b;
    if k == |a| {
      forall j | k + 1 <= j < |s| ensures !IsQuote(s[j]) {
        assert s[j] == b[j - k - 1];
      }
      QuoteEndIs(s, k + 1, |s|);
    } else {
      assert s[k] == a[k];
      if IsPlain(a[k]) {
        var p := PlainEnd(a, k);
        PlainEndRun(a, k);
        forall j | k <= j < p ensures IsPlain(s[j]) && !IsQuote(a[j]) {
          assert s[j] == a[j];
        }
        assert p < |a| ==> s[p] == a[p];
        PlainEndIs(s, k, p);
        QuotesFromSkip(a, k, p);
      } else if IsQuote(a[k]) {
        var close := QuoteEnd(a, k + 1);
        QuoteEndRun(a, k + 1);
        QuotesFromSkip(a, k + 1, close);
        if close < |a| {
          forall j | k + 1 <= j < close ensures !IsQuote(s[j]) {
            assert s[j] == a[j];
          }
          assert s[close] == a[close];
          QuoteEndIs(s, k + 1, close);
        }
      }
    }
  }

  lemma {:induction false} GlueBeforeUnclosed(a: string, q: char, b: string, k: nat)
    requires IsQuote(q) && QuoteFree(b) && k <= |a|
    ensures QuotesFrom(a, k) % 2 == 0 ==>
      GlueEnd(a + [q] + b, k) == GlueEnd(a, k) && QuotesFrom(a, GlueEnd(a, k)) % 2 == 0
      && (k < |a| && IsQuote(a[k]) ==> k < GlueEnd(a, k))
    decreases |a| - k
  {
    PieceBeforeUnclosed(a, q, b, k);
    var p := PieceEnd(a, k);
    if p != k {
      GlueBeforeUnclosed(a, q, b, p);
    }
  }

  /** The matches from `i` on, when the text is followed by a quote never closed. */
  lemma {:induction false} TokensBeforeUnclosed(a: string, q: char, b: string, i: nat)
    requires IsQuote(q) && QuoteFree(b) && i <= |a|
    ensures QuotesFrom(a, i) % 2 == 0 ==> TokensFrom(a + [q] + b, i) == TokensFrom(a, i) + Tokens(b)
    decreases |a| - i
  {
    var s := a + [q] + b;
    if QuotesFrom(a, i) % 2 == 0 {
      GlueBeforeUnclosed(a, q, b, i);
      var j := GlueEnd(a, i);
      if i == |a| {
        TokensSkip(s, i);
        assert s[i + 1..] == b;
        TokensAtEnd(a);
      } else if i < j {
        TokensBeforeUnclosed(a, q, b, j);
        calc {
          TokensFrom(s, i);
        == { TokensTake(s, i, j); }
          [RemoveQuotes(s[i..j])] + TokensFrom(s, j);
        == { assert s[i..j] == a[i..j]; }
          [RemoveQuotes(a[i..j])] + (TokensFrom(a, j) + Tokens(b));
        == { SeqAssoc([RemoveQuotes(a[i..j])], TokensFrom(a, j), Tokens(b)); TokensTake(a, i, j); }
          TokensFrom(a, i) + Tokens(b);
        }
      } else {
        TokensBeforeUnclosed(a, q, b, i + 1);
        calc {
          TokensFrom(s, i);
        == { TokensSkip(s, i); }
          TokensFrom(s, i + 1);
        ==
          TokensFrom(a, i + 1) + Tokens(b);
        == { TokensSkip(a, i); }
          TokensFrom(a, i) + Tokens(b);
        }
      }
    }
  }

  /**
   * A quote with no quote after it never joins an argument, provided every
   * quote before it is closed there, that is, the text before it holds an
   * even number of quotes.
   */
  lemma UnclosedQuote(a: string, q: char, b: string)
    requires QuotesFrom(a, 0) % 2 == 0 && IsQuote(q) && QuoteFree(b)
    ensures Tokens(a + [q] + b) == Tokens(a) + Tokens(b)
  {
    TokensBeforeUnclosed(a, q, b, 0);
    TokensStart(a);
    TokensStart(a + [q] + b);
  }

  lemma OneWord(w: string)
    requires w != [] && AllPlain(w)
    ensures Tokens(w) == [w]
  {
    GlueAfterPlain(w, 0, |w|);
    TokensTake(w, 0, |w|);
    assert w[0..|w|] == w;
    assert QuoteFree(w);
    RemoveQuotesOfQuoteFree(w);
  }

  /** `a'b` gives `a` and `b`. */
  lemma UnclosedQuoteExample()
    ensures SplitCommandLine(Some("a'b")) == ["a", "b"]
  {
    assert "a'b" == "a" + ['\''] + "b";
    UnclosedQuote("a", '\'', "b");
    SingleLetters();
  }

  /** `'x y' a'b` gives `x y`, `a` and `b`: the closed span stays whole. */
  lemma QuotedThenUnclosed()
    ensures SplitCommandLine(Some("'x y' a'b")) == ["x y", "a", "b"]
  {
    var a := "'x y' a";
    QuotedThenUnclosedText();
    UnclosedQuote(a, '\'', "b");
    QuotedThenPlain("x y", "a");
    OneWord("b");
  }

  lemma QuotedThenUnclosedText()
    ensures "'x y' a'b" == "'x y' a" + ['\''] + "b"
    ensures "'x y' a" == ['\''] + "x y" + ['\''] + " " + "a"
    ensures QuotesFrom("'x y' a", 0) == 2
    ensures QuoteFree("x y") && AllPlain("a") && AllPlain("b")
  {
    var a := "'x y' a";
    assert QuotesFrom(a, 5) == 0;
  }

  lemma SingleLetters()
    ensures Tokens("a") == ["a"] && Tokens("b") == ["b"]
  {
    OneWord("a");
    OneWord("b");
  }
}
