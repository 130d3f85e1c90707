/**
 * `process_emojis` and `get_emoji_map` of src/markdown.rs: the rendered HTML is
 * rewritten once per entry of a 42-entry table, replacing every `:code:` by its
 * emoji with `str::replace`, in the iteration order of a `HashMap`.
 */
module Emoji {

  // ---------------------------------------------------------------------------
  // The table

  /*
   * The entries in source order, in fourteen groups of three, so that facts
   * about the table can be checked group by group.
   */
  function Group1(): map<string, string> {
    map[
      "smile" := "\U{1F604}",
      "laughing" := "\U{1F606}",
      "wink" := "\U{1F609}"
    ]
  }

  function Group2(): map<string, string> {
    map[
      "blush" := "\U{1F60A}",
      "heart" := "\U{2764}\U{FE0F}",
      "broken_heart" := "\U{1F494}"
    ]
  }

  function Group3(): map<string, string> {
    map[
      "thumbsup" := "\U{1F44D}",
      "thumbsdown" := "\U{1F44E}",
      "ok_hand" := "\U{1F44C}"
    ]
  }

  function Group4(): map<string, string> {
    map[
      "point_right" := "\U{1F449}",
      "point_left" := "\U{1F448}",
      "point_up" := "\U{1F446}"
    ]
  }

  function Group5(): map<string, string> {
    map[
      "point_down" := "\U{1F447}",
      "clap" := "\U{1F44F}",
      "wave" := "\U{1F44B}"
    ]
  }

  function Group6(): map<string, string> {
    map[
      "fire" := "\U{1F525}",
      "rocket" := "\U{1F680}",
      "star" := "\U{2B50}"
    ]
  }

  function Group7(): map<string, string> {
    map[
      "warning" := "\U{26A0}\U{FE0F}",
      "exclamation" := "\U{2757}",
      "question" := "\U{2753}"
    ]
  }

  function Group8(): map<string, string> {
    map[
      "heavy_check_mark" := "\U{2705}",
      "x" := "\U{274C}",
      "o" := "\U{2B55}"
    ]
  }

  function Group9(): map<string, string> {
    map[
      "bulb" := "\U{1F4A1}",
      "gear" := "\U{2699}\U{FE0F}",
      "wrench" := "\U{1F527}"
    ]
  }

  function Group10(): map<string, string> {
    map[
      "hammer" := "\U{1F528}",
      "lock" := "\U{1F512}",
      "unlock" := "\U{1F513}"
    ]
  }

  function Group11(): map<string, string> {
    map[
      "key" := "\U{1F511}",
      "mag" := "\U{1F50D}",
      "computer" := "\U{1F4BB}"
    ]
  }

  function Group12(): map<string, string> {
    map[
      "phone" := "\U{1F4F1}",
      "email" := "\U{1F4E7}",
      "book" := "\U{1F4D6}"
    ]
  }

  function Group13(): map<string, string> {
    map[
      "pencil" := "\U{270F}\U{FE0F}",
      "memo" := "\U{1F4DD}",
      "clipboard" := "\U{1F4CB}"
    ]
  }

  function Group14(): map<string, string> {
    map[
      "calendar" := "\U{1F4C5}",
      "clock" := "\U{1F550}",
      "hourglass" := "\U{23F3}"
    ]
  }

  /** `get_emoji_map`: the 42 short codes and their emoji. */
  function EmojiMap(): map<string, string> {
    Group1() + Group2() + Group3() + Group4() + Group5() + Group6() + Group7() + Group8() + Group9() + Group10() + Group11() + Group12() + Group13() + Group14()
  }

  predicate IsCodeChar(c: char) {
    'a' <= c <= 'z' || c == '_'
  }

  /** A short code: lower-case letters and underscores. */
  predicate IsCode(w: string) {
    w != [] && forall i :: 0 <= i < |w| ==> IsCodeChar(w[i])
  }

  /** An emoji: non-empty, without a colon, and not starting like a short code. */
  predicate IsGlyph(e: string) {
    e != [] && ':' !in e && !IsCodeChar(e[0])
  }

  predicate WellFormedTable(m: map<string, string>) {
    forall c | c in m :: IsCode(c) && IsGlyph(m[c])
  }

  lemma UnionWellFormed(a: map<string, string>, b: map<string, string>)
    requires WellFormedTable(a) && WellFormedTable(b)
    ensures WellFormedTable(a + b)
  {
  }

  lemma Group1WellFormed()
    ensures WellFormedTable(Group1())
  {
  }

  lemma Group2WellFormed()
    ensures WellFormedTable(Group2())
  {
  }

  lemma Group3WellFormed()
    ensures WellFormedTable(Group3())
  {
  }

  lemma Group4WellFormed()
    ensures WellFormedTable(Group4())
  {
  }

  lemma Group5WellFormed()
    ensures WellFormedTable(Group5())
  {
  }

  lemma Group6WellFormed()
    ensures WellFormedTable(Group6())
  {
  }

  lemma Group7WellFormed()
    ensures WellFormedTable(Group7())
  {
  }

  lemma Group8WellFormed()
    ensures WellFormedTable(Group8())
  {
  }

  lemma Group9WellFormed()
    ensures WellFormedTable(Group9())
  {
  }

  lemma Group10WellFormed()
    ensures WellFormedTable(Group10())
  {
  }

  lemma Group11WellFormed()
    ensures WellFormedTable(Group11())
  {
  }

  lemma Group12WellFormed()
    ensures WellFormedTable(Group12())
  {
  }

  lemma Group13WellFormed()
    ensures WellFormedTable(Group13())
  {
  }

  lemma Group14WellFormed()
    ensures WellFormedTable(Group14())
  {
  }

  /** Every code of the table is a word of `[a-z_]` and every emoji is colon-free. */
  lemma EmojiMapWellFormed()
    ensures WellFormedTable(EmojiMap())
  {
    Group1WellFormed();
    Group2WellFormed();
    Group3WellFormed();
    Group4WellFormed();
    Group5WellFormed();
    Group6WellFormed();
    Group7WellFormed();
    Group8WellFormed();
    Group9WellFormed();
    Group10WellFormed();
    Group11WellFormed();
    Group12WellFormed();
    Group13WellFormed();
    Group14WellFormed();
    UnionWellFormed(Group1(), Group2());
    UnionWellFormed(Group1() + Group2(), Group3());
    UnionWellFormed(Group1() + Group2() + Group3(), Group4());
    UnionWellFormed(Group1() + Group2() + Group3() + Group4(), Group5());
    UnionWellFormed(Group1() + Group2() + Group3() + Group4() + Group5(), Group6());
    UnionWellFormed(Group1() + Group2() + Group3() + Group4() + Group5() + Group6(), Group7());
    UnionWellFormed(Group1() + Group2() + Group3() + Group4() + Group5() + Group6() + Group7(), Group8());
    UnionWellFormed(Group1() + Group2() + Group3() + Group4() + Group5() + Group6() + Group7() + Group8(), Group9());
    UnionWellFormed(Group1() + Group2() + Group3() + Group4() + Group5() + Group6() + Group7() + Group8() + Group9(), Group10());
    UnionWellFormed(Group1() + Group2() + Group3() + Group4() + Group5() + Group6() + Group7() + Group8() + Group9() + Group10(), Group11());
    UnionWellFormed(Group1() + Group2() + Group3() + Group4() + Group5() + Group6() + Group7() + Group8() + Group9() + Group10() + Group11(), Group12());
    UnionWellFormed(Group1() + Group2() + Group3() + Group4() + Group5() + Group6() + Group7() + Group8() + Group9() + Group10() + Group11() + Group12(), Group13());
    UnionWellFormed(Group1() + Group2() + Group3() + Group4() + Group5() + Group6() + Group7() + Group8() + Group9() + Group10() + Group11() + Group12() + Group13(), Group14());
  }

  // ---------------------------------------------------------------------------
  // `str::replace`

  predicate StartsWith(s: string, p: string) {
    |p| <= |s| && s[..|p|] == p
  }

  /** `s.replace(pat, rep)`: every leftmost, non-overlapping occurrence of `pat`. */
  function ReplaceAll(s: string, pat: string, rep: string): string
    requires pat != []
    decreases |s|
  {
    if |s| < |pat| then s
    else if StartsWith(s, pat) then rep + ReplaceAll(s[|pat|..], pat, rep)
    else [s[0]] + ReplaceAll(s[1..], pat, rep)
  }

  function Shortcode(c: string): string {
    ":" + c + ":"
  }

  // ---------------------------------------------------------------------------
  // `process_emojis`

  /** A `HashMap` iteration order: every code of `m` exactly once. */
  predicate IsIterationOrder(m: map<string, string>, order: seq<string>) {
    InTable(m, order) && (forall c | c in m :: c in order) && Distinct(order)
  }

  predicate Distinct(order: seq<string>) {
    forall i, j | 0 <= i < j < |order| :: order[i] != order[j]
  }

  predicate InTable(m: map<string, string>, order: seq<string>) {
    forall i | 0 <= i < |order| :: order[i] in m
  }

  /** The text after one `replace` pass per code of `order`, first to last. */
  function EmojiPasses(m: map<string, string>, order: seq<string>, s: string): string
    requires InTable(m, order)
    decreases |order|
  {
    if order == [] then s
    else
      var c := order[|order| - 1];
      ReplaceAll(EmojiPasses(m, order[..|order| - 1], s), Shortcode(c), m[c])
  }

  /** `process_emojis`, with the `HashMap`'s iteration order given as `order`. */
  method ProcessEmojis(html: string, order: seq<string>) returns (result: string)
    requires IsIterationOrder(EmojiMap(), order)
    ensures result == EmojiPasses(EmojiMap(), order, html)
  {
    var m := EmojiMap();
    result := html;
    for i := 0 to |order|
      invariant result == EmojiPasses(m, order[..i], html)
    {
      assert order[..i + 1][..i] == order[..i];
      result := ReplaceAll(result, Shortcode(order[i]), m[order[i]]);
    }
    assert order[..|order|] == order;
  }

  // ---------------------------------------------------------------------------
  // Where a short code cannot match

  /** A colon-free prefix is copied through: every match starts with a colon. */
  lemma {:induction false} SkipColonFree(u: string, v: string, pat: string, rep: string)
    requires ':' !in u && pat != [] && pat[0] == ':'
    ensures ReplaceAll(u + v, pat, rep) == u + ReplaceAll(v, pat, rep)
    decreases |u|
  {
    if u == [] {
      assert u + v == v;
    } else {
      var s := u + v;
      assert u[0] != ':' by { assert u[0] in u; }
      assert !StartsWith(s, pat) by {
        if |pat| <= |s| {
          assert s[..|pat|][0] == u[0];
        }
      }
      calc {
        ReplaceAll(s, pat, rep);
        { SkipColon(s, pat, rep); }
        [s[0]] + ReplaceAll(s[1..], pat, rep);
        { assert s[1..] == u[1..] + v; }
        [u[0]] + ReplaceAll(u[1..] + v, pat, rep);
        { assert ':' !in u[1..]; SkipColonFree(u[1..], v, pat, rep); }
        [u[0]] + (u[1..] + ReplaceAll(v, pat, rep));
        { assert u == [u[0]] + u[1..]; }
        u + ReplaceAll(v, pat, rep);
      }
    }
  }

  /**
   * After a colon, a colon-free run `t` followed by `rest` cannot begin the
   * short code of `c` unless `t` is `c` itself and a colon follows it.
   */
  lemma ColonRunIsNotShortcode(t: string, rest: string, c: string)
    requires ':' !in t && IsCode(c)
    requires rest == [] || !IsCodeChar(rest[0])
    requires rest != [] && rest[0] == ':' ==> t != c
    ensures !StartsWith(":" + t + rest, Shortcode(c))
  {
    var s := ":" + t + rest;
    var p := Shortcode(c);
    if |p| <= |s| {
      var d: nat;
      if |t| < |c| {
        d := 1 + |t|;
        assert s[d] == rest[0] && p[d] == c[|t|];
      } else if |t| > |c| {
        d := 1 + |c|;
        assert s[d] == t[|c|] && p[d] == ':';
      } else if t != c {
        var k :| 0 <= k < |t| && t[k] != c[k];
        d := 1 + k;
        assert s[d] == t[k] && p[d] == c[k];
      } else {
        d := 1 + |c|;
        assert s[d] == rest[0] && p[d] == ':';
      }
      assert s[..|p|][d] != p[d];
    }
  }

  lemma SkipColon(s: string, pat: string, rep: string)
    requires pat != [] && s != [] && !StartsWith(s, pat)
    ensures ReplaceAll(s, pat, rep) == [s[0]] + ReplaceAll(s[1..], pat, rep)
  {
    if |s| < |pat| {
      assert ReplaceAll(s[1..], pat, rep) == s[1..];
    }
  }

  lemma ShortcodeMatches(c: string, v: string, rep: string)
    ensures ReplaceAll(Shortcode(c) + v, Shortcode(c), rep) == rep + ReplaceAll(v, Shortcode(c), rep)
  {
    var s := Shortcode(c) + v;
    assert s[..|Shortcode(c)|] == Shortcode(c);
    assert s[|Shortcode(c)|..] == v;
  }

  /** Text without a colon is left unchanged by every pass. */
  lemma {:induction false} ColonFreeUnchanged(m: map<string, string>, order: seq<string>, s: string)
    requires InTable(m, order) && ':' !in s
    ensures EmojiPasses(m, order, s) == s
    decreases |order|
  {
    if order != [] {
      ColonFreeUnchanged(m, order[..|order| - 1], s);
      var c := order[|order| - 1];
      SkipColonFree(s, [], Shortcode(c), m[c]);
      assert s + [] == s;
    }
  }

  // ---------------------------------------------------------------------------
  // Text made of short codes separated by plain text

  /** A short code and the colon-free text that follows it. */
  datatype Cell = Cell(code: string, after: string)

  /** The code as it stands once the codes in `done` have been replaced. */
  function CellText(m: map<string, string>, cell: Cell, done: set<string>): string {
    (if cell.code in done && cell.code in m then m[cell.code] else Shortcode(cell.code)) + cell.after
  }

  function CellsText(m: map<string, string>, cells: seq<Cell>, done: set<string>): string
    decreases |cells|
  {
    if cells == [] then [] else CellText(m, cells[0], done) + CellsText(m, cells[1..], done)
  }

  /** Plain text `lead`, then the cells. */
  function LayoutText(m: map<string, string>, lead: string, cells: seq<Cell>, done: set<string>): string {
    lead + CellsText(m, cells, done)
  }

  /**
   * Every cell holds a code of the table and colon-free text, and text that
   * sits between two codes is not itself a code.
   */
  predicate Separated(m: map<string, string>, cells: seq<Cell>) {
    forall i | 0 <= i < |cells| ::
      cells[i].code in m && ':' !in cells[i].after && (i + 1 < |cells| ==> cells[i].after !in m)
  }

  lemma CellsTextStart(m: map<string, string>, cells: seq<Cell>, done: set<string>)
    requires WellFormedTable(m) && Separated(m, cells) && cells != []
    ensures CellsText(m, cells, done) != [] && !IsCodeChar(CellsText(m, cells, done)[0])
  {
    var c := cells[0].code;
    if c in done {
      assert CellsText(m, cells, done)[0] == m[c][0];
    } else {
      assert CellsText(m, cells, done)[0] == ':';
    }
  }

  lemma SeparatedTail(m: map<string, string>, cells: seq<Cell>)
    requires Separated(m, cells) && cells != []
    ensures Separated(m, cells[1..])
  {
    forall i | 0 <= i < |cells[1..]|
      ensures cells[1..][i].code in m && ':' !in cells[1..][i].after
        && (i + 1 < |cells[1..]| ==> cells[1..][i].after !in m)
    {
      assert cells[1..][i] == cells[i + 1];
    }
  }

  /** A colon followed by a run that is not a short code is copied through. */
  lemma ColonRunSkipped(t: string, rest: string, c: string, rep: string)
    requires ':' !in t && IsCode(c)
    requires rest == [] || !IsCodeChar(rest[0])
    requires rest != [] && rest[0] == ':' ==> t != c
    ensures ReplaceAll(":" + t + rest, Shortcode(c), rep) == ":" + t + ReplaceAll(rest, Shortcode(c), rep)
  {
    var s := ":" + t + rest;
    var pat := Shortcode(c);
    calc {
      ReplaceAll(s, pat, rep);
      { ColonRunIsNotShortcode(t, rest, c); SkipColon(s, pat, rep); }
      [s[0]] + ReplaceAll(s[1..], pat, rep);
      { assert s[1..] == t + rest; }
      ":" + ReplaceAll(t + rest, pat, rep);
      { SkipColonFree(t, rest, pat, rep); }
      ":" + (t + ReplaceAll(rest, pat, rep));
      ":" + t + ReplaceAll(rest, pat, rep);
    }
  }

  /** A code that is still waiting, and is not the one being replaced, is skipped. */
  lemma PassSkipsOtherCode(w: string, t: string, rest: string, c: string, rep: string)
    requires IsCode(w) && IsCode(c) && w != c && ':' !in t
    requires rest == [] || !IsCodeChar(rest[0])
    requires rest != [] && rest[0] == ':' ==> t != c
    ensures ReplaceAll(Shortcode(w) + t + rest, Shortcode(c), rep)
      == Shortcode(w) + t + ReplaceAll(rest, Shortcode(c), rep)
  {
    var tail := ":" + t + rest;
    var r := ReplaceAll(rest, Shortcode(c), rep);
    calc {
      ReplaceAll(Shortcode(w) + t + rest, Shortcode(c), rep);
      { assert Shortcode(w) + t + rest == ":" + w + tail; }
      ReplaceAll(":" + w + tail, Shortcode(c), rep);
      { assert ':' !in w by { assert forall i | 0 <= i < |w| :: IsCodeChar(w[i]); }
        ColonRunSkipped(w, tail, c, rep); }
      ":" + w + ReplaceAll(tail, Shortcode(c), rep);
      { ColonRunSkipped(t, rest, c, rep); }
      ":" + w + (":" + t + r);
      Shortcode(w) + t + r;
    }
  }

  /** One pass replaces exactly the cells holding its code. */
  lemma {:induction false} PassOverCells(m: map<string, string>, cells: seq<Cell>, done: set<string>, c: string)
    requires WellFormedTable(m) && Separated(m, cells) && c in m
    ensures ReplaceAll(CellsText(m, cells, done), Shortcode(c), m[c]) == CellsText(m, cells, done + {c})
    decreases |cells|
  {
    var pat := Shortcode(c);
    if cells == [] {
      assert ReplaceAll([], pat, m[c]) == [];
    } else {
      var w := cells[0].code;
      var t := cells[0].after;
      var rest := CellsText(m, cells[1..], done);
      var rest' := CellsText(m, cells[1..], done + {c});
      SeparatedTail(m, cells);
      PassOverCells(m, cells[1..], done, c);
      if w in done {
        var g := m[w] + t;
        SkipColonFree(g, rest, pat, m[c]);
      } else if w == c {
        ShortcodeMatches(c, t + rest, m[c]);
        SkipColonFree(t, rest, pat, m[c]);
        assert Shortcode(c) + t + rest == Shortcode(c) + (t + rest);
      } else {
        if rest != [] {
          CellsTextStart(m, cells[1..], done);
        }
        PassSkipsOtherCode(w, t, rest, c, m[c]);
      }
    }
  }

  function CodesOf(order: seq<string>): set<string> {
    set i | 0 <= i < |order| :: order[i]
  }

  /** The passes in `order` replace exactly the cells whose code is in `order`. */
  lemma {:induction false} PassesOverLayout(m: map<string, string>, order: seq<string>, lead: string, cells: seq<Cell>, done: set<string>)
    requires WellFormedTable(m) && Separated(m, cells) && ':' !in lead && InTable(m, order)
    ensures EmojiPasses(m, order, LayoutText(m, lead, cells, done)) == LayoutText(m, lead, cells, done + CodesOf(order))
    decreases |order|
  {
    if order == [] {
      assert done + CodesOf(order) == done;
    } else {
      var init := order[..|order| - 1];
      var c := order[|order| - 1];
      PassesOverLayout(m, init, lead, cells, done);
      SkipColonFree(lead, CellsText(m, cells, done + CodesOf(init)), Shortcode(c), m[c]);
      PassOverCells(m, cells, done + CodesOf(init), c);
      SkipColonFree(lead, CellsText(m, cells, done + CodesOf(init) + {c}), Shortcode(c), m[c]);
      assert CodesOf(order) == CodesOf(init) + {c} by {
        forall x | x in CodesOf(order) ensures x in CodesOf(init) + {c} {
          var i :| 0 <= i < |order| && order[i] == x;
          if i < |order| - 1 {
            assert init[i] == x;
          }
        }
      }
      assert done + CodesOf(init) + {c} == done + CodesOf(order);
    }
  }

  /**
   * Short codes separated by plain text are all replaced, whatever order the
   * `HashMap` yields its entries in.
   */
  lemma AllCodesReplaced(order: seq<string>, lead: string, cells: seq<Cell>)
    requires IsIterationOrder(EmojiMap(), order)
    requires Separated(EmojiMap(), cells) && ':' !in lead
    ensures EmojiPasses(EmojiMap(), order, LayoutText(EmojiMap(), lead, cells, {}))
      == LayoutText(EmojiMap(), lead, cells, EmojiMap().Keys)
  {
    EmojiMapWellFormed();
    AllCodesReplacedIn(EmojiMap(), order, lead, cells);
  }

  lemma AllCodesReplacedIn(m: map<string, string>, order: seq<string>, lead: string, cells: seq<Cell>)
    requires IsIterationOrder(m, order) && WellFormedTable(m)
    requires Separated(m, cells) && ':' !in lead
    ensures EmojiPasses(m, order, LayoutText(m, lead, cells, {})) == LayoutText(m, lead, cells, m.Keys)
  {
    PassesOverLayout(m, order, lead, cells, {});
    CoveringOrder(m, order);
    assert {} + CodesOf(order) == m.Keys;
  }

  /** Passes that each leave `s` alone leave it alone together. */
  lemma {:induction false} PassesKeep(m: map<string, string>, order: seq<string>, s: string)
    requires InTable(m, order)
    requires forall c | c in m :: ReplaceAll(s, Shortcode(c), m[c]) == s
    ensures EmojiPasses(m, order, s) == s
    decreases |order|
  {
    if order != [] {
      PassesKeep(m, order[..|order| - 1], s);
    }
  }

  /** `:w:` for a colon-free `w` that is not in the table survives every pass. */
  lemma {:induction false} UnknownCodeKeptIn(m: map<string, string>, order: seq<string>, lead: string, w: string, after: string)
    requires WellFormedTable(m) && InTable(m, order)
    requires w !in m && ':' !in lead && ':' !in w && ':' !in after
    ensures EmojiPasses(m, order, lead + Shortcode(w) + after) == lead + Shortcode(w) + after
  {
    var s := lead + Shortcode(w) + after;
    forall c | c in m ensures ReplaceAll(s, Shortcode(c), m[c]) == s {
      var pat := Shortcode(c);
      var tail := ":" + after;
      assert s == lead + (":" + w + tail);
      SkipColonFree(lead, ":" + w + tail, pat, m[c]);
      ColonRunSkipped(w, tail, c, m[c]);
      assert tail == ":" + after + [];
      ColonRunSkipped(after, [], c, m[c]);
      assert ReplaceAll([], pat, m[c]) == [];
    }
    PassesKeep(m, order, s);
  }

  /** A lone `:code:` of the table becomes its emoji, whatever the order. */
  lemma OneCodeReplacedIn(m: map<string, string>, order: seq<string>, lead: string, code: string, after: string)
    requires WellFormedTable(m) && InTable(m, order) && m.Keys <= CodesOf(order)
    requires code in m && ':' !in lead && ':' !in after
    ensures EmojiPasses(m, order, lead + Shortcode(code) + after) == lead + m[code] + after
  {
    var cells := [Cell(code, after)];
    assert Separated(m, cells);
    assert CellsText(m, cells[1..], {}) == [];
    assert CellsText(m, cells[1..], CodesOf(order)) == [];
    assert LayoutText(m, lead, cells, {}) == lead + Shortcode(code) + after;
    PassesOverLayout(m, order, lead, cells, {});
    assert {} + CodesOf(order) == CodesOf(order);
  }

  /** A code of the table is a word of `[a-z_]` and its emoji is colon-free. */
  lemma KnownCode(w: string)
    requires w in EmojiMap()
    ensures IsCode(w) && IsGlyph(EmojiMap()[w])
  {
    EmojiMapWellFormed();
  }

  lemma OneCodeIn(m: map<string, string>, order: seq<string>, lead: string, w: string, after: string)
    requires IsIterationOrder(m, order) && WellFormedTable(m) && w in m
    requires ':' !in lead && ':' !in after
    ensures EmojiPasses(m, order, lead + Shortcode(w) + after) == lead + m[w] + after
  {
    CoveringOrder(m, order);
    OneCodeReplacedIn(m, order, lead, w, after);
  }

  /** Each `:code:` whose code is in the table becomes its emoji, whatever the order. */
  lemma KnownCodeReplaced(order: seq<string>, lead: string, w: string, after: string)
    requires IsIterationOrder(EmojiMap(), order) && w in EmojiMap()
    requires ':' !in lead && ':' !in after
    ensures EmojiPasses(EmojiMap(), order, lead + Shortcode(w) + after) == lead + EmojiMap()[w] + after
  {
    EmojiMapWellFormed();
    OneCodeIn(EmojiMap(), order, lead, w, after);
  }

  /** A text holding a single colon survives every pass: a short code needs two. */
  lemma SingleColonKeptIn(m: map<string, string>, order: seq<string>, lead: string, tail: string)
    requires WellFormedTable(m) && InTable(m, order) && ':' !in lead && ':' !in tail
    ensures EmojiPasses(m, order, lead + ":" + tail) == lead + ":" + tail
  {
    var s := lead + ":" + tail;
    forall c | c in m ensures ReplaceAll(s, Shortcode(c), m[c]) == s {
      assert s == lead + (":" + tail + []);
      SkipColonFree(lead, ":" + tail + [], Shortcode(c), m[c]);
      ColonRunSkipped(tail, [], c, m[c]);
      assert ReplaceAll([], Shortcode(c), m[c]) == [];
    }
    PassesKeep(m, order, s);
  }

  lemma SingleColonKept(order: seq<string>, lead: string, tail: string)
    requires InTable(EmojiMap(), order) && ':' !in lead && ':' !in tail
    ensures EmojiPasses(EmojiMap(), order, lead + ":" + tail) == lead + ":" + tail
  {
    EmojiMapWellFormed();
    SingleColonKeptIn(EmojiMap(), order, lead, tail);
  }

  /** A `:word:` whose word is not in the table is left as it is. */
  lemma UnknownCodeKept(order: seq<string>, lead: string, w: string, after: string)
    requires InTable(EmojiMap(), order) && w !in EmojiMap()
    requires ':' !in lead && ':' !in w && ':' !in after
    ensures EmojiPasses(EmojiMap(), order, lead + Shortcode(w) + after) == lead + Shortcode(w) + after
  {
    EmojiMapWellFormed();
    UnknownCodeKeptIn(EmojiMap(), order, lead, w, after);
  }

  // ---------------------------------------------------------------------------
  // Concrete behaviour

  lemma SmileLookup()
    ensures "smile" in EmojiMap() && EmojiMap()["smile"] == "\U{1F604}"
  {
    assert "smile" in Group1() && Group1()["smile"] == "\U{1F604}";
    assert "smile" !in Group2() && "smile" !in Group3() && "smile" !in Group4();
    assert "smile" !in Group5() && "smile" !in Group6() && "smile" !in Group7();
    assert "smile" !in Group8() && "smile" !in Group9() && "smile" !in Group10();
    assert "smile" !in Group11() && "smile" !in Group12() && "smile" !in Group13();
    assert "smile" !in Group14();
  }

  lemma HeartLookup()
    ensures "heart" in EmojiMap() && EmojiMap()["heart"] == "\U{2764}\U{FE0F}"
  {
    assert "heart" in Group2() && Group2()["heart"] == "\U{2764}\U{FE0F}";
    assert "heart" !in Group3() && "heart" !in Group4() && "heart" !in Group5();
    assert "heart" !in Group6() && "heart" !in Group7() && "heart" !in Group8();
    assert "heart" !in Group9() && "heart" !in Group10() && "heart" !in Group11();
    assert "heart" !in Group12() && "heart" !in Group13() && "heart" !in Group14();
  }

  lemma SmileHeartLookup()
    ensures "smile" in EmojiMap() && EmojiMap()["smile"] == "\U{1F604}"
    ensures "heart" in EmojiMap() && EmojiMap()["heart"] == "\U{2764}\U{FE0F}"
  {
    SmileLookup();
    HeartLookup();
  }

  function SmileHeartCells(after: string): seq<Cell> {
    [Cell("smile", " world "), Cell("heart", after)]
  }

  lemma SmileHeartSeparated(m: map<string, string>, after: string)
    requires WellFormedTable(m) && "smile" in m && "heart" in m && ':' !in after
    ensures Separated(m, SmileHeartCells(after))
  {
    assert " world " !in m by {
      assert !IsCodeChar(" world "[0]);
    }
  }

  lemma SmileHeartBefore(m: map<string, string>, before: string, after: string)
    ensures LayoutText(m, before + "Hello ", SmileHeartCells(after), {})
      == before + "Hello :smile: world :heart:" + after
  {
    var cells := SmileHeartCells(after);
    calc {
      LayoutText(m, before + "Hello ", cells, {});
      { TwoCells(m, before + "Hello ", cells, {}); }
      before + "Hello " + CellText(m, cells[0], {}) + CellText(m, cells[1], {});
      before + "Hello " + (":smile:" + " world ") + (":heart:" + after);
      { SmileHeartText(); }
      before + "Hello :smile: world :heart:" + after;
    }
  }

  lemma SmileHeartText()
    ensures "Hello :smile: world :heart:" == "Hello " + ":smile:" + " world " + ":heart:"
  {
  }

  lemma SmileHeartAfter(m: map<string, string>, before: string, after: string, done: set<string>)
    requires "smile" in m && "heart" in m && "smile" in done && "heart" in done
    ensures LayoutText(m, before + "Hello ", SmileHeartCells(after), done)
      == before + "Hello " + m["smile"] + " world " + m["heart"] + after
  {
    var cells := SmileHeartCells(after);
    TwoCells(m, before + "Hello ", cells, done);
    assert CellText(m, cells[0], done) == m["smile"] + " world ";
    assert CellText(m, cells[1], done) == m["heart"] + after;
  }

  lemma SmileHeartIn(m: map<string, string>, order: seq<string>, before: string, after: string)
    requires WellFormedTable(m) && InTable(m, order) && m.Keys <= CodesOf(order)
    requires "smile" in m && "heart" in m && ':' !in before && ':' !in after
    ensures EmojiPasses(m, order, before + "Hello :smile: world :heart:" + after)
      == before + "Hello " + m["smile"] + " world " + m["heart"] + after
  {
    SmileHeartSeparated(m, after);
    SmileHeartBefore(m, before, after);
    assert ':' !in before + "Hello ";
    PassesOverLayout(m, order, before + "Hello ", SmileHeartCells(after), {});
    assert {} + CodesOf(order) == CodesOf(order);
    SmileHeartAfter(m, before, after, CodesOf(order));
  }

  lemma TwoCells(m: map<string, string>, lead: string, cells: seq<Cell>, done: set<string>)
    requires |cells| == 2
    ensures LayoutText(m, lead, cells, done) == lead + CellText(m, cells[0], done) + CellText(m, cells[1], done)
  {
    assert CellsText(m, cells[1..][1..], done) == [];
    assert CellsText(m, cells[1..], done) == CellText(m, cells[1], done);
  }

  lemma CoveringOrder(m: map<string, string>, order: seq<string>)
    requires IsIterationOrder(m, order)
    ensures m.Keys <= CodesOf(order)
  {
    forall c | c in m ensures c in CodesOf(order) {
      var i :| 0 <= i < |order| && order[i] == c;
    }
  }

  /**
   * The emoji test of src/markdown.rs: in "Hello :smile: world :heart:",
   * inside any colon-free markup, both codes become their emoji whatever the
   * iteration order.
   */
  lemma SmileHeartSample(order: seq<string>, before: string, after: string)
    requires IsIterationOrder(EmojiMap(), order) && ':' !in before && ':' !in after
    ensures EmojiPasses(EmojiMap(), order, before + "Hello :smile: world :heart:" + after)
      == before + "Hello " + "\U{1F604}" + " world " + "\U{2764}\U{FE0F}" + after
  {
    SmileHeartLookup();
    EmojiMapWellFormed();
    CoveringOrder(EmojiMap(), order);
    SmileHeartIn(EmojiMap(), order, before, after);
  }

  lemma XLookup()
    ensures "x" in EmojiMap() && EmojiMap()["x"] == "\U{274C}"
  {
    assert "x" in Group8() && Group8()["x"] == "\U{274C}";
    assert "x" !in Group9() && "x" !in Group10() && "x" !in Group11();
    assert "x" !in Group12() && "x" !in Group13() && "x" !in Group14();
  }

  lemma OLookup()
    ensures "o" in EmojiMap() && EmojiMap()["o"] == "\U{2B55}"
  {
    assert "o" in Group8() && Group8()["o"] == "\U{2B55}";
    assert "o" !in Group9() && "o" !in Group10() && "o" !in Group11();
    assert "o" !in Group12() && "o" !in Group13() && "o" !in Group14();
  }

  lemma XoLookup(m: map<string, string>)
    requires m == EmojiMap()
    ensures "x" in m && m["x"] == "\U{274C}" && "o" in m && m["o"] == "\U{2B55}"
  {
    XLookup();
    OLookup();
  }

  /** Running the passes of `a` and then those of `b`. */
  lemma {:induction false} PassesAppend(m: map<string, string>, a: seq<string>, b: seq<string>, s: string)
    requires InTable(m, a) && InTable(m, b)
    ensures InTable(m, a + b)
    ensures EmojiPasses(m, a + b, s) == EmojiPasses(m, b, EmojiPasses(m, a, s))
    decreases |b|
  {
    if b == [] {
      assert a + b == a;
    } else {
      var ab := a + b;
      assert ab[..|ab| - 1] == a + b[..|b| - 1];
      assert ab[|ab| - 1] == b[|b| - 1];
      PassesAppend(m, a, b[..|b| - 1], s);
    }
  }

  /** The three texts `:x:o:` can become. */
  predicate IsXoText(m: map<string, string>, s: string)
    requires "x" in m && "o" in m
  {
    s == ":x:o:" || s == m["x"] + "o:" || s == ":x" + m["o"]
  }

  /** A pass for any other code leaves each of those texts alone. */
  lemma OtherPassKeepsXo(m: map<string, string>, s: string, c: string)
    requires WellFormedTable(m) && "x" in m && "o" in m && c in m && c != "x" && c != "o"
    requires IsXoText(m, s)
    ensures ReplaceAll(s, Shortcode(c), m[c]) == s
  {
    var pat := Shortcode(c);
    assert ReplaceAll(":", pat, m[c]) == ":";
    if s == ":x:o:" {
      assert s == ":" + "x" + ":o:";
      ColonRunSkipped("x", ":o:", c, m[c]);
      assert ":o:" == ":" + "o" + ":";
      ColonRunSkipped("o", ":", c, m[c]);
    } else if s == m["x"] + "o:" {
      assert s == (m["x"] + "o") + ":";
      SkipColonFree(m["x"] + "o", ":", pat, m[c]);
    } else {
      assert s == ":" + "x" + m["o"];
      ColonRunSkipped("x", m["o"], c, m[c]);
      SkipColonFree(m["o"], [], pat, m[c]);
      assert m["o"] + [] == m["o"];
    }
  }

  lemma {:induction false} OtherPassesKeepXo(m: map<string, string>, order: seq<string>, s: string)
    requires WellFormedTable(m) && "x" in m && "o" in m && InTable(m, order)
    requires "x" !in order && "o" !in order
    requires IsXoText(m, s)
    ensures EmojiPasses(m, order, s) == s
    decreases |order|
  {
    if order != [] {
      var init := order[..|order| - 1];
      assert "x" !in init && "o" !in init;
      OtherPassesKeepXo(m, init, s);
      OtherPassKeepsXo(m, s, order[|order| - 1]);
    }
  }

  /** The pass for `x`: `:x:o:` loses its first code; the other two texts stay. */
  lemma XPassOnXo(m: map<string, string>, s: string)
    requires WellFormedTable(m) && "x" in m && "o" in m && IsXoText(m, s)
    ensures ReplaceAll(s, Shortcode("x"), m["x"]) == if s == ":x:o:" then m["x"] + "o:" else s
  {
    var pat := Shortcode("x");
    assert ReplaceAll(":", pat, m["x"]) == ":";
    if s == ":x:o:" {
      ShortcodeMatches("x", "o:", m["x"]);
      assert "o:" == "o" + ":";
      SkipColonFree("o", ":", pat, m["x"]);
    } else if s == m["x"] + "o:" {
      assert s == (m["x"] + "o") + ":";
      SkipColonFree(m["x"] + "o", ":", pat, m["x"]);
    } else {
      assert s == ":" + "x" + m["o"];
      ColonRunSkipped("x", m["o"], "x", m["x"]);
      SkipColonFree(m["o"], [], pat, m["x"]);
      assert m["o"] + [] == m["o"];
    }
  }

  /** The pass for `o`: `:x:o:` loses its second code; the other two texts stay. */
  lemma OPassOnXo(m: map<string, string>, s: string)
    requires WellFormedTable(m) && "x" in m && "o" in m && IsXoText(m, s)
    ensures ReplaceAll(s, Shortcode("o"), m["o"]) == if s == ":x:o:" then ":x" + m["o"] else s
  {
    var pat := Shortcode("o");
    assert ReplaceAll(":", pat, m["o"]) == ":";
    if s == ":x:o:" {
      assert s == ":" + "x" + Shortcode("o");
      ColonRunSkipped("x", Shortcode("o"), "o", m["o"]);
      ShortcodeMatches("o", [], m["o"]);
      assert Shortcode("o") + [] == Shortcode("o");
      assert ReplaceAll([], pat, m["o"]) == [];
    } else if s == m["x"] + "o:" {
      assert s == (m["x"] + "o") + ":";
      SkipColonFree(m["x"] + "o", ":", pat, m["o"]);
    } else {
      assert s == ":" + "x" + m["o"];
      ColonRunSkipped("x", m["o"], "o", m["o"]);
      SkipColonFree(m["o"], [], pat, m["o"]);
      assert m["o"] + [] == m["o"];
    }
  }

  lemma SinglePass(m: map<string, string>, c: string, s: string)
    requires c in m
    ensures InTable(m, [c]) && EmojiPasses(m, [c], s) == ReplaceAll(s, Shortcode(c), m[c])
  {
    assert [c][..0] == [];
  }

  /** Passes for codes other than `x` and `o`, appended after `pre`, change nothing. */
  lemma AppendOtherPasses(m: map<string, string>, pre: seq<string>, seg: seq<string>, s0: string)
    requires WellFormedTable(m) && "x" in m && "o" in m && InTable(m, pre) && InTable(m, seg)
    requires "x" !in seg && "o" !in seg && IsXoText(m, EmojiPasses(m, pre, s0))
    ensures InTable(m, pre + seg) && EmojiPasses(m, pre + seg, s0) == EmojiPasses(m, pre, s0)
  {
    PassesAppend(m, pre, seg, s0);
    OtherPassesKeepXo(m, seg, EmojiPasses(m, pre, s0));
  }

  /** The pass for `code` (`x` or `o`), appended after `pre`. */
  lemma AppendXoPass(m: map<string, string>, pre: seq<string>, code: string, s0: string)
    requires WellFormedTable(m) && "x" in m && "o" in m && InTable(m, pre) && (code == "x" || code == "o")
    requires IsXoText(m, EmojiPasses(m, pre, s0))
    ensures InTable(m, pre + [code])
    ensures var s := EmojiPasses(m, pre, s0);
      EmojiPasses(m, pre + [code], s0)
        == if s != ":x:o:" then s else if code == "x" then m["x"] + "o:" else ":x" + m["o"]
  {
    var s := EmojiPasses(m, pre, s0);
    PassesAppend(m, pre, [code], s0);
    SinglePass(m, code, s);
    if code == "x" { XPassOnXo(m, s); } else { OPassOnXo(m, s); }
  }

  lemma SplitAround(order: seq<string>, lo: nat, hi: nat)
    requires Distinct(order) && lo < hi < |order|
    ensures order == order[..lo] + [order[lo]] + order[lo + 1..hi] + [order[hi]] + order[hi + 1..]
    ensures order[lo] !in order[..lo] && order[hi] !in order[..lo]
    ensures order[lo] !in order[lo + 1..hi] && order[hi] !in order[lo + 1..hi]
    ensures order[lo] !in order[hi + 1..] && order[hi] !in order[hi + 1..]
  {
    var a, b, c := order[..lo], order[lo + 1..hi], order[hi + 1..];
    forall k | 0 <= k < |a| ensures a[k] != order[lo] && a[k] != order[hi] {
      assert a[k] == order[k];
    }
    forall k | 0 <= k < |b| ensures b[k] != order[lo] && b[k] != order[hi] {
      assert b[k] == order[lo + 1 + k];
    }
    forall k | 0 <= k < |c| ensures c[k] != order[lo] && c[k] != order[hi] {
      assert c[k] == order[hi + 1 + k];
    }
  }

  lemma InTableParts(m: map<string, string>, order: seq<string>, lo: nat, hi: nat)
    requires InTable(m, order) && lo < hi < |order|
    ensures InTable(m, order[..lo]) && InTable(m, order[lo + 1..hi]) && InTable(m, order[hi + 1..])
  {
    var a, b, c := order[..lo], order[lo + 1..hi], order[hi + 1..];
    forall k | 0 <= k < |a| ensures a[k] in m {
      assert a[k] == order[k];
    }
    forall k | 0 <= k < |b| ensures b[k] in m {
      assert b[k] == order[lo + 1 + k];
    }
    forall k | 0 <= k < |c| ensures c[k] in m {
      assert c[k] == order[hi + 1 + k];
    }
  }

  /** The passes over an order split around its `x` and `o` entries. */
  lemma XoThroughParts(m: map<string, string>, a: seq<string>, first: string, b: seq<string>, second: string, c: seq<string>)
    requires WellFormedTable(m) && "x" in m && "o" in m
    requires InTable(m, a) && InTable(m, b) && InTable(m, c)
    requires "x" !in a && "o" !in a && "x" !in b && "o" !in b && "x" !in c && "o" !in c
    requires (first == "x" && second == "o") || (first == "o" && second == "x")
    ensures InTable(m, a + [first] + b + [second] + c)
    ensures EmojiPasses(m, a + [first] + b + [second] + c, ":x:o:")
      == if first == "x" then m["x"] + "o:" else ":x" + m["o"]
  {
    var s0 := ":x:o:";
    var r := if first == "x" then m["x"] + "o:" else ":x" + m["o"];
    var p1 := a + [first];
    var p2 := p1 + b;
    var p3 := p2 + [second];
    assert EmojiPasses(m, p1, s0) == r by {
      assert EmojiPasses(m, [], s0) == s0;
      AppendOtherPasses(m, [], a, s0);
      assert [] + a == a;
      AppendXoPass(m, a, first, s0);
    }
    assert EmojiPasses(m, p3, s0) == r by {
      AppendOtherPasses(m, p1, b, s0);
      XoResultsDiffer(m);
      AppendXoPass(m, p2, second, s0);
    }
    AppendOtherPasses(m, p3, c, s0);
  }

  /** Neither of the rewritten texts is `:x:o:` again. */
  lemma XoResultsDiffer(m: map<string, string>)
    requires WellFormedTable(m) && "x" in m && "o" in m
    ensures m["x"] + "o:" != ":x:o:" && ":x" + m["o"] != ":x:o:"
  {
    assert IsGlyph(m["x"]) && IsGlyph(m["o"]);
    assert m["x"][0] in m["x"] && m["o"][0] in m["o"];
    assert (m["x"] + "o:")[0] == m["x"][0];
    assert (":x" + m["o"])[2] == m["o"][0];
  }

  lemma {:induction false} OverlappingCodesIn(m: map<string, string>, order: seq<string>, i: nat, j: nat)
    requires WellFormedTable(m) && "x" in m && "o" in m && InTable(m, order) && Distinct(order)
    requires i < |order| && j < |order| && order[i] == "x" && order[j] == "o"
    ensures i < j ==> EmojiPasses(m, order, ":x:o:") == m["x"] + "o:"
    ensures j < i ==> EmojiPasses(m, order, ":x:o:") == ":x" + m["o"]
  {
    var lo, hi := if i < j then i else j, if i < j then j else i;
    SplitAround(order, lo, hi);
    InTableParts(m, order, lo, hi);
    XoThroughParts(m, order[..lo], order[lo], order[lo + 1..hi], order[hi], order[hi + 1..]);
  }

  /**
   * `:x:o:` overlaps two short codes, and whichever pass comes first wins:
   * the output depends on the `HashMap`'s iteration order.
   */
  lemma OverlappingCodesFollowOrder(order: seq<string>, i: nat, j: nat)
    requires IsIterationOrder(EmojiMap(), order)
    requires i < |order| && j < |order| && order[i] == "x" && order[j] == "o"
    ensures i < j ==> EmojiPasses(EmojiMap(), order, ":x:o:") == "\U{274C}o:"
    ensures j < i ==> EmojiPasses(EmojiMap(), order, ":x:o:") == ":x\U{2B55}"
  {
    var m := EmojiMap();
    XoLookup(m);
    EmojiMapWellFormed();
    OverlappingCodesIn(m, order, i, j);
    XoResults(m);
  }

  lemma XoResults(m: map<string, string>)
    requires "x" in m && m["x"] == "\U{274C}" && "o" in m && m["o"] == "\U{2B55}"
    ensures m["x"] + "o:" == "\U{274C}o:" && ":x" + m["o"] == ":x\U{2B55}"
  {
  }
}
