/**
  `replaceContent` of scripts/replace-colors.cjs: thirteen global,
  word-bounded replacements that move hard-coded Tailwind slate and white
  utilities onto the semantic colour tokens, run in source order.
 */
module ReplaceColors {

  import opened Chars
  import opened RegexReplace
  import opened RuleInteraction

  const BgSlate := Rule(WordDigits("bg-slate-"), "bg-surface")
  const DarkBgSlate := Rule(WordDigits("dark:bg-slate-"), "dark:bg-surface")
  const HoverBgSlate := Rule(WordDigits("hover:bg-slate-"), "hover:bg-surface")
  const DarkHoverBgSlate := Rule(WordDigits("dark:hover:bg-slate-"), "dark:hover:bg-surface")
  const TextSlate := Rule(WordDigits("text-slate-"), "text-muted")
  const DarkTextSlate := Rule(WordDigits("dark:text-slate-"), "dark:text-muted")
  const DarkTextWhite := Rule(WordLiteral("dark:text-white"), "dark:text-on-brand")
  const TextWhite := Rule(WordLiteral("text-white"), "text-on-brand")
  const BorderSlate := Rule(WordDigits("border-slate-"), "border-border")
  const DarkBorderSlate := Rule(WordDigits("dark:border-slate-"), "dark:border-border")
  const BgWhite := Rule(WordLiteral("bg-white"), "bg-surface")
  const DarkBgWhite := Rule(WordLiteral("dark:bg-white"), "dark:bg-surface")
  const HoverTextWhite := Rule(WordLiteral("hover:text-white"), "hover:text-on-brand")

  /** The replace lines in the order the script runs them. */
  const ColorRules: seq<Rule> := [
    BgSlate, DarkBgSlate, HoverBgSlate, DarkHoverBgSlate,
    TextSlate, DarkTextSlate,
    DarkTextWhite, TextWhite,
    BorderSlate, DarkBorderSlate,
    BgWhite, DarkBgWhite,
    HoverTextWhite
  ]

  /** The rules that can change anything. */
  const LiveRules: seq<Rule> := [BgSlate, TextSlate, DarkTextWhite, TextWhite, BorderSlate, BgWhite]

  function ReplaceContent(content: string): (out: string) {
    ReplaceAll(ColorRules, content)
  }

  // ---- The rules' strings, inspected once ----

  lemma BgSlateFacts()
    ensures Pullbackable(BgSlate.pattern, BgSlate.replacement) && EndsAlike(BgSlate)
  {
    var w := BgSlate.pattern.stem;
    assert forall k :: 0 <= k < |w| && w[k] == 'b' ==> k == 0;
    ClashAt(w[0..], BgSlate.replacement, 4);
    ShieldedByFirst(BgSlate.pattern, BgSlate.replacement);
  }

  lemma TextSlateFacts()
    ensures Pullbackable(TextSlate.pattern, TextSlate.replacement) && EndsAlike(TextSlate)
  {
    var w := TextSlate.pattern.stem;
    var repl := TextSlate.replacement;
    assert forall k :: 0 <= k < |w| && w[k] == 't' ==> k == 0 || k == 3 || k == 8;
    ClashAt(w[0..], repl, 5);
    ClashAt(w[3..], repl, 1);
    ClashAt(w[8..], repl, 2);
    ShieldedByFirst(TextSlate.pattern, repl);
  }

  lemma TextWhiteFacts()
    ensures Pullbackable(TextWhite.pattern, TextWhite.replacement) && EndsAlike(TextWhite)
  {
    var w := TextWhite.pattern.stem;
    var repl := TextWhite.replacement;
    assert forall k :: 0 <= k < |w| && w[k] == 't' ==> k == 0 || k == 3 || k == 8;
    forall k | 0 <= k < |w| && w[k] == repl[0]
      ensures ShieldedAt(TextWhite.pattern, repl, k)
    {
      TextWhiteShieldedAt(k);
    }
    ShieldedByFirst(TextWhite.pattern, repl);
  }

  /**
    Where `text-white` has a `t`, `text-on-brand` disagrees with it, or (at
    the final `te`) would put an `x` right after the stem, which kills `\b`.
   */
  lemma TextWhiteShieldedAt(k: nat)
    requires k == 0 || k == 3 || k == 8
    ensures k < |TextWhite.pattern.stem| && ShieldedAt(TextWhite.pattern, TextWhite.replacement, k)
  {
    var w := TextWhite.pattern.stem;
    var repl := TextWhite.replacement;
    if k == 0 {
      ClashAt(w[k..], repl, 5);
    } else if k == 3 {
      ClashAt(w[k..], repl, 1);
    } else {
      assert w[k..] == repl[..2];
    }
  }

  lemma BorderSlateFacts()
    ensures Pullbackable(BorderSlate.pattern, BorderSlate.replacement) && EndsAlike(BorderSlate)
  {
    var w := BorderSlate.pattern.stem;
    assert forall k :: 0 <= k < |w| && w[k] == 'b' ==> k == 0;
    ClashAt(w[0..], BorderSlate.replacement, 7);
    ShieldedByFirst(BorderSlate.pattern, BorderSlate.replacement);
  }

  lemma BgWhiteFacts()
    ensures Pullbackable(BgWhite.pattern, BgWhite.replacement) && EndsAlike(BgWhite)
  {
    var w := BgWhite.pattern.stem;
    assert forall k :: 0 <= k < |w| && w[k] == 'b' ==> k == 0;
    ClashAt(w[0..], BgWhite.replacement, 3);
    ShieldedByFirst(BgWhite.pattern, BgWhite.replacement);
  }

  /** A prefix none of whose characters begins the replacement. */
  lemma ForeignPrefix(P: string, r: Rule)
    requires r.replacement != []
    requires forall k :: 0 <= k < |P| ==> P[k] != r.replacement[0]
    ensures SuffixesClash(P, r.replacement)
  {
    SuffixesClashByFirst(P, r.replacement);
  }

  /**
    A prefix whose first character occurs in the replacement only right
    after a word character: a bounded prefixed pattern cannot start there.
   */
  lemma PrefixedShut(P: string, r: Rule)
    requires P != [] && r.pattern.Bounded()
    requires IsWord(P[0])
    requires forall k :: 0 <= k < |r.replacement| && r.replacement[k] == P[0] ==> 0 < k && IsWord(r.replacement[k - 1])
    ensures forall k :: 0 <= k < |r.replacement| ==> BlockedInside(Prefixed(P, r.pattern), P, r.replacement, k)
  {
    var q := Prefixed(P, r.pattern);
    assert q.stem[0] == P[0];
    ShutByFirst(q, r.replacement);
  }

  lemma DeadDarkBgSlate()
    ensures DeadCondition("dark:", BgSlate) && Prefixed("dark:", BgSlate.pattern) == DarkBgSlate.pattern
  {
    BgSlateFacts();
    ForeignPrefix("dark:", BgSlate);
    PrefixedShut("dark:", BgSlate);
  }

  lemma DeadHoverBgSlate()
    ensures DeadCondition("hover:", BgSlate) && Prefixed("hover:", BgSlate.pattern) == HoverBgSlate.pattern
  {
    BgSlateFacts();
    ForeignPrefix("hover:", BgSlate);
    PrefixedShut("hover:", BgSlate);
  }

  lemma DeadDarkHoverBgSlate()
    ensures DeadCondition("dark:hover:", BgSlate)
    ensures Prefixed("dark:hover:", BgSlate.pattern) == DarkHoverBgSlate.pattern
  {
    BgSlateFacts();
    ForeignPrefix("dark:hover:", BgSlate);
    PrefixedShut("dark:hover:", BgSlate);
  }

  lemma DeadDarkTextSlate()
    ensures DeadCondition("dark:", TextSlate) && Prefixed("dark:", TextSlate.pattern) == DarkTextSlate.pattern
  {
    TextSlateFacts();
    ForeignPrefix("dark:", TextSlate);
    PrefixedShut("dark:", TextSlate);
  }

  lemma DeadHoverTextWhite()
    ensures DeadCondition("hover:", TextWhite) && Prefixed("hover:", TextWhite.pattern) == HoverTextWhite.pattern
  {
    TextWhiteFacts();
    ForeignPrefix("hover:", TextWhite);
    PrefixedShut("hover:", TextWhite);
  }

  lemma DeadDarkBorderSlate()
    ensures DeadCondition("dark:", BorderSlate) && Prefixed("dark:", BorderSlate.pattern) == DarkBorderSlate.pattern
  {
    BorderSlateFacts();
    ForeignPrefix("dark:", BorderSlate);
    PrefixedShut("dark:", BorderSlate);
  }

  lemma DeadDarkBgWhite()
    ensures DeadCondition("dark:", BgWhite) && Prefixed("dark:", BgWhite.pattern) == DarkBgWhite.pattern
  {
    BgWhiteFacts();
    ForeignPrefix("dark:", BgWhite);
    PrefixedShut("dark:", BgWhite);
  }

  /** `hover:text-white` holds no character that starts the border replacement, and the reverse. */
  lemma HoverTextWhiteAfterBorder()
    ensures NoNewCondition(HoverTextWhite.pattern, BorderSlate)
  {
    var q := HoverTextWhite.pattern;
    var repl := BorderSlate.replacement;
    assert forall k :: 0 <= k < |q.stem| ==> q.stem[k] != repl[0];
    assert forall k :: 0 <= k < |repl| ==> repl[k] != q.stem[0];
    ShieldedByFirst(q, repl);
    ShutByFirst(q, repl);
    BorderSlateFacts();
  }

  /** `hover:text-white` holds no character that starts the bg-white replacement, and the reverse. */
  lemma HoverTextWhiteAfterBgWhite()
    ensures NoNewCondition(HoverTextWhite.pattern, BgWhite)
  {
    var q := HoverTextWhite.pattern;
    var repl := BgWhite.replacement;
    assert forall k :: 0 <= k < |q.stem| ==> q.stem[k] != repl[0];
    assert forall k :: 0 <= k < |repl| ==> repl[k] != q.stem[0];
    ShieldedByFirst(q, repl);
    ShutByFirst(q, repl);
    BgWhiteFacts();
  }

  /** The script's thirteen lines, one after the other. */
  lemma ColorRulesInOrder(content: string)
    ensures ReplaceContent(content)
         == Replace(HoverTextWhite, Replace(DarkBgWhite, Replace(BgWhite,
            Replace(DarkBorderSlate, Replace(BorderSlate,
            Replace(TextWhite, Replace(DarkTextWhite,
            Replace(DarkTextSlate, Replace(TextSlate,
            Replace(DarkHoverBgSlate, Replace(HoverBgSlate, Replace(DarkBgSlate, Replace(BgSlate, content)))))))))))))
  {
    var x1 := Replace(BgSlate, content);
    var x2 := Replace(DarkBgSlate, x1);
    var x3 := Replace(HoverBgSlate, x2);
    var x4 := Replace(DarkHoverBgSlate, x3);
    var x5 := Replace(TextSlate, x4);
    var x6 := Replace(DarkTextSlate, x5);
    var x7 := Replace(DarkTextWhite, x6);
    var x8 := Replace(TextWhite, x7);
    var x9 := Replace(BorderSlate, x8);
    var x10 := Replace(DarkBorderSlate, x9);
    var x11 := Replace(BgWhite, x10);
    var x12 := Replace(DarkBgWhite, x11);
    var x13 := Replace(HoverTextWhite, x12);
    assert ColorRules[0..] == ColorRules;
    ReplaceAllFrom(ColorRules, 0, content);
    ReplaceAllFrom(ColorRules, 1, x1);
    ReplaceAllFrom(ColorRules, 2, x2);
    ReplaceAllFrom(ColorRules, 3, x3);
    ReplaceAllFrom(ColorRules, 4, x4);
    ReplaceAllFrom(ColorRules, 5, x5);
    ReplaceAllFrom(ColorRules, 6, x6);
    ReplaceAllFrom(ColorRules, 7, x7);
    ReplaceAllFrom(ColorRules, 8, x8);
    ReplaceAllFrom(ColorRules, 9, x9);
    ReplaceAllFrom(ColorRules, 10, x10);
    ReplaceAllFrom(ColorRules, 11, x11);
    ReplaceAllFrom(ColorRules, 12, x12);
    assert ColorRules[13..] == [];
  }

  /** The six live lines, one after the other. */
  lemma LiveRulesInOrder(content: string)
    ensures ReplaceAll(LiveRules, content)
         == Replace(BgWhite, Replace(BorderSlate, Replace(TextWhite, Replace(DarkTextWhite,
            Replace(TextSlate, Replace(BgSlate, content))))))
  {
    var x1 := Replace(BgSlate, content);
    var x2 := Replace(TextSlate, x1);
    var x3 := Replace(DarkTextWhite, x2);
    var x4 := Replace(TextWhite, x3);
    var x5 := Replace(BorderSlate, x4);
    assert LiveRules[0..] == LiveRules;
    ReplaceAllFrom(LiveRules, 0, content);
    ReplaceAllFrom(LiveRules, 1, x1);
    ReplaceAllFrom(LiveRules, 2, x2);
    ReplaceAllFrom(LiveRules, 3, x3);
    ReplaceAllFrom(LiveRules, 4, x4);
    ReplaceAllFrom(LiveRules, 5, x5);
    assert LiveRules[6..] == [];
  }

  /** After line 25, the lines for `dark:bg-slate-N`, `hover:bg-slate-N` and `dark:hover:bg-slate-N` find nothing. */
  lemma BgSlateShadowsPrefixed(x: string)
    ensures var y := Replace(BgSlate, x);
      && Replace(DarkBgSlate, y) == y
      && Replace(HoverBgSlate, y) == y
      && Replace(DarkHoverBgSlate, y) == y
  {
    var y := Replace(BgSlate, x);
    DeadDarkBgSlate();
    Dead("dark:", BgSlate, false, x);
    Idle(DarkBgSlate, y);
    DeadHoverBgSlate();
    Dead("hover:", BgSlate, false, x);
    Idle(HoverBgSlate, y);
    DeadDarkHoverBgSlate();
    Dead("dark:hover:", BgSlate, false, x);
    Idle(DarkHoverBgSlate, y);
  }

  /** After line 31, the line for `dark:text-slate-N` finds nothing. */
  lemma TextSlateShadowsPrefixed(x: string)
    ensures var y := Replace(TextSlate, x); Replace(DarkTextSlate, y) == y
  {
    DeadDarkTextSlate();
    Dead("dark:", TextSlate, false, x);
    Idle(DarkTextSlate, Replace(TextSlate, x));
  }

  /** After line 39, the line for `dark:border-slate-N` finds nothing. */
  lemma BorderSlateShadowsPrefixed(x: string)
    ensures var y := Replace(BorderSlate, x); Replace(DarkBorderSlate, y) == y
  {
    DeadDarkBorderSlate();
    Dead("dark:", BorderSlate, false, x);
    Idle(DarkBorderSlate, Replace(BorderSlate, x));
  }

  /** After line 43, the line for `dark:bg-white` finds nothing. */
  lemma BgWhiteShadowsPrefixed(x: string)
    ensures var y := Replace(BgWhite, x); Replace(DarkBgWhite, y) == y
  {
    DeadDarkBgWhite();
    Dead("dark:", BgWhite, false, x);
    Idle(DarkBgWhite, Replace(BgWhite, x));
  }

  /**
    After line 36, `hover:text-white` is gone, and the border and bg-white
    lines in between cannot bring it back; so line 47 finds nothing.
   */
  lemma TextWhiteShadowsPrefixed(x: string)
    ensures var y := Replace(BgWhite, Replace(BorderSlate, Replace(TextWhite, x)));
      Replace(HoverTextWhite, y) == y
  {
    var y1 := Replace(TextWhite, x);
    var y2 := Replace(BorderSlate, y1);
    var y3 := Replace(BgWhite, y2);
    DeadHoverTextWhite();
    Dead("hover:", TextWhite, false, x);
    HoverTextWhiteAfterBorder();
    NoNew(HoverTextWhite.pattern, BorderSlate, false, y1);
    HoverTextWhiteAfterBgWhite();
    NoNew(HoverTextWhite.pattern, BgWhite, false, y2);
    Idle(HoverTextWhite, y3);
  }

  /**
    The seven prefixed lines never change anything, so the script is the
    six live lines alone.
   */
  lemma LiveRulesSuffice(content: string)
    ensures ReplaceContent(content) == ReplaceAll(LiveRules, content)
  {
    ColorRulesInOrder(content);
    LiveRulesInOrder(content);
    var x1 := Replace(BgSlate, content);
    BgSlateShadowsPrefixed(content);
    var x2 := Replace(TextSlate, x1);
    TextSlateShadowsPrefixed(x1);
    var x3 := Replace(DarkTextWhite, x2);
    var x5 := Replace(BorderSlate, Replace(TextWhite, x3));
    BorderSlateShadowsPrefixed(Replace(TextWhite, x3));
    BgWhiteShadowsPrefixed(x5);
    TextWhiteShadowsPrefixed(x3);
  }

  /** Line 25 on `bg-slate-N` followed by a separator and `text-white`. */
  lemma ExampleBgSlateStep(d: string, v: string)
    requires Digits(d) && v != [] && !IsWord(v[0]) && 'g' !in v
    ensures Replace(BgSlate, "bg-slate-" + d + v) == "bg-surface" + v
  {
    ReplaceDigitsAtStart(BgSlate, d, v);
    AbsentCharNoMatch(BgSlate.pattern, true, v, 'g');
    ScanWithoutMatch(BgSlate, true, v);
  }

  /** Line 35 on `bg-surface`, a separator and `text-white`. */
  lemma ExampleTextWhiteStep(c: char)
    requires !IsWord(c)
    ensures Replace(TextWhite, "bg-surface" + ([c] + "text-white")) == "bg-surface" + ([c] + "text-on-brand")
  {
    var u := "bg-surface" + [c];
    forall j | 0 <= j < |u|
      ensures !MatchesAt(TextWhite.pattern, false, u + TextWhite.pattern.stem, j)
    {
      SurfaceNoTextWhite(c, j);
    }
    ReplaceWordAtEnd(TextWhite, u);
    SurfaceRegroup(c);
  }

  /** `text-white` fits nowhere inside `bg-surface` and the separator. */
  lemma SurfaceNoTextWhite(c: char, j: nat)
    requires !IsWord(c) && j < 11
    ensures !MatchesAt(TextWhite.pattern, false, "bg-surface" + [c] + TextWhite.pattern.stem, j)
  {
    NoStemHere(TextWhite.pattern, false, "bg-surface" + [c] + TextWhite.pattern.stem, j, 0);
  }

  lemma SurfaceRegroup(c: char)
    ensures "bg-surface" + [c] + TextWhite.pattern.stem == "bg-surface" + ([c] + "text-white")
    ensures "bg-surface" + [c] + TextWhite.replacement == "bg-surface" + ([c] + "text-on-brand")
  {
  }

  /** Neither line 31 nor line 32 fires on a text without an `l` or a `k`. */
  lemma IdleWithoutLK(x: string)
    requires 'l' !in x && 'k' !in x
    ensures Replace(TextSlate, x) == x && Replace(DarkTextWhite, x) == x
  {
    AbsentCharNoMatch(TextSlate.pattern, false, x, 'l');
    Idle(TextSlate, x);
    AbsentCharNoMatch(DarkTextWhite.pattern, false, x, 'k');
    Idle(DarkTextWhite, x);
  }

  /** Neither line 39 nor line 43 fires on a text without an `l` or a `w`. */
  lemma IdleWithoutLW(x: string)
    requires 'l' !in x && 'w' !in x
    ensures Replace(BorderSlate, x) == x && Replace(BgWhite, x) == x
  {
    AbsentCharNoMatch(BorderSlate.pattern, false, x, 'l');
    Idle(BorderSlate, x);
    AbsentCharNoMatch(BgWhite.pattern, false, x, 'w');
    Idle(BgWhite, x);
  }

  /** The characters a non-word separator adds to the worked example. */
  lemma SeparatorFacts(c: char)
    requires !IsWord(c)
    ensures 'g' !in [c] + "text-white"
    ensures 'l' !in "bg-surface" + ([c] + "text-white") && 'k' !in "bg-surface" + ([c] + "text-white")
    ensures 'l' !in "bg-surface" + ([c] + "text-on-brand") && 'w' !in "bg-surface" + ([c] + "text-on-brand")
  {
    LettersOfExample1();
  }

  lemma LettersOfExample1()
    ensures 'l' !in "bg-surface" && 'k' !in "bg-surface" && 'w' !in "bg-surface"
    ensures 'g' !in "text-white" && 'l' !in "text-white" && 'k' !in "text-white"
    ensures 'l' !in "text-on-brand" && 'w' !in "text-on-brand"
  {
  }

  /**
    `bg-slate-500 text-white` becomes `bg-surface text-on-brand`; so does
    the same text with any digit run and any non-word separator.
   */
  lemma ExampleSurfaceOnBrand(d: string, c: char)
    requires Digits(d) && !IsWord(c)
    ensures ReplaceContent("bg-slate-" + d + ([c] + "text-white")) == "bg-surface" + ([c] + "text-on-brand")
  {
    SeparatorFacts(c);
    ExampleBgSlateStep(d, [c] + "text-white");
    IdleWithoutLK("bg-surface" + ([c] + "text-white"));
    ExampleTextWhiteStep(c);
    IdleWithoutLW("bg-surface" + ([c] + "text-on-brand"));
    var s := "bg-slate-" + d + ([c] + "text-white");
    LiveRulesSuffice(s);
    LiveRulesInOrder(s);
  }

  /** Lines 31, 35 and 36 do not fire on a text without an `x`. */
  lemma IdleWithoutX(x: string)
    requires 'x' !in x
    ensures Replace(TextSlate, x) == x && Replace(DarkTextWhite, x) == x && Replace(TextWhite, x) == x
  {
    AbsentCharNoMatch(TextSlate.pattern, false, x, 'x');
    Idle(TextSlate, x);
    AbsentCharNoMatch(DarkTextWhite.pattern, false, x, 'x');
    Idle(DarkTextWhite, x);
    AbsentCharNoMatch(TextWhite.pattern, false, x, 'x');
    Idle(TextWhite, x);
  }

  /** Line 25 rewrites both the plain and the `dark:` token. */
  lemma ExampleBgSlateTwice(d1: string, d2: string, v: string)
    requires Digits(d1) && Digits(d2) && v != [] && !IsWord(v[0]) && 'g' !in v
    ensures Replace(BgSlate, "bg-slate-" + d1 + (" dark:" + ("bg-slate-" + d2) + v))
         == "bg-surface" + (" dark:" + "bg-surface" + v)
  {
    var u := " dark:";
    var m := "bg-slate-" + d2;
    forall j | 0 <= j < |u|
      ensures !MatchesAt(BgSlate.pattern, true, u + m + v, j)
    {
      NoStemHere(BgSlate.pattern, true, u + m + v, j, 0);
    }
    assert WordBefore(true, u + m + v, |u|) == false;
    DigitsMatch(BgSlate.pattern, false, d2, v);
    ScanAcross(BgSlate, true, u, m, v);
    assert m[|m| - 1] == d2[|d2| - 1];
    AbsentCharNoMatch(BgSlate.pattern, true, v, 'g');
    ScanWithoutMatch(BgSlate, true, v);
    ReplaceDigitsAtStart(BgSlate, d1, u + m + v);
  }

  /** Line 39 rewrites the border token at the end of the second example. */
  lemma ExampleBorderLast(d3: string)
    requires Digits(d3)
    ensures Replace(BorderSlate, "bg-surface dark:bg-surface " + ("border-slate-" + d3))
         == "bg-surface dark:bg-surface " + "border-border"
  {
    var p := BorderSlate.pattern;
    var u := "bg-surface dark:bg-surface ";
    var m := "border-slate-" + d3;
    var s := u + m + [];
    AppendAssoc(u, m, []);
    forall j | 0 <= j < |u|
      ensures !MatchesAt(p, false, s, j)
    {
      NoBorderInSurfaces(u, m + [], j);
    }
    DigitsMatch(p, false, d3, []);
    assert WordBefore(false, s, |u|) == false;
    ScanAcross(BorderSlate, false, u, m, []);
    ScanEmpty(BorderSlate, true, []);
    AppendEmpty(u + m);
    AppendEmpty(u + BorderSlate.replacement);
  }

  /** `border-slate-` starts nowhere inside the example's leading `bg-surface dark:bg-surface `. */
  lemma NoBorderInSurfaces(u: string, v: string, j: nat)
    requires u == "bg-surface dark:bg-surface " && j < |u|
    ensures !MatchesAt(BorderSlate.pattern, false, u + v, j)
  {
    var s := u + v;
    assert s[j] == u[j];
    if u[j] == 'b' {
      assert s[j + 1] == u[j + 1];
      NoStemHere(BorderSlate.pattern, false, s, j, 1);
    } else {
      NoStemHere(BorderSlate.pattern, false, s, j, 0);
    }
  }

  /** The second example's intermediate text, regrouped. */
  lemma Example2Text(d3: string)
    ensures "bg-surface" + (" dark:" + "bg-surface" + (" border-slate-" + d3))
         == "bg-surface dark:bg-surface " + ("border-slate-" + d3)
    ensures "bg-surface dark:bg-surface " + "border-border" == "bg-surface dark:bg-surface border-border"
  {
    var a := "bg-surface" + " dark:" + "bg-surface";
    Example2Pieces();
    AppendAssoc(" dark:", "bg-surface", " border-slate-" + d3);
    AppendAssoc("bg-surface", " dark:", "bg-surface" + (" border-slate-" + d3));
    AppendAssoc("bg-surface" + " dark:", "bg-surface", " border-slate-" + d3);
    AppendAssoc(a, " ", "border-slate-" + d3);
  }

  lemma Example2Pieces()
    ensures " border-slate-" == " " + "border-slate-"
    ensures "bg-surface" + " dark:" + "bg-surface" + " " == "bg-surface dark:bg-surface "
    ensures "bg-surface dark:bg-surface " + "border-border" == "bg-surface dark:bg-surface border-border"
  {
  }

  /** Characters the second example's texts lack. */
  lemma Example2NoG(d3: string)
    requires Digits(d3)
    ensures 'g' !in " border-slate-" + d3
  {
    assert forall i :: 0 <= i < |d3| ==> IsDigit(d3[i]);
    assert 'g' !in d3;
  }

  lemma Example2NoX(d3: string)
    requires Digits(d3)
    ensures 'x' !in "bg-surface" + (" dark:" + "bg-surface" + (" border-slate-" + d3))
  {
    assert 'x' !in d3;
  }

  lemma Example2NoLW()
    ensures 'l' !in "bg-surface dark:bg-surface border-border" && 'w' !in "bg-surface dark:bg-surface border-border"
  {
  }

  /**
    `bg-slate-200 dark:bg-slate-700 border-slate-300` becomes
    `bg-surface dark:bg-surface border-border`, for any digit runs.
   */
  lemma ExampleDarkAndBorder(d1: string, d2: string, d3: string)
    requires Digits(d1) && Digits(d2) && Digits(d3)
    ensures ReplaceContent("bg-slate-" + d1 + (" dark:" + ("bg-slate-" + d2) + (" border-slate-" + d3)))
         == "bg-surface dark:bg-surface border-border"
  {
    Example2NoG(d3);
    Example2NoX(d3);
    Example2NoLW();
    ExampleBgSlateTwice(d1, d2, " border-slate-" + d3);
    IdleWithoutX("bg-surface" + (" dark:" + "bg-surface" + (" border-slate-" + d3)));
    Example2Text(d3);
    ExampleBorderLast(d3);
    IdleWithoutLW("bg-surface dark:bg-surface border-border");
    var s := "bg-slate-" + d1 + (" dark:" + ("bg-slate-" + d2) + (" border-slate-" + d3));
    LiveRulesSuffice(s);
    LiveRulesInOrder(s);
  }

  /** Every live line needs an `l` or a `w`, so a text with neither is left as it is. */
  lemma FixedWithoutLW(x: string)
    requires 'l' !in x && 'w' !in x
    ensures ReplaceContent(x) == x
  {
    AbsentCharNoMatch(BgSlate.pattern, false, x, 'l');
    Idle(BgSlate, x);
    AbsentCharNoMatch(TextSlate.pattern, false, x, 'l');
    Idle(TextSlate, x);
    AbsentCharNoMatch(DarkTextWhite.pattern, false, x, 'w');
    Idle(DarkTextWhite, x);
    AbsentCharNoMatch(TextWhite.pattern, false, x, 'w');
    Idle(TextWhite, x);
    IdleWithoutLW(x);
    LiveRulesSuffice(x);
    LiveRulesInOrder(x);
  }

  /** A second run over the example's output changes nothing more. */
  lemma ExampleDarkAndBorderTwice(d1: string, d2: string, d3: string)
    requires Digits(d1) && Digits(d2) && Digits(d3)
    ensures var once := ReplaceContent("bg-slate-" + d1 + (" dark:" + ("bg-slate-" + d2) + (" border-slate-" + d3)));
      ReplaceContent(once) == once
  {
    ExampleDarkAndBorder(d1, d2, d3);
    Example2NoLW();
    FixedWithoutLW("bg-surface dark:bg-surface border-border");
  }

  // ---- Boundaries ----

  /**
    Line 25 needs `\b` on both sides of `bg-slate-N`: a word character in
    front (`xbg-slate-5`) or right after the digits (`bg-slate-5a`) leaves the
    token alone.
   */
  lemma BgSlateNeedsBoundaries(x: char, d: string, w: char)
    requires IsWord(x) && Digits(d) && IsWord(w) && !IsDigit(w)
    ensures Replace(BgSlate, [x] + "bg-slate-" + d) == [x] + "bg-slate-" + d
    ensures Replace(BgSlate, "bg-slate-" + d + [w]) == "bg-slate-" + d + [w]
  {
    WordInFront(x, d);
    WordBehind(d, w);
  }

  lemma WordInFront(x: char, d: string)
    requires IsWord(x) && Digits(d)
    ensures Replace(BgSlate, [x] + "bg-slate-" + d) == [x] + "bg-slate-" + d
  {
    var p := BgSlate.pattern;
    var s := [x] + "bg-slate-" + d;
    forall j | 0 <= j < |s|
      ensures !MatchesAt(p, false, s, j)
    {
      if j == 0 {
        if x == 'b' {
          NoStemHere(p, false, s, 0, 1);
        } else {
          NoStemHere(p, false, s, 0, 0);
        }
      } else if j == 1 {
        assert s[1..][0] == 'b';
        assert WordBefore(false, s, 1);
      } else if j < 10 {
        NoStemHere(p, false, s, j, 0);
      } else {
        assert s[j] == d[j - 10];
        NoStemHere(p, false, s, j, 0);
      }
    }
    ScanCopiesUntil(BgSlate, false, s, |s|);
    ScanEmpty(BgSlate, false, []);
    assert s[..|s|] == s && s[|s|..] == [];
  }

  lemma WordBehind(d: string, w: char)
    requires Digits(d) && IsWord(w) && !IsDigit(w)
    ensures Replace(BgSlate, "bg-slate-" + d + [w]) == "bg-slate-" + d + [w]
  {
    var p := BgSlate.pattern;
    var s := "bg-slate-" + d + [w];
    forall j | 0 <= j < |s|
      ensures !MatchesAt(p, false, s, j)
    {
      if j == 0 {
        assert s[9..] == d + [w];
        assert s[9..][|d|] == w;
        assert s[9 + |d| - 1] == d[|d| - 1];
        assert s[0..] == s;
      } else if j < 9 {
        NoStemHere(p, false, s, j, 0);
      } else if j < |s| - 1 {
        assert s[j] == d[j - 9];
        NoStemHere(p, false, s, j, 0);
      } else {
        assert |s[j..]| < |p.stem|;
      }
    }
    ScanCopiesUntil(BgSlate, false, s, |s|);
    ScanEmpty(BgSlate, false, []);
    assert s[..|s|] == s && s[|s|..] == [];
  }

  // ---- What the script leaves alone ----

  /** Text in which none of the six effective patterns occurs comes back unchanged. */
  lemma UnchangedWithoutPatterns(content: string)
    requires forall i :: 0 <= i < |LiveRules| ==> !Occurs(LiveRules[i].pattern, false, content)
    ensures ReplaceContent(content) == content
  {
    LiveRulesSuffice(content);
    ReplaceAllWithoutMatch(LiveRules, content);
  }

  /** On a text without a `g` or an `x`, only line 39 can fire. */
  lemma OnlyBorderSlate(content: string)
    requires 'g' !in content && 'x' !in content
    ensures ReplaceContent(content) == Replace(BorderSlate, content)
  {
    IdleBeforeBorder(content);
    IdleAfterBorder(content);
    LiveRulesSuffice(content);
    LiveRulesInOrder(content);
  }

  /** Lines 25, 31, 35 and 36 need a `g` or an `x`. */
  lemma IdleBeforeBorder(content: string)
    requires 'g' !in content && 'x' !in content
    ensures Replace(TextWhite, Replace(DarkTextWhite, Replace(TextSlate, Replace(BgSlate, content)))) == content
  {
    AbsentCharNoMatch(BgSlate.pattern, false, content, 'g');
    Idle(BgSlate, content);
    AbsentCharNoMatch(TextSlate.pattern, false, content, 'x');
    Idle(TextSlate, content);
    AbsentCharNoMatch(DarkTextWhite.pattern, false, content, 'x');
    Idle(DarkTextWhite, content);
    AbsentCharNoMatch(TextWhite.pattern, false, content, 'x');
    Idle(TextWhite, content);
  }

  /** Line 39 adds no `g`, so line 43 has nothing to do after it. */
  lemma IdleAfterBorder(content: string)
    requires 'g' !in content
    ensures Replace(BgWhite, Replace(BorderSlate, content)) == Replace(BorderSlate, content)
  {
    var y := Replace(BorderSlate, content);
    ScanKeepsOut(BorderSlate, false, content, 'g');
    AbsentCharNoMatch(BgWhite.pattern, false, y, 'g');
    Idle(BgWhite, y);
  }

  // ---- Running the script twice ----

  /** `border-slate-3-slate-5` becomes `border-border-slate-5`. */
  lemma BorderFirstPass(d1: string, d2: string)
    requires Digits(d1) && Digits(d2)
    ensures Replace(BorderSlate, "border-slate-" + d1 + ("-slate-" + d2)) == "border-border" + ("-slate-" + d2)
  {
    var v := "-slate-" + d2;
    assert 'b' !in v;
    ReplaceDigitsAtStart(BorderSlate, d1, v);
    AbsentCharNoMatch(BorderSlate.pattern, true, v, 'b');
    ScanWithoutMatch(BorderSlate, true, v);
  }

  /** A second pass over `border-border-slate-5` finds the token the first pass made. */
  lemma BorderSecondPass(d2: string)
    requires Digits(d2)
    ensures Replace(BorderSlate, "border-border" + ("-slate-" + d2)) == "border-" + "border-border"
  {
    var u := "border-";
    forall j | 0 <= j < |u|
      ensures !MatchesAt(BorderSlate.pattern, false, u + (BorderSlate.pattern.stem + d2), j)
    {
      BorderNotEarly(d2, j);
    }
    ReplaceDigitsAtEnd(BorderSlate, u, d2);
    BorderRegroup(d2);
  }

  /** `border-slate-` fits nowhere in the leading `border-`. */
  lemma BorderNotEarly(d2: string, j: nat)
    requires j < 7
    ensures !MatchesAt(BorderSlate.pattern, false, "border-" + (BorderSlate.pattern.stem + d2), j)
  {
    var s := "border-" + (BorderSlate.pattern.stem + d2);
    if j == 0 {
      NoStemHere(BorderSlate.pattern, false, s, 0, 7);
    } else {
      NoStemHere(BorderSlate.pattern, false, s, j, 0);
    }
  }

  lemma BorderRegroup(d2: string)
    ensures "border-" + (BorderSlate.pattern.stem + d2) == "border-border" + ("-slate-" + d2)
  {
  }

  /**
    The script is not idempotent: line 39's output `border-border` can meet
    the rest of the token and form a new `border-slate-N`.
   */
  lemma NotIdempotent(d1: string, d2: string)
    requires Digits(d1) && Digits(d2)
    ensures ReplaceContent("border-slate-" + d1 + ("-slate-" + d2)) == "border-border" + ("-slate-" + d2)
    ensures ReplaceContent("border-border" + ("-slate-" + d2)) == "border-" + "border-border"
    ensures ReplaceContent(ReplaceContent("border-slate-" + d1 + ("-slate-" + d2)))
         != ReplaceContent("border-slate-" + d1 + ("-slate-" + d2))
  {
    WholeFirstPass(d1, d2);
    WholeSecondPass(d2);
    assert ("border-" + "border-border")[14] != ("border-border" + ("-slate-" + d2))[14];
  }

  lemma WholeFirstPass(d1: string, d2: string)
    requires Digits(d1) && Digits(d2)
    ensures ReplaceContent("border-slate-" + d1 + ("-slate-" + d2)) == "border-border" + ("-slate-" + d2)
  {
    NoGX(d1, d2);
    BorderFirstPass(d1, d2);
    OnlyBorderSlate("border-slate-" + d1 + ("-slate-" + d2));
  }

  lemma WholeSecondPass(d2: string)
    requires Digits(d2)
    ensures ReplaceContent("border-border" + ("-slate-" + d2)) == "border-" + "border-border"
  {
    NoGX(d2, d2);
    BorderSecondPass(d2);
    OnlyBorderSlate("border-border" + ("-slate-" + d2));
  }

  lemma NoGX(d1: string, d2: string)
    requires Digits(d1) && Digits(d2)
    ensures 'g' !in "border-slate-" + d1 + ("-slate-" + d2) && 'x' !in "border-slate-" + d1 + ("-slate-" + d2)
    ensures 'g' !in "border-border" + ("-slate-" + d2) && 'x' !in "border-border" + ("-slate-" + d2)
  {
    assert forall i :: 0 <= i < |d1| ==> IsDigit(d1[i]);
    assert 'g' !in d1 && 'x' !in d1 && 'g' !in d2 && 'x' !in d2;
  }

  // ---- Line 25 on its own ----

  /** Line 25 leaves no `bg-slate-N` behind, so running it twice is running it once. */
  lemma BgSlateSelfClean(x: string)
    ensures !Occurs(BgSlate.pattern, false, Replace(BgSlate, x))
    ensures Replace(BgSlate, Replace(BgSlate, x)) == Replace(BgSlate, x)
  {
    BgSlateFacts();
    var repl := BgSlate.replacement;
    var p := BgSlate.pattern;
    assert forall k :: 0 <= k < |repl| && repl[k] == 'b' ==> k == 0;
    ClashAt(repl[0..], p.stem, 4);
    ShutByFirst(p, repl);
    assert [] + p.stem == p.stem;
    assert Prefixed([], p) == p;
    SelfClean(BgSlate, x);
  }

}
