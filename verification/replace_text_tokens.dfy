/**
  `replaceContent` of scripts/replace-text-tokens.cjs: six global
  replacements of plain substrings (no `\b` anchors) that move the
  arbitrary-value text colours `text-[rgb(var(--text-...))]` onto the
  semantic `text-muted` and `text-text` utilities, run in source order.
 */
module ReplaceTextTokens {

  import opened Chars
  import opened RegexReplace
  import opened RuleInteraction

  /** The arbitrary-value utility `text-[rgb(var(--text-NAME))]`, searched for verbatim. */
  function ArbitraryText(name: string): (u: string)
    ensures |u| == 24 + |name|
  {
    "text-[rgb(var(--text-" + name + "))]"
  }

  /** Where the property name sits in the arbitrary-value utility. */
  lemma ArbitraryTextPieces(name: string)
    ensures ArbitraryText(name)[..21] == "text-[rgb(var(--text-"
    ensures ArbitraryText(name)[21..21 + |name|] == name
  {
  }

  const Secondary := Rule(Literal(ArbitraryText("secondary")), "text-muted")
  const Primary := Rule(Literal(ArbitraryText("primary")), "text-text")
  const DarkSecondary := Rule(Literal("dark:" + ArbitraryText("secondary")), "dark:text-muted")
  const DarkPrimary := Rule(Literal("dark:" + ArbitraryText("primary")), "dark:text-text")
  const HoverSecondary := Rule(Literal("hover:" + ArbitraryText("secondary")), "hover:text-muted")
  const HoverPrimary := Rule(Literal("hover:" + ArbitraryText("primary")), "hover:text-text")

  /** The replace lines in the order the script runs them. */
  const TokenRules: seq<Rule> := [Secondary, Primary, DarkSecondary, DarkPrimary, HoverSecondary, HoverPrimary]

  function ReplaceContent(content: string): (out: string) {
    ReplaceAll(TokenRules, content)
  }

  // ---- The rules' strings, inspected once ----

  /*
    The lemmas below look at one position of a long stem at a time: facts
    about several positions of a long literal at once are costly to check.
   */

  /** Where the secondary stem has a `t`, it disagrees with either replacement. */
  lemma SecondaryClashAt(k: nat, repl: string)
    requires k == 0 || k == 3 || k == 16 || k == 19
    requires repl == Secondary.replacement || repl == Primary.replacement
    ensures k < |Secondary.pattern.stem| && Clash(Secondary.pattern.stem[k..], repl)
  {
    var w := Secondary.pattern.stem;
    if k == 0 || k == 16 {
      ClashAt(w[k..], repl, 5);
    } else {
      ClashAt(w[k..], repl, 1);
    }
  }

  /** Where the primary stem has a `t`, it disagrees with `text-text`. */
  lemma PrimaryClashAt(k: nat)
    requires k == 0 || k == 3 || k == 16 || k == 19
    ensures k < |Primary.pattern.stem| && Clash(Primary.pattern.stem[k..], Primary.replacement)
  {
    var w := Primary.pattern.stem;
    var repl := Primary.replacement;
    ArbitraryTextPieces("primary");
    if k == 0 || k == 16 {
      assert w[k..][5] == w[k + 5];
      if k == 0 {
        assert w[5] == w[..21][5] == '[';
      } else {
        assert w[21] == w[21..28][0] == 'p';
      }
      ClashAt(w[k..], repl, 5);
    } else {
      assert w[k..][1] == w[k + 1] == w[..21][k + 1] == '-';
      ClashAt(w[k..], repl, 1);
    }
  }

  /** A clash survives putting a prefix in front of both ends of the suffix. */
  lemma ClashShift(P: string, w: string, k: nat, repl: string)
    requires |P| <= k <= |P| + |w| && Clash(w[k - |P|..], repl)
    ensures Clash((P + w)[k..], repl)
  {
    assert (P + w)[k..] == w[k - |P|..];
  }

  /** Where the two stems have a `t`. */
  lemma StemTs()
    ensures var w := Secondary.pattern.stem;
      forall k :: 0 <= k < |w| && w[k] == 't' ==> k == 0 || k == 3 || k == 16 || k == 19
    ensures var w := Primary.pattern.stem;
      forall k :: 0 <= k < |w| && w[k] == 't' ==> k == 0 || k == 3 || k == 16 || k == 19
  {
  }

  lemma SecondaryFacts()
    ensures Pullbackable(Secondary.pattern, Secondary.replacement)
  {
    var w := Secondary.pattern.stem;
    assert StartsWithLetter(Secondary.replacement);
    StemTs();
    forall k | 0 <= k < |w| && w[k] == 't'
      ensures ShieldedAt(Secondary.pattern, Secondary.replacement, k)
    {
      SecondaryClashAt(k, Secondary.replacement);
    }
    ShieldedByFirst(Secondary.pattern, Secondary.replacement);
  }

  lemma PrimaryFacts()
    ensures Pullbackable(Primary.pattern, Primary.replacement)
  {
    var w := Primary.pattern.stem;
    assert StartsWithLetter(Primary.replacement);
    StemTs();
    forall k | 0 <= k < |w| && w[k] == 't'
      ensures ShieldedAt(Primary.pattern, Primary.replacement, k)
    {
      PrimaryClashAt(k);
    }
    ShieldedByFirst(Primary.pattern, Primary.replacement);
  }

  /** Prefixes without a `t` cannot be completed by a replacement that starts with one. */
  lemma ForeignPrefixes()
    ensures SuffixesClash("dark:", "text-muted") && SuffixesClash("hover:", "text-muted")
    ensures SuffixesClash("dark:", "text-text") && SuffixesClash("hover:", "text-text")
  {
    SuffixesClashByFirst("dark:", "text-muted");
    SuffixesClashByFirst("hover:", "text-muted");
    SuffixesClashByFirst("dark:", "text-text");
    SuffixesClashByFirst("hover:", "text-text");
  }

  /**
    `dark:text-[rgb(var(--text-secondary))]` cannot start inside `text-muted`:
    everywhere but at the final `d` the first character disagrees, and a start
    at that `d` would need `ark:` plus the whole old token to follow, which
    line 24 has already rewritten.
   */
  lemma DeadDarkSecondary()
    ensures DeadCondition("dark:", Secondary) && Prefixed("dark:", Secondary.pattern) == DarkSecondary.pattern
  {
    var P := "dark:";
    var q := Prefixed(P, Secondary.pattern);
    var repl := Secondary.replacement;
    SecondaryFacts();
    ForeignPrefixes();
    forall k | 0 <= k < |repl|
      ensures BlockedInside(q, P, repl, k)
    {
      if k == 9 {
        assert repl[9..] == P[..1];
      } else {
        ClashAt(repl[k..], q.stem, 0);
      }
    }
  }

  lemma DeadHoverSecondary()
    ensures DeadCondition("hover:", Secondary) && Prefixed("hover:", Secondary.pattern) == HoverSecondary.pattern
  {
    var q := Prefixed("hover:", Secondary.pattern);
    SecondaryFacts();
    ForeignPrefixes();
    assert q.stem[0] == 'h';
    ShutByFirst(q, Secondary.replacement);
  }

  lemma DeadDarkPrimary()
    ensures DeadCondition("dark:", Primary) && Prefixed("dark:", Primary.pattern) == DarkPrimary.pattern
  {
    var q := Prefixed("dark:", Primary.pattern);
    PrimaryFacts();
    ForeignPrefixes();
    assert q.stem[0] == 'd';
    ShutByFirst(q, Primary.replacement);
  }

  lemma DeadHoverPrimary()
    ensures DeadCondition("hover:", Primary) && Prefixed("hover:", Primary.pattern) == HoverPrimary.pattern
  {
    var q := Prefixed("hover:", Primary.pattern);
    PrimaryFacts();
    ForeignPrefixes();
    assert q.stem[0] == 'h';
    ShutByFirst(q, Primary.replacement);
  }

  /** A prefix without a `t` adds none: the `t`s of P + w are those of w, shifted. */
  lemma PrefixTs(P: string, w: string, k: nat)
    requires 't' !in P && k < |P + w| && (P + w)[k] == 't'
    ensures |P| <= k && w[k - |P|] == 't'
  {
  }

  /** `text-text` can neither complete nor start a prefixed secondary token. */
  lemma SecondaryAfterPrimary(P: string)
    requires P != [] && 't' !in P && P[0] !in Primary.replacement
    ensures NoNewCondition(Prefixed(P, Secondary.pattern), Primary)
  {
    var q := Prefixed(P, Secondary.pattern);
    var repl := Primary.replacement;
    var w := Secondary.pattern.stem;
    StemTs();
    forall k | 0 <= k < |q.stem| && q.stem[k] == 't'
      ensures ShieldedAt(q, repl, k)
    {
      PrefixTs(P, w, k);
      SecondaryClashAt(k - |P|, repl);
      ClashShift(P, w, k, repl);
    }
    ShieldedByFirst(q, repl);
    assert q.stem[0] == P[0];
    assert forall k :: 0 <= k < |repl| ==> repl[k] != q.stem[0];
    ShutByFirst(q, repl);
  }

  // ---- The script is its first two lines ----

  /** The six lines, one after the other. */
  lemma TokenRulesInOrder(content: string)
    ensures ReplaceContent(content)
         == Replace(HoverPrimary, Replace(HoverSecondary, Replace(DarkPrimary, Replace(DarkSecondary,
            Replace(Primary, Replace(Secondary, content))))))
  {
    var x1 := Replace(Secondary, content);
    var x2 := Replace(Primary, x1);
    var x3 := Replace(DarkSecondary, x2);
    var x4 := Replace(DarkPrimary, x3);
    var x5 := Replace(HoverSecondary, x4);
    assert TokenRules[0..] == TokenRules;
    ReplaceAllFrom(TokenRules, 0, content);
    ReplaceAllFrom(TokenRules, 1, x1);
    ReplaceAllFrom(TokenRules, 2, x2);
    ReplaceAllFrom(TokenRules, 3, x3);
    ReplaceAllFrom(TokenRules, 4, x4);
    ReplaceAllFrom(TokenRules, 5, x5);
    assert TokenRules[6..] == [];
  }

  /**
    Line 24 already rewrites the secondary token after `dark:` and `hover:`,
    and line 25 the primary one, with nothing to anchor them; so lines 27-30
    never find anything and the script is lines 24 and 25 alone.
   */
  lemma PrefixedLinesDead(content: string)
    ensures ReplaceContent(content) == Replace(Primary, Replace(Secondary, content))
  {
    var x2 := Replace(Primary, Replace(Secondary, content));
    TokenRulesInOrder(content);
    PrefixedSecondaryGone(content);
    PrefixedPrimaryGone(Replace(Secondary, content));
    Idle(DarkSecondary, x2);
    Idle(DarkPrimary, x2);
    Idle(HoverSecondary, x2);
    Idle(HoverPrimary, x2);
  }

  /** After lines 24 and 25 no prefixed secondary token is left. */
  lemma PrefixedSecondaryGone(content: string)
    ensures var x2 := Replace(Primary, Replace(Secondary, content));
      !Occurs(DarkSecondary.pattern, false, x2) && !Occurs(HoverSecondary.pattern, false, x2)
  {
    var x1 := Replace(Secondary, content);
    DeadDarkSecondary();
    Dead("dark:", Secondary, false, content);
    DeadHoverSecondary();
    Dead("hover:", Secondary, false, content);
    SecondaryAfterPrimary("dark:");
    NoNew(DarkSecondary.pattern, Primary, false, x1);
    SecondaryAfterPrimary("hover:");
    NoNew(HoverSecondary.pattern, Primary, false, x1);
  }

  /** After line 25 no prefixed primary token is left. */
  lemma PrefixedPrimaryGone(x1: string)
    ensures var x2 := Replace(Primary, x1);
      !Occurs(DarkPrimary.pattern, false, x2) && !Occurs(HoverPrimary.pattern, false, x2)
  {
    DeadDarkPrimary();
    Dead("dark:", Primary, false, x1);
    DeadHoverPrimary();
    Dead("hover:", Primary, false, x1);
  }

  // ---- What the script leaves alone ----

  /** Text holding neither old token comes back unchanged. */
  lemma UnchangedWithoutTokens(content: string)
    requires !Occurs(Secondary.pattern, false, content) && !Occurs(Primary.pattern, false, content)
    ensures ReplaceContent(content) == content
  {
    PrefixedLinesDead(content);
    Idle(Secondary, content);
    Idle(Primary, content);
  }

  /** Line 24 changes the text exactly when the secondary token occurs in it. */
  lemma SecondaryChangesIff(content: string)
    ensures Replace(Secondary, content) != content <==> Occurs(Secondary.pattern, false, content)
  {
    ClashAt(Secondary.pattern.stem, Secondary.replacement, 5);
    ScanUnchangedIff(Secondary, false, content);
  }

  /** Line 25 changes the text exactly when the primary token occurs in it. */
  lemma PrimaryChangesIff(content: string)
    ensures Replace(Primary, content) != content <==> Occurs(Primary.pattern, false, content)
  {
    ClashAt(Primary.pattern.stem, Primary.replacement, 5);
    ScanUnchangedIff(Primary, false, content);
  }

  // ---- Running the script twice ----

  /**
    `text-muted` cannot overlap the secondary token, so one pass of line 24
    leaves none behind and a second pass of it changes nothing.
   */
  lemma SecondarySelfClean(x: string)
    ensures !Occurs(Secondary.pattern, false, Replace(Secondary, x))
    ensures Replace(Secondary, Replace(Secondary, x)) == Replace(Secondary, x)
  {
    var p := Secondary.pattern;
    var repl := Secondary.replacement;
    SecondaryFacts();
    assert forall k :: 0 <= k < |repl| && repl[k] == 't' ==> k == 0 || k == 3 || k == 7;
    forall k | 0 <= k < |repl| && repl[k] == p.stem[0]
      ensures Shut(p, repl, k)
    {
      MutedClashAt(k);
    }
    ShutByFirst(p, repl);
    assert [] + p.stem == p.stem;
    assert Prefixed([], p) == p;
    SelfClean(Secondary, x);
  }

  /** Where `text-muted` has a `t`, it disagrees with the secondary stem. */
  lemma MutedClashAt(k: nat)
    requires k == 0 || k == 3 || k == 7
    ensures k < |Secondary.replacement| && Clash(Secondary.replacement[k..], Secondary.pattern.stem)
  {
    var repl := Secondary.replacement;
    if k == 0 {
      ClashAt(repl[k..], Secondary.pattern.stem, 5);
    } else if k == 3 {
      ClashAt(repl[k..], Secondary.pattern.stem, 1);
    } else {
      ClashAt(repl[k..], Secondary.pattern.stem, 2);
    }
  }


  /** What follows the first token in the example below: the primary token minus its leading `text`. */
  const Tail := "-[rgb(var(--text-" + "primary" + "))]"

  lemma TailFacts()
    ensures Primary.pattern.stem == "text" + Tail
    ensures |Tail| < |Primary.pattern.stem|
    ensures Primary.replacement + Tail == "text-" + Primary.pattern.stem
  {
    AfterText();
    AppendAssoc("text", "-[rgb(var(--text-" + "primary", "))]");
    AppendAssoc("text", "-[rgb(var(--text-", "primary");
    AppendAssoc("text-", "text", Tail);
  }

  lemma AfterText()
    ensures "text-[rgb(var(--text-" == "text" + "-[rgb(var(--text-"
    ensures "text-text" == "text-" + "text"
  {
  }

  /** `c` occurs in the secondary stem but neither in the primary stem nor in the tail. */
  lemma LetterC()
    ensures Secondary.pattern.stem[23] == 'c'
    ensures 'c' !in Primary.pattern.stem && 'c' !in Tail && 'c' !in "text-"
  {
  }

  /** Line 24 leaves a text without `c` alone. */
  lemma NoSecondaryIn(x: string)
    requires 'c' !in x
    ensures Replace(Secondary, x) == x
  {
    LetterC();
    AbsentCharNoMatch(Secondary.pattern, false, x, 'c');
    Idle(Secondary, x);
  }

  /** In `text-` followed by the primary token, the token is the first place the stem fits. */
  lemma LateStart(j: nat)
    requires j < 5
    ensures !MatchesAt(Primary.pattern, false, "text-" + Primary.pattern.stem, j)
  {
    var s := "text-" + Primary.pattern.stem;
    if j == 0 {
      NoStemHere(Primary.pattern, false, s, j, 5);
    } else if j == 3 {
      NoStemHere(Primary.pattern, false, s, j, 1);
    } else {
      NoStemHere(Primary.pattern, false, s, j, 0);
    }
  }

  /** First pass over the primary token followed by the tail: only the token is replaced. */
  lemma PrimaryTwiceFirstPass()
    ensures ReplaceContent(Primary.pattern.stem + Tail) == Primary.replacement + Tail
  {
    var x := Primary.pattern.stem + Tail;
    PrefixedLinesDead(x);
    LetterC();
    NoSecondaryIn(x);
    TailFacts();
    ReplaceStemThenShort(Primary, Tail);
  }

  /** Second pass: `text-text` and the tail form a new primary token, which is rewritten in turn. */
  lemma PrimaryTwiceSecondPass()
    ensures ReplaceContent("text-" + Primary.pattern.stem) == "text-" + Primary.replacement
  {
    var y := "text-" + Primary.pattern.stem;
    PrefixedLinesDead(y);
    LetterC();
    NoSecondaryIn(y);
    forall j | 0 <= j < 5
      ensures !MatchesAt(Primary.pattern, false, y, j)
    {
      LateStart(j);
    }
    ReplaceStemAtEnd(Primary, "text-");
  }

  /**
    `text-[rgb(var(--text-primary))]-[rgb(var(--text-primary))]` becomes
    `text-text-[rgb(var(--text-primary))]` in one pass and `text-text-text`
    in the next, so running the script twice is not the same as once.
   */
  lemma NotIdempotent()
    ensures var once := ReplaceContent(Primary.pattern.stem + Tail);
      && once == "text-text" + Tail
      && ReplaceContent(once) == "text-text-text"
      && ReplaceContent(once) != once
  {
    PrimaryTwiceFirstPass();
    TailFacts();
    PrimaryTwiceSecondPass();
    TextThrice();
  }

  lemma TextThrice()
    ensures "text-" + Primary.replacement == "text-text-text"
    ensures |"text-text-text"| != |"text-text" + Tail|
  {
  }

}
