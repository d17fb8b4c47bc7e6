/**
  The vocabulary the two migration scripts write into: every replacement
  text is a colour utility whose token is one of those tailwind.config.mjs
  defines, so nothing the scripts produce names an undefined colour.
 */
module RuleTargets {

  import opened TailwindColors
  import opened Optional
  import opened Utilities
  import opened RegexReplace
  import opened ReplaceColors
  import opened ReplaceTextTokens

  /** The utility each colour rule writes, rule by rule. */
  const ColorTargets: seq<Utility> := [
    Utility("", Background, Surface), Utility("dark:", Background, Surface),
    Utility("hover:", Background, Surface), Utility("dark:hover:", Background, Surface),
    Utility("", Foreground, Muted), Utility("dark:", Foreground, Muted),
    Utility("dark:", Foreground, OnBrand), Utility("", Foreground, OnBrand),
    Utility("", Outline, Border), Utility("dark:", Outline, Border),
    Utility("", Background, Surface), Utility("dark:", Background, Surface),
    Utility("hover:", Foreground, OnBrand)
  ]

  /** The utility each token rule writes, rule by rule. */
  const TokenTargets: seq<Utility> := [
    Utility("", Foreground, Muted), Utility("", Foreground, Text),
    Utility("dark:", Foreground, Muted), Utility("dark:", Foreground, Text),
    Utility("hover:", Foreground, Muted), Utility("hover:", Foreground, Text)
  ]

  /** A rule writes the class name of a utility with the rules' variants. */
  predicate Writes(x: Utility, r: Rule) {
    Variants(x.variants) && Render(x) == r.replacement
  }

  // ---- The colour rules, one at a time ----

  lemma BgSlateWrites() ensures Writes(Utility("", Background, Surface), BgSlate) {}
  lemma DarkBgSlateWrites() ensures Writes(Utility("dark:", Background, Surface), DarkBgSlate) {}
  lemma HoverBgSlateWrites() ensures Writes(Utility("hover:", Background, Surface), HoverBgSlate) {}
  lemma DarkHoverBgSlateWrites() ensures Writes(Utility("dark:hover:", Background, Surface), DarkHoverBgSlate) {}
  lemma TextSlateWrites() ensures Writes(Utility("", Foreground, Muted), TextSlate) {}
  lemma DarkTextSlateWrites() ensures Writes(Utility("dark:", Foreground, Muted), DarkTextSlate) {}
  lemma DarkTextWhiteWrites() ensures Writes(Utility("dark:", Foreground, OnBrand), DarkTextWhite) {}
  lemma TextWhiteWrites() ensures Writes(Utility("", Foreground, OnBrand), TextWhite) {}
  lemma BorderSlateWrites() ensures Writes(Utility("", Outline, Border), BorderSlate) {}
  lemma DarkBorderSlateWrites() ensures Writes(Utility("dark:", Outline, Border), DarkBorderSlate) {}
  lemma BgWhiteWrites() ensures Writes(Utility("", Background, Surface), BgWhite) {}
  lemma DarkBgWhiteWrites() ensures Writes(Utility("dark:", Background, Surface), DarkBgWhite) {}
  lemma HoverTextWhiteWrites() ensures Writes(Utility("hover:", Foreground, OnBrand), HoverTextWhite) {}

  /**
    Every rule of the colour script writes a colour utility, and the token
    it paints with is `surface`, `muted`, `on-brand` or `border`.
   */
  lemma ColorRulesTargetTokens()
    ensures |ColorTargets| == |ColorRules|
    ensures forall i :: 0 <= i < |ColorTargets| ==>
      Writes(ColorTargets[i], ColorRules[i]) && ColorTargets[i].token in [Surface, Muted, OnBrand, Border]
  {
    BgSlateWrites();
    DarkBgSlateWrites();
    HoverBgSlateWrites();
    DarkHoverBgSlateWrites();
    TextSlateWrites();
    DarkTextSlateWrites();
    DarkTextWhiteWrites();
    TextWhiteWrites();
    BorderSlateWrites();
    DarkBorderSlateWrites();
    BgWhiteWrites();
    DarkBgWhiteWrites();
    HoverTextWhiteWrites();
  }

  /** Every replacement of the colour script reads back as the utility the rule writes. */
  lemma ColorRulesReadBack()
    ensures forall i :: 0 <= i < |ColorRules| ==> ParseUtility(ColorRules[i].replacement) == Some(ColorTargets[i])
  {
    ColorRulesTargetTokens();
    forall i | 0 <= i < |ColorRules| ensures ParseUtility(ColorRules[i].replacement) == Some(ColorTargets[i]) {
      ParseRender(ColorTargets[i]);
    }
  }

  // ---- The token rules ----

  lemma SecondaryWrites() ensures Writes(Utility("", Foreground, Muted), Secondary) {}
  lemma PrimaryWrites() ensures Writes(Utility("", Foreground, Text), Primary) {}
  lemma DarkSecondaryWrites() ensures Writes(Utility("dark:", Foreground, Muted), DarkSecondary) {}
  lemma DarkPrimaryWrites() ensures Writes(Utility("dark:", Foreground, Text), DarkPrimary) {}
  lemma HoverSecondaryWrites() ensures Writes(Utility("hover:", Foreground, Muted), HoverSecondary) {}
  lemma HoverPrimaryWrites() ensures Writes(Utility("hover:", Foreground, Text), HoverPrimary) {}

  /** Every rule of the token script writes a colour utility of the `muted` or `text` token. */
  lemma TokenRulesTargetTokens()
    ensures |TokenTargets| == |TokenRules|
    ensures forall i :: 0 <= i < |TokenTargets| ==>
      Writes(TokenTargets[i], TokenRules[i]) && TokenTargets[i].token in [Muted, Text]
  {
    SecondaryWrites();
    PrimaryWrites();
    DarkSecondaryWrites();
    DarkPrimaryWrites();
    HoverSecondaryWrites();
    HoverPrimaryWrites();
  }

  /** Every replacement of the token script reads back as the utility the rule writes. */
  lemma TokenRulesReadBack()
    ensures forall i :: 0 <= i < |TokenRules| ==> ParseUtility(TokenRules[i].replacement) == Some(TokenTargets[i])
  {
    TokenRulesTargetTokens();
    forall i | 0 <= i < |TokenRules| ensures ParseUtility(TokenRules[i].replacement) == Some(TokenTargets[i]) {
      ParseRender(TokenTargets[i]);
    }
  }

  // ---- No substitution patterns ----

  /** A class name with the rules' variants holds no `$`. */
  lemma RenderHasNoDollar(x: Utility)
    requires Variants(x.variants)
    ensures '$' !in Render(x)
  {
    assert '$' !in x.variants;
    assert '$' !in KindPrefix(x.kind);
    var k := Key(x.token);
    assert '$' !in k by {
      forall i | 0 <= i < |k| ensures k[i] != '$' {
        assert 'a' <= k[i] <= 'z' || k[i] == '-';
      }
    }
  }

  /**
    No replacement the colour script writes holds a `$`, so
    `String.prototype.replace` inserts each one verbatim: there is no `$&`,
    `$1` or `$$` to expand.
   */
  lemma ColorReplacementsVerbatim()
    ensures forall i :: 0 <= i < |ColorRules| ==> '$' !in ColorRules[i].replacement
  {
    ColorRulesTargetTokens();
    forall i | 0 <= i < |ColorRules| ensures '$' !in ColorRules[i].replacement {
      RenderHasNoDollar(ColorTargets[i]);
    }
  }

  /** Likewise, no replacement the token script writes holds a `$`. */
  lemma TokenReplacementsVerbatim()
    ensures forall i :: 0 <= i < |TokenRules| ==> '$' !in TokenRules[i].replacement
  {
    TokenRulesTargetTokens();
    forall i | 0 <= i < |TokenRules| ensures '$' !in TokenRules[i].replacement {
      RenderHasNoDollar(TokenTargets[i]);
    }
  }

}
