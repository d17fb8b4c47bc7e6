/**
  The nine opacity-aware colour functions under `theme.extend.colors` in
  tailwind.config.mjs.  Each token is bound to a CSS custom property of the
  same name; Tailwind calls the token's function with the opacity of the
  utility being generated, and the function answers with an `rgb(...)`
  expression that reads the property, adding the opacity after a `/` when
  one is given.
 */
module TailwindColors {

  import opened Optional

  /** The theme's colour tokens, in the order the configuration declares them. */
  datatype Token = Brand | Cta | Surface | Bg | Text | Muted | Border | OnBrand | Accent

  const Tokens: seq<Token> := [Brand, Cta, Surface, Bg, Text, Muted, Border, OnBrand, Accent]

  /**
    The opacity Tailwind passes: absent (`undefined`), or a value, written
    as the text the template literal prints for it.
   */
  datatype Opacity = Absent | Given(text: string)

  /** The token's key in the configuration, which is also its CSS property name. */
  function Key(t: Token): (k: string)
    ensures k != []
    ensures forall i :: 0 <= i < |k| ==> 'a' <= k[i] <= 'z' || k[i] == '-'
  {
    match t
    case Brand => "brand"
    case Cta => "cta"
    case Surface => "surface"
    case Bg => "bg"
    case Text => "text"
    case Muted => "muted"
    case Border => "border"
    case OnBrand => "on-brand"
    case Accent => "accent"
  }

  /** Looking a key up among the configured colours. */
  function TokenOf(k: string): (t: Option<Token>)
    ensures t.Some? ==> Key(t.value) == k
  {
    if k == "brand" then Some(Brand)
    else if k == "cta" then Some(Cta)
    else if k == "surface" then Some(Surface)
    else if k == "bg" then Some(Bg)
    else if k == "text" then Some(Text)
    else if k == "muted" then Some(Muted)
    else if k == "border" then Some(Border)
    else if k == "on-brand" then Some(OnBrand)
    else if k == "accent" then Some(Accent)
    else None
  }

  /** Every key looks up its own token, so no two tokens share a key. */
  lemma KeyLookup(t: Token)
    ensures TokenOf(Key(t)) == Some(t)
  {
  }

  lemma KeyInjective(t: Token, u: Token)
    ensures Key(t) == Key(u) <==> t == u
  {
    KeyLookup(t);
    KeyLookup(u);
  }

  /**
    The template both branches of every colour function share: read the
    custom property `--name`, with the opacity after a slash when one is
    given.
   */
  function Rgb(name: string, o: Opacity): (css: string)
    ensures |css| > 11 + |name| && css[..10] == "rgb(var(--"
    ensures css[10..10 + |name|] == name && css[10 + |name|] == ')'
    ensures o.Given? ==> |css| > 14 + |name| && css[10 + |name| + 2] == '/'
    ensures o.Absent? ==> |css| == 12 + |name|
  {
    var head := "rgb(var(--" + name;
    var css :=
      match o
      case Absent => head + "))"
      case Given(v) => head + ") / " + v + ")";
    assert css[..|head|] == head;
    assert head[..10] == "rgb(var(--" && head[10..] == name;
    css
  }

  /** The colour the token's function returns for an opacity: opaque exactly when no opacity is given. */
  function Color(t: Token, o: Opacity): (css: string)
    ensures |css| > 11 + |Key(t)| && css[..10] == "rgb(var(--" && css[10..10 + |Key(t)|] == Key(t) && css[10 + |Key(t)|] == ')'
    ensures o.Absent? <==> '/' !in css
  {
    var css := Rgb(Key(t), o);
    assert o.Absent? ==> '/' !in css by {
      if o.Absent? {
        forall i | 0 <= i < |css| ensures css[i] != '/' {
          if 10 <= i < 10 + |Key(t)| {
            assert css[i] == css[10..10 + |Key(t)|][i - 10];
          } else if i < 10 {
            assert css[i] == css[..10][i];
          }
        }
      }
    }
    css
  }

  /** The first position at or after from where s holds c, or |s| when there is none. */
  function IndexFrom(s: string, c: char, from: nat): (i: nat)
    requires from <= |s|
    ensures from <= i <= |s|
    ensures i < |s| ==> s[i] == c
    ensures forall j :: from <= j < i ==> s[j] != c
    decreases |s| - from
  {
    if from == |s| || s[from] == c then from else IndexFrom(s, c, from + 1)
  }

  /** Reading the template back: the property name up to the first `)`, then either `))` or `) / v)`. */
  function ParseRgb(css: string): (r: Option<(string, Opacity)>)
    ensures r.Some? ==> ')' !in r.value.0
  {
    if |css| < 10 || css[..10] != "rgb(var(--" then None
    else
      var j := IndexFrom(css, ')', 10);
      var rest := css[j..];
      var name := css[10..j];
      assert ')' !in name by {
        forall i | 0 <= i < |name| ensures name[i] != ')' {
          assert name[i] == css[10 + i];
        }
      }
      if rest == "))" then Some((name, Absent))
      else if |rest| >= 5 && rest[..4] == ") / " && rest[|rest| - 1] == ')' then Some((name, Given(rest[4..|rest| - 1])))
      else None
  }

  /** Reading back the template recovers the name and the opacity, for any name without a `)`. */
  lemma RgbParses(name: string, o: Opacity)
    requires ')' !in name
    ensures ParseRgb(Rgb(name, o)) == Some((name, o))
  {
    var css := Rgb(name, o);
    var j := IndexFrom(css, ')', 10);
    assert j == 10 + |name| by {
      forall i | 10 <= i < 10 + |name| ensures css[i] != ')' {
        assert css[i] == css[10..10 + |name|][i - 10] == name[i - 10];
      }
    }
    var head := "rgb(var(--" + name;
    match o
    case Absent =>
      assert css == head + "))";
      assert css[j..] == "))";
    case Given(v) =>
      assert css == head + ") / " + v + ")";
      assert css[j..] == ") / " + v + ")";
  }

  /** Whatever reads back as the template is exactly that template. */
  lemma ParseRgbSound(css: string)
    ensures ParseRgb(css).Some? ==> Rgb(ParseRgb(css).value.0, ParseRgb(css).value.1) == css
  {
    if ParseRgb(css).Some? {
      var j := IndexFrom(css, ')', 10);
      var name, rest := css[10..j], css[j..];
      assert css == css[..10] + name + rest;
      if rest == "))" {
        assert ParseRgb(css).value == (name, Absent);
      } else {
        var v := rest[4..|rest| - 1];
        assert ParseRgb(css).value == (name, Given(v));
        assert rest == rest[..4] + v + [rest[|rest| - 1]];
        GivenTemplate(name, v, css);
      }
    }
  }

  /** The template with an opacity, pieced together as the parser cuts it. */
  lemma GivenTemplate(name: string, v: string, css: string)
    requires css == "rgb(var(--" + name + (") / " + v + ")")
    ensures Rgb(name, Given(v)) == css
  {
  }

  /** Reading a colour back: the template, whose property name must be a configured key. */
  function ParseColor(css: string): (r: Option<(Token, Opacity)>)
  {
    match ParseRgb(css)
    case None => None
    case Some((name, o)) =>
      match TokenOf(name)
      case None => None
      case Some(t) => Some((t, o))
  }

  /** Reading back a colour recovers the token and the opacity it was made from. */
  lemma ParseColorInverts(t: Token, o: Opacity)
    ensures ParseColor(Color(t, o)) == Some((t, o))
  {
    RgbParses(Key(t), o);
    KeyLookup(t);
  }

  /** Whatever reads back as a colour is exactly that colour. */
  lemma ParseColorSound(css: string)
    ensures ParseColor(css).Some? ==> Color(ParseColor(css).value.0, ParseColor(css).value.1) == css
  {
    ParseRgbSound(css);
  }

  /** Different tokens or opacities never yield the same colour. */
  lemma ColorInjective(t: Token, o: Opacity, u: Token, p: Opacity)
    ensures Color(t, o) == Color(u, p) <==> t == u && o == p
  {
    ParseColorInverts(t, o);
    ParseColorInverts(u, p);
  }

  /** The opaque `on-brand` colour reads the hyphenated property. */
  lemma OnBrandExample()
    ensures Color(OnBrand, Absent) == "rgb(var(--on-brand))"
  {
  }

  /** A given opacity is copied verbatim after the slash. */
  lemma OpacityExample()
    ensures Color(Brand, Given("0.5")) == "rgb(var(--brand) / 0.5)"
  {
  }

  /** Only an absent opacity gives the opaque form: an empty one still adds the slash. */
  lemma EmptyOpacityExample()
    ensures Color(Surface, Given("")) == "rgb(var(--surface) / )"
  {
  }

}
