/**
  The class names the migration scripts write: a Tailwind colour utility
  (`bg-`, `text-` or `border-` followed by a token key), possibly behind
  `dark:` and `hover:` variants.  Rendering a utility and reading it back
  are inverse, so a class name determines the token it paints with.
 */
module Utilities {

  import opened Optional
  import opened TailwindColors

  /** The colour utilities the scripts write: background, text and border colour. */
  datatype Kind = Background | Foreground | Outline

  function KindPrefix(k: Kind): (p: string)
    ensures |p| >= 3 && p[|p| - 1] == '-' && (p[0] == 'b' || p[0] == 't')
  {
    match k
    case Background => "bg-"
    case Foreground => "text-"
    case Outline => "border-"
  }

  /** A colour utility: its variants, its kind and the token it paints with. */
  datatype Utility = Utility(variants: string, kind: Kind, token: Token)

  /** The variant prefixes the rules use. */
  predicate Variants(v: string) {
    v == "" || v == "dark:" || v == "hover:" || v == "dark:hover:"
  }

  /** The class name Tailwind reads for a utility. */
  function Render(x: Utility): string {
    x.variants + KindPrefix(x.kind) + Key(x.token)
  }

  // ---- Reading a class name back ----

  /** Whether u holds the text p from position i on. */
  predicate HasAt(u: string, i: nat, p: string) {
    i + |p| <= |u| && forall m :: 0 <= m < |p| ==> u[i + m] == p[m]
  }

  /** Where the leading `dark:` and `hover:` variants of u, from position i on, end. */
  function VariantsEnd(u: string, i: nat): (j: nat)
    requires i <= |u|
    ensures i <= j <= |u|
    decreases |u| - i
  {
    if HasAt(u, i, "dark:") then VariantsEnd(u, i + 5)
    else if HasAt(u, i, "hover:") then VariantsEnd(u, i + 6)
    else i
  }

  /** The kind of utility u names at position j. */
  function KindAt(u: string, j: nat): (k: Option<Kind>)
    ensures k.Some? ==> HasAt(u, j, KindPrefix(k.value))
  {
    if HasAt(u, j, "bg-") then Some(Background)
    else if HasAt(u, j, "text-") then Some(Foreground)
    else if HasAt(u, j, "border-") then Some(Outline)
    else None
  }

  /** Reading a class name: variants, then the kind, then a configured token key. */
  function ParseUtility(u: string): (r: Option<Utility>)
  {
    var j := VariantsEnd(u, 0);
    match KindAt(u, j)
    case None => None
    case Some(k) =>
      match TokenOf(u[j + |KindPrefix(k)|..])
      case None => None
      case Some(t) => Some(Utility(u[..j], k, t))
  }

  /** A text found at a position is the slice there. */
  lemma HasAtSlice(u: string, i: nat, p: string)
    requires HasAt(u, i, p)
    ensures u[i..i + |p|] == p
  {
  }

  /** Whatever reads as a colour utility is exactly what that utility renders to. */
  lemma RenderParse(u: string)
    ensures ParseUtility(u).Some? ==> Render(ParseUtility(u).value) == u
  {
    if ParseUtility(u).Some? {
      var x := ParseUtility(u).value;
      var j := VariantsEnd(u, 0);
      var p := KindPrefix(x.kind);
      HasAtSlice(u, j, p);
      assert u == u[..j] + u[j..j + |p|] + u[j + |p|..];
    }
  }

  // ---- Rendering then reading ----

  /** One differing character rules a text out at a position. */
  lemma NotAt(u: string, i: nat, p: string, m: nat)
    requires m < |p| && i + m < |u| && u[i + m] != p[m]
    ensures !HasAt(u, i, p)
  {
  }

  /** A slice equal to the text puts the text there. */
  lemma AtSlice(u: string, i: nat, p: string)
    requires i + |p| <= |u| && u[i..i + |p|] == p
    ensures HasAt(u, i, p)
  {
    forall m | 0 <= m < |p| ensures u[i + m] == p[m] {
      assert u[i + m] == u[i..i + |p|][m];
    }
  }

  /** No variant starts where the kind does. */
  lemma NoVariantAt(u: string, i: nat)
    requires i < |u| && (u[i] == 'b' || u[i] == 't')
    ensures VariantsEnd(u, i) == i
  {
    NotAt(u, i, "dark:", 0);
    NotAt(u, i, "hover:", 0);
  }

  /** A `dark:` variant is stepped over. */
  lemma DarkStep(u: string, i: nat)
    requires i + 5 <= |u| && u[i..i + 5] == "dark:"
    ensures VariantsEnd(u, i) == VariantsEnd(u, i + 5)
  {
    AtSlice(u, i, "dark:");
  }

  /** A `hover:` variant is stepped over. */
  lemma HoverStep(u: string, i: nat)
    requires i + 6 <= |u| && u[i..i + 6] == "hover:"
    ensures VariantsEnd(u, i) == VariantsEnd(u, i + 6)
  {
    assert u[i + 0] == u[i..i + 6][0];
    NotAt(u, i, "dark:", 0);
    AtSlice(u, i, "hover:");
  }

  /** The variants are read up to the kind that follows them. */
  lemma VariantsEndOf(v: string, rest: string)
    requires Variants(v)
    requires rest != [] && (rest[0] == 'b' || rest[0] == 't')
    ensures VariantsEnd(v + rest, 0) == |v|
  {
    var u := v + rest;
    assert u[|v|] == rest[0];
    NoVariantAt(u, |v|);
    assert u[..|v|] == v;
    if v == "dark:hover:" {
      assert u[0..5] == v[0..5] == "dark:";
      assert u[5..11] == v[5..11] == "hover:";
      DarkStep(u, 0);
      HoverStep(u, 5);
    } else if v == "dark:" {
      assert u[0..5] == "dark:";
      DarkStep(u, 0);
    } else if v == "hover:" {
      assert u[0..6] == "hover:";
      HoverStep(u, 0);
    }
  }

  /** The kind is read off the prefix it renders to. */
  lemma KindAtPrefix(k: Kind, u: string, j: nat)
    requires HasAt(u, j, KindPrefix(k))
    ensures KindAt(u, j) == Some(k)
  {
    var p := KindPrefix(k);
    if k == Foreground {
      assert u[j + 0] == p[0];
      NotAt(u, j, "bg-", 0);
    } else if k == Outline {
      assert u[j + 0] == p[0] && u[j + 1] == p[1];
      NotAt(u, j, "bg-", 1);
      NotAt(u, j, "text-", 0);
    }
  }

  /** Where the pieces of a rendered class name sit. */
  lemma Pieces(v: string, p: string, key: string)
    ensures HasAt(v + (p + key), |v|, p)
    ensures (v + (p + key))[|v| + |p|..] == key && (v + (p + key))[..|v|] == v
  {
    var u := v + (p + key);
    forall m | 0 <= m < |p| ensures u[|v| + m] == p[m] {
      assert u[|v| + m] == (p + key)[m];
    }
  }

  /** Reading a class name, once its variants, kind and key have been located. */
  lemma ParseAt(u: string, j: nat, k: Kind, t: Token)
    requires j <= |u| && VariantsEnd(u, 0) == j && KindAt(u, j) == Some(k)
    requires TokenOf(u[j + |KindPrefix(k)|..]) == Some(t)
    ensures ParseUtility(u) == Some(Utility(u[..j], k, t))
  {
  }

  /** Reading back the pieces of a class name, for any key that looks up a token. */
  lemma ParsePieces(v: string, k: Kind, key: string, t: Token)
    requires Variants(v) && TokenOf(key) == Some(t)
    ensures ParseUtility(v + (KindPrefix(k) + key)) == Some(Utility(v, k, t))
  {
    var p := KindPrefix(k);
    var u := v + (p + key);
    assert VariantsEnd(u, 0) == |v| by {
      VariantsEndOf(v, p + key);
    }
    assert KindAt(u, |v|) == Some(k) && u[|v| + |p|..] == key && u[..|v|] == v by {
      Pieces(v, p, key);
      KindAtPrefix(k, u, |v|);
    }
    ParseAt(u, |v|, k, t);
  }

  /** Reading back a utility's class name recovers the utility, for the variants the rules use. */
  lemma ParseRender(x: Utility)
    requires Variants(x.variants)
    ensures ParseUtility(Render(x)) == Some(x)
  {
    var v, p, key := x.variants, KindPrefix(x.kind), Key(x.token);
    assert Render(x) == v + (p + key);
    KeyLookup(x.token);
    ParsePieces(v, x.kind, key, x.token);
  }

  /** Two utilities of the rules' variants render to different class names. */
  lemma RenderInjective(x: Utility, y: Utility)
    requires Variants(x.variants) && Variants(y.variants)
    ensures Render(x) == Render(y) <==> x == y
  {
    ParseRender(x);
    ParseRender(y);
  }

}
