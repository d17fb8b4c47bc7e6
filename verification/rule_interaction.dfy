/**
  How one replace rule interacts with the text it produces.  The facts here
  are stated for arbitrary rules under conditions that only look at the
  rules' own strings, so that each concrete rule list discharges them by
  inspecting a few literals:

    - `Pullback`: a match that appears at a step boundary of the output was
      already present in the input (the rule did not build it);
    - `Dead`: after a rule has run, its pattern preceded by a fixed prefix
      such as `dark:` occurs nowhere in the output;
    - `NoNew`: a rule cannot create an occurrence of an unrelated pattern.
 */
module RuleInteraction {

  import opened Optional
  import opened Chars
  import opened RegexReplace

  /** Every suffix of w disagrees with repl somewhere in their common length. */
  predicate SuffixesClash(w: string, repl: string) {
    forall k :: 0 <= k < |w| ==> Clash(w[k..], repl)
  }

  /** The replacement starts with a letter (a word character that is not a digit). */
  predicate StartsWithLetter(repl: string) {
    repl != [] && IsWord(repl[0]) && !IsDigit(repl[0])
  }

  /** A `\bSTEM\b` pattern whose stem ends in a word character. */
  predicate ClosesOnWord(p: Pattern) {
    p.WordLiteral? ==> p.stem != [] && IsWord(p.stem[|p.stem| - 1])
  }

  /** What ends a match of q right after its stem when c comes next instead: `\b` or `\d`. */
  predicate Blocks(q: Pattern, c: char) {
    || (q.WordLiteral? && IsWord(c))
    || (q.WordDigits? && !IsDigit(c))
  }

  /**
    A replacement starting at position k of a match of q would disagree
    with the stem, or would put a character right after the stem that ends
    the match.
   */
  predicate ShieldedAt(q: Pattern, repl: string, k: nat)
    requires k < |q.stem|
  {
    || Clash(q.stem[k..], repl)
    || (&& |q.stem| - k < |repl|
        && q.stem[k..] == repl[..|q.stem| - k]
        && Blocks(q, repl[|q.stem| - k]))
  }

  /**
    The replacement cannot start anywhere inside a match of q, nor supply
    the character that closes q's trailing `\b`.
   */
  predicate Pullbackable(q: Pattern, repl: string) {
    && q.stem != []
    && (forall k :: 0 <= k < |q.stem| ==> ShieldedAt(q, repl, k))
    && StartsWithLetter(repl)
    && ClosesOnWord(q)
  }

  /** No replacement starts at position k of the output t. */
  predicate NoReplAt(repl: string, t: string, k: nat)
    requires k <= |t|
  {
    !(repl <= t[k..])
  }

  /** The last character of a match is a word character exactly when the replacement's is. */
  predicate EndsAlike(r: Rule) {
    && r.replacement != []
    && r.pattern.stem != []
    && IsWord(r.replacement[|r.replacement| - 1])
       == (r.pattern.WordDigits? || IsWord(r.pattern.stem[|r.pattern.stem| - 1]))
  }

  /** The pattern p with the fixed text P put in front of its stem. */
  function Prefixed(P: string, p: Pattern): (q: Pattern)
    ensures q.stem == P + p.stem
    ensures q.Literal? == p.Literal? && q.WordDigits? == p.WordDigits?
  {
    match p
    case WordDigits(st) => WordDigits(P + st)
    case WordLiteral(st) => WordLiteral(P + st)
    case Literal(st) => Literal(P + st)
  }

  /**
    q cannot match at position k of a text that starts with repl: the stem
    disagrees with what repl puts there, or `\b` fails at k.
   */
  predicate Shut(q: Pattern, repl: string, k: nat)
    requires k < |repl|
  {
    || Clash(repl[k..], q.stem)
    || (q.Bounded() && 0 < k && q.stem != [] && IsWord(repl[k - 1]) == IsWord(q.stem[0]))
  }

  /**
    As Shut, or q is literal and repl ends with the first part of the prefix
    P, so that the rest of q would have to follow the replacement.
   */
  predicate BlockedInside(q: Pattern, P: string, repl: string, k: nat)
    requires k < |repl|
  {
    || Shut(q, repl, k)
    || (q.Literal? && |repl| - k <= |P| && repl[k..] == P[..|repl| - k])
  }

  /** `\b` always holds between the prefix P and the stem of p. */
  predicate PrefixJoins(P: string, p: Pattern) {
    P != [] && p.Bounded() ==> p.stem != [] && IsWord(P[|P| - 1]) != IsWord(p.stem[0])
  }

  /** Everything `Dead` needs to know about the prefix P and the rule r. */
  predicate DeadCondition(P: string, r: Rule) {
    && Pullbackable(r.pattern, r.replacement)
    && SuffixesClash(P, r.replacement)
    && PrefixJoins(P, r.pattern)
    && (forall k :: 0 <= k < |r.replacement| ==> BlockedInside(Prefixed(P, r.pattern), P, r.replacement, k))
    && (r.pattern.Literal? || EndsAlike(r))
  }

  /** Everything `NoNew` needs to know about the pattern q and the rule r. */
  predicate NoNewCondition(q: Pattern, r: Rule) {
    && Pullbackable(q, r.replacement)
    && (forall k :: 0 <= k < |r.replacement| ==> Shut(q, r.replacement, k))
    && (q.Literal? || EndsAlike(r))
  }

  /** A non-empty replacement never makes the output shorter than one step's worth. */
  lemma ScanEmpty(r: Rule, before: bool, s: string)
    requires r.replacement != []
    ensures Scan(r, before, s) == [] <==> s == []
  {
  }

  /**
    When no replacement starts in the first m characters of the output,
    they were copied from the input, and the scan goes on from there.
   */
  lemma {:induction false} CopiedPrefix(r: Rule, before: bool, s: string, m: nat)
    requires m <= |Scan(r, before, s)|
    requires forall k :: 0 <= k < m ==> NoReplAt(r.replacement, Scan(r, before, s), k)
    ensures m <= |s| && Scan(r, before, s)[..m] == s[..m]
    ensures Scan(r, before, s)[m..] == Scan(r, WordBefore(before, s, m), s[m..])
    decreases m
  {
    var t := Scan(r, before, s);
    if m == 0 {
      assert s[0..] == s;
      assert t[0..] == t;
    } else {
      assert s != [];
      assert NoReplAt(r.replacement, t, 0);
      assert t[0..] == t;
      match MatchLen(r.pattern, before, s)
      case Some(n) =>
        assert false;
      case None =>
        var t' := t[1..];
        assert t[0] == s[0] && t' == Scan(r, IsWord(s[0]), s[1..]);
        assert forall k :: 0 <= k < m - 1 ==> NoReplAt(r.replacement, t', k) by {
          forall k | 0 <= k < m - 1
            ensures NoReplAt(r.replacement, t', k)
          {
            assert t'[k..] == t[k + 1..];
            assert NoReplAt(r.replacement, t, k + 1);
          }
        }
        CopiedPrefix(r, IsWord(s[0]), s[1..], m - 1);
        ConsPrefix(t, s, m);
        assert WordBefore(IsWord(s[0]), s[1..], m - 1) == WordBefore(before, s, m) by {
          if m > 1 {
            assert s[1..][m - 2] == s[m - 1];
          }
        }
        assert s[1..][m - 1..] == s[m..];
        assert t'[m - 1..] == t[m..];
    }
  }

  /** Two texts that agree on their first character and on the next m - 1 agree on their first m. */
  lemma ConsPrefix(t: string, s: string, m: nat)
    requires 0 < m <= |t| && m <= |s| && t[0] == s[0]
    requires t[1..][..m - 1] == s[1..][..m - 1]
    ensures t[..m] == s[..m]
  {
    assert t[..m] == [t[0]] + t[1..][..m - 1];
    assert s[..m] == [s[0]] + s[1..][..m - 1];
  }

  /** A string whose suffixes all clash with repl leaves no room for repl to start inside it. */
  lemma ClashNoRepl(w: string, repl: string, t: string)
    requires SuffixesClash(w, repl)
    requires w <= t
    ensures forall k :: 0 <= k < |w| ==> NoReplAt(repl, t, k)
  {
    forall k | 0 <= k < |w|
      ensures NoReplAt(repl, t, k)
    {
      assert w[k..] <= t[k..] by {
        assert t[k..][..|w| - k] == t[..|w|][k..];
      }
      ClashBlocksStart(w[k..], repl, t[k..]);
    }
  }

  /** A text that starts with w cannot also start with a string that clashes with w. */
  lemma ClashBlocksStart(w: string, repl: string, t: string)
    requires Clash(w, repl)
    requires w <= t
    ensures !(repl <= t)
  {
    var d :| 0 <= d < |w| && d < |repl| && w[d] != repl[d];
    assert t[d] == w[d];
  }

  /** Where the output shows a non-word character (or ends), the input shows the same. */
  lemma FirstCharCopied(r: Rule, before: bool, s: string)
    requires StartsWithLetter(r.replacement)
    requires var t := Scan(r, before, s); t == [] || !IsWord(t[0])
    ensures var t := Scan(r, before, s); (t == [] ==> s == []) && (t != [] ==> s != [] && s[0] == t[0])
  {
  }

  /** Whether p matches s[..n] depends only on s[..n] and the character after it. */
  lemma MatchesTransfer(p: Pattern, before: bool, t: string, s: string, n: nat)
    requires Matches(p, before, t, n)
    requires n <= |s| && s[..n] == t[..n]
    requires n == |t| <==> n == |s|
    requires n < |t| ==> !IsWord(t[n]) && s[n] == t[n]
    requires p.WordDigits? || p.WordLiteral? ==> 0 < n
    ensures Matches(p, before, s, n)
  {
    assert s[..|p.stem|] == s[..n][..|p.stem|];
    assert t[..|p.stem|] == t[..n][..|p.stem|];
    if 0 < n {
      assert s[0] == s[..n][0];
      assert t[0] == t[..n][0];
      assert s[n - 1] == s[..n][n - 1];
      assert t[n - 1] == t[..n][n - 1];
    }
    if p.WordDigits? {
      forall i | |p.stem| <= i < n
        ensures IsDigit(s[i])
      {
        assert s[i] == s[..n][i];
        assert t[i] == t[..n][i];
      }
    }
  }

  /** No replacement starts inside a match of q in the output. */
  lemma MatchNoRepl(q: Pattern, repl: string, before: bool, t: string, e: nat)
    requires Pullbackable(q, repl)
    requires MatchLen(q, before, t) == Some(e)
    ensures forall k :: 0 <= k < e ==> NoReplAt(repl, t, k)
    ensures !(repl <= t)
  {
    var n := |q.stem|;
    MatchLenIsMatches(q, before, t, e);
    forall k | 0 <= k < e
      ensures NoReplAt(repl, t, k)
    {
      if k < n {
        assert ShieldedAt(q, repl, k);
        assert q.stem[k..] <= t[k..] by {
          assert t[k..][..n - k] == t[..n][k..];
        }
        if Clash(q.stem[k..], repl) {
          ClashBlocksStart(q.stem[k..], repl, t[k..]);
        } else if repl <= t[k..] {
          assert false;
        }
      } else {
        assert t[k..][0] == t[k];
      }
    }
    assert NoReplAt(repl, t, 0);
    assert t[0..] == t;
  }

  /**
    A match of q at a step boundary of the output was already a match, of
    the same length, in the input.
   */
  lemma Pullback(q: Pattern, r: Rule, before: bool, s: string)
    requires Pullbackable(q, r.replacement)
    requires MatchLen(q, before, Scan(r, before, s)).Some?
    ensures MatchLen(q, before, s) == MatchLen(q, before, Scan(r, before, s))
  {
    var t := Scan(r, before, s);
    var e := MatchLen(q, before, t).value;
    MatchLenIsMatches(q, before, t, e);
    MatchNoRepl(q, r.replacement, before, t, e);
    CopiedPrefix(r, before, s, e);
    if q.Bounded() {
      assert IsWord(t[e - 1]) by {
        if q.WordLiteral? {
          assert t[e - 1] == t[..|q.stem|][|q.stem| - 1];
        }
      }
      FirstCharCopied(r, WordBefore(before, s, e), s[e..]);
      if e < |t| {
        assert t[e..][0] == t[e];
        assert s[e..][0] == s[e];
      }
    }
    assert Matches(q, before, s, e) by {
      if q.Bounded() {
        MatchesTransfer(q, before, t, s, e);
      } else {
        assert s[..|q.stem|] == s[..e];
      }
    }
    MatchLenIsMatches(q, before, s, e);
  }

  /**
    A match of the prefixed pattern is a match of the plain pattern just
    after the prefix.
   */
  lemma PrefixedMatch(P: string, p: Pattern, before: bool, t: string)
    requires p.stem != [] && PrefixJoins(P, p)
    requires MatchLen(Prefixed(P, p), before, t).Some?
    ensures |P| <= |t| && MatchLen(p, WordBefore(before, t, |P|), t[|P|..]).Some?
  {
    var q := Prefixed(P, p);
    var m := MatchLen(q, before, t).value;
    MatchLenIsMatches(q, before, t, m);
    var t' := t[|P|..];
    var ctx := WordBefore(before, t, |P|);
    var m' := m - |P|;
    assert t[..|q.stem|] == q.stem;
    assert t'[..|p.stem|] == p.stem by {
      assert t'[..|p.stem|] == t[..|q.stem|][|P|..];
    }
    if p.Bounded() {
      BoundariesAfterPrefix(P, p, before, t, m);
    }
    if p.WordDigits? {
      DigitsAfterPrefix(t, |P|, |q.stem|, m);
    }
    assert Matches(p, ctx, t', m');
    MatchLenIsMatches(p, ctx, t', m');
  }

  /** The word boundaries around a prefixed match are still there once the prefix is cut off. */
  lemma BoundariesAfterPrefix(P: string, p: Pattern, before: bool, t: string, m: nat)
    requires p.Bounded() && p.stem != [] && PrefixJoins(P, p)
    requires |P| + |p.stem| <= m <= |t| && t[..|P| + |p.stem|] == P + p.stem
    requires Boundary(before, t, 0) && Boundary(before, t, m)
    ensures Boundary(WordBefore(before, t, |P|), t[|P|..], 0)
    ensures Boundary(WordBefore(before, t, |P|), t[|P|..], m - |P|)
  {
    var t' := t[|P|..];
    assert t'[0] == t[|P|] == (P + p.stem)[|P|] == p.stem[0];
    if P != [] {
      assert t[|P| - 1] == (P + p.stem)[|P| - 1] == P[|P| - 1];
    }
    if m - |P| < |t'| {
      assert t'[m - |P|] == t[m];
    }
    assert t'[m - |P| - 1] == t[m - 1];
  }

  /** A run of digits in t from a to m is one in t[k..] from a - k to m - k. */
  lemma DigitsAfterPrefix(t: string, k: nat, a: nat, m: nat)
    requires k <= a <= m <= |t|
    requires forall i :: a <= i < m ==> IsDigit(t[i])
    ensures forall i :: a - k <= i < m - k ==> IsDigit(t[k..][i])
  {
    forall i | a - k <= i < m - k
      ensures IsDigit(t[k..][i])
    {
      assert t[k..][i] == t[i + k];
    }
  }

  /**
    A rule whose replacement clashes with its own stem never leaves a match
    of its pattern at a step boundary of its output.
   */
  lemma NoMatchAtStart(r: Rule, before: bool, s: string)
    requires Pullbackable(r.pattern, r.replacement)
    ensures MatchLen(r.pattern, before, Scan(r, before, s)).None?
  {
    var t := Scan(r, before, s);
    if MatchLen(r.pattern, before, t).Some? {
      Pullback(r.pattern, r, before, s);
      MatchNoRepl(r.pattern, r.replacement, before, t, MatchLen(r.pattern, before, t).value);
      assert false;
    }
  }

  /** Suffixes of a string whose suffixes all clash also have that property. */
  lemma SuffixesClashDrop(w: string, repl: string, j: nat)
    requires SuffixesClash(w, repl) && j <= |w|
    ensures SuffixesClash(w[j..], repl)
  {
    forall k | 0 <= k < |w[j..]|
      ensures Clash(w[j..][k..], repl)
    {
      assert w[j..][k..] == w[j + k..];
    }
  }

  /**
    The prefixed pattern never matches at a step boundary of the output:
    the prefix is copied text, and right after it the rule itself has
    already rewritten what the plain pattern would match.
   */
  lemma StartBlocked(P: string, r: Rule, before: bool, s: string)
    requires Pullbackable(r.pattern, r.replacement)
    requires SuffixesClash(P, r.replacement)
    requires PrefixJoins(P, r.pattern)
    ensures MatchLen(Prefixed(P, r.pattern), before, Scan(r, before, s)).None?
  {
    var t := Scan(r, before, s);
    if MatchLen(Prefixed(P, r.pattern), before, t).Some? {
      assert |P| <= |s| && |P| <= |t| && t[|P|..] == Scan(r, WordBefore(before, s, |P|), s[|P|..])
        && WordBefore(before, t, |P|) == WordBefore(before, s, |P|) by {
        assert P <= t by {
          assert t[..|P|] == (P + r.pattern.stem)[..|P|];
        }
        ClashNoRepl(P, r.replacement, t);
        CopiedPrefix(r, before, s, |P|);
        if P != [] {
          assert t[|P| - 1] == t[..|P|][|P| - 1] == s[..|P|][|P| - 1] == s[|P| - 1];
        }
      }
      PrefixedMatch(P, r.pattern, before, t);
      NoMatchAtStart(r, WordBefore(before, s, |P|), s[|P|..]);
      assert false;
    }
  }

  /** A position where Shut holds is no match position. */
  lemma ShutNoMatch(q: Pattern, repl: string, rest: string, before: bool, k: nat)
    requires k < |repl| && q.stem != []
    requires Shut(q, repl, k)
    ensures !MatchesAt(q, before, repl + rest, k)
  {
    var o := repl + rest;
    assert o[k..] == repl[k..] + rest;
    if MatchesAt(q, before, o, k) {
      if Clash(repl[k..], q.stem) {
        ClashBlocksStart(repl[k..], q.stem, o[k..]);
        assert false;
      } else {
        assert false;
      }
    }
  }

  /** The last character of a match: a digit for `\d+`, else the stem's last character. */
  lemma LastMatchedChar(p: Pattern, before: bool, s: string, n: nat)
    requires MatchLen(p, before, s) == Some(n)
    ensures IsWord(s[n - 1]) == (p.WordDigits? || IsWord(p.stem[|p.stem| - 1]))
  {
    var k := |p.stem|;
    if p.WordDigits? {
      assert s[k..][n - k - 1] == s[n - 1];
    } else {
      assert s[..k][k - 1] == s[n - 1];
    }
  }

  /** No position inside a replacement starts a match of the prefixed pattern. */
  lemma InsideBlocked(P: string, r: Rule, before: bool, s: string, n: nat, k: nat)
    requires DeadCondition(P, r)
    requires MatchLen(r.pattern, before, s) == Some(n)
    requires k < |r.replacement|
    ensures !MatchesAt(Prefixed(P, r.pattern), before, r.replacement + Scan(r, IsWord(s[n - 1]), s[n..]), k)
  {
    var q := Prefixed(P, r.pattern);
    var repl := r.replacement;
    var rest := Scan(r, IsWord(s[n - 1]), s[n..]);
    assert BlockedInside(q, P, repl, k);
    if Shut(q, repl, k) {
      ShutNoMatch(q, repl, rest, before, k);
    } else {
      TailBlocked(P, r, before, IsWord(s[n - 1]), s[n..], k);
    }
  }

  /**
    A literal prefixed pattern cannot start at position k of a replacement
    whose tail from k is the first part of the prefix: the rest of the
    prefix and the stem would have to open the following output, which the
    rule has already rewritten.
   */
  lemma TailBlocked(P: string, r: Rule, before: bool, c: bool, s: string, k: nat)
    requires Pullbackable(r.pattern, r.replacement)
    requires SuffixesClash(P, r.replacement)
    requires PrefixJoins(P, r.pattern)
    requires r.pattern.Literal? && k < |r.replacement|
    requires |r.replacement| - k <= |P| && r.replacement[k..] == P[..|r.replacement| - k]
    ensures !MatchesAt(Prefixed(P, r.pattern), before, r.replacement + Scan(r, c, s), k)
  {
    var q := Prefixed(P, r.pattern);
    var repl := r.replacement;
    var rest := Scan(r, c, s);
    if MatchesAt(q, before, repl + rest, k) {
      var j := |repl| - k;
      DropInto(repl, rest, k);
      StemAcrossEnd(repl[k..], rest, P, r.pattern.stem);
      SuffixesClashDrop(P, repl, j);
      StartBlocked(P[j..], r, c, s);
      assert false;
    }
  }

  lemma DropInto(a: string, b: string, k: nat)
    requires k <= |a|
    ensures (a + b)[k..] == a[k..] + b
  {
  }

  /**
    A text that starts with a, the first part of P, and holds P + st
    from its start continues with the rest of P and then st.
   */
  lemma StemAcrossEnd(a: string, rest: string, P: string, st: string)
    requires |a| <= |P| && a == P[..|a|]
    requires P + st <= a + rest
    ensures P[|a|..] + st <= rest
  {
    var j := |a|;
    var w := P[j..] + st;
    assert P + st == a + w;
    forall i | 0 <= i < |w|
      ensures w[i] == rest[i]
    {
      assert (a + w)[j + i] == (a + rest)[j + i];
    }
  }

  /**
    One copy step of the scan: if q does not match where the output starts
    and occurs nowhere in the rest of the output, it occurs nowhere.
   */
  lemma NotAtCopy(q: Pattern, r: Rule, before: bool, s: string)
    requires s != [] && MatchLen(r.pattern, before, s).None?
    requires MatchLen(q, before, Scan(r, before, s)).None?
    requires !Occurs(q, IsWord(s[0]), Scan(r, IsWord(s[0]), s[1..]))
    ensures !Occurs(q, before, Scan(r, before, s))
  {
  }

  /**
    One match step of the scan: if q starts nowhere inside the replacement
    and occurs nowhere in the rest of the output, it occurs nowhere.
   */
  lemma NotAcross(q: Pattern, r: Rule, before: bool, s: string, n: nat, t: string)
    requires MatchLen(r.pattern, before, s) == Some(n)
    requires q.Literal? || EndsAlike(r)
    requires t == r.replacement + Scan(r, IsWord(s[n - 1]), s[n..])
    requires forall k :: 0 <= k < |r.replacement| ==> !MatchesAt(q, before, t, k)
    requires !Occurs(q, IsWord(s[n - 1]), Scan(r, IsWord(s[n - 1]), s[n..]))
    ensures !Occurs(q, before, Scan(r, before, s))
  {
    var rest := Scan(r, IsWord(s[n - 1]), s[n..]);
    ScanAtMatch(r, before, s, n);
    if Occurs(q, before, t) {
      OccursSplit(q, before, r.replacement, rest);
      ContextAfterReplacement(q, r, before, s, n, rest);
      assert false;
    }
  }

  /** Right after the replacement, `\b` sees what it would have seen after the match. */
  lemma ContextAfterReplacement(q: Pattern, r: Rule, before: bool, s: string, n: nat, x: string)
    requires MatchLen(r.pattern, before, s) == Some(n)
    requires q.Literal? || EndsAlike(r)
    ensures Occurs(q, WordBefore(before, r.replacement, |r.replacement|), x) == Occurs(q, IsWord(s[n - 1]), x)
  {
    if q.Literal? {
      LiteralIgnoresContext(q, WordBefore(before, r.replacement, |r.replacement|), IsWord(s[n - 1]), x);
    } else {
      LastMatchedChar(r.pattern, before, s, n);
    }
  }

  /**
    After a rule has run, its pattern behind the prefix P occurs nowhere in
    the output.  With P empty: one pass leaves no match of the rule's own
    pattern, so running the rule again changes nothing.
   */
  lemma {:induction false} Dead(P: string, r: Rule, before: bool, s: string)
    requires DeadCondition(P, r)
    ensures !Occurs(Prefixed(P, r.pattern), before, Scan(r, before, s))
    decreases |s|
  {
    var q := Prefixed(P, r.pattern);
    if s != [] {
      match MatchLen(r.pattern, before, s)
      case None =>
        StartBlocked(P, r, before, s);
        Dead(P, r, IsWord(s[0]), s[1..]);
        NotAtCopy(q, r, before, s);
      case Some(n) =>
        Dead(P, r, IsWord(s[n - 1]), s[n..]);
        var t := r.replacement + Scan(r, IsWord(s[n - 1]), s[n..]);
        forall k | 0 <= k < |r.replacement|
          ensures !MatchesAt(q, before, t, k)
        {
          InsideBlocked(P, r, before, s, n, k);
        }
        NotAcross(q, r, before, s, n, t);
    }
  }

  /**
    A rule whose replacement cannot take part in a match of q creates no
    occurrence of q: a text free of q stays free of q.
   */
  lemma {:induction false} NoNew(q: Pattern, r: Rule, before: bool, s: string)
    requires NoNewCondition(q, r)
    requires !Occurs(q, before, s)
    ensures !Occurs(q, before, Scan(r, before, s))
    decreases |s|
  {
    if s != [] {
      match MatchLen(r.pattern, before, s)
      case None =>
        NoNew(q, r, IsWord(s[0]), s[1..]);
        if MatchLen(q, before, Scan(r, before, s)).Some? {
          Pullback(q, r, before, s);
          assert false;
        }
        NotAtCopy(q, r, before, s);
      case Some(n) =>
        if Occurs(q, IsWord(s[n - 1]), s[n..]) {
          OccursInSuffix(q, before, s, n);
          assert false;
        }
        NoNew(q, r, IsWord(s[n - 1]), s[n..]);
        var rest := Scan(r, IsWord(s[n - 1]), s[n..]);
        var t := r.replacement + rest;
        forall k | 0 <= k < |r.replacement|
          ensures !MatchesAt(q, before, t, k)
        {
          ShutNoMatch(q, r.replacement, rest, before, k);
        }
        NotAcross(q, r, before, s, n, t);
    }
  }

  /** A clash shown by one index. */
  lemma ClashAt(a: string, b: string, d: nat)
    requires d < |a| && d < |b| && a[d] != b[d]
    ensures Clash(a, b)
  {
  }

  /** Only the suffixes of w that start like repl need a closer look. */
  lemma SuffixesClashByFirst(w: string, repl: string)
    requires repl != []
    requires forall k :: 0 <= k < |w| && w[k] == repl[0] ==> Clash(w[k..], repl)
    ensures SuffixesClash(w, repl)
  {
    forall k | 0 <= k < |w|
      ensures Clash(w[k..], repl)
    {
      assert w[k..][0] == w[k];
    }
  }

  /** Only the stem positions holding repl's first character need a closer look. */
  lemma ShieldedByFirst(q: Pattern, repl: string)
    requires repl != []
    requires forall k :: 0 <= k < |q.stem| && q.stem[k] == repl[0] ==> ShieldedAt(q, repl, k)
    ensures forall k :: 0 <= k < |q.stem| ==> ShieldedAt(q, repl, k)
  {
    forall k | 0 <= k < |q.stem|
      ensures ShieldedAt(q, repl, k)
    {
      assert q.stem[k..][0] == q.stem[k];
    }
  }

  /** Only the replacement positions holding the stem's first character need a closer look. */
  lemma ShutByFirst(q: Pattern, repl: string)
    requires q.stem != []
    requires forall k :: 0 <= k < |repl| && repl[k] == q.stem[0] ==> Shut(q, repl, k)
    ensures forall k :: 0 <= k < |repl| ==> Shut(q, repl, k)
  {
    forall k | 0 <= k < |repl|
      ensures Shut(q, repl, k)
    {
      assert repl[k..][0] == repl[k];
    }
  }

  /**
    A rule whose replacement can never complete its own pattern leaves no
    occurrence of it behind, so running the rule twice is running it once.
   */
  lemma SelfClean(r: Rule, x: string)
    requires DeadCondition([], r)
    ensures !Occurs(r.pattern, false, Replace(r, x))
    ensures Replace(r, Replace(r, x)) == Replace(r, x)
  {
    Dead([], r, false, x);
    assert [] + r.pattern.stem == r.pattern.stem;
    assert Prefixed([], r.pattern) == r.pattern;
    Idle(r, Replace(r, x));
  }

}
