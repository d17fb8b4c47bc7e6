/**
  `String.prototype.replace` with a global regular expression, for the three
  pattern shapes the migration scripts use:

    /\bSTEM\d+\b/g     WordDigits(STEM)
    /\bSTEM\b/g        WordLiteral(STEM)
    /STEM/g            Literal(STEM)

  where STEM is matched character for character.  The replacement is
  inserted verbatim: the `$` substitution patterns of `String.prototype.replace`
  (`$&`, `$1`, `$$`, ...) are not expanded, which agrees with JavaScript
  exactly for a replacement without `$`.  Matching is described on a
  suffix `s` of the text together with `before`, which tells whether the
  character preceding `s` in the text is a word character (false at the start
  of the text).  This is all `\b` ever looks at.
 */
module RegexReplace {

  import opened Optional
  import opened Chars

  datatype Pattern =
    | WordDigits(stem: string)
    | WordLiteral(stem: string)
    | Literal(stem: string)
  {
    /** The pattern is anchored by `\b` on both sides. */
    predicate Bounded() {
      !Literal?
    }
  }

  /** One `out = out.replace(pattern, replacement)` line. */
  datatype Rule = Rule(pattern: Pattern, replacement: string)

  /** Whether the character just before position k of s is a word character. */
  function WordBefore(before: bool, s: string, k: nat): bool
    requires k <= |s|
  {
    if k == 0 then before else IsWord(s[k - 1])
  }

  /** `\b` holds at position k of s. */
  predicate Boundary(before: bool, s: string, k: nat)
    requires k <= |s|
  {
    WordBefore(before, s, k) != (k < |s| && IsWord(s[k]))
  }

  /** Length of the longest run of digits that s starts with. */
  function DigitRun(s: string): (n: nat)
    ensures n <= |s|
    ensures forall i :: 0 <= i < n ==> IsDigit(s[i])
    ensures n < |s| ==> !IsDigit(s[n])
  {
    if s != [] && IsDigit(s[0]) then 1 + DigitRun(s[1..]) else 0
  }

  /**
    The length of the match of p at the very start of s, if any, computed the
    way a backtracking regular-expression engine finds it: `\d+` first takes
    every digit, and the closing `\b` is then tested.
   */
  function MatchLen(p: Pattern, before: bool, s: string): (m: Option<nat>)
    ensures m.Some? ==> 0 < |p.stem| <= m.value <= |s| && s[..|p.stem|] == p.stem
  {
    if p.stem == [] || !(p.stem <= s) then None
    else
      var n := |p.stem|;
      match p
      case Literal(_) => Some(n)
      case WordLiteral(_) =>
        if Boundary(before, s, 0) && Boundary(before, s, n) then Some(n) else None
      case WordDigits(_) =>
        var e := n + DigitRun(s[n..]);
        if Boundary(before, s, 0) && n < e && Boundary(before, s, e) then Some(e) else None
  }

  /**
    The regular expression p, anchored at the start of s, can match exactly
    s[..n]: the declarative reading of the pattern, with no search strategy.
   */
  ghost predicate Matches(p: Pattern, before: bool, s: string, n: nat) {
    && n <= |s|
    && |p.stem| <= n
    && s[..|p.stem|] == p.stem
    && match p
       case Literal(_) => n == |p.stem|
       case WordLiteral(_) =>
         n == |p.stem| && Boundary(before, s, 0) && Boundary(before, s, n)
       case WordDigits(_) =>
         && |p.stem| < n
         && (forall i :: |p.stem| <= i < n ==> IsDigit(s[i]))
         && Boundary(before, s, 0)
         && Boundary(before, s, n)
  }

  /**
    The greedy match is the only one the pattern admits: for `\d+\b` no
    shorter digit run can end on a word boundary, so backtracking never
    produces a different match.  Hence `bg-slate-5a` and `xbg-slate-5` hold no
    match of /\bbg-slate-\d+\b/.
   */
  lemma MatchLenIsMatches(p: Pattern, before: bool, s: string, n: nat)
    requires p.stem != []
    ensures MatchLen(p, before, s) == Some(n) <==> Matches(p, before, s, n)
  {
    var k := |p.stem|;
    if p.WordDigits? && MatchLen(p, before, s) == Some(n) {
      forall i | k <= i < n
        ensures IsDigit(s[i])
      {
        assert s[k..][i - k] == s[i];
      }
    }
  }

  /**
    `s.replace(/p/g, replacement)` on a suffix: at each position the match
    there, if any, is replaced and scanning resumes after it; otherwise one
    character is copied.  Context for `\b` always comes from the original text.
   */
  function Scan(r: Rule, before: bool, s: string): string
    decreases |s|
  {
    if s == [] then []
    else match MatchLen(r.pattern, before, s)
      case Some(n) => r.replacement + Scan(r, IsWord(s[n - 1]), s[n..])
      case None => [s[0]] + Scan(r, IsWord(s[0]), s[1..])
  }

  /** `text.replace(/p/g, replacement)`. */
  function Replace(r: Rule, text: string): string {
    Scan(r, false, text)
  }

  /** A list of replace lines run in order, each on the previous line's output. */
  function ReplaceAll(rules: seq<Rule>, text: string): string
    decreases |rules|
  {
    if rules == [] then text else ReplaceAll(rules[1..], Replace(rules[0], text))
  }

  /** The pattern matches somewhere in s. */
  predicate Occurs(p: Pattern, before: bool, s: string)
    decreases |s|
  {
    s != [] && (MatchLen(p, before, s).Some? || Occurs(p, IsWord(s[0]), s[1..]))
  }

  /** The pattern matches at position k of s. */
  predicate MatchesAt(p: Pattern, before: bool, s: string, k: nat)
    requires k <= |s|
  {
    MatchLen(p, WordBefore(before, s, k), s[k..]).Some?
  }

  /** Where a match starts and how long it is. */
  datatype Hit = Hit(at: nat, len: nat)

  /**
    The leftmost match: what `RegExp.prototype.exec` finds when started at
    `lastIndex` 0 of s.
   */
  function FirstMatch(p: Pattern, before: bool, s: string): (h: Option<Hit>)
    ensures h.Some? ==> 0 < h.value.len && h.value.at + h.value.len <= |s|
    decreases |s|
  {
    if s == [] then None
    else match MatchLen(p, before, s)
      case Some(n) => Some(Hit(0, n))
      case None =>
        match FirstMatch(p, IsWord(s[0]), s[1..])
        case None => None
        case Some(h) => Some(Hit(h.at + 1, h.len))
  }

  /** Position j of s is position j - 1 of s[1..], with the same context. */
  lemma MatchLenTail(p: Pattern, before: bool, s: string, j: nat)
    requires 1 <= j <= |s|
    ensures MatchLen(p, WordBefore(IsWord(s[0]), s[1..], j - 1), s[1..][j - 1..])
         == MatchLen(p, WordBefore(before, s, j), s[j..])
  {
    assert s[1..][j - 1..] == s[j..];
    if j > 1 {
      assert s[1..][j - 2] == s[j - 1];
    }
  }

  /** Positions of s[1..] are the positions of s shifted by one. */
  lemma MatchesAtTail(p: Pattern, before: bool, s: string)
    requires s != []
    ensures MatchesAt(p, before, s, 0) == MatchLen(p, before, s).Some?
    ensures forall j :: 1 <= j <= |s| ==>
      MatchesAt(p, IsWord(s[0]), s[1..], j - 1) == MatchesAt(p, before, s, j)
  {
    assert s[0..] == s;
    forall j | 1 <= j <= |s|
      ensures MatchesAt(p, IsWord(s[0]), s[1..], j - 1) == MatchesAt(p, before, s, j)
    {
      MatchLenTail(p, before, s, j);
    }
  }

  /** FirstMatch finds a match, and no match starts further left. */
  lemma FirstMatchIsLeftmost(p: Pattern, before: bool, s: string)
    ensures var h := FirstMatch(p, before, s);
      && (h.Some? ==> MatchLen(p, WordBefore(before, s, h.value.at), s[h.value.at..]) == Some(h.value.len))
      && forall j :: 0 <= j < |s| && (h.None? || j < h.value.at) ==> !MatchesAt(p, before, s, j)
  {
    FirstMatchMatches(p, before, s);
    NothingBeforeFirstMatch(p, before, s);
  }

  /** The leftmost match is a match. */
  lemma {:induction false} FirstMatchMatches(p: Pattern, before: bool, s: string)
    ensures var h := FirstMatch(p, before, s);
      h.Some? ==> MatchLen(p, WordBefore(before, s, h.value.at), s[h.value.at..]) == Some(h.value.len)
    decreases |s|
  {
    if s != [] && MatchLen(p, before, s).None? {
      FirstMatchMatches(p, IsWord(s[0]), s[1..]);
      var h := FirstMatch(p, IsWord(s[0]), s[1..]);
      if h.Some? {
        MatchLenTail(p, before, s, h.value.at + 1);
      }
    }
  }

  /** No match starts before the leftmost one. */
  lemma {:induction false} NothingBeforeFirstMatch(p: Pattern, before: bool, s: string)
    ensures var h := FirstMatch(p, before, s);
      forall j :: 0 <= j < |s| && (h.None? || j < h.value.at) ==> !MatchesAt(p, before, s, j)
    decreases |s|
  {
    if s != [] {
      MatchesAtTail(p, before, s);
      if MatchLen(p, before, s).None? {
        NothingBeforeFirstMatch(p, IsWord(s[0]), s[1..]);
      }
    }
  }

  /**
    The global replace as the ECMAScript algorithm states it: find the leftmost
    match, keep the text before it, emit the replacement, and search again
    from the end of the match.
   */
  function SearchReplace(r: Rule, before: bool, s: string): string
    decreases |s|, 1
  {
    SpliceHit(r, s, FirstMatch(r.pattern, before, s))
  }

  /** Emits the text around the hit h and searches the rest. */
  function SpliceHit(r: Rule, s: string, h: Option<Hit>): string
    requires h.Some? ==> 0 < h.value.len && h.value.at + h.value.len <= |s|
    decreases |s|, 0
  {
    match h
    case None => s
    case Some(Hit(k, n)) =>
      s[..k] + r.replacement + SearchReplace(r, IsWord(s[k + n - 1]), s[k + n..])
  }

  /** One step of the scanner where nothing matches: the first character is copied. */
  lemma ScanCopyOne(r: Rule, before: bool, s: string)
    requires s != [] && !MatchesAt(r.pattern, before, s, 0)
    ensures Scan(r, before, s) == [s[0]] + Scan(r, IsWord(s[0]), s[1..])
  {
    assert s[0..] == s;
  }

  /** Positions of s[1..] are those of s shifted by one. */
  lemma TailShift(before: bool, s: string, k: nat)
    requires 1 <= k <= |s|
    ensures WordBefore(IsWord(s[0]), s[1..], k - 1) == WordBefore(before, s, k)
    ensures s[1..][k - 1..] == s[k..]
    ensures [s[0]] + s[1..][..k - 1] == s[..k]
  {
    if k > 1 {
      assert s[1..][k - 2] == s[k - 1];
    }
  }

  /** Copying proceeds unchanged up to the first match. */
  lemma {:induction false} ScanCopiesUntil(r: Rule, before: bool, s: string, k: nat)
    requires k <= |s|
    requires forall j :: 0 <= j < k ==> !MatchesAt(r.pattern, before, s, j)
    ensures Scan(r, before, s) == s[..k] + Scan(r, WordBefore(before, s, k), s[k..])
    decreases k
  {
    if k == 0 {
      assert s[k..] == s;
    } else {
      var t := s[1..];
      MatchesAtTail(r.pattern, before, s);
      forall j | 0 <= j < k - 1
        ensures !MatchesAt(r.pattern, IsWord(s[0]), t, j)
      {
        assert MatchesAt(r.pattern, IsWord(s[0]), t, (j + 1) - 1) == MatchesAt(r.pattern, before, s, j + 1);
      }
      ScanCopiesUntil(r, IsWord(s[0]), t, k - 1);
      TailShift(before, s, k);
      ScanCopyOne(r, before, s);
      var rest := Scan(r, WordBefore(before, s, k), s[k..]);
      Concat3(Scan(r, before, s), [s[0]], t[..k - 1], Scan(r, IsWord(s[0]), t), rest, s[..k] + rest);
    }
  }

  /** One step of the scanner at a match. */
  lemma ScanAtMatch(r: Rule, before: bool, s: string, n: nat)
    requires MatchLen(r.pattern, before, s) == Some(n)
    ensures Scan(r, before, s) == r.replacement + Scan(r, IsWord(s[n - 1]), s[n..])
  {}

  /** One step of the search at the leftmost match. */
  lemma SearchReplaceAtHit(r: Rule, before: bool, s: string, k: nat, n: nat)
    requires FirstMatch(r.pattern, before, s) == Some(Hit(k, n))
    ensures SearchReplace(r, before, s)
         == s[..k] + r.replacement + SearchReplace(r, IsWord(s[k + n - 1]), s[k + n..])
  {}

  /** The character-by-character scanner is the leftmost-first global replace. */
  lemma {:induction false} ScanIsSearchReplace(r: Rule, before: bool, s: string)
    ensures Scan(r, before, s) == SearchReplace(r, before, s)
    decreases |s|
  {
    FirstMatchIsLeftmost(r.pattern, before, s);
    match FirstMatch(r.pattern, before, s)
    case None =>
      ScanCopiesUntil(r, before, s, |s|);
      assert s[..|s|] == s;
    case Some(Hit(k, n)) =>
      ScanCopiesUntil(r, before, s, k);
      ScanAtMatch(r, WordBefore(before, s, k), s[k..], n);
      SearchReplaceAtHit(r, before, s, k, n);
      assert s[k..][n..] == s[k + n..];
      assert s[k..][n - 1] == s[k + n - 1];
      ScanIsSearchReplace(r, IsWord(s[k + n - 1]), s[k + n..]);
      Concat3(Scan(r, before, s), s[..k], r.replacement, Scan(r, WordBefore(before, s, k), s[k..]),
              Scan(r, IsWord(s[k + n - 1]), s[k + n..]), SearchReplace(r, before, s));
  }

  /** Concatenation is associative; stated apart to spare the caller's context. */
  lemma AppendAssoc(a: string, b: string, c: string)
    ensures a + (b + c) == a + b + c
  {
  }

  lemma AppendEmpty(a: string)
    ensures a + [] == a
  {
  }

  /** Re-associates a three-part concatenation; kept apart so that the caller's context stays small. */
  lemma Concat3(x: string, a: string, b: string, y: string, t: string, w: string)
    requires x == a + y && y == b + t && w == a + b + t
    ensures x == w
  {
  }

  /** Cutting u + m + v after u. */
  lemma SplitAfter(u: string, m: string, v: string)
    ensures (u + m + v)[..|u|] == u && (u + m + v)[|u|..] == m + v
  {
  }

  /**
    Scanning u + m + v where nothing matches inside u and the rule matches
    exactly m right after it: u is copied and m replaced.
   */
  lemma ScanAcross(r: Rule, before: bool, u: string, m: string, v: string)
    requires forall j :: 0 <= j < |u| ==> !MatchesAt(r.pattern, before, u + m + v, j)
    requires MatchLen(r.pattern, WordBefore(before, u + m + v, |u|), m + v) == Some(|m|)
    ensures Scan(r, before, u + m + v) == u + r.replacement + Scan(r, IsWord(m[|m| - 1]), v)
  {
    var s := u + m + v;
    var mv := m + v;
    var ctx := WordBefore(before, s, |u|);
    var rest := Scan(r, IsWord(m[|m| - 1]), v);
    assert Scan(r, before, s) == u + Scan(r, ctx, mv) by {
      SplitAfter(u, m, v);
      ScanCopiesUntil(r, before, s, |u|);
    }
    assert Scan(r, ctx, mv) == r.replacement + rest by {
      ScanAtMatch(r, ctx, mv, |m|);
      CutAfter(m, v);
    }
    Concat3(Scan(r, before, s), u, r.replacement, Scan(r, ctx, mv), rest, u + r.replacement + rest);
  }

  /** A non-empty run of decimal digits, what `\d+` matches. */
  predicate Digits(d: string) {
    d != [] && forall i :: 0 <= i < |d| ==> IsDigit(d[i])
  }

  /** `\bSTEM\d+\b` matches the stem and the whole digit run when a non-word character (or the end) follows. */
  lemma DigitsMatch(p: Pattern, before: bool, d: string, rest: string)
    requires p.WordDigits? && p.stem != [] && IsWord(p.stem[0]) != before
    requires Digits(d) && (rest == [] || !IsWord(rest[0]))
    ensures MatchLen(p, before, p.stem + d + rest) == Some(|p.stem| + |d|)
  {
    var s := p.stem + d + rest;
    var e := |p.stem| + |d|;
    assert s[..|p.stem|] == p.stem;
    forall i | |p.stem| <= i < e
      ensures IsDigit(s[i])
    {
      assert s[i] == d[i - |p.stem|];
    }
    assert s[e - 1] == d[|d| - 1];
    if rest != [] {
      assert s[e] == rest[0];
    }
    assert Matches(p, before, s, e);
    MatchLenIsMatches(p, before, s, e);
  }

  /** `\bSTEM\b` matches the stem when a non-word character (or the end) follows. */
  lemma WordMatch(p: Pattern, before: bool, rest: string)
    requires p.WordLiteral? && p.stem != [] && IsWord(p.stem[0]) != before
    requires IsWord(p.stem[|p.stem| - 1])
    requires rest == [] || !IsWord(rest[0])
    ensures MatchLen(p, before, p.stem + rest) == Some(|p.stem|)
  {
    var s := p.stem + rest;
    assert s[..|p.stem|] == p.stem;
    assert s[|p.stem| - 1] == p.stem[|p.stem| - 1];
    if rest != [] {
      assert s[|p.stem|] == rest[0];
    }
    assert Matches(p, before, s, |p.stem|);
    MatchLenIsMatches(p, before, s, |p.stem|);
  }

  /** A text that opens with a `\bSTEM\d+\b` match has it replaced and the scan resumes after the digits. */
  lemma ReplaceDigitsAtStart(r: Rule, d: string, v: string)
    requires r.pattern.WordDigits? && r.pattern.stem != [] && IsWord(r.pattern.stem[0])
    requires Digits(d) && (v == [] || !IsWord(v[0]))
    ensures Replace(r, r.pattern.stem + d + v) == r.replacement + Scan(r, true, v)
  {
    var m := r.pattern.stem + d;
    assert m[|m| - 1] == d[|d| - 1];
    DigitsMatch(r.pattern, false, d, v);
    CutAfter(m, v);
    ScanAtMatch(r, false, m + v, |m|);
  }

  /** A text that closes with a `\bSTEM\d+\b` match, and matches nowhere before it, has only that replaced. */
  lemma ReplaceDigitsAtEnd(r: Rule, u: string, d: string)
    requires r.pattern.WordDigits? && r.pattern.stem != [] && IsWord(r.pattern.stem[0])
    requires Digits(d) && (u == [] || !IsWord(u[|u| - 1]))
    requires forall j :: 0 <= j < |u| ==> !MatchesAt(r.pattern, false, u + (r.pattern.stem + d), j)
    ensures Replace(r, u + (r.pattern.stem + d)) == u + r.replacement
  {
    var m := r.pattern.stem + d;
    AppendEmpty(m);
    AppendEmpty(u + m);
    AppendAssoc(u, r.pattern.stem, d);
    assert m[|m| - 1] == d[|d| - 1];
    DigitsMatch(r.pattern, WordBefore(false, u + m + [], |u|), d, []);
    ScanAcross(r, false, u, m, []);
    AppendEmpty(u + r.replacement);
  }

  /** A text that closes with a `\bSTEM\b` match, and matches nowhere before it, has only that replaced. */
  lemma ReplaceWordAtEnd(r: Rule, u: string)
    requires r.pattern.WordLiteral? && r.pattern.stem != [] && IsWord(r.pattern.stem[0])
    requires IsWord(r.pattern.stem[|r.pattern.stem| - 1])
    requires u == [] || !IsWord(u[|u| - 1])
    requires forall j :: 0 <= j < |u| ==> !MatchesAt(r.pattern, false, u + r.pattern.stem, j)
    ensures Replace(r, u + r.pattern.stem) == u + r.replacement
  {
    var m := r.pattern.stem;
    AppendEmpty(m);
    AppendEmpty(u + m);
    WordMatch(r.pattern, WordBefore(false, u + m + [], |u|), []);
    ScanAcross(r, false, u, m, []);
    AppendEmpty(u + r.replacement);
  }

  /** Cutting m + v after a non-empty m. */
  lemma CutAfter(m: string, v: string)
    requires m != []
    ensures (m + v)[|m|..] == v && (m + v)[|m| - 1] == m[|m| - 1]
  {
  }

  /** A plain-substring rule replaces a stem that opens the text and resumes right after it. */
  lemma ReplaceLiteralAtStart(r: Rule, v: string)
    requires r.pattern.Literal? && r.pattern.stem != []
    ensures Replace(r, r.pattern.stem + v) == r.replacement + Scan(r, IsWord(r.pattern.stem[|r.pattern.stem| - 1]), v)
  {
    var s := r.pattern.stem + v;
    assert s[..|r.pattern.stem|] == r.pattern.stem;
    assert s[|r.pattern.stem|..] == v;
    assert s[|r.pattern.stem| - 1] == r.pattern.stem[|r.pattern.stem| - 1];
    ScanAtMatch(r, false, s, |r.pattern.stem|);
  }

  /** A text shorter than the stem holds no match. */
  lemma {:induction false} ShortNoMatch(p: Pattern, before: bool, s: string)
    requires |s| < |p.stem|
    ensures !Occurs(p, before, s)
    decreases |s|
  {
    if s != [] {
      ShortNoMatch(p, IsWord(s[0]), s[1..]);
    }
  }

  /** A plain-substring stem followed by a text too short for another match: only the stem is replaced. */
  lemma ReplaceStemThenShort(r: Rule, t: string)
    requires r.pattern.Literal? && |t| < |r.pattern.stem|
    ensures Replace(r, r.pattern.stem + t) == r.replacement + t
  {
    var b := IsWord(r.pattern.stem[|r.pattern.stem| - 1]);
    ReplaceLiteralAtStart(r, t);
    ShortNoMatch(r.pattern, b, t);
    ScanWithoutMatch(r, b, t);
  }

  /** A plain-substring stem that closes the text and matches nowhere earlier: only the stem is replaced. */
  lemma ReplaceStemAtEnd(r: Rule, u: string)
    requires r.pattern.Literal? && r.pattern.stem != []
    requires forall j :: 0 <= j < |u| ==> !MatchesAt(r.pattern, false, u + r.pattern.stem, j)
    ensures Replace(r, u + r.pattern.stem) == u + r.replacement
  {
    var m := r.pattern.stem;
    AppendEmpty(m);
    AppendEmpty(u + m);
    assert (m + [])[..|m|] == m;
    ScanAcross(r, false, u, m, []);
    AppendEmpty(u + r.replacement);
  }

  /** A stem that disagrees with the text d characters in cannot match there. */
  lemma NoStemHere(p: Pattern, before: bool, s: string, j: nat, d: nat)
    requires j + d < |s| && d < |p.stem| && s[j + d] != p.stem[d]
    ensures !MatchesAt(p, before, s, j)
  {
    assert s[j..][d] == s[j + d];
  }

  /** A match somewhere is the same as a leftmost match. */
  lemma {:induction false} OccursIffFirstMatch(p: Pattern, before: bool, s: string)
    ensures Occurs(p, before, s) <==> FirstMatch(p, before, s).Some?
    decreases |s|
  {
    if s != [] && MatchLen(p, before, s).None? {
      OccursIffFirstMatch(p, IsWord(s[0]), s[1..]);
    }
  }

  /** The replacement differs from the matched text within their common length. */
  predicate Clash(a: string, b: string) {
    exists d :: 0 <= d < |a| && d < |b| && a[d] != b[d]
  }

  /** A pattern that matches nowhere leaves the text as it is. */
  lemma {:induction false} ScanWithoutMatch(r: Rule, before: bool, s: string)
    requires !Occurs(r.pattern, before, s)
    ensures Scan(r, before, s) == s
    decreases |s|
  {
    if s != [] {
      ScanWithoutMatch(r, IsWord(s[0]), s[1..]);
    }
  }

  /**
    Conversely, when the replacement differs from the pattern's stem, any match
    changes the text; so the text is unchanged exactly when nothing matches.
   */
  lemma {:induction false} ScanUnchangedIff(r: Rule, before: bool, s: string)
    requires Clash(r.pattern.stem, r.replacement)
    ensures Scan(r, before, s) == s <==> !Occurs(r.pattern, before, s)
    decreases |s|
  {
    if s == [] {
    } else if !Occurs(r.pattern, before, s) {
      ScanWithoutMatch(r, before, s);
    } else {
      match MatchLen(r.pattern, before, s)
      case Some(n) =>
        var d :| 0 <= d < |r.pattern.stem| && d < |r.replacement| && r.pattern.stem[d] != r.replacement[d];
        var t := Scan(r, before, s);
        assert t[d] == r.replacement[d];
        assert s[d] == r.pattern.stem[d];
      case None =>
        ScanUnchangedIff(r, IsWord(s[0]), s[1..]);
        var t := Scan(r, before, s);
        assert t[1..] == Scan(r, IsWord(s[0]), s[1..]);
    }
  }

  /** Occurrences in a suffix are occurrences in the whole text. */
  lemma {:induction false} OccursInSuffix(p: Pattern, before: bool, s: string, m: nat)
    requires m <= |s|
    requires Occurs(p, WordBefore(before, s, m), s[m..])
    ensures Occurs(p, before, s)
    decreases m
  {
    if m > 0 {
      assert s[1..][m - 1..] == s[m..];
      if m == 1 {
        assert WordBefore(IsWord(s[0]), s[1..], 0) == WordBefore(before, s, 1);
      } else {
        assert s[1..][m - 2] == s[m - 1];
      }
      OccursInSuffix(p, IsWord(s[0]), s[1..], m - 1);
    }
  }

  /**
    An occurrence in a + b starts inside a, or is an occurrence in b read with
    the last character of a as context.
   */
  lemma {:induction false} OccursSplit(p: Pattern, before: bool, a: string, b: string)
    requires Occurs(p, before, a + b)
    ensures (exists k :: 0 <= k < |a| && MatchesAt(p, before, a + b, k))
         || Occurs(p, WordBefore(before, a, |a|), b)
    decreases |a|
  {
    if a != [] {
      var ab := a + b;
      MatchesAtTail(p, before, ab);
      if MatchLen(p, before, ab).Some? {
        assert MatchesAt(p, before, ab, 0);
      } else {
        assert ab[0] == a[0] && ab[1..] == a[1..] + b;
        OccursSplit(p, IsWord(a[0]), a[1..], b);
        if k :| 0 <= k < |a| - 1 && MatchesAt(p, IsWord(a[0]), a[1..] + b, k) {
          assert MatchesAt(p, before, ab, k + 1);
        } else {
          if |a| > 1 {
            assert a[1..][|a| - 2] == a[|a| - 1];
          }
        }
      }
    } else {
      assert a + b == b;
    }
  }

  /** A rule whose pattern does not occur leaves the text as it is. */
  lemma Idle(r: Rule, x: string)
    requires !Occurs(r.pattern, false, x)
    ensures Replace(r, x) == x
  {
    ScanWithoutMatch(r, false, x);
  }

  /** The context flag is irrelevant to a literal pattern. */
  lemma LiteralIgnoresContext(p: Pattern, c1: bool, c2: bool, s: string)
    requires p.Literal?
    ensures Occurs(p, c1, s) == Occurs(p, c2, s)
  {
  }

  /** Running the rules from index i on is running rule i, then the rest. */
  lemma ReplaceAllFrom(rules: seq<Rule>, i: nat, text: string)
    requires i < |rules|
    ensures ReplaceAll(rules[i..], text) == ReplaceAll(rules[i + 1..], Replace(rules[i], text))
  {
    assert rules[i..][0] == rules[i];
    assert rules[i..][1..] == rules[i + 1..];
  }

  /** Running a list of rules that match nowhere leaves the text as it is. */
  lemma {:induction false} ReplaceAllWithoutMatch(rules: seq<Rule>, text: string)
    requires forall i :: 0 <= i < |rules| ==> !Occurs(rules[i].pattern, false, text)
    ensures ReplaceAll(rules, text) == text
    decreases |rules|
  {
    if rules != [] {
      ScanWithoutMatch(rules[0], false, text);
      ReplaceAllWithoutMatch(rules[1..], text);
    }
  }

  /** A rule whose stem contains a character absent from the text never fires. */
  lemma {:induction false} AbsentCharNoMatch(p: Pattern, before: bool, s: string, c: char)
    requires c in p.stem && c !in s
    ensures !Occurs(p, before, s)
    decreases |s|
  {
    if s != [] {
      assert s == [s[0]] + s[1..];
      AbsentCharNoMatch(p, IsWord(s[0]), s[1..], c);
    }
  }

  /** A character found neither in the text nor in the replacement is not in the output. */
  lemma {:induction false} ScanKeepsOut(r: Rule, before: bool, s: string, c: char)
    requires c !in s && c !in r.replacement
    ensures c !in Scan(r, before, s)
    decreases |s|
  {
    if s != [] {
      match MatchLen(r.pattern, before, s)
      case Some(n) =>
        assert s == s[..n] + s[n..];
        ScanKeepsOut(r, IsWord(s[n - 1]), s[n..], c);
      case None =>
        assert s == [s[0]] + s[1..];
        ScanKeepsOut(r, IsWord(s[0]), s[1..], c);
    }
  }

}
