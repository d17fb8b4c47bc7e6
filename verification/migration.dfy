/**
  `main` of scripts/replace-colors.cjs and scripts/replace-text-tokens.cjs:
  walk a directory, rewrite every listed file with the script's
  `replaceContent`, write back the files whose text changed, and report
  their paths relative to the repository root.

  The colour script walks the whole repository and leaves alone every file
  whose relative path starts with `scripts`; the token script walks only
  `src` and skips nothing.  Reading and writing are modelled as a list of
  writes performed in order; the console report is the list `changed`.
 */
module Migration {

  import opened FileTree
  import ReplaceColors
  import ReplaceTextTokens

  datatype Script = Colors | TextTokens

  /** The script's `replaceContent`. */
  function Rewrite(script: Script, content: string): string {
    match script
    case Colors => ReplaceColors.ReplaceContent(content)
    case TextTokens => ReplaceTextTokens.ReplaceContent(content)
  }

  /** The directory the script walks: the repository itself, or its `src`. */
  function WalkRoot(script: Script, repo: Path): (dir: Path)
    ensures |repo| <= |dir| && dir[..|repo|] == repo
  {
    match script
    case Colors => repo
    case TextTokens => repo + ["src"]
  }

  /** Path segments joined with `/`, as `path.relative` prints them on POSIX. */
  function Join(segs: seq<string>): (s: string)
    ensures segs != [] ==> segs[0] <= s
    ensures |segs| > 1 ==> |segs[0]| < |s| && s[|segs[0]|] == '/'
  {
    if segs == [] then []
    else if |segs| == 1 then segs[0]
    else segs[0] + "/" + Join(segs[1..])
  }

  /** Every entry lies strictly below the directory repo. */
  predicate Below(repo: Path, files: seq<Entry>) {
    forall e :: e in files ==> |repo| < |e.path| && e.path[..|repo|] == repo
  }

  /** `path.relative(repo, p)` for a path strictly below repo. */
  function Rel(repo: Path, p: Path): string
    requires |repo| < |p|
  {
    Join(p[|repo|..])
  }

  /** The script leaves the file alone whatever its content. */
  predicate Skip(script: Script, rel: string) {
    script == Colors && "scripts" <= rel
  }

  /** What `main` writes for one listed file: its new text, unless it is skipped or unchanged. */
  function WriteFor(script: Script, repo: Path, f: Entry): seq<Entry>
    requires |repo| < |f.path|
  {
    var n := Rewrite(script, f.content);
    if !Skip(script, Rel(repo, f.path)) && n != f.content then [Entry(f.path, n)] else []
  }

  /** The writes `main` performs for the listed files, in order. */
  function Plan(script: Script, repo: Path, files: seq<Entry>): seq<Entry>
    requires Below(repo, files)
  {
    if files == [] then []
    else
      assert files[0] in files;
      assert Below(repo, files[1..]) by {
        forall e | e in files[1..] ensures e in files {}
      }
      WriteFor(script, repo, files[0]) + Plan(script, repo, files[1..])
  }

  /** One step of the plan, with what the step needs. */
  lemma PlanCons(script: Script, repo: Path, files: seq<Entry>)
    requires Below(repo, files) && files != []
    ensures |repo| < |files[0].path| && Below(repo, files[1..])
    ensures Plan(script, repo, files) == WriteFor(script, repo, files[0]) + Plan(script, repo, files[1..])
  {
    assert files[0] in files;
    forall e | e in files[1..] ensures e in files {}
  }

  /** Dropping the first file keeps a listing free of repeats. */
  lemma DistinctTail(files: seq<Entry>)
    requires Distinct(files) && files != []
    ensures Distinct(files[1..])
    ensures forall e :: e in files[1..] ==> e.path != files[0].path
  {
    var rest := files[1..];
    forall a, b | 0 <= a < b < |rest| ensures rest[a].path != rest[b].path {
      assert rest[a] == files[a + 1] && rest[b] == files[b + 1];
    }
    forall e | e in rest ensures e.path != files[0].path {
      var k :| 0 <= k < |rest| && rest[k] == e;
      assert files[k + 1] == e;
    }
  }

  lemma Regroup(a: seq<Entry>, b: seq<Entry>, c: seq<Entry>)
    ensures (a + b) + c == a + (b + c)
  {
  }

  /** What a path holds after the writes run in order, starting from c. */
  function After(writes: seq<Entry>, p: Path, c: string): string {
    if writes == [] then c
    else After(writes[1..], p, if writes[0].path == p then writes[0].content else c)
  }

  // ---- The walk stays inside the repository ----

  lemma WalkBelowRepo(script: Script, repo: Path, entries: seq<Node>)
    ensures Below(repo, Walk(WalkRoot(script, repo), entries))
  {
    var dir := WalkRoot(script, repo);
    WalkKeepsOut(dir, entries);
    forall e | e in Walk(dir, entries)
      ensures |repo| < |e.path| && e.path[..|repo|] == repo
    {
      assert e.path[..|repo|] == e.path[..|dir|][..|repo|];
    }
  }

  /** The loop body of `main` for one listed file: the write it performs and the path it reports, if any. */
  method Visit(script: Script, repo: Path, f: Entry) returns (w: seq<Entry>, c: seq<string>)
    requires |repo| < |f.path|
    ensures w == WriteFor(script, repo, f)
    ensures c == if w == [] then [] else [Rel(repo, f.path)]
  {
    w, c := [], [];
    var rel := Rel(repo, f.path);
    if !Skip(script, rel) {
      var n := Rewrite(script, f.content);
      if n != f.content {
        w, c := [Entry(f.path, n)], [rel];
      }
    }
  }

  /** What the driver's loop keeps after handling the first i listed files. */
  predicate Progress(script: Script, repo: Path, files: seq<Entry>, i: int, writes: seq<Entry>, changed: seq<string>) {
    && 0 <= i <= |files|
    && Below(repo, files)
    && Below(repo, files[i..])
    && writes + Plan(script, repo, files[i..]) == Plan(script, repo, files)
    && |changed| == |writes|
    && forall k :: 0 <= k < |writes| ==> |repo| < |writes[k].path| && changed[k] == Rel(repo, writes[k].path)
  }

  /** Handling one more file keeps the loop's invariant. */
  lemma ProgressStep(script: Script, repo: Path, files: seq<Entry>, i: int, writes: seq<Entry>, changed: seq<string>,
                     w: seq<Entry>, c: seq<string>)
    requires Progress(script, repo, files, i, writes, changed) && i < |files|
    requires |repo| < |files[i].path|
    requires w == WriteFor(script, repo, files[i])
    requires c == if w == [] then [] else [Rel(repo, files[i].path)]
    ensures Progress(script, repo, files, i + 1, writes + w, changed + c)
  {
    assert files[i..][0] == files[i] && files[i..][1..] == files[i + 1..];
    PlanCons(script, repo, files[i..]);
    Regroup(writes, w, Plan(script, repo, files[i + 1..]));
    forall k | 0 <= k < |writes + w|
      ensures |repo| < |(writes + w)[k].path| && (changed + c)[k] == Rel(repo, (writes + w)[k].path)
    {
      if k < |writes| {
        assert (writes + w)[k] == writes[k] && (changed + c)[k] == changed[k];
      } else {
        assert (writes + w)[k] == w[0] && (changed + c)[k] == c[0];
      }
    }
  }

  /**
    The driver: one pass over the walk's listing that collects the writes
    and the relative paths it reports.
   */
  method Run(script: Script, repo: Path, entries: seq<Node>) returns (writes: seq<Entry>, changed: seq<string>)
    ensures var files := Walk(WalkRoot(script, repo), entries);
      Below(repo, files) && writes == Plan(script, repo, files)
    ensures |changed| == |writes|
    ensures forall i :: 0 <= i < |writes| ==> |repo| < |writes[i].path| && changed[i] == Rel(repo, writes[i].path)
  {
    var files := Walk(WalkRoot(script, repo), entries);
    WalkBelowRepo(script, repo, entries);
    writes, changed := [], [];
    var i := 0;
    while i < |files|
      invariant Progress(script, repo, files, i, writes, changed)
    {
      assert files[i] in files;
      var w, c := Visit(script, repo, files[i]);
      ProgressStep(script, repo, files, i, writes, changed, w, c);
      writes, changed, i := writes + w, changed + c, i + 1;
    }
    assert files[i..] == [];
  }

  // ---- What the writes do ----

  /** Each write is to a listed, unskipped file, and puts there that file's rewritten, different text. */
  lemma {:induction false} PlanSound(script: Script, repo: Path, files: seq<Entry>)
    requires Below(repo, files)
    ensures forall w :: w in Plan(script, repo, files) ==>
      (exists j :: 0 <= j < |files| && files[j].path == w.path
        && !Skip(script, Rel(repo, files[j].path))
        && w.content == Rewrite(script, files[j].content) != files[j].content)
    decreases |files|
  {
    if files != [] {
      PlanCons(script, repo, files);
      var rest := files[1..];
      PlanSound(script, repo, rest);
      forall w | w in Plan(script, repo, rest)
        ensures exists j ::
                  && 0 <= j < |files| && files[j].path == w.path
                  && !Skip(script, Rel(repo, files[j].path))
                  && w.content == Rewrite(script, files[j].content) != files[j].content
      {
        var j :| 0 <= j < |rest| && rest[j].path == w.path
          && !Skip(script, Rel(repo, rest[j].path))
          && w.content == Rewrite(script, rest[j].content) != rest[j].content;
        assert rest[j] == files[j + 1];
      }
    }
  }

  /** Every listed, unskipped file whose text the rewrite changes is written with the new text. */
  lemma {:induction false} PlanComplete(script: Script, repo: Path, files: seq<Entry>, j: int)
    requires Below(repo, files)
    requires 0 <= j < |files|
    requires !Skip(script, Rel(repo, files[j].path))
    requires Rewrite(script, files[j].content) != files[j].content
    ensures Entry(files[j].path, Rewrite(script, files[j].content)) in Plan(script, repo, files)
    decreases |files|
  {
    PlanCons(script, repo, files);
    if j > 0 {
      assert files[1..][j - 1] == files[j];
      PlanComplete(script, repo, files[1..], j - 1);
    }
  }

  /** Running two lists of writes one after the other. */
  lemma {:induction false} AfterAppend(a: seq<Entry>, b: seq<Entry>, p: Path, c: string)
    ensures After(a + b, p, c) == After(b, p, After(a, p, c))
    decreases |a|
  {
    if a == [] {
      assert a + b == b;
    } else {
      assert (a + b)[0] == a[0] && (a + b)[1..] == a[1..] + b;
      AfterAppend(a[1..], b, p, if a[0].path == p then a[0].content else c);
    }
  }

  /** Writes that never name p leave it as it was. */
  lemma {:induction false} AfterMissing(writes: seq<Entry>, p: Path, c: string)
    requires forall w :: w in writes ==> w.path != p
    ensures After(writes, p, c) == c
    decreases |writes|
  {
    if writes != [] {
      assert writes[0] in writes;
      AfterMissing(writes[1..], p, c);
    }
  }

  /** A file outside the listing is never touched. */
  lemma Untouched(script: Script, repo: Path, files: seq<Entry>, p: Path, c: string)
    requires Below(repo, files)
    requires forall e :: e in files ==> e.path != p
    ensures After(Plan(script, repo, files), p, c) == c
  {
    PlanSound(script, repo, files);
    forall w | w in Plan(script, repo, files) ensures w.path != p {
      var j :| 0 <= j < |files| && files[j].path == w.path;
      assert files[j] in files;
    }
    AfterMissing(Plan(script, repo, files), p, c);
  }

  /** The first listed file ends up rewritten, or kept when skipped, since no later write names it. */
  lemma FinalContentFirst(script: Script, repo: Path, files: seq<Entry>)
    requires Below(repo, files) && Distinct(files) && files != []
    ensures After(Plan(script, repo, files), files[0].path, files[0].content)
      == if Skip(script, Rel(repo, files[0].path)) then files[0].content else Rewrite(script, files[0].content)
  {
    PlanCons(script, repo, files);
    DistinctTail(files);
    var f := files[0];
    var here := WriteFor(script, repo, f);
    AfterAppend(here, Plan(script, repo, files[1..]), f.path, f.content);
    Untouched(script, repo, files[1..], f.path, After(here, f.path, f.content));
  }

  /**
    After `main`, when no path is listed twice, every listed file holds the
    rewrite of its old text, except the skipped ones, which keep theirs.
   */
  lemma {:induction false} FinalContent(script: Script, repo: Path, files: seq<Entry>, j: int)
    requires Below(repo, files) && Distinct(files)
    requires 0 <= j < |files|
    ensures After(Plan(script, repo, files), files[j].path, files[j].content)
      == if Skip(script, Rel(repo, files[j].path)) then files[j].content else Rewrite(script, files[j].content)
    decreases |files|
  {
    if j == 0 {
      FinalContentFirst(script, repo, files);
    } else {
      PlanCons(script, repo, files);
      DistinctTail(files);
      var here := WriteFor(script, repo, files[0]);
      var q := files[j].path;
      assert files[1..][j - 1] == files[j];
      assert files[j] in files[1..];
      AfterAppend(here, Plan(script, repo, files[1..]), q, files[j].content);
      OtherWriteIdle(script, repo, files[0], q, files[j].content);
      FinalContent(script, repo, files[1..], j - 1);
    }
  }

  /** The write for one file leaves every other path as it was. */
  lemma OtherWriteIdle(script: Script, repo: Path, f: Entry, q: Path, c: string)
    requires |repo| < |f.path| && q != f.path
    ensures After(WriteFor(script, repo, f), q, c) == c
  {
    AfterMissing(WriteFor(script, repo, f), q, c);
  }

  // ---- Which files are skipped and what is reported ----

  /**
    The colour script's prefix test on the relative path amounts to a test
    on the first segment alone: a file is skipped exactly when the entry of
    the repository root it lies under has a name starting with `scripts`
    (the `scripts` directory, but also, say, `scripts-old` or a top-level
    `scripts.md`).
   */
  lemma SkipByTopEntry(segs: seq<string>)
    requires segs != []
    ensures "scripts" <= Join(segs) <==> "scripts" <= segs[0]
  {
    var s := Join(segs);
    if |segs[0]| >= 7 {
      assert s[..7] == segs[0][..7];
    } else if |segs| > 1 {
      assert !("scripts" <= s) by {
        assert s[|segs[0]|] != "scripts"[|segs[0]|];
      }
    }
  }

  /** The token script skips nothing and reports every path under `src/`. */
  lemma TokensRelUnderSrc(repo: Path, entries: seq<Node>)
    ensures forall e :: e in Walk(repo + ["src"], entries) ==>
      |repo| + 1 < |e.path| && "src/" <= Rel(repo, e.path) && !Skip(TextTokens, Rel(repo, e.path))
  {
    WalkKeepsOut(repo + ["src"], entries);
    forall e | e in Walk(repo + ["src"], entries)
      ensures "src/" <= Rel(repo, e.path)
    {
      var segs := e.path[|repo|..];
      assert segs[0] == e.path[..|repo| + 1][|repo|] == "src";
      assert |segs| > 1;
      var s := Join(segs);
      assert s[..3] == "src" && s[3] == '/';
      assert s[..4] == "src/";
    }
  }

  /** In a valid tree `main` lists every file at most once and writes each at most once. */
  lemma RunWritesOnce(script: Script, repo: Path, entries: seq<Node>)
    requires Valid(entries)
    ensures var files := Walk(WalkRoot(script, repo), entries);
      Below(repo, files) && Distinct(files) && Distinct(Plan(script, repo, files))
  {
    var files := Walk(WalkRoot(script, repo), entries);
    WalkBelowRepo(script, repo, entries);
    WalkDistinct(WalkRoot(script, repo), entries);
    PlanDistinct(script, repo, files);
  }

  /** Each write goes to a distinct listed file, so no path repeats among the writes. */
  lemma {:induction false} PlanDistinct(script: Script, repo: Path, files: seq<Entry>)
    requires Below(repo, files) && Distinct(files)
    ensures Distinct(Plan(script, repo, files))
    decreases |files|
  {
    if files != [] {
      var rest := files[1..];
      PlanCons(script, repo, files);
      DistinctTail(files);
      PlanDistinct(script, repo, rest);
      PlanSound(script, repo, rest);
      var here := WriteFor(script, repo, files[0]);
      forall x, y | x in here && y in Plan(script, repo, rest) ensures x.path != y.path {
        var k :| 0 <= k < |rest| && rest[k].path == y.path;
        assert rest[k] in rest;
      }
      DistinctAppend(here, Plan(script, repo, rest));
    }
  }

}
