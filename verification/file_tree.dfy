/**
  `walk` of scripts/replace-colors.cjs and scripts/replace-text-tokens.cjs
  (the two copies are identical): a depth-first listing of a directory tree
  in readdir order that skips every directory called `node_modules` or
  `.git`, wherever it sits, and keeps the files whose lower-cased extension
  is one of nine front-end extensions.

  The file system is an immutable tree: a directory's `children` are its
  entries in the order readdir returns them, and a file carries the text
  the scripts would read from it.  A path is the sequence of names from the
  file-system root, so joining a name onto a directory is appending it.
 */
module FileTree {

  import opened Chars

  type Path = seq<string>

  datatype Node =
    | File(name: string, content: string)
    | Dir(name: string, children: seq<Node>)

  /** A listed file: where it is and what it holds. */
  datatype Entry = Entry(path: Path, content: string)

  /** The extensions the scripts rewrite, already lower-case. */
  const Exts: set<string> := {".astro", ".html", ".js", ".jsx", ".ts", ".tsx", ".css", ".md", ".mdx"}

  /** Directory names the walk never enters. */
  predicate Pruned(name: string) {
    name == "node_modules" || name == ".git"
  }

  /** The last position of c in s, or -1 when c does not occur. */
  function LastIndex(s: string, c: char): (i: int)
    ensures -1 <= i < |s|
    ensures 0 <= i ==> s[i] == c
    ensures forall j :: i < j < |s| ==> s[j] != c
  {
    if s == [] then -1
    else if s[|s| - 1] == c then |s| - 1
    else LastIndex(s[..|s| - 1], c)
  }

  /**
    `path.extname` of a bare file name: the text from the last `.` to the
    end, or nothing when the name has no `.` past its first character (a
    name like `.gitignore` has no extension) or is `..`.
   */
  function ExtName(name: string): (ext: string)
    ensures ext != [] ==> |ext| < |name| && name[|name| - |ext|..] == ext
    ensures ext != [] ==> ext[0] == '.' && '.' !in ext[1..]
    ensures ext == [] <==> name == ".." || forall j :: 0 < j < |name| ==> name[j] != '.'
  {
    var i := LastIndex(name, '.');
    if i <= 0 || name == ".." then [] else name[i..]
  }

  /** Whether the walk lists a file of this name: its extension, lower-cased, is allowed. */
  predicate Eligible(name: string) {
    Lower(ExtName(name)) in Exts
  }

  /**
    The walk: for each entry in order, a directory contributes its own walk
    in place unless its name is pruned, and a file contributes itself when
    its extension is allowed.
   */
  function Walk(dir: Path, entries: seq<Node>): seq<Entry>
    decreases entries
  {
    if entries == [] then []
    else
      var here :=
        match entries[0]
        case File(name, content) => if Eligible(name) then [Entry(dir + [name], content)] else []
        case Dir(name, children) => if Pruned(name) then [] else Walk(dir + [name], children);
      here + Walk(dir, entries[1..])
  }

  // ---- A reference listing: every file, then a filter ----

  /** Every file under the entries, depth first, with nothing skipped. */
  function AllFiles(dir: Path, entries: seq<Node>): seq<Entry>
    decreases entries
  {
    if entries == [] then []
    else
      var here :=
        match entries[0]
        case File(name, content) => [Entry(dir + [name], content)]
        case Dir(name, children) => AllFiles(dir + [name], children);
      here + AllFiles(dir, entries[1..])
  }

  /**
    Whether the walk from dir keeps the file at path p: p lies strictly
    below dir, no directory between dir and the file is pruned, and the
    file's extension is allowed.
   */
  predicate Kept(dir: Path, p: Path) {
    && |dir| < |p|
    && (forall k :: |dir| <= k < |p| - 1 ==> !Pruned(p[k]))
    && Eligible(p[|p| - 1])
  }

  /** The entries of s that the walk from dir keeps, in their order. */
  function KeptFiles(dir: Path, s: seq<Entry>): (r: seq<Entry>)
    ensures |r| <= |s|
    ensures forall e :: e in r ==> e in s && Kept(dir, e.path)
  {
    if s == [] then []
    else (if Kept(dir, s[0].path) then [s[0]] else []) + KeptFiles(dir, s[1..])
  }

  lemma {:induction false} KeptFilesAppend(dir: Path, a: seq<Entry>, b: seq<Entry>)
    ensures KeptFiles(dir, a + b) == KeptFiles(dir, a) + KeptFiles(dir, b)
    decreases |a|
  {
    if a == [] {
      assert a + b == b;
    } else {
      assert (a + b)[0] == a[0];
      assert (a + b)[1..] == a[1..] + b;
      KeptFilesAppend(dir, a[1..], b);
    }
  }

  /** Every file lies strictly below the directory it was listed from. */
  lemma {:induction false} AllFilesBelow(dir: Path, entries: seq<Node>)
    ensures forall e :: e in AllFiles(dir, entries) ==> |dir| < |e.path| && e.path[..|dir|] == dir
    decreases entries
  {
    if entries != [] {
      AllFilesBelow(dir, entries[1..]);
      match entries[0]
      case File(name, content) =>
      case Dir(name, children) =>
        AllFilesBelow(dir + [name], children);
        forall e | e in AllFiles(dir + [name], children)
          ensures |dir| < |e.path| && e.path[..|dir|] == dir
        {
          assert e.path[..|dir|] == e.path[..|dir| + 1][..|dir|];
        }
    }
  }

  /** One file below a directory called name, as seen from its parent. */
  lemma KeptOne(dir: Path, name: string, p: Path)
    requires |dir| + 1 < |p| && p[..|dir| + 1] == dir + [name]
    ensures Kept(dir, p) == (!Pruned(name) && Kept(dir + [name], p))
  {
    assert p[|dir|] == (dir + [name])[|dir|];
  }

  /**
    Below a directory called name, the walk from its parent keeps exactly
    what the walk from the directory itself keeps, unless name is pruned,
    in which case it keeps nothing.
   */
  lemma {:induction false} KeptBelow(dir: Path, name: string, s: seq<Entry>)
    requires forall e :: e in s ==> |dir| + 1 < |e.path| && e.path[..|dir| + 1] == dir + [name]
    ensures KeptFiles(dir, s) == if Pruned(name) then [] else KeptFiles(dir + [name], s)
    decreases |s|
  {
    if s != [] {
      assert s[0] in s;
      KeptOne(dir, name, s[0].path);
      KeptBelow(dir, name, s[1..]);
    }
  }

  /**
    The walk is the reference listing filtered by `Kept`: the same files,
    in the same order.  So it lists a file exactly when the file lies under
    no pruned directory and has an allowed extension.
   */
  lemma {:induction false} WalkIsKeptFiles(dir: Path, entries: seq<Node>)
    ensures Walk(dir, entries) == KeptFiles(dir, AllFiles(dir, entries))
    decreases entries
  {
    if entries != [] {
      WalkIsKeptFiles(dir, entries[1..]);
      match entries[0]
      case File(name, content) =>
        var e := Entry(dir + [name], content);
        assert Kept(dir, e.path) == Eligible(name);
        KeptFilesAppend(dir, [e], AllFiles(dir, entries[1..]));
      case Dir(name, children) =>
        var below := AllFiles(dir + [name], children);
        WalkIsKeptFiles(dir + [name], children);
        AllFilesBelow(dir + [name], children);
        forall e | e in below
          ensures |dir| + 1 < |e.path| && e.path[..|dir| + 1] == dir + [name]
        {
        }
        KeptBelow(dir, name, below);
        KeptFilesAppend(dir, below, AllFiles(dir, entries[1..]));
    }
  }

  /** Walking a concatenation of entries walks each part in turn. */
  lemma {:induction false} WalkAppend(dir: Path, a: seq<Node>, b: seq<Node>)
    ensures Walk(dir, a + b) == Walk(dir, a) + Walk(dir, b)
    decreases |a|
  {
    if a == [] {
      assert a + b == b;
    } else {
      assert (a + b)[0] == a[0];
      assert (a + b)[1..] == a[1..] + b;
      WalkAppend(dir, a[1..], b);
    }
  }

  /** Every listed file lies below no pruned directory and has an allowed extension. */
  lemma WalkKeepsOut(dir: Path, entries: seq<Node>)
    ensures forall e :: e in Walk(dir, entries) ==>
      && |dir| < |e.path|
      && e.path[..|dir|] == dir
      && (forall k :: |dir| <= k < |e.path| - 1 ==> e.path[k] != "node_modules" && e.path[k] != ".git")
      && Lower(ExtName(e.path[|e.path| - 1])) in Exts
  {
    WalkIsKeptFiles(dir, entries);
    AllFilesBelow(dir, entries);
  }

  // ---- Each file is listed once ----

  /** The name every node carries. */
  function NameOf(n: Node): string {
    match n
    case File(name, _) => name
    case Dir(name, _) => name
  }

  /** A directory listing as a file system gives it: no two entries share a name, at any depth. */
  predicate Valid(entries: seq<Node>)
    decreases entries
  {
    && (forall i, j :: 0 <= i < j < |entries| ==> NameOf(entries[i]) != NameOf(entries[j]))
    && (forall i :: 0 <= i < |entries| ==> entries[i].Dir? ==> Valid(entries[i].children))
  }

  /** No two entries of s have the same path. */
  predicate Distinct(s: seq<Entry>) {
    forall i, j :: 0 <= i < j < |s| ==> s[i].path != s[j].path
  }

  /** Every file under the entries sits, one level below dir, under one of their names. */
  lemma {:induction false} AllFilesNamed(dir: Path, entries: seq<Node>)
    ensures forall e :: e in AllFiles(dir, entries) ==>
      |dir| < |e.path| && exists i :: 0 <= i < |entries| && e.path[|dir|] == NameOf(entries[i])
    decreases entries
  {
    if entries != [] {
      AllFilesNamed(dir, entries[1..]);
      match entries[0]
      case File(name, content) =>
      case Dir(name, children) =>
        AllFilesBelow(dir + [name], children);
        forall e | e in AllFiles(dir + [name], children)
          ensures e.path[|dir|] == NameOf(entries[0])
        {
          assert e.path[|dir|] == e.path[..|dir| + 1][|dir|];
        }
      forall e | e in AllFiles(dir, entries[1..])
        ensures exists i :: 0 <= i < |entries| && e.path[|dir|] == NameOf(entries[i])
      {
        var i :| 0 <= i < |entries[1..]| && e.path[|dir|] == NameOf(entries[1..][i]);
        assert entries[1..][i] == entries[i + 1];
      }
    }
  }

  /** Two listings whose paths differ pairwise concatenate to one without repeats. */
  lemma DistinctAppend(a: seq<Entry>, b: seq<Entry>)
    requires Distinct(a) && Distinct(b)
    requires forall x, y :: x in a && y in b ==> x.path != y.path
    ensures Distinct(a + b)
  {
    forall i, j | 0 <= i < j < |a + b|
      ensures (a + b)[i].path != (a + b)[j].path
    {
      if j < |a| {
      } else if i < |a| {
        assert (a + b)[i] in a && (a + b)[j] in b;
      } else {
        assert (a + b)[i] == b[i - |a|] && (a + b)[j] == b[j - |a|];
      }
    }
  }

  /** In a valid tree the reference listing never names a file twice. */
  lemma {:induction false} AllFilesDistinct(dir: Path, entries: seq<Node>)
    requires Valid(entries)
    ensures Distinct(AllFiles(dir, entries))
    decreases entries
  {
    if entries != [] {
      var rest := AllFiles(dir, entries[1..]);
      assert Valid(entries[1..]) by {
        forall i | 0 <= i < |entries[1..]| ensures entries[1..][i] == entries[i + 1] {}
      }
      AllFilesDistinct(dir, entries[1..]);
      AllFilesNamed(dir, entries[1..]);
      match entries[0]
      case File(name, content) =>
        var here := [Entry(dir + [name], content)];
        forall x, y | x in here && y in rest ensures x.path != y.path {
          var i :| 0 <= i < |entries[1..]| && y.path[|dir|] == NameOf(entries[1..][i]);
          assert entries[1..][i] == entries[i + 1];
          assert x.path[|dir|] == NameOf(entries[0]);
        }
        DistinctAppend(here, rest);
      case Dir(name, children) =>
        var here := AllFiles(dir + [name], children);
        assert entries[0].Dir?;
        AllFilesDistinct(dir + [name], children);
        AllFilesBelow(dir + [name], children);
        forall x, y | x in here && y in rest ensures x.path != y.path {
          var i :| 0 <= i < |entries[1..]| && y.path[|dir|] == NameOf(entries[1..][i]);
          assert entries[1..][i] == entries[i + 1];
          assert x.path[|dir|] == x.path[..|dir| + 1][|dir|];
        }
        DistinctAppend(here, rest);
    }
  }

  /** Keeping some entries of a listing keeps it free of repeats. */
  lemma {:induction false} KeptFilesDistinct(dir: Path, s: seq<Entry>)
    requires Distinct(s)
    ensures Distinct(KeptFiles(dir, s))
    decreases |s|
  {
    if s != [] {
      KeptFilesDistinct(dir, s[1..]);
      var rest := KeptFiles(dir, s[1..]);
      forall y | y in rest ensures s[0].path != y.path {
        var j :| 0 <= j < |s[1..]| && s[1..][j] == y;
        assert s[j + 1] == y;
      }
      DistinctAppend(if Kept(dir, s[0].path) then [s[0]] else [], rest);
    }
  }

  /** In a valid tree the walk lists every file at most once. */
  lemma WalkDistinct(dir: Path, entries: seq<Node>)
    requires Valid(entries)
    ensures Distinct(Walk(dir, entries))
  {
    WalkIsKeptFiles(dir, entries);
    AllFilesDistinct(dir, entries);
    KeptFilesDistinct(dir, AllFiles(dir, entries));
  }

  // ---- Extensions ----

  /** The extension of a name is what follows its stem when that is a dot and at least one more character. */
  lemma ExtNameOf(stem: string, ext: string)
    requires stem != [] && |ext| >= 2 && ext[0] == '.'
    requires forall k :: 0 < k < |ext| ==> ext[k] != '.'
    ensures ExtName(stem + ext) == ext
  {
    var name := stem + ext;
    var i := LastIndex(name, '.');
    assert name[|stem|] == '.';
    forall j | |stem| < j < |name| ensures name[j] != '.' {
      assert name[j] == ext[j - |stem|];
    }
    assert i == |stem|;
    assert name[i..] == ext;
  }

  /** Whether a name with a given extension is listed depends on that extension alone. */
  lemma EligibleByExt(name: string, stem: string, ext: string)
    requires stem != [] && |ext| >= 2 && ext[0] == '.'
    requires forall k :: 0 < k < |ext| ==> ext[k] != '.'
    requires name == stem + ext
    ensures Eligible(name) == (Lower(ext) in Exts)
  {
    ExtNameOf(stem, ext);
  }

  /** Upper- and mixed-case extensions are accepted. */
  lemma UpperCaseEligible()
    ensures Eligible("Page.ASTRO")
  {
    assert "Page.ASTRO" == "Page" + ".ASTRO";
    EligibleByExt("Page.ASTRO", "Page", ".ASTRO");
    LowerAstro();
  }

  lemma LowerAstro()
    ensures Lower(".ASTRO") == ".astro"
  {
    var l := Lower(".ASTRO");
    assert l[1] == 'a' && l[2] == 's' && l[3] == 't' && l[4] == 'r' && l[5] == 'o';
  }

  /** Only the last extension counts. */
  lemma LastExtensionCounts()
    ensures Eligible("types.d.ts")
  {
    assert "types.d.ts" == "types.d" + ".ts";
    EligibleByExt("types.d.ts", "types.d", ".ts");
    assert Lower(".ts") == ".ts";
  }

  /** An extension outside the list is not accepted. */
  lemma UnlistedNotEligible()
    ensures !Eligible("logo.svg")
  {
    assert "logo.svg" == "logo" + ".svg";
    EligibleByExt("logo.svg", "logo", ".svg");
    var l := Lower(".svg");
    assert l[1] == LowerChar(".svg"[1]) == 's';
    FourWithSNotListed(l);
  }

  /** No listed extension is four characters long with `s` after the dot. */
  lemma FourWithSNotListed(ext: string)
    requires |ext| == 4 && ext[1] == 's'
    ensures ext !in Exts
  {
  }

  /** A dot-file has no extension, so `.md` alone is not listed. */
  lemma DotFileNotEligible()
    ensures !Eligible(".md")
  {
    assert ExtName(".md") == [] by {
      assert forall j :: 0 < j < 3 ==> ".md"[j] != '.';
    }
    assert Lower([]) == [];
  }

}
