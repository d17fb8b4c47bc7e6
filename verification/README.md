# Token migration scripts and theme colours, in Dafny

This project models the two one-shot migration scripts of the site, which move
hard-coded Tailwind colours onto the theme's semantic tokens, and the nine
opacity-aware colour functions those tokens resolve to:

- `scripts/replace-colors.cjs` rewrites `bg-slate-N`, `text-white`,
  `border-slate-N` and the like, in every front-end file of the repository,
  into `bg-surface`, `text-on-brand`, `border-border` and so on;
- `scripts/replace-text-tokens.cjs` rewrites the arbitrary-value utilities
  `text-[rgb(var(--text-secondary))]` and `text-[rgb(var(--text-primary))]`
  under `src` into `text-muted` and `text-text`;
- `tailwind.config.mjs` binds each of the nine colour tokens to a CSS custom
  property and answers Tailwind with `rgb(var(--NAME))`, or
  `rgb(var(--NAME) / OPACITY)` when an opacity is given.

Modules, one concept each:

| file | module | what it holds |
|---|---|---|
| optional.dfy, chars.dfy | `Optional`, `Chars` | `Option`; JavaScript's word characters (`[A-Za-z0-9_]`), digits and ASCII lower-casing |
| regex_replace.dfy | `RegexReplace` | `String.prototype.replace` with a global regex for the three pattern shapes the scripts use (`\bSTEM\d+\b`, `\bSTEM\b`, a plain substring): a character scanner and the ECMAScript leftmost-first search, proved equal; the replacement is inserted verbatim, as JavaScript does for a replacement without `$` |
| rule_interaction.dfy | `RuleInteraction` | conditions on a rule's strings under which a rule's output holds no prefixed match (`Dead`), cannot create another pattern (`NoNew`) or removes its own pattern (`SelfClean`) |
| replace_colors.dfy | `ReplaceColors` | the colour script's thirteen rules and `replaceContent` |
| replace_text_tokens.dfy | `ReplaceTextTokens` | the token script's six rules and `replaceContent` |
| file_tree.dfy | `FileTree` | the file tree, `path.extname` and `walk` |
| migration.dfy | `Migration` | `main` of both scripts: which files are written, with what, and which paths are reported |
| tailwind_colors.dfy | `TailwindColors` | the nine colour functions and a parser that inverts them |
| utilities.dfy | `Utilities` | Tailwind colour class names (`dark:hover:bg-surface`), rendered and read back |
| rule_targets.dfy | `RuleTargets` | every replacement the scripts write is a colour utility of a configured token |

The scripts read and write real files.  Here the file system is an immutable
tree (`FileTree.Node`), a path is its sequence of names from the root, and
`main` yields the list of writes it performs in order, plus the list of
paths it reports.  `Migration.After` replays those writes to state what every
file holds at the end.

### Behaviour worth knowing

- Neither script is idempotent on every input:
  - `border-slate-3-slate-5` becomes `border-border-slate-5`, and a second run
    makes it `border-border-border` (`ReplaceColors.NotIdempotent`);
  - `text-[rgb(var(--text-primary))]-[rgb(var(--text-primary))]` becomes
    `text-text-[rgb(var(--text-primary))]`, and a second run makes it
    `text-text-text` (`ReplaceTextTokens.NotIdempotent`).

  A second run changes nothing on `bg-slate-N dark:bg-slate-N border-slate-N`
  for any digit runs N (`ReplaceColors.ExampleDarkAndBorderTwice`).  It also
  changes nothing on a text without an `l` or a `w`
  (`ReplaceColors.FixedWithoutLW`).
- Every colour-script pattern is wrapped in `\b`.  The token script's
  patterns have no `\b`, so they also match inside longer words.
- The token script walks `src` but reports paths relative to the repository
  root, so they start with `src/` (`Migration.TokensRelUnderSrc`).

## Model

| member | source | states |
|---|---|---|
| RegexReplace.MatchLenIsMatches | scripts/replace-colors.cjs:25 | The greedy match of `\bSTEM\d+\b` (take every digit, then test `\b`) is the only match the regex admits. So backtracking never finds another. |
| RegexReplace.ScanIsSearchReplace | scripts/replace-colors.cjs:25 | The character scanner equals the ECMAScript global replace for a replacement without `$`. That replace finds the leftmost match, keeps the text before it, emits the replacement and searches again after the match. |
| RegexReplace.FirstMatchIsLeftmost | scripts/replace-colors.cjs:25 | The match the search finds is a match, and no match starts further left. |
| RegexReplace.OccursIffFirstMatch | scripts/replace-text-tokens.cjs:24 | The pattern occurs somewhere exactly when the leftmost-match search finds something. |
| RegexReplace.ScanUnchangedIff | scripts/replace-text-tokens.cjs:24 | For a rule whose replacement disagrees with its pattern's stem at some position within their common length, the replace leaves the text unchanged exactly when the pattern occurs nowhere. |
| RegexReplace.ReplaceAllWithoutMatch | scripts/replace-colors.cjs:23-49 | Replace lines run in order leave a text alone when none of their patterns occurs in it. |
| RegexReplace.ScanKeepsOut | scripts/replace-colors.cjs:25 | A character found neither in the text nor in the replacement is not in the output. |
| RegexReplace.ReplaceDigitsAtStart | scripts/replace-colors.cjs:25 | A text opening with `STEM` and a digit run, then a non-word character or the end, has that token replaced. Scanning resumes after the digits. |
| RuleInteraction.Pullback | scripts/replace-colors.cjs:25 | Under conditions on the rule's strings, a match found in the output at a step boundary was already in the input. |
| RuleInteraction.Dead | scripts/replace-colors.cjs:25-28 | Under conditions on the prefix and the rule's strings, the rule's pattern behind the prefix (such as `dark:`) occurs nowhere in the rule's output. |
| RuleInteraction.NoNew | scripts/replace-colors.cjs:39-47 | Under conditions on the rule's strings, a rule cannot create an occurrence of an unrelated pattern that was absent from its input. |
| RuleInteraction.SelfClean | scripts/replace-colors.cjs:25 | Under conditions on the rule's strings, one run leaves no match of the rule's own pattern, so a second run changes nothing. |
| ReplaceColors.BgSlateShadowsPrefixed | scripts/replace-colors.cjs:25-28 | After line 25, lines 26, 27 and 28 find nothing. |
| ReplaceColors.TextSlateShadowsPrefixed | scripts/replace-colors.cjs:31-32 | After line 31, line 32 finds nothing. |
| ReplaceColors.TextWhiteShadowsPrefixed | scripts/replace-colors.cjs:36-47 | After line 36 and the border and bg-white lines, line 47 finds nothing. |
| ReplaceColors.BorderSlateShadowsPrefixed | scripts/replace-colors.cjs:39-40 | After line 39, line 40 finds nothing. |
| ReplaceColors.BgWhiteShadowsPrefixed | scripts/replace-colors.cjs:43-44 | After line 43, line 44 finds nothing. |
| ReplaceColors.LiveRulesSuffice | scripts/replace-colors.cjs:22-50 | `replaceContent` equals lines 25, 31, 35, 36, 39 and 43 alone. The other seven lines are dead. |
| ReplaceColors.UnchangedWithoutPatterns | scripts/replace-colors.cjs:22-50 | A text in which none of the six live patterns occurs comes back unchanged, so `main` does not write it. |
| ReplaceColors.FixedWithoutLW | scripts/replace-colors.cjs:22-50 | A text without an `l` or a `w` comes back unchanged. |
| ReplaceColors.ExampleSurfaceOnBrand | scripts/replace-colors.cjs:25-36 | `bg-slate-N` plus a separator plus `text-white` becomes `bg-surface` plus the separator plus `text-on-brand`. This holds for any digit run and any non-word separator. |
| ReplaceColors.ExampleDarkAndBorder | scripts/replace-colors.cjs:25-39 | `bg-slate-N dark:bg-slate-M border-slate-K` becomes `bg-surface dark:bg-surface border-border`, for any digit runs. |
| ReplaceColors.ExampleDarkAndBorderTwice | scripts/replace-colors.cjs:22-50 | Running the script again on that example's output changes nothing. |
| ReplaceColors.BgSlateNeedsBoundaries | scripts/replace-colors.cjs:25 | A word character right before `bg-slate-N` (`xbg-slate-5`), or right after its digits (`bg-slate-5a`), leaves the token alone. |
| ReplaceColors.BgSlateSelfClean | scripts/replace-colors.cjs:25 | Line 25 leaves no `bg-slate-N` behind, so running it twice is running it once. |
| ReplaceColors.NotIdempotent | scripts/replace-colors.cjs:39 | `border-slate-N-slate-M` becomes `border-border-slate-M` in one run and `border-border-border` in the next. So two runs differ from one. |
| ReplaceTextTokens.PrefixedLinesDead | scripts/replace-text-tokens.cjs:24-30 | `replaceContent` equals lines 24 and 25 alone. Those lines already rewrite the tokens behind `dark:` and `hover:`, so lines 27-30 never fire. |
| ReplaceTextTokens.PrefixedSecondaryGone | scripts/replace-text-tokens.cjs:24-29 | After lines 24 and 25, no `dark:` or `hover:` secondary token is left. |
| ReplaceTextTokens.PrefixedPrimaryGone | scripts/replace-text-tokens.cjs:25-30 | After line 25, no `dark:` or `hover:` primary token is left. |
| ReplaceTextTokens.UnchangedWithoutTokens | scripts/replace-text-tokens.cjs:22-32 | A text holding neither old token comes back unchanged. |
| ReplaceTextTokens.SecondaryChangesIff | scripts/replace-text-tokens.cjs:24 | Line 24 changes the text exactly when the secondary token occurs in it. |
| ReplaceTextTokens.PrimaryChangesIff | scripts/replace-text-tokens.cjs:25 | Line 25 changes the text exactly when the primary token occurs in it. |
| ReplaceTextTokens.SecondarySelfClean | scripts/replace-text-tokens.cjs:24 | One run of line 24 leaves no secondary token behind, and a second run changes nothing. |
| ReplaceTextTokens.NotIdempotent | scripts/replace-text-tokens.cjs:25 | `text-[rgb(var(--text-primary))]-[rgb(var(--text-primary))]` becomes `text-text-[rgb(var(--text-primary))]` in one run and `text-text-text` in the next. |
| FileTree.ExtName | scripts/replace-colors.cjs:16 | The extension is empty exactly when the name has no `.` past its first character, or is `..`. Otherwise it is the suffix from the last `.`, with no other `.` in it. |
| FileTree.EligibleByExt | scripts/replace-colors.cjs:16 | Whether a file is listed depends on its last extension alone, lower-cased. |
| FileTree.UpperCaseEligible | scripts/replace-colors.cjs:16 | `Page.ASTRO` is listed: the extension test ignores case. |
| FileTree.LastExtensionCounts | scripts/replace-colors.cjs:16 | `types.d.ts` is listed: only the last extension counts. |
| FileTree.UnlistedNotEligible | scripts/replace-colors.cjs:5 | `logo.svg` is not listed: `.svg` is not among the nine extensions. |
| FileTree.DotFileNotEligible | scripts/replace-colors.cjs:16 | `.md` is not listed: a dot-file has no extension. |
| FileTree.WalkIsKeptFiles | scripts/replace-colors.cjs:7-20 | `walk` lists exactly the files of the tree, depth first in readdir order, that lie under no `node_modules` or `.git` directory and have an allowed extension. |
| FileTree.KeptBelow | scripts/replace-colors.cjs:12-14 | Below a pruned directory nothing is listed. Below any other directory, exactly what that directory's own walk lists. |
| FileTree.WalkAppend | scripts/replace-colors.cjs:10-18 | Walking a concatenation of entries walks each part in turn, so subdirectory results are spliced in place. |
| FileTree.WalkKeepsOut | scripts/replace-colors.cjs:13-16 | Every listed file lies below the walked directory, under no `node_modules` or `.git` at any depth, with a lower-cased extension in the allow-list. |
| FileTree.WalkDistinct | scripts/replace-colors.cjs:7-20 | In a tree whose sibling names are distinct, `walk` lists every path at most once. |
| Migration.WalkRoot | scripts/replace-text-tokens.cjs:4 | The colour script walks the repository, the token script its `src`; both lie within the repository. |
| Migration.Join | scripts/replace-colors.cjs:57 | A relative path starts with its first segment, followed by `/` when more segments follow. |
| Migration.Run | scripts/replace-colors.cjs:52-66 | `main` performs the planned writes for the walk's listing, in order. It reports, for each write, that file's path relative to the repository. |
| Migration.PlanSound | scripts/replace-colors.cjs:56-66 | Every write is to a listed, unskipped file, and puts there that file's rewritten text, which differs from the old one. |
| Migration.PlanComplete | scripts/replace-colors.cjs:59-64 | Every listed, unskipped file whose rewrite differs is written with the rewritten text. |
| Migration.Untouched | scripts/replace-colors.cjs:56-66 | A file outside the listing keeps its content. |
| Migration.FinalContent | scripts/replace-colors.cjs:59-65 | When no path is listed twice, every listed file ends up with its rewritten text. A skipped file keeps its old one. |
| Migration.SkipByTopEntry | scripts/replace-colors.cjs:57-59 | A file is skipped exactly when the name of the top-level entry it lies under starts with `scripts` (so `scripts-old/` and `scripts.md` too). |
| Migration.TokensRelUnderSrc | scripts/replace-text-tokens.cjs:35-38 | The token script's reported paths all start with `src/`, and it skips no file. |
| Migration.PlanDistinct | scripts/replace-colors.cjs:62-64 | When no path is listed twice, no path is written twice. |
| Migration.RunWritesOnce | scripts/replace-colors.cjs:53-66 | In a tree whose sibling names are distinct, `main` lists every file at most once and writes each at most once. |
| TailwindColors.Key | tailwind.config.mjs:9-44 | Each token's key is non-empty and made of lower-case letters and `-`, as the configuration's keys (including `on-brand`) are. |
| TailwindColors.KeyInjective | tailwind.config.mjs:9-44 | No two tokens share a key. |
| TailwindColors.Color | tailwind.config.mjs:9-44 | A token's colour reads the custom property named by its key. It has a `/` exactly when an opacity is given. |
| TailwindColors.RgbParses | tailwind.config.mjs:10-11 | Reading back the `rgb(var(--NAME))` or `rgb(var(--NAME) / v)` template recovers the name and the opacity, verbatim. |
| TailwindColors.ParseColorInverts | tailwind.config.mjs:9-44 | Reading back any token's colour recovers the token and the opacity. |
| TailwindColors.ParseColorSound | tailwind.config.mjs:9-44 | Whatever reads back as a colour is exactly that token's colour for that opacity. |
| TailwindColors.ColorInjective | tailwind.config.mjs:9-44 | Different tokens or different opacities never give the same colour. |
| TailwindColors.OnBrandExample | tailwind.config.mjs:37-38 | The opaque `on-brand` colour is `rgb(var(--on-brand))`. |
| TailwindColors.OpacityExample | tailwind.config.mjs:9-11 | Brand at opacity `0.5` is `rgb(var(--brand) / 0.5)`. |
| TailwindColors.EmptyOpacityExample | tailwind.config.mjs:17-19 | An empty opacity is not an absent one: `surface` at `""` is `rgb(var(--surface) / )`. |
| Utilities.RenderParse | tailwind.config.mjs:9-44 | Whatever reads as a colour utility of a configured token is exactly the class name that utility renders to. |
| Utilities.ParseRender | tailwind.config.mjs:9-44 | Reading back a utility's class name recovers its variants, its kind and its token. |
| Utilities.RenderInjective | tailwind.config.mjs:9-44 | Two utilities with the scripts' variants render to the same class name only when they are equal. |
| RuleTargets.ColorRulesTargetTokens | scripts/replace-colors.cjs:25-47 | Each of the thirteen colour replacements renders a colour utility whose token is `surface`, `muted`, `on-brand` or `border`. |
| RuleTargets.ColorRulesReadBack | scripts/replace-colors.cjs:25-47 | Each colour replacement reads back as the utility its rule writes. |
| RuleTargets.TokenRulesTargetTokens | scripts/replace-text-tokens.cjs:24-30 | Each of the six token replacements renders a text utility of the `muted` or `text` token. |
| RuleTargets.TokenRulesReadBack | scripts/replace-text-tokens.cjs:24-30 | Each token replacement reads back as the utility its rule writes. |
| RuleTargets.ColorReplacementsVerbatim | scripts/replace-colors.cjs:25-47 | No colour replacement holds a `$`, so JavaScript inserts each one verbatim, as the model does. |
| RuleTargets.TokenReplacementsVerbatim | scripts/replace-text-tokens.cjs:24-30 | No token replacement holds a `$`, so JavaScript inserts each one verbatim, as the model does. |

## Left out

- File-system I/O: `readdirSync`, `readFileSync` and `writeFileSync` become the immutable tree `FileTree.Node` and the list of writes. A failing call aborts the real script; that abort is not modelled.
- Console output: the count, the list of paths and the colour script's 200-path print cap are not modelled. The reported list itself is `changed` of `Migration.Run`.
- Symbolic links and other non-directories: the scripts treat anything that is not a directory as a file. The model has only files and directories.
- Shared files: each listed path is an independent file. Hard links, and symbolic links to files, make two paths one file, because `readFileSync` and `writeFileSync` follow them. The model cannot represent that. For such a file `main` rewrites the shared text once per path, and `Migration.FinalContent` does not hold: two hard-linked `.md` files holding `border-slate-3-slate-5` end as `border-border-border`, not `border-border-slate-5`.
- `__dirname` and `path.resolve`: the repository root is the parameter `repo`.
- Path separators: relative paths are joined with `/` as on POSIX; Windows `\` is not modelled.
- File content is modelled as decoded text. The UTF-8 decoding by `readFileSync(..., 'utf8')` and the re-encoding by `writeFileSync` are not modelled: invalid bytes become U+FFFD, and JavaScript strings are UTF-16 code units. `Migration.PlanSound` and `Migration.FinalContent` hold for the decoded text.
- `path.extname` is modelled for bare file names only. That is all the scripts pass it.
- `String.prototype.toLowerCase` is modelled as ASCII lower-casing. For this allow-list it is exact: the only non-ASCII character that lower-cases to ASCII is KELVIN SIGN (to `k`), and no allowed extension contains a `k`.
- `$` substitution patterns in replacement strings (`$&`, `` $` ``, `$'`, `$1`, `$$`): the model inserts every replacement verbatim, so the generic `RegexReplace` lemmas describe JavaScript's replace only for replacements without `$`. No rule of either script has one (`RuleTargets.ColorReplacementsVerbatim`, `RuleTargets.TokenReplacementsVerbatim`).
- Empty regex stems: no rule has one, and the matcher returns no match for an empty stem, where JavaScript would match the empty string.
- Migration.FinalContent: assumes no path is listed twice, which holds for any real directory tree (`FileTree.Valid`, `Migration.RunWritesOnce`). It also assumes that distinct paths are distinct files; see the line on shared files.
- Opacity: `TailwindColors.Opacity` holds the text the template literal prints for the value. How JavaScript turns a number or another value into that text is not modelled; `undefined` is `Absent`.
- Utilities: only the variants the rules write (none, `dark:`, `hover:`, `dark:hover:`) are covered by the round-trip lemmas. Tailwind's full class-name grammar is not modelled.
- The rest of tailwind.config.mjs (the `content` globs, `darkMode` and the `typography` block) is static configuration data.
- generate-maps.py is floating-point image generation. src/content/config.ts is a schema for libraries outside this repository. src/data/navLinks.ts and astro.config.mjs are static data. None of them is part of this model.
