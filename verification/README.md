# vue-docs-cn-collection: link rewriting and document assembly in Dafny

vue-docs-cn-collection merges the Chinese documentation of the Vue
ecosystem packages into one Markdown file per package. Those packages are
vuex, vue-router, pinia, vite and vue3. For each package it does three
things:

- it walks the sidebar configuration, a tree of bare path strings and
  `{ link, title, text, children, items }` objects;
- it reads every page the tree names, puts the sidebar titles in front as
  headings and demotes the page's own headings to match;
- it rewrites the relative links and `<img>` sources of every page into
  absolute URLs on the package's public site.

This project models that core as pure Dafny functions and a few methods
with loops. It proves what each step computes.

| module | file | what it models |
|---|---|---|
| `Wrappers` | wrappers.dfy | `Option`, and `Result` for exceptions |
| `Strings` | strings.dfy | JavaScript string operations: `indexOf`, `includes`, `replace` with a string pattern, the `/[/]+/g` collapse, `split('/').pop()`, `join` |
| `Nav` | nav.dfy | the sidebar tree, `flatterArr`, `getPageCount`, and the truthy-`link` page counter |
| `Faults` | faults.dfy | the exceptions that can escape, and the outcome of `Promise.all` (which rejection is reported is fixed to list order) |
| `OnlinePaths` | online_paths.dfy | `hostMap` and `imgOnlineMap`, `handlePathDiffInOnlineAndFile` (lib/util.js) and the older `handlePaths` |
| `Scan` | scan.dfy | the `linkReg` and `imgReg` global scans |
| `Resolve` | resolve.dfy | one step of the `reduce` in lib/handle-relative-links.js: normalising, the `purePath`/`hash` split, choosing the best known path, and the same-page and image cases |
| `Rewrite` | rewrite.dfy | the `(?<!{)target(?!})` replacement and `handleLinks` (lib/handle-relative-links.js `main`) |
| `LegacyLinks` | legacy_links.dfy | the older rewriter of lib/handle-links.js |
| `Headings` | headings.dfy | `addSelectedTitleToArticles` under both demotion regexes |
| `Pages` | pages.dfy | what the three assemblers share: the child list, `title \|\| text`, the output file stem, and the group step |
| `Assemble` | assemble.dfy | lib/get-all-zh-docs.js: `addPathToFull`, `paddingSuffix`, `childTxtHandler` and `mergeDocs` |
| `RootAssemble` | root_assemble.dfy | the root-level get-all-zh-docs.js |
| `TsAssemble` | ts_assemble.dfy | ts-get-all-zh-docs.js |

The model treats its inputs as follows:

- Reading a file is the function parameter `read: string -> Option<string>`. `None` stands for the rejection of `readFile`.
- A thrown exception is a `Failure` carrying a `Fault`.
- The `undefined` that `handleLinks` returns for an empty text is `None`.
- The sidebar tree is the already-evaluated `NavNode` value.

Behaviour of the code that the model follows and a reader might not expect:

- `flatterArr` pops from the end of its list, so paths come out in reverse pre-order (`Nav.FlatterArr`), not in declaration order.
- An untitled leaf does not inherit its group's title. Each enclosing title (the group's, and the child's own) demotes the page by one level.
- Resolving a target is a substring search over the known paths, ranked by what remains after the first occurrence, then by path length, then by list order. The target is never joined to the current page's directory.
- A same-page anchor becomes `host ++ public path ++ the target as written`, not its normalised form.
- An unresolved target is left in the text as it was.
- One exception ends the whole run: a missing page (`PageNotFound`) anywhere makes `Promise.all` reject. Which exception is reported when several entries fail depends on timing in the source; see `Faults.AllOf` under "Left out".
- Links are rewritten page by page against each page's own configured path, before the pages are joined.

## Model

| member | source | states |
|---|---|---|
| Nav.FlatterArr | lib/util.js:46-58 | the stack is drained, and the output is the prior `collections` followed by one path per leaf (string or object with a string `link`) in reverse pre-order, `children` before `items` |
| Nav.GetPageCount | lib/get-all-zh-docs.js:133-150 | the count is the number of leaves of the tree, the same leaves `flatterArr` emits; a `link: ''` counts as a page |
| Nav.CountPagesTruthy | get-all-zh-docs.js:84-97 | `docsConf` is drained, and the count is the number of strings plus objects with a truthy `link` |
| Nav.LeafCountIsTruthyCountWithoutEmptyLinks | get-all-zh-docs.js:84-97 | on a tree with no `link: ''`, the truthy counter and the leaf count agree |
| Nav.EmptyLinkCountsDiffer | lib/get-all-zh-docs.js:143-147 | an object with `link: ''` and two children is one page for `getPageCount` and two for the truthy counter |
| Nav.ReverseAppend | lib/util.js:47-56 | reversal turns a concatenation around, which is why popping a stack of children yields reverse order |
| Nav.LeavesAppend | lib/util.js:54-55 | pushing `children` then `items` keeps every leaf of both, in order |
| OnlinePaths.ProfileFor | lib/handle-relative-links.js:18-32 | a package outside `hostMap` gets the host text `undefined`; only vuex has an image table |
| OnlinePaths.FirstContaining | lib/util.js:29 | `findIndex(includes)`: the returned index contains the needle and no earlier path does; -1 when none does |
| OnlinePaths.VueRouterFix | lib/util.js:27-33 | only the first path containing `dynamic-matching.md` changes; that path holds a `.md`, and its first `.md` is replaced by `.html` with everything before and after it kept |
| OnlinePaths.VuexPath | lib/util.js:37-39 | the first `.md` is replaced by `.html` with the rest kept, and `.html` is appended exactly when the result does not already end in it, so every result ends in `.html`; a path without `.md` only gains a missing `.html` suffix |
| OnlinePaths.VuexFix | lib/util.js:34-42 | only the first path containing `migrating-to-4-0-from-3-x` changes, and it becomes `VuexPath` of itself |
| OnlinePaths.HandlePathDiff | lib/util.js:25-45 | the list keeps its length, at most one element changes, and packages other than vue-router and vuex are untouched |
| OnlinePaths.HandlePaths | lib/handle-links.js:106-117 | only the vue-router exception exists; every other package's list is unchanged |
| OnlinePaths.HooksAgreeExceptVuex | lib/handle-links.js:106-117 | the older hook agrees with `handlePathDiffInOnlineAndFile` on every package except vuex |
| Scan.ScanLinks | lib/handle-relative-links.js:15 | every collected target is non-empty and on one line, holds no `)`, does not begin with `= > ( ) <`, and never begins with `http` |
| Scan.NoParenNoLinks | lib/handle-relative-links.js:15 | a text without `(` has no link targets |
| Scan.LinkRoundTrip | lib/handle-relative-links.js:15 | scanning `[label](target)` gives back exactly the target |
| Scan.ScanImgs | lib/handle-relative-links.js:16 | every collected image source is non-empty and on one line |
| Scan.NoAngleNoImgs | lib/handle-relative-links.js:16 | a text without `<` has no image sources |
| Scan.ImgRoundTrip | lib/handle-relative-links.js:16 | scanning `<img src="target">` gives back exactly the target |
| Scan.CollectTargets | lib/handle-relative-links.js:47-49 | one target per collected link and per collected image source, each non-empty |
| Strings.ReplaceFirst | lib/util.js:31 | `replace` with a string pattern: the text is unchanged exactly when the pattern is absent or is its own replacement; otherwise the length changes by the difference |
| Strings.ReplaceFirstAt | lib/util.js:31 | when the pattern occurs at k and at no earlier index, `replace` puts the replacement at k and keeps everything before and after |
| Strings.CollapseSlashes | lib/get-all-zh-docs.js:69 | the result holds no `/`, is empty only for an empty name, and equals the name exactly when the name holds no `/` |
| Strings.CollapseRun | lib/get-all-zh-docs.js:69 | a maximal run of one or more `/` after `/`-free text becomes exactly one `-`, and the rest is collapsed as if from the start |
| Strings.LastSegmentSuffix | lib/get-all-zh-docs.js:101-103 | the last `/`-segment ends in `.md` exactly when the whole path does |
| Strings.LastSegmentEmpty | lib/get-all-zh-docs.js:101-105 | the last segment is empty exactly for an empty path or a path ending in `/` |
| Resolve.StripRelativeFixedIff | lib/handle-relative-links.js:55 | removing `./` and `../` changes a target exactly when it contains `./`, and then shortens it |
| Resolve.StripExtensionsFixedIff | lib/handle-relative-links.js:55 | removing `.md` and `.html` changes a target exactly when it contains either, and then shortens it |
| Resolve.NormaliseFixedIff | lib/handle-relative-links.js:55 | normalising is the identity exactly on targets without `./`, `.md` or `.html` |
| Resolve.SplitTarget | lib/handle-relative-links.js:74 | the pure part is the first run of path characters, and is empty exactly when there is none; the hash is empty or a `#` with more after it on the line; pure part followed by hash occurs in the target |
| Resolve.SplitRoundTrip | lib/handle-relative-links.js:74 | a run of path characters followed by a valid hash splits back into exactly those two parts |
| Resolve.Select | lib/handle-relative-links.js:76-103 | no choice exactly when no known path contains the pure part; otherwise the unique path with the least remainder after its first occurrence, then the shortest, then the first in the list |
| Resolve.BestIsUnique | lib/handle-relative-links.js:93-102 | the two stable sorts single out at most one index |
| Resolve.ExactMatchWins | lib/handle-relative-links.js:76-103 | when some known path equals the pure part, a path equal to it is chosen |
| Resolve.ShorterWinsOnEqualRemain | lib/handle-relative-links.js:98-101 | `api` against `/guide/api` and `/core/api`: both leave 2 characters after the match, so the shorter `/core/api` wins |
| Resolve.ResolveTarget | lib/handle-relative-links.js:55-109 | a `#` target becomes host + public page path + target; an image throws without an image table and otherwise takes its non-empty table entry or stays as written; any other target never throws, is unresolved exactly when no known path contains its pure part, and otherwise becomes host + best path without its first `.md` + hash |
| Resolve.ResolveAll | lib/handle-relative-links.js:53-121 | the results line up one-to-one with the targets (an unresolved target keeps its slot, so the length-mismatch report never fires), or the `reduce` throws exactly when some target throws, and the error is the missing image table |
| Rewrite.FirstFree | lib/handle-relative-links.js:116 | the first occurrence not preceded by `{` and not followed by `}` |
| Rewrite.ReplaceUnbracedFixedIff | lib/handle-relative-links.js:116-117 | the guarded replace leaves the text unchanged exactly when the replacement equals the target or no unguarded occurrence exists |
| Rewrite.ReplaceFromSelf | lib/handle-relative-links.js:116-117 | replacing a target by itself changes nothing |
| Rewrite.ReplaceFromLength | lib/handle-relative-links.js:116-117 | a replacement at least as long as the target never shortens the text, and one no longer than it never lengthens the text |
| Rewrite.BracedUntouched | lib/handle-relative-links.js:115-117 | a heading anchor `{target}` is left as it is |
| Rewrite.AllUnresolvedUnchanged | lib/handle-relative-links.js:112-118 | when no target resolves, the `forEach` leaves the text as it was |
| Rewrite.SelfResultsUnchanged | lib/handle-relative-links.js:112-118 | targets that are unresolved or resolve to themselves leave the text as it was |
| Rewrite.HandleLinks | lib/handle-relative-links.js:45-130 | `undefined` exactly for an empty text; throws exactly when resolving the collected targets throws, and then with the missing image table of a target that threw (the `RegExp` syntax error is not modelled, see below) |
| Rewrite.ReplaceOnlyOccurrence | lib/handle-relative-links.js:116-117 | a target between `(` and `)` that occurs nowhere else in the text is replaced there, and the rest of the text is kept |
| Rewrite.LinkRewritten | lib/handle-relative-links.js:112-118 | a page holding one link `[label](target)` whose target resolves to a URL and appears nowhere else comes back as `[label](URL)` |
| Rewrite.PlainPageUnchanged | lib/handle-relative-links.js:45-130 | a non-empty text without `(` or `<` comes back unchanged |
| Rewrite.UnresolvedPageUnchanged | lib/handle-relative-links.js:103-118 | a text whose every target is unresolved comes back unchanged |
| Rewrite.ImageWithoutTableThrows | lib/handle-relative-links.js:67-72 | an `<img>` page of a package without an image table throws |
| LegacyLinks.LegacyHost | lib/handle-links.js:73-79 | known packages print an `https://` host; any other prints `undefined` |
| LegacyLinks.LegacyNormaliseFixedIff | lib/handle-links.js:54-57 | the three-pass normalisation is the identity exactly on targets without `./`, `.md` or `.html` |
| LegacyLinks.BeforeHash | lib/handle-links.js:64-71 | the character loop stops at the first `#`: a `#`-free prefix, followed in the target by `#` unless it is the whole target |
| LegacyLinks.LegacySplit | lib/handle-links.js:64-71 | the pure part is a `#`-free prefix; the hash is empty or a `#` with more after it on the line, and it occurs in the target |
| LegacyLinks.LegacySplitRoundTrip | lib/handle-links.js:64-71 | a `#`-free path followed by a valid hash splits back into exactly those parts |
| LegacyLinks.LegacyResolveFirstMatch | lib/handle-links.js:87-88 | a target resolves exactly when the first known path containing its pure part is non-empty, and then to host + that path without its first `.md` + hash |
| LegacyLinks.LegacyResults | lib/handle-links.js:52-90 | there are at most as many results as targets, and exactly as many when every target resolves |
| LegacyLinks.LegacyResultsAligned | lib/handle-links.js:52-90 | when every target resolves, the i-th result belongs to the i-th target |
| LegacyLinks.ResultsShiftPastUnresolved | lib/handle-links.js:87-90 | an unresolved first target pushes nothing, so the first result is the second target's URL |
| LegacyLinks.MispairedReplace | lib/handle-links.js:87-96 | with the first of two targets unresolved, the `forEach` writes the second target's URL over the first target's first occurrence, then `undefined` over the second target's |
| LegacyLinks.ReplaceOne | lib/handle-links.js:94-96 | with one target, its first occurrence becomes its URL, or the text `undefined` when it did not resolve |
| LegacyLinks.LegacyReplaceAbsent | lib/handle-links.js:94-96 | targets absent from the text leave it unchanged |
| LegacyLinks.LegacyKnownPaths | lib/handle-links.js:47-50 | the known paths are the nav leaves then the sidebar leaves, each in `flatterArr` order, after the vue-router exception |
| LegacyLinks.LegacyHandleLinks | lib/handle-links.js:30-103 | `undefined` exactly for an empty text; a non-empty text without `(` is unchanged |
| LegacyLinks.PageMispaired | lib/handle-links.js:52-96 | a page whose two links have an unresolved first target gets the second link's URL in the first link and `undefined` in the second |
| LegacyLinks.OneLinkPage | lib/handle-links.js:52-96 | a page holding one link `[label](target)` comes back as `[label](URL)` when the target resolves, and as `[label](undefined)` when it does not |
| Headings.DemoteFromFacts | lib/get-all-zh-docs.js:126-128 | a text without `#` is unchanged, demotion never shortens, and a leading non-`#` character stays first |
| Headings.DemoteKeepsChars | lib/get-all-zh-docs.js:126-128 | every character other than `#` is in the demoted text exactly when it is in the original |
| Headings.PromoteDemote | lib/get-all-zh-docs.js:124-129 | demotion loses nothing: reading each matched run back one `#` shorter restores the text |
| Headings.DemoteAppend | lib/get-all-zh-docs.js:126 | the global replace works piecewise: the second part is demoted in the state the first part leaves |
| Headings.DemoteHeading | lib/get-all-zh-docs.js:126-128 | a run of k `#` at the start becomes k+1 |
| Headings.HashesDemote | lib/get-all-zh-docs.js:126-128 | a run is matched as a whole, so it gains exactly one `#` when it may open and none otherwise |
| Headings.DemoteHeadingTwice | lib/get-all-zh-docs.js:90-97 | a titled child in a titled group has its leading heading shifted by two levels |
| Headings.MidWordRun | lib/get-all-zh-docs.js:125-126 | the `zh#abc` case: the word-start rule leaves a `#` inside a word alone, and the match-anywhere rule doubles it |
| Headings.RunAfterText | get-all-zh-docs.js:172-174 | a single `#` after `#`-free text is doubled exactly when the rule lets it open a run there |
| Headings.AddSelectedTitle | lib/get-all-zh-docs.js:121-132 | the list gains `# title` in front; every text can be recovered from its demoted form, and `#`-free texts are unchanged |
| Faults.AllOf | lib/get-all-zh-docs.js:54-68 | `Promise.all`: all values in order, or a rejection exactly when some element rejects, carrying the error of a rejecting element (the first in list order) |
| Pages.ChildList | lib/get-all-zh-docs.js:78-79 | a group's child list is its `children` when that is non-empty, and its `items` otherwise |
| Pages.TitleText | lib/get-all-zh-docs.js:88-92 | `title` when truthy, otherwise `text`, otherwise `undefined`; non-empty whenever `title \|\| text` is truthy |
| Pages.TitledPage | lib/get-all-zh-docs.js:88-92 | an untitled child is its page; a titled one is `# title`, a blank line, and the page demoted once; empty only for an empty untitled page |
| Pages.OutputStem | lib/get-all-zh-docs.js:69 | the stem is never empty and holds no `/`; `vue3` for the unnamed package, the name itself when it has no `/` |
| Pages.ScopedNameStem | lib/get-all-zh-docs.js:69 | `@pinia/root`-style names keep both halves around one `-` |
| Pages.GroupOf | get-all-zh-docs.js:117-137 | a group's text throws exactly when some child throws; otherwise it is the title and every child text, demoted, joined by blank lines |
| Assemble.VueRouterReadme | lib/util.js:6 | vue-router's configuration is VuePress, so its directories name `README.md` |
| Assemble.PaddingSuffix | lib/get-all-zh-docs.js:113-119 | a directory path gets `README.md` exactly when the package's configuration path contains `.vuepress`, and `index.md` otherwise |
| Assemble.AddPathToFull | lib/get-all-zh-docs.js:100-112 | every result is a `.md` file: a `.md` path is only prefixed, a directory gets its index page, any other path gets `.md` |
| Assemble.HtmlLinkSameFile | lib/get-all-zh-docs.js:103-107 | `page.html` and `page` name the same file |
| Assemble.HtmlPathFile | lib/get-all-zh-docs.js:106-107 | `prefix + page.html` is read from `prefix + page.md` |
| Assemble.PlainPathFile | lib/get-all-zh-docs.js:103-107 | a non-directory, non-`.md` path names its prefixed form without its first `.html`, plus `.md` |
| Assemble.ChildText | lib/get-all-zh-docs.js:81-95 | a child whose file is missing throws `PageNotFound`; an empty untitled page gives `undefined`; otherwise the child throws exactly when rewriting its titled page throws |
| Assemble.TitledChildHeadingShift | lib/get-all-zh-docs.js:88-93 | a titled child with a leading heading and no links comes out as its title followed by the page, that heading one level deeper |
| Assemble.Defined | lib/get-all-zh-docs.js:124-128 | an `undefined` text makes `str.replace` throw; otherwise the texts are the strings in order |
| Assemble.TitledGroup | lib/get-all-zh-docs.js:77-98 | a group throws exactly when some child throws or is `undefined`; otherwise it is the title and every child text, demoted under the word-start rule, joined by blank lines |
| Assemble.GroupText | lib/get-all-zh-docs.js:77-98 | `childTxtHandler` for a group: the properties of the group step, for the child texts of `ChildText` |
| Assemble.EmptyGroupIsTitle | lib/get-all-zh-docs.js:97 | a group without children is its title heading alone |
| Assemble.EntryText | lib/get-all-zh-docs.js:56-67 | a group entry is its group text; a bare path is read from prefix + path, throws `PageNotFound` when missing, is `undefined` when empty, and otherwise throws exactly when rewriting it throws |
| Assemble.Printed | lib/get-all-zh-docs.js:70 | `join` prints each page as its text and an `undefined` page as the empty string, one entry per page |
| Assemble.MergeDocs | lib/get-all-zh-docs.js:46-76 | an unsupported package throws `ConfigNotSupported`; otherwise the run throws exactly when some entry throws, and succeeds with every entry's text in order, joined by newlines, written to the package's file |
| RootAssemble.RootAddPathToFull | get-all-zh-docs.js:138-165 | a directory path throws, because `paddingSuffix` reads an unbound `pkgName`; a `.md` path is only prefixed; any other path gets `.md`, keeping any `.html` |
| RootAssemble.RootFileIsMarkdown | get-all-zh-docs.js:138-157 | every file read is a `.md` file under the package's prefix |
| RootAssemble.AgreesWithLibRule | get-all-zh-docs.js:138-157 | on non-directory paths without `.html`, the root rule and the lib/ rule name the same file |
| RootAssemble.DirectoryLinkThrows | get-all-zh-docs.js:158-165 | a child linking a directory such as `/guide/`, or with no link, throws |
| RootAssemble.RootChildText | get-all-zh-docs.js:122-133 | the child's file, titled with `title \|\| text` under the match-anywhere rule, or `PageNotFound`, or the directory exception |
| RootAssemble.RootTitledChildHeadingShift | get-all-zh-docs.js:122-133 | a titled child whose file opens with a level-k heading comes out as `# title`, a blank line, and that heading at level k+1, the rest demoted at every `#` run |
| RootAssemble.RootGroupText | get-all-zh-docs.js:117-137 | the group throws exactly when some child throws; otherwise it is the title and all child texts, demoted, joined by blank lines |
| RootAssemble.RootEntryText | get-all-zh-docs.js:73-81 | a group entry is its group text; a bare path is read from prefix + path as it is |
| RootAssemble.RootMergeDocs | get-all-zh-docs.js:65-102 | an unsupported package throws; otherwise the run throws exactly when some entry throws, and succeeds with the entries joined by newlines, the package's file name, and the truthy-`link` page count |
| TsAssemble.CutAtDot | ts-get-all-zh-docs.js:156 | a path without `.` is unchanged; the cut never lengthens, and on one line it keeps a prefix |
| TsAssemble.CutAtFirstDot | ts-get-all-zh-docs.js:156 | everything from the first `.` to the end of the line is dropped |
| TsAssemble.TsSuffix | ts-get-all-zh-docs.js:159-163 | the directory suffix is `README.md` exactly when the package's configuration path contains `.vuepress`, and `index.md` otherwise |
| TsAssemble.TsAddPathToFull | ts-get-all-zh-docs.js:149-171 | every result is a `.md` file: a `.md` path is only prefixed, a directory gets its cut path and index page, any other path gets its cut path and `.md` |
| TsAssemble.CutPathFile | ts-get-all-zh-docs.js:155-166 | `a.rest` is read from `prefix + a.md` |
| TsAssemble.TsHtmlLinkSameFile | ts-get-all-zh-docs.js:155-166 | `page.html` and `page` name the same file |
| TsAssemble.StripBadgesUnchanged | ts-get-all-zh-docs.js:136 | a page without `%`, or without `#`, is unchanged by the badge removal |
| TsAssemble.BadgeStripped | ts-get-all-zh-docs.js:136 | `#heading%badge%` loses its `%badge%` |
| TsAssemble.NoPercentKept | ts-get-all-zh-docs.js:136 | text without `%` is copied as it is |
| TsAssemble.TsChildText | ts-get-all-zh-docs.js:127-144 | the child's file without badges, titled under the match-anywhere rule, or `PageNotFound` |
| TsAssemble.TsTitledChildHeadingShift | ts-get-all-zh-docs.js:127-144 | a titled child whose file, badges stripped, opens with a level-k heading comes out as `# title`, a blank line, and that heading at level k+1 |
| TsAssemble.TsGroupText | ts-get-all-zh-docs.js:122-148 | the group throws exactly when some child throws; otherwise it is the title and all child texts, demoted, joined by blank lines |
| TsAssemble.TsEntryText | ts-get-all-zh-docs.js:81-90 | a group entry is its group text; a bare path is read from prefix + path as it is |
| TsAssemble.TsMergeDocs | ts-get-all-zh-docs.js:59-96 | an unsupported package throws; otherwise the run throws exactly when some entry throws, and succeeds with the entries joined by newlines, written to the package's file |

## Left out

- Reading and writing files, the package prompt in `main`, and `console` logging are left out. Reading is the `read` parameter; writing is the `name` and `text` of the result.
- `getDocsConf` is left out. It pattern-matches the sidebar literal out of a configuration file with gogocode and `eval`s it; the model starts from the evaluated tree.
- `openUrlInBrowser` and test.js are left out. Neither is part of the rewrite or the assembly.
- lib/get-all-zh-docs.js imports `nameToDirMap`, `selectorMap` and `accessPathPrefixMap` from lib/util.js, which does not export them. The storage prefix is therefore a parameter of `Assemble`, and `ProfileFor` supplies the host and image table.
- lib/get-all-zh-docs.js calls `handleLinks(str, path, pkgName, fullPath)` at lines 64 and 93, while the declared signature is `(str, oriPageConfPath, paths, pkgName)`. The model calls it as declared: the page's configured path, then the known paths, then the package. The known paths are a parameter because this assembler never builds them.
- The `main` of lib/handle-links.js reads `docsConfPath` and `selectorMap` at line 46, and neither is bound there. `LegacyLinks.LegacyHandleLinks` therefore takes the known paths as a parameter, and `LegacyKnownPaths` shows how they would be built. Its write of `test-relative.txt` is left out.
- Targets are replaced as literal text. The source builds a regular expression from each target, so a target holding regex metacharacters or a `$` replacement pattern behaves differently there.
- An absent `children` or `items` is the empty sequence. The root-level and ES-module assemblers would throw on an `undefined` `items`.
- Faults.AllOf: `Promise.all` rejects with the first rejection to settle, which depends on timing, and a synchronous throw always settles first. For example, in get-all-zh-docs.js a child whose `paddingSuffix` reads the unbound `pkgName` (line 160) rejects before an earlier entry's `readFile` can fail, so the source reports that error and the model reports the earlier `PageNotFound`. The model fixes the order to the list order. It promises that the run fails exactly when some element fails and that the error is a failing element's, not which one the source reports when several fail.
- The interleaving of the concurrent reads is left out; only the outcome of `Promise.all` is modelled.
- The page count `getPageCount` logs in lib/get-all-zh-docs.js is not part of `Assemble.Output`. `Nav.GetPageCount` models it on its own.
- Assemble.OutputName: no contract of its own. `Pages.OutputStem` states its properties.
- Rewrite.HandleLinks: the ensures covers `undefined` and the error cases. The rewritten text is stated by `Rewrite.LinkRewritten` for a page with one resolving link, and by `Rewrite.PlainPageUnchanged` and `Rewrite.UnresolvedPageUnchanged` for pages that come back unchanged; there is no closed form for pages with several links.
- Rewrite.HandleLinks: a resolved target that is not a valid regular-expression source, such as `./a_(b` with its unbalanced `(` (the link scan lets `(` into a target), makes `new RegExp` at lib/handle-relative-links.js:116 throw a `SyntaxError`. The model does not raise it and succeeds on such pages.
- Resolve.Select: lengths and indices are counted in Unicode code points, while JavaScript's `length` and `indexOf` count UTF-16 code units. A known path with a character outside the Basic Multilingual Plane after the match can get a different remainder or length rank, and so be ranked differently, than in the source.
- TsAssemble.StripBadges: the ensures only bounds the length. What the removal does is stated by `StripBadgesUnchanged`, `NoPercentKept` and `BadgeStripped`.
- Scan.ScanImgs: the ensures states the shape of every source and `ImgRoundTrip` a full match, not every match the greedy `(.+)` can make across several tags on one line.
- The ES-module assembler's `getDocsConf` slices fixed character offsets out of each configuration file. That extraction is left out with the rest of `getDocsConf`.
