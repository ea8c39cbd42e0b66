# Docs aggregation and LLM context generation, in Dafny

This project models the two scripts of a documentation toolchain that do real work on trees and strings:

- `scripts/gather-docs.ts` collects module documentation into the site's `modules/` content directory and builds the module sidebar. It goes through the backend and frontend module collections and the core package. For each module it takes one of three paths:
  - **Mode A**: the module has a `docs/` directory. That directory is copied to `modules/<name>/`, the README becomes its `index.md`, and the sidebar gets an `autogenerate` entry.
  - **Mode B**: the module has only a README. It is written to `modules/<name>.md` and gets a `link` entry.
  - **Skip**: the module has neither.

  A README that does not already open with `---` gets a `title:` front-matter header first.
- `scripts/generate-llms-txt.ts` collects every `.md`/`.mdx` page under the content directory, sorts the pages by a priority list of path prefixes, and builds two texts:
  - `llms.txt`: one summary line per page, from the page's `title:`/`description:` and its URL;
  - `llms-full.txt`: every page's text, without its front matter.

The filesystem is a value. A source tree is `FileTree.Node`: a file with its text, or a directory whose listing is a sequence in `readdirSync` order. The destination of gather-docs is `OutputTree.Tree`, a map from paths under `modules/` to files and directories.

Each Node.js call is a function from the tree before the call to the tree after it, with a flag saying whether the call returned normally:

- `Written`: `writeFileSync` and `copyFileSync`;
- `DirMade`: `mkdirSync`;
- `DirsMade`: `mkdirSync` with `recursive: true`;
- `Copied`: `copyRecursive`.

A call that throws ends the run, and the tree keeps everything written before it.

The imperative parts keep their form:

- `GatherDocs.Gatherer` is a class whose fields are the output tree, `sidebarEntries` and the sidebar file. Its methods `CopyRecursive`, `ProcessModule`, `ProcessSource` and `Run` change those fields with the script's loops and recursion.
- `LlmsTxt.GetFiles` appends to its accumulator with a loop.
- `StableSort.SortInPlace` sorts an `array` in place.
- `LlmsTxt.Render` grows the two texts with `+=`.

Each method is proved equal to a function of its inputs or of the old state. The properties are proved about those functions:

- where files land;
- what the sidebar holds and in which order;
- what the sort guarantees;
- what the regular expressions capture.

The regular expressions are written out as the scans they perform, following JavaScript semantics:

- `\s` includes line breaks;
- `.` stops at a line terminator;
- `*?` is lazy;
- `$` anchors at the end of the string.

`Pipeline` connects the two scripts. Among other things, it proves that the title gather-docs injects is the title the summary shows, and that the front matter gather-docs adds is what the full text removes.

Some behaviours of the code are worth stating outright:

- The sort ranks a path by the *first* priority entry it starts with (`findIndex`).
- The priority list's first entry is `index.mdx`.
- A module with a README but no `docs/` directory is published as a single page (Mode B).
- Neither script strips numeric prefixes, reads an order map, capitalises labels, routes `assets`/`public` files or keeps an exclusion set.
- A title is taken from the first textual occurrence of `title:`, also inside a longer word such as `subtitle:` (`LlmsProps.SubtitleAlsoMatches`).
- `replace(/index$/, '')` removes `index` also from the end of a longer file name. `guides/reindex.md` is served at `guides/re` (`LlmsProps.TrailingIndexInName`).

## Model

| member | source | states |
|---|---|---|
| GatherDocs.WithFrontMatter | scripts/gather-docs.ts:96-103 | the README is kept unchanged exactly when its trimmed text starts with `---`; otherwise the result is `---\ntitle: <name>\n---\n\n` followed by the README |
| GatherDocsProps.FrontMatterIdempotent | scripts/gather-docs.ts:97-103 | the written text always starts with `---` after trimming, so injecting a second time changes nothing |
| GatherDocs.DirEntries | scripts/gather-docs.ts:50-52 | the modules of a collection are exactly the directory entries of its listing |
| GatherDocs.ModulesStopAtFailure | scripts/gather-docs.ts:56-59 | once `processModule` throws, no later module of the collection is processed |
| GatherDocs.SourcesStopAtFailure | scripts/gather-docs.ts:35-68 | once a source's processing throws, no later source is processed |
| GatherDocs.Gatherer.constructor | scripts/gather-docs.ts:21-33 | the run starts from an empty `modules` directory, no sidebar entries and no sidebar file |
| GatherDocs.Gatherer.CopyRecursive | scripts/gather-docs.ts:141-153 | the new tree and the success flag are those of `Copied` on the old tree; nothing else changes |
| GatherDocs.Gatherer.ProcessModule | scripts/gather-docs.ts:75-139 | the new tree and success flag are `ModuleProcessed` of the old tree; `groupItems` grows by exactly the entry that the function names |
| GatherDocs.Gatherer.ProcessSource | scripts/gather-docs.ts:35-67 | the tree, success flag and `sidebarEntries` after one iteration of the `SOURCES` loop are `SourceProcessed` of the state before it |
| GatherDocs.Gatherer.Run | scripts/gather-docs.ts:35-71 | the final tree, flag and sidebar entries are `Gathered(repo)`; the sidebar file is written with those entries exactly when every source completed |
| OutputTree.DirsMadeUnderRoot | scripts/gather-docs.ts:90-91 | `mkdirSync(outDir, {recursive: true})` succeeds without change on an existing directory, fails when a file is there, and creates the directory otherwise |
| OutputTree.CopyOverlays | scripts/gather-docs.ts:141-153 | after a successful copy, each path below `dest` holds: the source file's text where the source has a file; the existing entry, or a new directory, where the source has a directory; and the old entry, or nothing, wherever the source has nothing |
| OutputTree.CopyFirstOverlays | scripts/gather-docs.ts:147-149 | the same overlay property after the first `k` children of the `forEach` |
| OutputTree.CopyFirstStopsAtFailure | scripts/gather-docs.ts:147-149 | a child whose copy throws ends the `forEach`; later children are not copied |
| OutputTree.WrittenKeepsValid | scripts/gather-docs.ts:104 | a file write, successful or not, keeps every entry under a directory |
| OutputTree.DirMadeKeepsValid | scripts/gather-docs.ts:144-146 | `mkdirSync` keeps every entry under a directory |
| OutputTree.DirsMadeKeepsValid | scripts/gather-docs.ts:91 | recursive `mkdirSync` keeps the tree valid and, on success, leaves a directory at the path |
| OutputTree.CopyKeepsValid | scripts/gather-docs.ts:141-153 | `copyRecursive` keeps the tree valid, whether or not it throws |
| OutputTree.CopyFirstKeepsValid | scripts/gather-docs.ts:147-149 | every prefix of the `forEach` keeps the tree valid |
| GatherDocsProps.ModuleEntryShape | scripts/gather-docs.ts:79-137 | a module pushes no entry exactly when it has neither `docs` nor `README.md`, and then the tree is untouched; with `docs` the entry is `autogenerate` for `modules/<name>`; with only a README it is a `link` to `modules/<name>` |
| GatherDocsProps.ModeAPlacesDocs | scripts/gather-docs.ts:88-108 | every file under `docs/` is found with its text at the same relative path under `modules/<name>/` |
| GatherDocsProps.ModeAIndexPage | scripts/gather-docs.ts:93-108 | `modules/<name>/index.md` holds `docs/index.md` when that exists, because the copy overwrites; otherwise it holds the front-mattered README |
| GatherDocsProps.ModeAContents | scripts/gather-docs.ts:88-114 | after Mode A every path holds what `docs/` laid over the old tree gives it, where the old tree first gets the directory `modules/<name>` and, when there is a README, its `index.md` with front matter; nothing else is added or removed |
| GatherDocsProps.ModeAKeepsOthers | scripts/gather-docs.ts:88-114 | Mode A changes nothing outside `modules/<name>/` |
| GatherDocsProps.ModeBWritesOnePage | scripts/gather-docs.ts:115-137 | a README-only module succeeds exactly when `modules/<name>.md` is not a directory; it then writes exactly that one file and pushes the link entry |
| GatherDocsProps.ModulesInListingOrder | scripts/gather-docs.ts:56-59 | the group's items appear in listing order, at most one per module |
| GatherDocsProps.MissingSourceSkipped | scripts/gather-docs.ts:36-39 | a source whose directory does not exist leaves the state unchanged |
| GatherDocsProps.CollectionContribution | scripts/gather-docs.ts:49-66 | a collection processes only its directory entries, in listing order; it pushes `{label: group, items}` exactly when some module produced an item |
| GatherDocsProps.CoreContribution | scripts/gather-docs.ts:43-48 | the core package is processed under the name `core`, and its entry, if any, is pushed unwrapped (not a group) |
| GatherDocsProps.SourceAddsAtMostOne | scripts/gather-docs.ts:35-67 | one source adds at most one top-level entry, at the end, and that entry belongs to that source |
| GatherDocsProps.SourcesInOrder | scripts/gather-docs.ts:35-68 | after the first `k` sources, the top-level entries follow the order of `SOURCES` |
| GatherDocsProps.GatheredInSourceOrder | scripts/gather-docs.ts:35-68 | the sidebar has at most one entry per source, in `SOURCES` order |
| GatherDocsProps.ModuleKeepsValid | scripts/gather-docs.ts:75-139 | processing a module keeps every output entry under a directory |
| GatherDocsProps.IndexedKeepsValid | scripts/gather-docs.ts:93-108 | writing `index.md` and then copying `docs/` keeps the tree valid |
| GatherDocsProps.ModulesKeepValid | scripts/gather-docs.ts:56-59 | the loop over a collection keeps the tree valid |
| GatherDocsProps.SourcesKeepValid | scripts/gather-docs.ts:35-68 | every prefix of the `SOURCES` loop leaves a valid tree |
| GatherDocsProps.GatheredValid | scripts/gather-docs.ts:20-68 | the whole run leaves a valid tree, from the clean `modules` directory on |
| JsText.TrimStartSpec | scripts/gather-docs.ts:97 | `trim` drops exactly the leading JavaScript whitespace: the result is a suffix that does not open with whitespace |
| JsText.TrimEndSpec | scripts/generate-llms-txt.ts:81 | `trim` drops exactly the trailing whitespace: the result is a prefix that does not end with whitespace |
| JsText.TrimKeepsLeadingText | scripts/gather-docs.ts:97 | text that opens without whitespace still opens with that text after `trim` |
| JsText.IndexOfSpec | scripts/generate-llms-txt.ts:74-75 | the search reports an occurrence, and no occurrence lies before it; it reports none only when there is none |
| JsText.IndexOfFirst | scripts/generate-llms-txt.ts:81 | an occurrence with none before it is the one the search reports |
| JsText.IndexOfShift | scripts/generate-llms-txt.ts:81 | searching from an offset equals searching the suffix, shifted by the offset |
| JsText.AsciiLower | scripts/gather-docs.ts:44 | `toLowerCase` keeps the length and maps `A`-`Z` to `a`-`z`, character by character |
| JsText.LexCompareSigns | scripts/generate-llms-txt.ts:66 | the string comparison answers -1, 0 or 1; 0 exactly on equal strings; and swapping the arguments flips the sign |
| JsText.LexCompareTransitive | scripts/generate-llms-txt.ts:66 | the string comparison is transitive |
| LlmsSort.PriorityIndex | scripts/generate-llms-txt.ts:59-60 | `findIndex` gives the first priority entry the path starts with, and -1 exactly when it starts with none |
| LlmsSort.PriorityFrom | scripts/generate-llms-txt.ts:59-60 | the `findIndex` scan from position `from` finds the first matching entry at or after it |
| LlmsSort.ComparatorTotalPreorder | scripts/generate-llms-txt.ts:54-67 | a matched path sorts before an unmatched one; matched paths compare by priority index, equal indices giving 0; unmatched paths compare as strings; the comparator is antisymmetric in sign and transitive |
| LlmsSort.FileOrderIsConsistent | scripts/generate-llms-txt.ts:54-67 | the comparator on paths is a total preorder, and files of one priority class tie |
| LlmsSort.SortedFiles | scripts/generate-llms-txt.ts:54-67 | the sorted list is ordered by the comparator, is a permutation of the input, and keeps traversal order within each priority class |
| LlmsSort.PriorityOrder | scripts/generate-llms-txt.ts:53-67 | in the sorted list matched files come first, by increasing priority index, and unmatched files follow in string order |
| LlmsSort.SortFiles | scripts/generate-llms-txt.ts:54-67 | `allFiles.sort(cmp)` returns the stable sort of the files by the comparator |
| StableSort.InsertionSortCorrect | scripts/generate-llms-txt.ts:54 | for a total-preorder comparator the stable sort is ordered, a permutation, and order-preserving within every class of tying elements |
| StableSort.InsertPermutes | scripts/generate-llms-txt.ts:54 | inserting an element adds exactly that element to the multiset |
| StableSort.InsertSorted | scripts/generate-llms-txt.ts:54 | inserting into a sorted sequence gives a sorted sequence |
| StableSort.InsertStable | scripts/generate-llms-txt.ts:54 | insertion puts the new element after every element of its class |
| StableSort.InsertAt | scripts/generate-llms-txt.ts:54 | one insertion step moves `a[i]` into place in the sorted prefix and leaves the rest of the array alone |
| StableSort.SortInPlace | scripts/generate-llms-txt.ts:54 | the array ends up as the stable sort of its old contents |
| LlmsText.SkipSpaceSpec | scripts/generate-llms-txt.ts:74-75 | `\s*` consumes exactly the whitespace run, line breaks included |
| LlmsText.LineEndSpec | scripts/generate-llms-txt.ts:74-75 | `(.*)` stops at the first line terminator or at the end |
| LlmsText.FieldCaptureShape | scripts/generate-llms-txt.ts:74-75 | `content.match(/<key>:\s*(.*)/)` matches exactly when `<key>:` occurs; the capture is one line that does not open with whitespace |
| LlmsText.CapturedLine | scripts/generate-llms-txt.ts:74-75 | skipping blanks and taking the rest of the line gives such a one-line value |
| LlmsText.FieldCaptureReadsLine | scripts/generate-llms-txt.ts:74-75 | when `<key>:` first occurs before `spaces value` and a line end, the capture is `value` |
| LlmsText.CleanContentDropsBlock | scripts/generate-llms-txt.ts:81 | a block between the first two `---` disappears; the text before and after it is kept, then trimmed |
| LlmsText.CleanContentWithoutBlock | scripts/generate-llms-txt.ts:81 | text without two non-overlapping `---` is only trimmed |
| LlmsText.StripExtension | scripts/generate-llms-txt.ts:84 | a trailing `.md` or `.mdx` is removed, and nothing else changes |
| LlmsText.StripIndex | scripts/generate-llms-txt.ts:84 | a trailing `index` is removed, and nothing else changes |
| LlmsText.DropSlashes | scripts/generate-llms-txt.ts:85 | the result is the suffix left after the leading slashes |
| LlmsText.CollapseRunWise | scripts/generate-llms-txt.ts:85 | `.replace(/([^:]\/)\/+/g, '$1')` keeps exactly the characters `KeptAt` keeps: a maximal run of `n` slashes after a character other than `:` becomes one slash, a run that opens the text or follows `:` becomes `min(n, 2)` slashes, and every other character stays |
| LlmsText.CollapseKeepsScheme | scripts/generate-llms-txt.ts:85 | the `//` after a `:` survives, whatever follows it, doubled slashes included |
| LlmsText.CollapseRemovesOnlySlashes | scripts/generate-llms-txt.ts:85 | normalising removes slashes only: the other characters stay, in order |
| LlmsText.CollapseCollapses | scripts/generate-llms-txt.ts:85 | after normalising no run of two slashes remains, except right after `:` |
| LlmsText.CollapseKeepsCollapsed | scripts/generate-llms-txt.ts:85 | text with no such run, `http://` included, is left unchanged |
| LlmsText.CollapseIdempotent | scripts/generate-llms-txt.ts:85 | normalising twice equals normalising once |
| LlmsTxt.MdFilesMembers | scripts/generate-llms-txt.ts:29-42 | `getFiles` lists exactly the paths that lead through directories to a `.md`/`.mdx` file |
| LlmsTxt.MdFilesFirstMembers | scripts/generate-llms-txt.ts:31-40 | after the first `k` entries of a listing, exactly the Markdown paths through those entries are listed |
| LlmsTxt.EntryFilesMembers | scripts/generate-llms-txt.ts:32-39 | one entry contributes exactly the Markdown paths through it |
| LlmsTxt.ReachedIsFile | scripts/generate-llms-txt.ts:71 | on a tree with distinct names, every listed path leads to a file |
| LlmsTxt.GetFiles | scripts/generate-llms-txt.ts:29-42 | the accumulator grows by exactly the Markdown files below the directory, depth first in listing order |
| LlmsTxt.LoadedStopsAtFailure | scripts/generate-llms-txt.ts:69-71 | a read that throws ends the loop |
| LlmsTxt.LoadedStep | scripts/generate-llms-txt.ts:69-71 | a successful read adds that file's page at the end |
| LlmsTxt.ConcatMapSnoc | scripts/generate-llms-txt.ts:87-94 | one more page appends exactly its text to the accumulated text |
| LlmsTxt.Render | scripts/generate-llms-txt.ts:46-99 | the loop over the sorted files yields the header, then one summary line per page, then the footer; and the full header, then one block per page; it yields nothing when a read throws |
| LlmsTxt.Generate | scripts/generate-llms-txt.ts:44-102 | the script's two outputs are `Generated(docs, baseUrl)`: collect, sort, load, and render |
| LlmsProps.ListedFilesReadable | scripts/generate-llms-txt.ts:71 | on a tree with distinct names every listed file can be read |
| LlmsProps.LoadedDocsFails | scripts/generate-llms-txt.ts:69-71 | loading fails exactly when some listed file cannot be read |
| LlmsProps.LoadedDocsPages | scripts/generate-llms-txt.ts:69-71 | a successful load gives one page per file, in order, each with the file's relative path and text |
| LlmsProps.GeneratedOnWellFormed | scripts/generate-llms-txt.ts:44-102 | on a content directory with distinct names the script always completes |
| LlmsProps.GeneratedNeedsDirectory | scripts/generate-llms-txt.ts:29-30 | a missing content directory, or a file in its place, makes `readdirSync` throw |
| LlmsProps.ConcatMapAppend | scripts/generate-llms-txt.ts:87-94 | the text of two page lists is the text of the first followed by that of the second |
| LlmsProps.PageTexts | scripts/generate-llms-txt.ts:87-94 | each page contributes exactly one summary line and one full-text block, at its place in sorted order |
| LlmsProps.NoPagesGeneratesFrame | scripts/generate-llms-txt.ts:46-99 | with no pages the summary is the fixed header plus the footer linking `<base>/llms-full.txt`, and the full text is its header alone |
| LlmsProps.PagesInPriorityOrder | scripts/generate-llms-txt.ts:53-95 | the pages are emitted by increasing priority index, with unmatched pages last, in string order |
| LlmsProps.DocFallbacks | scripts/generate-llms-txt.ts:77-78 | without `title:` the title is the relative path; without `description:` the description is empty |
| LlmsProps.TitleFromFrontMatter | scripts/generate-llms-txt.ts:74-77 | a `title: value` line, where it is the first `title:`, gives the page's title |
| LlmsProps.SubtitleAlsoMatches | scripts/generate-llms-txt.ts:74 | `subtitle: value` also gives the title, since the key is matched as plain text |
| LlmsProps.IndexPageUrl | scripts/generate-llms-txt.ts:84 | `<dir>index.md` and `<dir>index.mdx` are served at `<dir>`, so `index.mdx` is served at the empty path |
| LlmsProps.PageUrl | scripts/generate-llms-txt.ts:84 | a page whose stem does not end in `index` is served at its stem |
| LlmsProps.TrailingIndexInName | scripts/generate-llms-txt.ts:84 | `guides/reindex.md` is served at `guides/re` |
| LlmsProps.FullUrlWhenCollapsed | scripts/generate-llms-txt.ts:85 | when `<base>/<path>` has no doubled slash outside `://`, the URL is exactly that text |
| Pipeline.InjectedTitleIsRead | scripts/generate-llms-txt.ts:74-77 | the title that gather-docs injects into a README is the title that the summary shows |
| Pipeline.InjectedFrontMatterIsRemoved | scripts/generate-llms-txt.ts:81 | the full text of an injected README is the trimmed README, without the injected header |
| Pipeline.ModuleIndexUrl | scripts/generate-llms-txt.ts:84 | `modules/<name>/index.md` is served at the sidebar link `modules/<name>` plus `/` |
| Pipeline.ModulePageUrl | scripts/generate-llms-txt.ts:84 | `modules/<name>.md` is served at its sidebar link `modules/<name>` when the name does not end in `index` |
| Pipeline.ModulePagesRankThird | scripts/generate-llms-txt.ts:53-60 | every page under `modules/` has priority index 2 |

## Left out

- Real filesystem and process access is not modelled. This covers `fs.existsSync`, `statSync`, `readdirSync`, `path.resolve`, `fileURLToPath`, `console.*` and the `mkdirSync` of `public/`. The trees are parameters. `writeFileSync` of the two text files is the returned `Outputs`. The sidebar file is the `sidebarFile` field.
- Symbolic links are not modelled: `statSync` follows them, and the trees have none.
- The clean-out of `modules/` (scripts/gather-docs.ts:21-24) is modelled as the run starting from an empty `modules` directory. The content tree outside `modules/` is not modelled.
- `JSON.stringify(sidebarEntries, null, 2)` is not modelled. The sidebar file holds the entries as values.
- `process.env.SITE_URL || 'http://localhost:4321'` is not modelled. The base URL is the parameter `baseUrl`.
- `path.relative` and `path.join` are modelled as joining the path's names with `/`. Platform separators are not modelled.
- JavaScript strings are UTF-16 code-unit sequences; the model uses Dafny characters. `toLowerCase` is modelled for ASCII letters only (`JsText.AsciiLower`), and the only string it is applied to is the constant `Core`.
- `localeCompare` is modelled as code-point lexicographic comparison (`JsText.LexCompare`). Locale collation is not modelled.
- `LlmsSort.SortFiles`: `Array.prototype.sort` is modelled by a stable insertion sort. Any stable sort under a total-preorder comparator gives the same order, but that uniqueness is not proved here.
- Which Node.js error is thrown is not modelled. Every throwing call (ENOENT, ENOTDIR, EISDIR, EEXIST) is modelled as a failed step (`ok == false`, or `None`) that ends the run. The tree keeps what was written before the throw.
- Only the script's few regular expressions are modelled, each as a hand-written scan. A general regular-expression engine is not modelled.
- `astro.config.mjs` is not part of this model: it is framework configuration with no logic of its own.
