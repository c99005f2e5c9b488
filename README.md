# Render cache of the Xournal++ preview, in Dafny

This project models the core of a read-only VS Code editor for Xournal++
documents (`src/xoppEditor.ts`). It covers three things:

- **Opening a document** (`openCustomDocument`). The editor stats the
  document. A non-file or empty document gets no pages. Otherwise the editor
  creates `extensionPath/cache` and a fresh `mkdtemp` directory inside it.
  A backup id, when present, replaces the document's URI. A non-`file`
  source is first copied into the new directory as `temp.xopp`. Then the
  external `xournalpp` tool renders the document into that directory as
  PNG images, and the copy is removed on success.
- **Listing the pages** (`pageNumber` and the `readdir`/`filter`/`sort` part
  of `resolveCustomEditor`). The cache directory's `.png` entries are
  sorted by the number formed by the first run of digits in each name. A
  `.png` name without digits makes the comparator throw.
- **Disposing of a document** (`XoppDocument.dispose`). This removes the
  cache directory recursively.

Modules:

- `Wrappers` (`wrappers.dfy`): `Option` and `Result`.
- `StableSort` (`stable_sort.dfy`): `Array.prototype.sort` with a numeric
  key comparator, modelled as a stable insertion sort. It comes with a proof
  that every stable sort by that key gives the same result, so the choice of
  algorithm is immaterial.
- `PageIndex` (`page_index.dfy`): `pageNumber`, the `.png` filter and the
  listing pipeline, as pure functions with lemmas.
- `PageScenarios` (`page_scenarios.dfy`): worked listings, such as numeric
  rather than lexical order and a name without digits.
- `LocalDisk` (`local_disk.dfy`): '/'-separated paths and the `Host` class.
  The host holds the directories (a set), the files (a map from path to
  bytes) and the log of started processes. Its methods model
  `mkdir -p`, `mkdtemp`, `rm`, `rm -r` and `spawnSync`, each on an
  invariant `Valid()`: every entry's parent directory exists.
- `Workspace` (`workspace.dfy`): VS Code URIs, and `workspace.fs.stat` and
  `workspace.fs.copy` over the local disk or a map of remote resources.
- `XoppEditor` (`xopp_editor.dfy`): the classes `XoppDocument` and
  `XoppEditorProvider`. Open is split into two helpers: `MakePageDir` for
  lines 44-46 and `Render` for lines 51-70. `OpenThenDispose` shows that
  opening a document and then disposing of it leaves every file as it was.

Foreign results are parameters of the methods:

- `tempSuffix`: the random part `mkdtemp` picks.
- `proc`: the status and standard error of the `xournalpp` run, and the
  files it writes into the cache directory.
- `parse`: `Uri.parse`.
- `listing`: the order in which `readdir` returns the entries.

`ListingOrderIrrelevant` shows that this order does not change the result
when page numbers are unique.

Two behaviours of the code are worth noting:

- **A document that does not exist.** `workspace.fs.stat` throws, so
  opening fails with `StatFailed`; it is not opened as a document without
  pages.
- **A single `.png` without digits.** Sorting a one-element array never
  calls the comparator, so the listing succeeds (`PageScenarios.LoneCover`).
  With two or more `.png` entries, the name without digits throws
  (`PageScenarios.CoverAmongPages`).

## Model

| member | source | states |
|---|---|---|
| PageIndex.FirstDigitRun | src/xoppEditor.ts:79-81 | `/\d+/` finds no match exactly when the name has no digit; a match is a non-empty run of digits |
| PageIndex.FirstDigitRunIsFirstRun | src/xoppEditor.ts:79 | the matched text is the first maximal run of digits of the name (starts after digit-free text, ends at a non-digit or the end) |
| PageIndex.FirstRunIsFirstDigitRun | src/xoppEditor.ts:79 | conversely, the first maximal run of digits is what is matched |
| PageIndex.PageNumber | src/xoppEditor.ts:77-85 | `pageNumber` fails ("Bad file in temp directory") exactly when the name has no digit |
| PageIndex.PageNumberOfFirstRun | src/xoppEditor.ts:79-84 | the page number is the decimal value of the first maximal run of digits |
| PageIndex.DecimalRoundTrip | src/xoppEditor.ts:84 | `parseInt` of the decimal spelling of n is n |
| PageIndex.ZeroPaddingIrrelevant | src/xoppEditor.ts:84 | leading zeros do not change the page number (`page007.png` is page 7) |
| PageIndex.Retained | src/xoppEditor.ts:91 | the filter keeps every `.png` entry as often as it occurs, and nothing else |
| PageIndex.RetainedSingleton | src/xoppEditor.ts:91 | one entry is kept exactly when it ends in `.png` |
| PageIndex.RetainedAppend | src/xoppEditor.ts:91 | the filter of a concatenation is the concatenation of the filters, so kept entries stay in `readdir` order |
| PageIndex.ListPages | src/xoppEditor.ts:90-92 | the listing fails exactly when two or more `.png` entries are kept and one has no page number; otherwise it is a permutation of the kept entries, sorted by page number |
| PageIndex.ListPagesSpec | src/xoppEditor.ts:81-92 | in terms of the directory entries: failure exactly when at least two `.png` entries exist and a `.png` entry has no digit; success lists each `.png` entry as often as the directory has it, page numbers non-decreasing |
| PageIndex.ListPagesStable | src/xoppEditor.ts:92 | pages with equal page numbers keep the order `readdir` gave them |
| PageIndex.ListingOrderIrrelevant | src/xoppEditor.ts:90-92 | with distinct entries and unique page numbers, any `readdir` order yields the same listing |
| StableSort.SortBy | src/xoppEditor.ts:92 | the sort returns a permutation of its input ordered by the key |
| StableSort.SortByIsStable | src/xoppEditor.ts:92 | the sort keeps the input order among equal keys |
| StableSort.StableSortIsUnique | src/xoppEditor.ts:92 | two sequences that are both sorted by the key and agree on the order within each key are equal, so any stable sort gives this listing |
| PageScenarios.PageTwelve | src/xoppEditor.ts:79-84 | `page12.png` has page number 12 |
| PageScenarios.NumericNotLexical | src/xoppEditor.ts:92 | `page2.png` is listed before `page10.png` |
| PageScenarios.ThreePages | src/xoppEditor.ts:90-92 | `page3.png, page1.png, page2.png` are listed as pages 1, 2, 3 |
| PageScenarios.CoverAmongPages | src/xoppEditor.ts:81-82 | `cover.png` next to `page1.png` makes the listing fail |
| PageScenarios.LoneCover | src/xoppEditor.ts:92 | a lone `cover.png` is listed, since the comparator is never called |
| PageScenarios.OthersIgnored | src/xoppEditor.ts:91 | `temp.xopp` is not listed |
| LocalDisk.ParentOfJoin | src/xoppEditor.ts:57 | the entry `path.join(dir, name)` lies directly in dir under the name name |
| LocalDisk.JoinInjective | src/xoppEditor.ts:57 | different names give different paths inside one directory |
| LocalDisk.Host.ChildrenOfJoin | src/xoppEditor.ts:90 | `readdir(d)` lists a name exactly when `d/name` is a directory or a file |
| LocalDisk.Host.MkdirRecursive | src/xoppEditor.ts:45 | `mkdir -p` adds the path and its ancestors, and fails without change when one of them is a file; it is idempotent |
| LocalDisk.Host.Mkdtemp | src/xoppEditor.ts:46 | `mkdtemp` creates prefix + suffix exactly when its parent exists and the path is free; the new directory is empty |
| LocalDisk.Host.Rm | src/xoppEditor.ts:70 | `rm` removes exactly the file, and reports whether it existed |
| LocalDisk.Host.RmRecursive | src/xoppEditor.ts:16 | `rm -r` removes the path and everything below it, and nothing else |
| LocalDisk.Host.SpawnSync | src/xoppEditor.ts:64 | `spawnSync` records its command line and adds the files the process wrote to the output directory |
| Workspace.Stat | src/xoppEditor.ts:38 | `stat` fails exactly on a missing resource; a file reports its type and size |
| Workspace.Copy | src/xoppEditor.ts:58 | `copy` writes the source's bytes to the new target, and fails without change when the source is missing or the target taken |
| XoppEditor.XoppDocument.constructor | src/xoppEditor.ts:19-23 | the document keeps its URI and cache directory |
| XoppEditor.XoppEditorProvider.constructor | src/xoppEditor.ts:30-33 | the provider keeps the extension path it was given |
| XoppEditor.XoppDocument.Dispose | src/xoppEditor.ts:13-17 | with a cache directory, exactly that subtree is removed; without one, nothing changes |
| XoppEditor.MakePageDir | src/xoppEditor.ts:44-46 | the cache root is created if missing, then a new empty directory `cache/<suffix>` that did not exist before; each failure is reported with its path |
| XoppEditor.Render | src/xoppEditor.ts:51-70 | a non-`file` source is copied to `temp.xopp` and that copy is rendered, a `file` source renders its path; `xournalpp` gets `[file, "-i", pageLoc + "/page.png"]`; a nonzero status fails with status and stderr, leaving the copy with the source's bytes and the pages written, and nothing else changed; a zero status leaves the pages without the copy |
| XoppEditor.XoppEditorProvider.OpenCustomDocument | src/xoppEditor.ts:35-73 | the full decision sequence: stat failure; empty or non-file source gives a document without pages and changes nothing; storage, copy and render failures, each with the new files and directories; on success a new document for the effective (backup) URI bound to a directory that did not exist before, holding exactly the rendered pages |
| XoppEditor.XoppEditorProvider.ResolveCustomEditor | src/xoppEditor.ts:87-92 | no cache directory shows nothing; a missing directory fails; otherwise it fails exactly when two `.png` entries exist and one has no digit, and shows each `.png` entry once, in non-decreasing page order |
| XoppEditor.PagesOfEnumeration | src/xoppEditor.ts:90-91 | the pages shown are exactly the directory's `.png` entries, each once |
| XoppEditor.BadFileOfEnumeration | src/xoppEditor.ts:81-92 | the listing of a directory fails exactly when it holds two `.png` entries and one without digits |
| XoppEditor.RenderedFilesPruned | src/xoppEditor.ts:16 | removing the cache directory of a render removes everything the render added and nothing that was there before |
| XoppEditor.OpenThenDispose | src/xoppEditor.ts:13-17 | open followed by dispose restores every file; only the cache root remains as a new directory |

## Left out

- The webview: HTML assembly, `asWebviewUri`/`Uri.joinPath` mapping,
  `webview.options` and the zoom script (src/xoppEditor.ts:93-139). This is
  presentation over VS Code APIs, with floating-point zoom arithmetic.
- src/extension.ts is not part of this model. It only registers the
  provider.
- Asynchrony. Each awaited call is one sequential step, and the
  `CancellationToken` is unused. `fs.rm` in `dispose` is not awaited, so
  its failure is never observed. `Dispose` models it as completing at once.
  An empty `pageDir` names no entry, so the model removes nothing.
- `PageIndex.PageNumber`: `parseInt` loses precision above 2^53. The model
  reads the digits as an unbounded natural number.
- Paths are '/'-separated strings. `path.sep` is '/' and `uri.fsPath` is
  the URI's path, so Windows paths and path normalisation (`.`, `..`,
  repeated slashes) are not modelled.
- `LocalDisk.Host.Mkdtemp`: the random suffix is a parameter. A name that
  is taken makes the model fail with `StorageFailed`, where libc would try
  other names.
- `Uri.parse` is the parameter `parse`. A URI is only a scheme and a path.
- `Workspace.Copy` copies bytes. A remote directory is copied as a file.
  Copying never overwrites, and access rights are not modelled.
- `xournalpp` itself is the oracle `proc`: its exit status, its stderr, and
  the names and bytes of the files it writes into the cache directory.
  That it writes `page-N.png` files is not assumed.
- `XoppEditor.Render`: when the tool cannot be started, `spawnSync` returns
  a null stderr. `proc.stderr.toString()` then throws a `TypeError` instead
  of the intended message. Both end the open with an error, and the model
  reports `RenderFailed` with status `None` in both cases. The error text
  is kept as its parts (file, status, stderr), not as the formatted message.
- The local disk has no symbolic links. For a symlinked `file:` document
  `workspace.fs.stat` reports `File | SymbolicLink` (65), which line 40
  treats as not a file, so the document opens without pages. In the model
  `Workspace.Stat` reports a local file as `File` (1) only, so this case
  is not covered.
- `LocalDisk.Host.MkdirRecursive`, `LocalDisk.Host.Mkdtemp`,
  `LocalDisk.Host.Rm` and `XoppEditor.XoppEditorProvider.ResolveCustomEditor`:
  permission and I/O errors are not modelled. `mkdir` and `mkdtemp` fail
  only on a file in the way or a taken name, and `readdir` only on a
  missing directory.
- `LocalDisk.Host.SpawnSync`: the process can only add plain files
  directly in the cache directory. It cannot delete or rename anything, so
  the failure of `fs.rm(file)` at line 70, for instance after the tool
  deleted `temp.xopp`, cannot happen in the model.
- `XoppEditor.XoppEditorProvider.ResolveCustomEditor`: the order of
  `readdir` is the parameter `listing`, which must list each entry of the
  directory once.
