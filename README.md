# immaculata: the dependency-tracking file tree, in Dafny

This project models the core of immaculata, a toolkit for building static
sites on Node. At its centre is an in-memory copy of a site directory. It
keeps a `files` map from a logical path (`/a/b.ts`) to an entry
`{ path, content, version }` and a `deps` graph from a *required* path to the
set of paths that *require* it. A batch of changed paths re-reads, adds or
removes entries. Then `resetDepTree` walks every graph key that is a string
prefix of a changed path: it deletes the key, gives each dependent a new
version, and recurses, with one shared `seen` set so that cycles end. Module
loader hooks serve the entries to Node under versioned URLs
(`?ver=<version>`), so a bumped version makes the loader fetch a module
again.

The tree exists in four variants, each modelled as a class over the same
value-level pieces:

- `FileTrees.FileTree` (src/filetree.ts) reports `add`/`dif`/`rem` changes. It
  ignores re-reads with identical bytes, sweeps whole directories that
  disappeared, and honours an `exclude` filter.
- `LiveTrees.LiveTree` (src/livetree.ts) stores every read unconditionally
  and deletes only the exact key of a missing path. It also holds the
  `resolve`/`load` decisions and `processFiles`. The older copy at the
  repository root, livetree.ts, runs the same code, so the same class models
  it: `#loadDir` (livetree.ts:19-34) is `LiveTree.LoadDir`, `#createFile`
  (36-40) is `LiveTree.CreateFile`, `addDep` (46-50) is `LiveTree.AddDep`,
  `#pathsUpdated` (52-68) is `LiveTree.PathsUpdated`, `#resetDepTree` (70-84)
  is `DepGraph.Reset` with `strict` set, and the batching of `watch` (86-113)
  is `LiveTrees.Watcher`.
- `Runtimes.Runtime` (src/runtime.ts) compiles TypeScript on the way in and
  stores it under its `.js` path. It skips hidden and `.d.ts` names, rebuilds
  everything when `package.json` changes, and resets module exports instead
  of bumping versions.

All four share modules for the common parts:

- `OrderedMaps`: a JavaScript `Map`, which keeps its keys in insertion order.
- `Disk`: the file system as a value, with the recursive directory walk.
- `Entries`: the stored entry and the version bump.
- `DepGraph`: the graph and the invalidation walk. It is one method with a
  `strict` switch. When `strict` is set, a dependent without an entry makes it
  fail, as `files.get(dep)!` throws. When it is clear, the walk still
  recurses into such a dependent and its own dependents, and only that
  dependent's module reset is skipped, as the `?.` in the runtime's
  `resetDepTree` does.

The walk chooses keys in any order (`:|`), so its contracts hold for every
iteration order of a JavaScript `Map`.

The smaller helpers are modelled next to the trees:

- the `.ts`/`.tsx` → `.js` path rule of site files (`TsFiles`);
- the loader hooks of src/hooks.ts (`Hooks`);
- bare-specifier rewriting in the TypeScript transform and the Babel plugin
  (`Transforms`, `Babel`);
- the filtered shared-array `Pipeline` (`Pipelines`);
- the JSX-to-HTML-string runtime (`JsxStrings`);
- the output-path rules of static site processing (`Ssp`);
- the mkdir/write plan of `generateFiles` (`FileGenerator`).

Foreign code appears as parameters:

- the clock: `now`, one value per batch;
- the disk: a `DiskMap` of what `statSync`/`readFileSync` report, or a
  directory listing `Node`;
- URL resolution: `href`, the already resolved URL;
- the compiler and UTF-8 decoding: `Compile`, `Decode`, `Encode`;
- a module's `require()`: `Require`;
- the rest of the loader chain: `next`;
- the JSX transformer;
- `posix.join`: `PosixJoin`;
- the `homepage` of a package.json: `PackageHomepage`.

Code that works by mutation is imperative Dafny: classes with `modifies`
clauses and loops with invariants. Each such method is proved against a
function of its inputs and old state, and the properties are proved about
those functions.

## Model

| member | source | states |
|---|---|---|
| Strings.SliceFrom | src/livetree.ts:83 | `slice(n)`: when `n` is within the string, the result is what follows the first `n` characters; past the end it is empty |
| Strings.DropLast | src/ssp.ts:15 | `slice(0, -n)`: the string without its last `n` characters, and empty when the string is no longer than `n` |
| Strings.ReplaceChar | src/filetree.ts:153 | `split(c).join(d)`: same length; every `c` becomes `d` and every other character stays in place |
| Strings.IndexOf | src/transforms.ts:30 | `indexOf`: -1 exactly when the character is absent, otherwise a position holding it with none before it |
| Strings.NatToString | src/livetree.ts:179 | the decimal form of a version: non-empty, all digits, and a leading `0` only for zero itself |
| Strings.ParseNatToString | src/livetree.ts:179 | reading the printed digits back gives the version again |
| Strings.NatToStringInjective | src/livetree.ts:179 | distinct versions print differently, so each bump yields a new URL |
| Strings.TrailingDigits | src/livetree.ts:162 | the length of the maximal run of digits at the end of a string, the position before it not being a digit |
| Strings.TrailingDigitsOfSuffix | src/livetree.ts:162 | digits appended after a non-digit form exactly the trailing run |
| Strings.StripVer | src/filetree.ts:89 | `replace(/\?ver=\d+$/, '')`: either the string unchanged, or a prefix of it followed by `?ver=` and a non-empty digit run up to the end; `StripVerOfDigits` gives the converse |
| Strings.StripVerOfDigits | src/filetree.ts:89 | any string followed by `?ver=` and any non-empty run of digits (leading zeros included) loses exactly that suffix |
| Strings.StripVerOfVersioned | src/livetree.ts:162 | a path followed by `?ver=` and a version loses exactly that suffix |
| Strings.StripVerNoDigits | src/livetree.ts:189 | a string that does not end in a digit is left unchanged |
| Strings.TrimSlashes | src/filetree.ts:31 | `replace(/\/+$/, '')`: a prefix of the input that does not end in `/`, and only `/` characters were removed |
| OrderedMaps.Empty | src/filetree.ts:24 | `new Map()`: well formed and empty |
| OrderedMaps.Put | src/filetree.ts:74 | `map.set(k, v)`: `k` holds `v` and the other keys keep their values; a present key keeps its place, a new key is appended |
| OrderedMaps.Delete | src/filetree.ts:106 | `map.delete(k)`: `k` is gone, the other keys keep their values, and the map stays well formed |
| OrderedMaps.DeleteAbsent | src/filetree.ts:106 | deleting a key that is absent changes nothing, not even the order |
| OrderedMaps.DeleteMiddle | src/filetree.ts:112 | deleting a key between the keys `a` and the keys `b` leaves exactly that order `a + b` |
| OrderedMaps.Filter | src/filetree.ts:109-114 | the keys that pass the test, in their order and without duplicates |
| OrderedMaps.FilterAll | src/filetree.ts:109-114 | a filter that every key passes keeps the whole order |
| OrderedMaps.FilterSnoc | src/filetree.ts:109-114 | filtering one more key appends it exactly when it passes |
| OrderedMaps.FilterConcat | src/filetree.ts:109-114 | filtering distributes over concatenation |
| OrderedMaps.Values | src/pipeline.ts:25 | `[...map.values()]`: one value per key, in key order |
| OrderedMaps.AddOnce | src/filetree.ts:155 | `set.add(x)` on an insertion-ordered set: `x` is a member afterwards; the set is unchanged when `x` was already there; there are still no duplicates |
| OrderedMaps.FromPairs | src/pipeline.ts:85 | `new Map(pairs)`: well formed, holding exactly the keys of the pairs |
| OrderedMaps.FromPairsLast | src/pipeline.ts:85 | a key holds the value of its last pair: a later duplicate overwrites an earlier one |
| OrderedMaps.FromPairsOrder | src/livetree.ts:40 | with distinct keys the map keeps the order of the pairs |
| Entries.Bump | src/filetree.ts:134-135 | `file.version = Date.now()` for each touched path, with one clock value: other fields, the other entries and the key order stay |
| Entries.BumpNothing | src/filetree.ts:134-135 | bumping no path leaves the map as it was |
| Disk.Join | src/filetree.ts:40 | `posix.join(base, name)` is the directory prefix of `base` followed by the name |
| Disk.DirPrefix | src/filetree.ts:40 | the directory prefix starts with the base and ends with `/` |
| Disk.WalkInside | src/filetree.ts:36-45 | every file that a walk of `base` reaches lies inside `base` |
| Disk.WalkNodeInside | src/filetree.ts:47-56 | every file reached from an entry starts with that entry's path |
| Disk.WalkKept | src/filetree.ts:36-45 | every file that a walk reaches was accepted by the filter as a file |
| Disk.WalkNodeKept | src/filetree.ts:47-56 | every file reached from one entry was accepted by the filter as a file |
| DepGraph.AddEdge | src/filetree.ts:90-92 | the key set gains the required path, and the edges are the old ones plus this (dependent, required) edge |
| DepGraph.AddEdgeIdempotent | src/filetree.ts:90-92 | recording an edge that is already there leaves the graph unchanged |
| DepGraph.AddEdgeTwice | src/livetree.ts:76-80 | recording the same edge twice gives the graph that recording it once gives |
| DepGraph.Reset | src/filetree.ts:126-141 | `resetDepTree(path, seen)`: nothing happens for a seen path. Otherwise `path` is marked and keys are only deleted, each deleted key being a prefix of a newly seen path. Newly seen paths are `path` and touched dependents. A run to the end leaves no key that is a prefix of a newly seen path, and it has visited and touched every dependent of a deleted key. A failure happens only when `strict` holds and some dependent is not stored |
| DepGraph.ExpandKey | src/filetree.ts:131-139 | the branch for one matching key: the key is deleted, each dependent is touched and walked with the shared `seen` set, and on success every dependent has been visited and touched |
| DepGraph.ResetAll | src/filetree.ts:118-121 | the loop over a batch with one `seen` set: on success every path of the batch was visited, nothing is visited outside the batch and the touched dependents, and keys are only deleted for visited prefixes; a failure is a missing stored dependent under `strict`; without `strict` it never fails |
| DepGraph.Survivors | src/filetree.ts:126-141 | after a complete walk a key survives exactly when no visited path starts with it |
| DepGraph.ChainExample | src/filetree.ts:126-141 | `/a.js` → `/b.js` → `/c.js`: changing `/c.js` visits all three and deletes both keys |
| DepGraph.CycleExample | src/filetree.ts:127-128 | two modules requiring each other: the walk ends with both visited and both keys gone |
| DepGraph.SiblingPrefixExample | src/filetree.ts:131 | matching is by string prefix: a change to `/a.tsx` also invalidates what was recorded under `/a.ts` |
| FileTrees.KeepFor | src/filetree.ts:47-56 | the walk filter for `exclude`: a directory is offered as `path + '/'`, a file as its path |
| FileTrees.Create | src/filetree.ts:58-75 | identical bytes at a known path leave the state exactly as it was. Otherwise the path is stored with the new bytes, version `now` and one change: `dif` for a known path, `add` for a new one. Other entries stay |
| FileTrees.LoadAll | src/filetree.ts:36-45 | loading the files a walk reaches keeps every entry keyed by its own path and the map well formed |
| FileTrees.LoadAllConcat | src/filetree.ts:39-44 | loading two runs of files is loading one after the other |
| FileTrees.LoadAllStores | src/filetree.ts:36-75 | a load stores exactly the old keys plus the paths it reaches, each reached path holds the bytes read last for it (`LastContent`), and every other entry stays as it was |
| FileTrees.LoadUnchanged | src/filetree.ts:61-64 | re-reading a file whose bytes equal the stored ones records no change and keeps the entry and its version |
| FileTrees.ExcludedNeverStored | src/filetree.ts:53 | a file that `exclude` rejects is never stored by a directory load |
| FileTrees.ExcludedDirSkipped | src/filetree.ts:49 | a directory that `exclude` rejects as `path + '/'` contributes nothing, whatever it holds |
| FileTrees.Removed | src/filetree.ts:105-114 | the paths a sweep of `fp` reports: exactly the stored `fp` and the stored paths starting with `fp + '/'`, each once, with `fp` first when it is stored |
| FileTrees.Sweep | src/filetree.ts:105-115 | a missing path: the entries left are exactly those that are neither `fp` nor inside `fp + '/'` (a sibling that only shares a prefix stays), unchanged; one `rem` is added per removed path, in order |
| FileTrees.UpdateOne | src/filetree.ts:100-115 | one path of a batch: it is re-read when it exists and swept when it does not, and every entry stays keyed by its path |
| FileTrees.Update | src/filetree.ts:98-116 | the first loop over the batch keeps the map well formed and keyed |
| FileTrees.UpdateSnoc | src/filetree.ts:98-116 | the loop over a batch handles one more path by one more `UpdateOne` step, in order |
| FileTrees.ConsumerKeyOfUrl | src/filetree.ts:88-89 | a module URL `root + p + '?ver=' + n` is recorded as the consumer `p` again |
| FileTrees.FileTree.constructor | src/filetree.ts:27-34 | the root is the resolved URL with trailing `/` removed, the graph is empty, and the files are what loading `/` stores |
| FileTrees.FileTree.LoadDir | src/filetree.ts:36-45 | `loadDir(base)`: files and changes become those of loading the walk of the listing, in order; the graph is untouched |
| FileTrees.FileTree.MaybeAdd | src/filetree.ts:47-56 | a directory is walked and a file created unless `exclude` rejects it (then nothing changes); anything else is ignored |
| FileTrees.FileTree.CreateFile | src/filetree.ts:58-75 | `createFile` with the bytes read is `Create` on the files and change list |
| FileTrees.FileTree.AddDependency | src/filetree.ts:87-93 | the consumer loses the root length when it is a `file://` URL and a final `?ver=<digits>`; the edge is keyed by the required path; files stay |
| FileTrees.FileTree.PathsUpdated | src/filetree.ts:95-124 | the changes and the files before bumping are those of `Update` on the batch. Keys are only deleted, each one a prefix of a visited path. Every visited path is a changed path or a bumped dependent, and bumped paths are dependents of deleted keys. On success every changed path was visited, every dependent of a deleted key got version `now`, and a key survives exactly when no visited path starts with it. On failure a deleted key has a dependent without an entry |
| FileTrees.FileTree.Reload | src/filetree.ts:98-116 | the first loop of `pathsUpdated`: files and changes become `Update` of the batch |
| FileTrees.FileTree.Remove | src/filetree.ts:105-115 | the missing-path branch is `Sweep` |
| FileTrees.Normalize | src/filetree.ts:152 | a watched name becomes `'/'` followed by the name, character by character, with each `\\` turned into `/` |
| FileTrees.Watcher.constructor | src/filetree.ts:146-149 | the batch starts empty, and the debounce is the option's value or 100 ms |
| FileTrees.Watcher.Event | src/filetree.ts:152-155 | an empty name is ignored; any other is normalised and added once to the batch |
| FileTrees.Watcher.Fire | src/filetree.ts:157-167 | the batch goes to `pathsUpdated`, and the tree afterwards is what `FileTree.PathsUpdated` promises for that batch: the changes and entries of `Update` with the bumps, `deps` inside the old graph with every removal justified, and the walk's bounds and survivors when it succeeded, or a dependent without an entry when it failed; the callback runs exactly when that succeeded with changes; the batch is cleared only when neither threw |
| FileTrees.SweepFiles | src/filetree.ts:105-114 | deleting the exact entry and then each key inside `fp` gives `Sweep`'s files and changes |
| FileTrees.SweepInside | src/filetree.ts:109-114 | the `forEach` over the keys deletes exactly the entries inside `fp`, keeps the others in order and adds one `rem` for each deleted entry, in map order |
| FileTrees.DeleteUnderAll | src/filetree.ts:109-114 | deleting while walking all keys leaves exactly the entries outside `fp`, in their order |
| LiveTrees.KeepAll | src/livetree.ts:43-58 | the walk of `loadDir` keeps every directory and regular file |
| LiveTrees.StoreAll | src/livetree.ts:60-65 | storing the walked files: the keys are the old ones plus the walked paths, and every walked path holds the bytes read last for it with version `now`. Other entries stay, and entries stay keyed |
| LiveTrees.StoreAllConcat | src/livetree.ts:46-57 | storing two runs of files is storing one after the other |
| LiveTrees.SlicePaths | src/livetree.ts:83 | `paths.map(p => p.slice(root.length))`, element by element |
| LiveTrees.FirstUnreadable | src/livetree.ts:85-92 | the position where the first loop throws: everything before it is readable, and the path there exists but is not a file |
| LiveTrees.FirstUnreadableAt | src/livetree.ts:85-92 | `FirstUnreadable` is the first position whose path cannot be read |
| LiveTrees.Refresh | src/livetree.ts:85-92 | after the loop a path is stored exactly when it is in the batch and exists, or is not in the batch and was stored; a batch path holds the bytes from disk with version `now`, other entries are unchanged; only exact keys are deleted |
| LiveTrees.Rel | src/livetree.ts:167 | `'/' + relative(base, path)` for a path under `base`: `/` for the directory itself; otherwise a string starting with `/` that is the rest of `path` after `base`, once `base`'s own trailing `/` is removed |
| LiveTrees.Lookup | src/livetree.ts:168-172 | the first candidate with an entry wins; there is none exactly when no candidate is stored |
| LiveTrees.ResolveResult | src/livetree.ts:150-185 | `resolve` intercepts exactly a local specifier whose URL lies under `base` and one of whose candidates `rel`, `rel.ts`, `rel.tsx` or `rel.jsx` is stored. It then answers the first stored candidate's path with `?ver=<its version>`; anything else is deferred |
| LiveTrees.EdgeOfVersionedParent | src/livetree.ts:161-165 | a parent whose URL `resolve` handed out is recorded under its path without the version, depending on the requested path before any extension fallback |
| LiveTrees.Ups | src/livetree.ts:202 | `n` parent steps: `n` copies of `..` joined by `/`, so `3n - 1` characters, each a `/` at the positions `2 mod 3` and a `.` elsewhere |
| LiveTrees.ToRoot | src/livetree.ts:202 | the relative path from a file's directory to the root is `.` exactly for a file directly in the root, and otherwise one `..` per directory level between them |
| LiveTrees.Serve | src/livetree.ts:198-216 | a found entry always becomes a module. Its source is text exactly when there is a transformer and the path ends in `.tsx` or `.jsx`, and then it is the transformer's output. Otherwise it is the stored bytes. The format is `module-typescript` for raw `.ts`/`.tsx` and `module` in every other case |
| LiveTrees.Load | src/livetree.ts:187-220 | the three outcomes of `load` (deferred for a URL not under `base`, served from the entry at the stripped path, deferred on the stripped URL with no entry); what they mean for the tree's own URLs is stated by `LoadOfVersioned` and `ResolveThenLoad` |
| LiveTrees.LoadOfVersioned | src/livetree.ts:187-196 | a URL that `resolve` handed out for a stored entry loads that entry, whatever the version |
| LiveTrees.ResolveThenLoad | src/livetree.ts:150-196 | whatever `resolve` short-circuits to, `load` serves from the same stored entry |
| LiveTrees.CopyLast | src/livetree.ts:38-40 | an unchanged copy list holds each entry's own pair, and no later pair has the same path |
| LiveTrees.Copies | src/livetree.ts:38 | one copy per entry, in map order, with the entry's path and content; the copy's `version` and the sharing of the bytes with the tree are not kept (see Left out) |
| LiveTrees.Pairs | src/livetree.ts:40 | `files.map(f => [f.path, f.content])`, element by element |
| LiveTrees.ProcessFiles | src/livetree.ts:37-41 | the result holds exactly the paths the transformer returned; a path holds the content of its last file, so a later duplicate overwrites an earlier one |
| LiveTrees.ProcessUnchanged | src/livetree.ts:37-41 | handing the copies back unchanged gives the tree's own contents in the tree's order |
| LiveTrees.LiveTree.constructor | src/livetree.ts:31-35 | `base` is the resolved root, the graph is empty, and the files are what storing the walk of `/` gives |
| LiveTrees.LiveTree.LoadDir | src/livetree.ts:43-58 | `loadDir`: the files become `StoreAll` of the walk of the listing; the graph is untouched |
| LiveTrees.LiveTree.LoadEntry | src/livetree.ts:46-57 | one listing entry: a directory is walked, a file stored, anything else skipped |
| LiveTrees.LiveTree.CreateFile | src/livetree.ts:60-65 | the entry is replaced with the bytes read and version `now`, with no comparison |
| LiveTrees.LiveTree.AddDep | src/livetree.ts:76-80 | the edge is recorded, keyed by the required path; files stay |
| LiveTrees.LiveTree.PathsUpdated | src/livetree.ts:82-98 | each path loses `root.length` characters. When a path exists but is not a file, the read throws: the files are `Refresh` of the batch up to it, and the graph is unchanged. Otherwise the files are `Refresh` of the batch, with versions bumped for touched dependents. Keys are only deleted, and every visited path is a batch path or a bumped dependent. On success every batch path was visited and a key survives exactly when no visited path starts with it. A failure is a dependent without an entry |
| LiveTrees.LiveTree.Reload | src/livetree.ts:85-92 | the first loop stops at `FirstUnreadable`, and the files are `Refresh` of the batch up to there |
| LiveTrees.LiveTree.Resolve | src/livetree.ts:150-185 | the answer is `ResolveResult`; the graph gains exactly the edge `ResolveEdge` gives, if any; files stay |
| LiveTrees.ToPosix | src/livetree.ts:122 | `split('\\').join('/')`: same length, each `\\` turned into `/` and every other character kept in place, with no leading `/` added |
| LiveTrees.Watcher.constructor | src/livetree.ts:118-119 | the batch starts empty |
| LiveTrees.Watcher.Event | src/livetree.ts:121-123 | an event adds its path, with backslashes converted, once to the batch |
| LiveTrees.Watcher.Fire | src/livetree.ts:124-133 | `onchange` runs exactly when `pathsUpdated` did not throw. When every path was readable, the entries are `Refresh` of the batch with the bumps, and `deps` is inside the old graph with every removal justified. On success the walk covers exactly the batch and its bumps; on failure a dependent is left without an entry. When a path is unreadable, the graph is unchanged and the entries are refreshed up to that path. The batch is cleared only when neither threw |
| Runtimes.SiteKeep | src/runtime.ts:68-69 | `#loadDir` skips a name starting with `.` or ending in `.d.ts`, whatever it is |
| Runtimes.Store | src/runtime.ts:88-91 | `#putFile` stores the built file under its own, converted, path |
| Runtimes.PutAll | src/runtime.ts:64-82 | the keys become the old ones plus the converted paths of the files read. Every other entry stays, and each entry stays under its own path |
| Runtimes.PutAllLast | src/runtime.ts:88-91 | a converted key holds the file built from the last item stored under it |
| Runtimes.PutAllConcat | src/runtime.ts:64-82 | loading two runs of files is loading one after the other |
| Runtimes.FirstFailing | src/runtime.ts:48-56 | the position where the update loop throws: everything before it is skipped, readable or missing, and the path there is a counted path that exists but is not a file. A compile error is not a failure here (see Left out) |
| Runtimes.FirstFailingAt | src/runtime.ts:48-56 | `FirstFailing` is the first position whose path makes the loop throw |
| Runtimes.Refresh | src/runtime.ts:48-56 | the update loop keeps the map well formed, with each file stored under its own path |
| Runtimes.RefreshOthers | src/runtime.ts:48-56 | a key that no counted path of the batch converts to keeps its entry, or its absence |
| Runtimes.RefreshLast | src/runtime.ts:48-56 | the last counted path that converts to a key decides it: it is stored, with the file built from disk, exactly when the path exists |
| Runtimes.DeletedTsTakesJs | src/runtime.ts:54 | a deleted `/a.ts` removes the `/a.js` entry |
| Runtimes.ModuleResets | src/runtime.ts:110-113 | the modules reset are exactly those of the touched dependents whose converted key is stored with a module |
| Runtimes.Runtime.constructor | src/runtime.ts:9-19 | the site directory defaults to `site`; two compilers have been created, one by the field initializer and one by `rebuildAll`; the graph and resets are empty, and the files are what loading `/` stores |
| Runtimes.Runtime.RebuildAll | src/runtime.ts:34-37 | a new compiler and a reload over the existing map: nothing is cleared, and the graph is kept |
| Runtimes.Runtime.LoadDir | src/runtime.ts:64-82 | the files become `PutAll` of the filtered walk of the listing |
| Runtimes.Runtime.LoadEntry | src/runtime.ts:67-81 | hidden and `.d.ts` names are skipped first; then a directory is walked and a file stored |
| Runtimes.Runtime.PutFile | src/runtime.ts:84-91 | `#createFile`/`#putFile` is `Store` of the bytes read |
| Runtimes.Runtime.AddDeps | src/runtime.ts:97-101 | the edge is recorded, keyed by the required path; files and resets stay |
| Runtimes.Runtime.PathsUpdated | src/runtime.ts:39-62 | a batch naming `package.json` rebuilds everything and does nothing else. Otherwise each path loses the site directory's length. When a read throws, the files are `Refresh` up to that path and neither invalidation nor resets run. Otherwise every batch path is visited, and only batch paths and reached dependents are. Keys survive exactly when no visited path starts with them, the reached dependents are exactly those of the deleted keys, and their stored modules are reset (`ModuleResets`). Compilation is taken not to throw (see Left out) |
| Runtimes.Runtime.Reload | src/runtime.ts:48-56 | the update loop stops at `FirstFailing`; the files are `Refresh` up to there |
| TsFiles.ConvertTsExts | src/file.ts:23-25 | a final `.ts` or `.tsx` becomes `.js`; any other path is unchanged |
| TsFiles.ConvertedIsNotTs | src/file.ts:24 | a converted path never ends in `.ts` or `.tsx` |
| TsFiles.ConvertIdempotent | src/file.ts:24 | converting twice is converting once |
| TsFiles.ConvertTs | src/file.ts:24 | `stem + '.ts'` becomes `stem + '.js'` |
| TsFiles.ConvertTsx | src/file.ts:24 | `stem + '.tsx'` becomes `stem + '.js'` |
| TsFiles.ConvertExample | src/file.ts:24 | `/a.ts` becomes `/a.js` |
| TsFiles.ConvertDeclarationExample | src/file.ts:24 | only the last extension changes: `/a.d.ts` becomes `/a.d.js` |
| TsFiles.ConvertTsxExample | src/file.ts:24 | `/a.tsx` becomes `/a.js` |
| TsFiles.ConvertJs | src/file.ts:24 | `/a.js` is left alone |
| TsFiles.MakeFile | src/file.ts:8-19 | a `.ts`/`.tsx` file gets a module from its decoded text, compiled content and the converted path; any other file keeps its path and raw bytes and gets no module. The compiler is total here (see Left out) |
| TsFiles.MakeFileSettled | src/file.ts:13-17 | the path of a built file is already converted and not TypeScript |
| Ssp.ArraySlug | src/ssp.ts:4 | the slug the array pattern captures: a `[…]` after a `/`, followed by a double-extension tail ending in `.js` |
| Ssp.ArraySlugGreedy | src/ssp.ts:4 | whenever the pattern can match, a slug is captured, namely the greedy (latest) choice |
| Ssp.ArrayFileIsSingleFile | src/ssp.ts:4-5 | every array file also matches the single-file pattern, so the array test has to come first |
| Ssp.FindSub | src/ssp.ts:14 | the search for a string pattern returns -1 or a position at or after `from` where it occurs |
| Ssp.FindSubFirst | src/ssp.ts:14 | when the pattern occurs at `j`, the search finds an occurrence no later than `j` |
| Ssp.FindSubAt | src/ssp.ts:14 | an occurrence with none before it is the one the search returns |
| Ssp.ReplaceFirst | src/ssp.ts:14 | `replace` with a string pattern changes only the first occurrence, and nothing when there is none |
| Ssp.Renamed | src/ssp.ts:13-16 | one output per exported pair |
| Ssp.RenamedAt | src/ssp.ts:14-15 | the `i`th output is the path before the slug, the pair's name, and the rest of the path up to `.js`, with the pair's content |
| Ssp.SlugIndex | src/ssp.ts:14 | `replace` finds the captured slug at its first occurrence, at or before the capture |
| Ssp.Outputs | src/ssp.ts:7-27 | `processFile` throws exactly for a module pattern on a file without a module. A file matching neither pattern passes through unchanged. A single file yields one output: its path minus 3 characters, with the default export |
| Ssp.OutputsArray | src/ssp.ts:11-17 | an array file with a module yields its renamed pairs |
| Ssp.ArrayOutputs | src/ssp.ts:11-17 | each output of an array file is the path with the first occurrence of the slug replaced by the name, minus `.js`, with the pair's content |
| Ssp.ReplacedPath | src/ssp.ts:14-15 | replacing inside the stem keeps the `.js` that `slice(0, -3)` then drops |
| Ssp.ExampleSlug | src/ssp.ts:4 | the capture in `/posts/[id].html.js` is `[id]`, found first at index 7 |
| Ssp.ExampleRenamed | src/ssp.ts:14-15 | renaming the example yields the stem before the slug, the name, then `.html` |
| Ssp.ExampleRenamedTo | src/ssp.ts:14-15 | a one-letter name `x` gives `/posts/x.html` |
| Ssp.ArrayOutputsExample | src/ssp.ts:11-17 | exporting `[["a", x], ["b", y]]` writes exactly `/posts/a.html` and `/posts/b.html`, in that order |
| Ssp.TwoOutputs | src/ssp.ts:11-17 | a module exporting two pairs yields exactly its two renamed outputs, in order |
| Ssp.ProcessFile | src/ssp.ts:7-27 | the push loop returns `Outputs` of the file |
| Ssp.ProcessSiteThrows | src/ssp.ts:1-2 | `processSite` throws exactly when one of its files does |
| Ssp.ProcessSiteConcat | src/ssp.ts:1-2 | `processSite` is the in-order concatenation of `processFile` |
| Hooks.FindExt | src/hooks.ts:19 | the first position where `ext` is followed by `?` or the end, or -1 when there is none |
| Hooks.ReplaceJs | src/hooks.ts:19-21 | the first `.js` before `?` or the end is replaced by the new extension, and the query is kept; without one the specifier is unchanged |
| Hooks.ReplaceJsExample | src/hooks.ts:19 | `/util.js` is retried as `/util.ts` |
| Hooks.ReplaceJsQueryExample | src/hooks.ts:20 | `/util.js?v=1` becomes `/util.tsx?v=1` |
| Hooks.ReplaceJsxExample | src/hooks.ts:19 | `/util.jsx` is left alone |
| Hooks.TryEach | src/hooks.ts:17-22 | `??` over `trySpec` gives nothing exactly when every candidate is not found; otherwise it returns the first candidate that resolves or throws something else |
| Hooks.TryAltExts | src/hooks.ts:7-24 | a specifier that resolves or throws another error decides at once; when all four candidates are not found, a plain call decides |
| Hooks.TryAltExtsOrder | src/hooks.ts:9-21 | candidate `k` decides when every earlier one was not found and it was not |
| Hooks.TryAltExtsAllMissing | src/hooks.ts:22 | when everything is not found, the final call throws the same not-found error |
| Hooks.CompileJsx | src/hooks.ts:32-49 | a URL without `.tsx`/`.jsx` (optionally before `?`) is deferred. Otherwise the chain's source, or the file read directly on an unknown extension, goes through `fn`. Every compiled answer has format `module` and `shortCircuit`. It throws exactly when the chain reports an error other than an unknown extension |
| Hooks.JsxGateExamples | src/hooks.ts:33-35 | `/a.tsx?ver=3` and `/b.jsx` are compiled; `/a.ts` is not |
| Hooks.VersionedJsxCompiled | src/hooks.ts:33-35 | the versioned URL the live tree hands out for a `.tsx`/`.jsx` entry (src/livetree.ts:178-179) passes the gate, so `compileJsx` never defers it, whatever the version |
| Hooks.MapImport | src/hooks.ts:56-59 | only a specifier equal to `from` becomes `to`; every other specifier passes on unchanged |
| Transforms.Split | src/transforms.ts:30-34 | `lib` + remainder is the specifier; `lib` has no `/`, and the remainder is empty or starts with `/`; without a `/` the remainder is empty |
| Transforms.Rewrite | src/transforms.ts:21-45 | nothing is rewritten exactly for specifiers starting with `.`, `/` or `http` |
| Transforms.ExactKeyWins | src/transforms.ts:26-28 | an exact key wins over its package name and replaces the whole specifier |
| Transforms.PackageKeyKeepsSubpath | src/transforms.ts:36-38 | `lib/sub` with `lib` a key becomes `replacements[lib] + '/sub'` |
| Transforms.WholeSpecifierFallback | src/transforms.ts:30-44 | a specifier without `/` and without a key resolves the empty remainder against the homepage |
| Transforms.Fixed | src/transforms.ts:40 | the fallback's homepage is that of one fixed package, whatever `lib` is |
| Transforms.MaybeReplace | src/transforms.ts:21-45 | the original node is kept exactly for relative, absolute and `http` specifiers; an exact key gives a literal holding its replacement |
| Transforms.FallbackIgnoresLib | src/transforms.ts:40-44 | two specifiers with the same remainder and no keys fall back to the same URL, whatever their package names |
| Transforms.VisitLiteral | src/transforms.ts:8-17 | a literal gets a new value exactly when it is the source of an import, an export or a dynamic `import()` and is not relative, absolute or `http`; an exact key of the table then gives its replacement |
| Babel.HomepageIn | src/babel.ts:44-46 | the fallback reads the homepage of `<projectRoot>/node_modules/<lib>/package.json` |
| Babel.ModifyPath | src/babel.ts:24-49 | `source.value` becomes the rewritten specifier, or stays when nothing is rewritten |
| Babel.EnterImport | src/babel.ts:8-12 | every import's source is rewritten |
| Babel.EnterExport | src/babel.ts:13-19 | an export is rewritten only when it has a non-empty source |
| JsxStrings.IntToString | src/jsx-strings.ts:46 | a number child or attribute is pushed as its decimal text, non-empty |
| JsxStrings.JoinConcat | src/jsx-strings.ts:33 | joining distributes over concatenation |
| JsxStrings.KidsFlatten | src/jsx-strings.ts:4-5 | normalising the `children` prop renders the same parts as pushing the prop as a single child: a lone child and a one-element array agree, and absent children render nothing |
| JsxStrings.FlattenConcat | src/jsx-strings.ts:39-50 | flattening is in order: it distributes over concatenation |
| JsxStrings.FlattenSkips | src/jsx-strings.ts:41 | `null`, `undefined` and `false` children push nothing |
| JsxStrings.FlattenNested | src/jsx-strings.ts:42-43 | a nested array contributes its own flattening, in place |
| JsxStrings.FlattenExample | src/jsx-strings.ts:39-50 | text is pushed verbatim with no escaping; `0` and `true` are rendered, `false` and `null` are not |
| JsxStrings.AttrPart | src/jsx-strings.ts:20-24 | `true` or `''` renders ` k`, any other truthy value ` k="v"`, and a falsy value nothing |
| JsxStrings.AttrPartsConcat | src/jsx-strings.ts:19-25 | attributes push their parts in their order |
| JsxStrings.AttrTextConcat | src/jsx-strings.ts:19-25 | the rendered attribute list is each attribute's text in order |
| JsxStrings.FalsyAttrOmitted | src/jsx-strings.ts:21-24 | `false`, `null`, `undefined` and `0` attributes leave no trace |
| JsxStrings.Parts.Push | src/jsx-strings.ts:18 | `parts.push(…)` appends in order |
| JsxStrings.PushChildren | src/jsx-strings.ts:39-50 | the recursive loop appends exactly the flattening of the children |
| JsxStrings.PushOpenTag | src/jsx-strings.ts:18-26 | it pushes `<`, the tag, each attribute's parts in order, then `>` |
| JsxStrings.Jsx | src/jsx-strings.ts:3-34 | a component gets the attributes and normalised children. The fragment renders only the flattened children. A unary tag renders its opening tag and drops its children; any other tag wraps them in its closing tag |
| Pipelines.MemFile.constructor | src/pipeline.ts:8-11 | string content is encoded to bytes and bytes are kept; no text is cached yet |
| Pipelines.MemFile.GetText | src/pipeline.ts:14 | a cached text is returned; otherwise the bytes are decoded and cached, and the content is untouched |
| Pipelines.MemFile.SetText | src/pipeline.ts:15 | after setting, `textOrContent` is the set text |
| Pipelines.MemFile.TextOrContent | src/pipeline.ts:16 | the text once it is known, the bytes before |
| Pipelines.Select | src/pipeline.ts:37-43 | exactly the files whose result of `#matches` is `want`, in list order |
| Pipelines.SelectConcat | src/pipeline.ts:37-39 | selection distributes over concatenation, so order is kept |
| Pipelines.SelectSplit | src/pipeline.ts:62-70 | every file is selected or kept by `remove`, never both |
| Pipelines.FindPath | src/pipeline.ts:50 | `findIndex`: the first file with exactly that path, or -1 when there is none |
| Pipelines.RemoveFirst | src/pipeline.ts:49-52 | only the first file with that path is spliced out; without one nothing changes |
| Pipelines.ResultPairs | src/pipeline.ts:85 | one `[path, textOrContent()]` pair per file, in order |
| Pipelines.Pipeline.From | src/pipeline.ts:24-27 | one fresh file per tree entry, in map order, with the entry's path and bytes, and no filters |
| Pipelines.Pipeline.All | src/pipeline.ts:37-39 | exactly the shared files that every filter accepts, in list order |
| Pipelines.Pipeline.Add | src/pipeline.ts:45-47 | a fresh file is appended to the shared list, whatever this view's filters |
| Pipelines.Pipeline.Del | src/pipeline.ts:49-52 | the shared list loses its first file with that path, and is unchanged when there is none |
| Pipelines.Pipeline.With | src/pipeline.ts:54-56 | a new view over the same list with one more filter that must match |
| Pipelines.Pipeline.Without | src/pipeline.ts:58-60 | a new view over the same list with one more filter that must not match |
| Pipelines.Pipeline.Remove | src/pipeline.ts:62-70 | the backward loop leaves exactly the unselected files, in their order |
| Pipelines.Pipeline.Paths | src/pipeline.ts:80-82 | the paths of `all()`, in order |
| Pipelines.Pipeline.Results | src/pipeline.ts:84-86 | a well-formed map whose keys are exactly the selected paths |
| Pipelines.Pipeline.ResultsLast | src/pipeline.ts:85 | the last selected file with a path decides its value |
| FileGenerator.FileSystem.Mkdir | src/file-generator.ts:19 | `fs.mkdirSync` records one directory; it never fails here (see Left out) |
| FileGenerator.FileSystem.WriteFile | src/file-generator.ts:31 | `fs.writeFileSync` records one write |
| FileGenerator.SplitSlash | src/file-generator.ts:24 | `split('/')`: at least one part, none containing `/` |
| FileGenerator.SplitJoin | src/file-generator.ts:24 | joining the parts with `/` gives the path back |
| FileGenerator.Ancestors | src/file-generator.ts:25-28 | the directories considered are the joins of the first 1, 2, … parts, shortest first, one fewer than the parts |
| FileGenerator.MkdirsOf | src/file-generator.ts:18 | the directories of a log's `mkdir` lines: a directory is listed exactly when the log makes it |
| FileGenerator.DirsLogFacts | src/file-generator.ts:25-28 | the inner loop keeps directories unique, never makes a prefix of `parent`, and leaves each considered directory made unless it is such a prefix |
| FileGenerator.EntriesLogSound | src/file-generator.ts:22-32 | the outer loop keeps the log sound: no directory twice, none that `parent` starts with, every write after its ancestors |
| FileGenerator.EntriesLogWrites | src/file-generator.ts:22-32 | the outer loop writes once per entry, in order |
| FileGenerator.PlanFacts | src/file-generator.ts:4-33 | a run writes exactly one file per entry, at `join(parent, outDir, path)`, in map order. Each ancestor was made before its write or is a prefix of `parent`. No directory is made twice, and none that `parent` starts with |
| FileGenerator.DefaultDest | src/file-generator.ts:9-11 | with no options the outputs go to `join('', 'docs', path)` |
| FileGenerator.MakeAncestors | src/file-generator.ts:25-28 | the inner loop logs `DirsLog` of the ancestors; `madeDirs` is the set of logged directories; a real run makes exactly the logged ones and a dry run none |
| FileGenerator.GenerateEntry | src/file-generator.ts:23-31 | one entry: its ancestors, then `writefile` and, unless dry, the write |
| FileGenerator.GenerateStep | src/file-generator.ts:22-32 | the outer loop's body stays on the plan and writes the next entry |
| FileGenerator.GenerateFiles | src/file-generator.ts:4-33 | the log is the plan, dry or not. A dry run touches nothing. A real run makes exactly the logged directories and writes every entry, in map order, given that no directory it makes exists already (see Left out) |

## Left out

- `FileTrees.FileTree.constructor`, `LiveTrees.LiveTree.constructor`, `Runtimes.Runtime.constructor` and `Runtimes.Runtime.RebuildAll` require the root listing to be a directory (`listing.Dir?`). The throw of `readdirSync` on a missing or non-directory root is not modelled.
- The file system, the clock and the watchers (`fs`, `Date.now`, `chokidar`, `fs.watch`, the debounce timers) are values and parameters. A batch uses one clock value for all its bumps. The debounce is the pair of operations `Event` and `Fire`.
- `LiveTrees.Watcher.Fire` does not model the argument of `onchange`: the code passes the batch `Set` itself and clears that same object right afterwards, so a callback that keeps it sees it empty. The file tree's watcher passes the changes instead and starts a new `Set`, so it does not share the batch.
- URL handling (`new URL`, `fileURLToPath`, `posix.relative`, `posix.join`) is reduced to string prefixes and concatenation, and percent-encoding is not modelled. `ToRoot` counts `/` in a path and assumes no empty segments.
- `FileTrees.FileTree.constructor`: the root URL is given already resolved (`href`); only the trimming of trailing `/` is modelled.
- `FileTrees.FileTree.PathsUpdated`: a path that exists but is neither a file nor a directory is ignored, as `maybeAdd` ignores it; the read errors of `readdirSync`/`readFileSync` are not modelled.
- `Runtime.build`, the site processor it loads, and its `console.log` of the time are not part of this model: they are a call into a module's `require()` and I/O.
- `Pipeline.do` and `doAsync` run a caller's function over `all()`; the callback is foreign, so they are not part of this model.
- The `Pipeline` filter regexes are predicates on the path; the stateful `lastIndex` of a global regex's `test` is not modelled.
- `MemFile.path` is a constant, because no code of the core reassigns it.
- `for…in` over JSX attributes visits integer-like keys first in JavaScript; the model takes the attributes in the order given.
- JavaScript numbers in JSX children and attributes are integers here; `NaN`, fractions and the exponent form of `${n}` are not modelled.
- The `ssp.ts` patterns are written as predicates on the path. Regex `.` not matching a line break is ignored, since paths hold none.
- `replace` with a string pattern: `$` sequences in the replacement name are not interpreted.
- `dep in replacements` also sees keys inherited from `Object.prototype`; the model checks own keys only.
- The package.json lookups (`findPackageJSON`, `join(projectRoot, 'node_modules', lib, 'package.json')`, `JSON.parse`) become a function giving the `homepage`.
- `console.log` lines of `generateFiles` are the returned log, and the `fs` calls are recorded by `FileGenerator.FileSystem`.
- `deleteFromCache` is empty in the source and has no counterpart.
- The module loader API (`registerHooks`, `next`, `context`) is reduced to the decisions of `resolve` and `load`; `processFiles` awaits its transformer, which here is a plain function.
- `DepGraph.Reset`: the walk is proved safe and exhaustive, but not the least set of keys it could delete; a key deleted by a nested call is not revisited, which the contracts admit.
- `DepGraph.ResetAll`, `FileTrees.FileTree.PathsUpdated`, `LiveTrees.LiveTree.PathsUpdated` and `Runtimes.Runtime.PathsUpdated` inherit that gap: the deleted keys are bounded by the visited paths and the visited paths by the batch and the reached dependents, but they are not proved to be the least such set.
- MakeFile (`TsFiles.MakeFile`): the compiler `Compile` is a total function, so the throw of the `File` constructor on a TypeScript syntax error (src/file.ts:16) is not modelled.
- FirstFailing (`Runtimes.FirstFailing`): for the same reason a `.ts` file that fails to compile does not stop the update loop of src/runtime.ts:48-56 here, and `Runtimes.Runtime.PathsUpdated` runs invalidation where the code would have thrown.
- Mkdir (`FileGenerator.FileSystem.Mkdir`): `fs.mkdirSync` without `recursive` throws when the directory exists, for instance `docs` on a second real run; the recorded file system accepts every call.
- GenerateFiles (`FileGenerator.GenerateFiles`): so its contract holds for a run whose directories do not exist yet; the abort of `generateFiles` on an existing directory is not modelled.
- Copies (`LiveTrees.Copies`): `{ ...f }` is a shallow copy that also carries `version` and shares the stored `Buffer` with the tree, so a transformer that edits the bytes in place also changes the tree. The copy here holds only path and content, as values.
- Rel (`LiveTrees.Rel`): `posix.relative` also normalises the path and drops a trailing `/` of `path`; the model keeps the rest of the path as it is.
- `Ssp.FindSub`: the first-occurrence half of its meaning is stated in the lemmas `Ssp.FindSubFirst` and `Ssp.FindSubAt` rather than in its own contract.
