/**
 * `FileTree` (src/filetree.ts): an in-memory copy of a directory, kept up to
 * date from batches of changed paths. Each batch adds, changes or removes
 * entries, records one change per entry it touched, and then invalidates
 * every module that (transitively) depends on a changed path.
 */
module FileTrees {
  import opened Strings
  import opened Disk
  import opened DepGraph
  import opened OrderedMaps
  import opened Entries
  import opened Wrappers

  datatype ChangeKind = Add | Dif | Rem
  datatype Change = Change(path: string, change: ChangeKind)

  /** The `exclude` option; an absent option is the filter that excludes nothing. */
  type Exclude = (string, Kind) -> bool

  /** The files map together with the change list a batch builds. */
  datatype Loaded = Loaded(files: Files, changes: seq<Change>)

  function ChangePaths(cs: seq<Change>): (ps: seq<string>)
    ensures |ps| == |cs| && forall i :: 0 <= i < |cs| ==> ps[i] == cs[i].path
  {
    seq(|cs|, i requires 0 <= i < |cs| => cs[i].path)
  }

  /**
   * The walk filter of `maybeAdd`: a directory is offered to `exclude` as
   * `path + '/'`, a file as its path; the entry name plays no part.
   */
  function KeepFor(exclude: Exclude): (keep: Keep)
    ensures forall name, p :: keep(name, p, DirKind) == !exclude(p + "/", DirKind)
    ensures forall name, p :: keep(name, p, FileKind) == !exclude(p, FileKind)
  {
    (name: string, p: string, kind: Kind) => !exclude(if kind == DirKind then p + "/" else p, kind)
  }

  /**
   * `createFile(path)` for bytes `content` read from disk: identical bytes
   * leave everything as it was; otherwise the change is `dif` for a known
   * path and `add` for a new one, and the entry is replaced with version `now`.
   */
  function Create(st: Loaded, path: string, content: Bytes, now: nat): (r: Loaded)
    ensures (path in st.files.values && st.files.values[path].content == content) <==> r == st
    ensures path in r.files.values && r.files.values[path].content == content
    ensures r.files.values.Keys == st.files.values.Keys + {path}
    ensures forall p :: p in st.files.values && p != path ==> r.files.values[p] == st.files.values[p]
    ensures r != st ==> r.files.values[path].version == now
    ensures r != st ==> r.changes == st.changes + [Change(path, if path in st.files.values then Dif else Add)]
    ensures Keyed(st.files) ==> Keyed(r.files)
    ensures st.files.Valid() ==> r.files.Valid()
  {
    if path in st.files.values && st.files.values[path].content == content then st
    else
      var kind := if path in st.files.values then Dif else Add;
      Loaded(Put(st.files, path, TreeFile(path, content, now)), st.changes + [Change(path, kind)])
  }

  /** `createFile` over the files a walk reaches, in walk order. */
  function LoadAll(st: Loaded, items: seq<(string, Bytes)>, now: nat): (r: Loaded)
    ensures Keyed(st.files) ==> Keyed(r.files)
    ensures st.files.Valid() ==> r.files.Valid()
  {
    if items == [] then st
    else
      var last := items[|items| - 1];
      Create(LoadAll(st, items[..|items| - 1], now), last.0, last.1, now)
  }

  lemma {:induction false} LoadAllConcat(st: Loaded, a: seq<(string, Bytes)>, b: seq<(string, Bytes)>, now: nat)
    ensures LoadAll(st, a + b, now) == LoadAll(LoadAll(st, a, now), b, now)
  {
    if b != [] {
      var b0, x := b[..|b| - 1], b[|b| - 1];
      assert (a + b)[..|a + b| - 1] == a + b0 && (a + b)[|a + b| - 1] == x;
      LoadAllConcat(st, a, b0, now);
    } else {
      assert a + b == a;
    }
  }

  /** A load stores exactly the paths it reaches, besides what was there, and every one with the bytes last read for it. */
  lemma {:induction false} LoadAllStores(st: Loaded, items: seq<(string, Bytes)>, now: nat)
    ensures LoadAll(st, items, now).files.values.Keys == st.files.values.Keys + Paths(items)
    ensures forall p :: p in st.files.values && p !in Paths(items) ==>
              LoadAll(st, items, now).files.values[p] == st.files.values[p]
    ensures forall p :: p in Paths(items) ==> LoadAll(st, items, now).files.values[p].content == LastContent(items, p)
  {
    if items != [] {
      var init := items[..|items| - 1];
      LoadAllStores(st, init, now);
      var last := items[|items| - 1];
      PathsSnoc(init, last);
      assert items == init + [last];
    }
  }

  /** Re-reading a file whose bytes are unchanged records nothing and keeps its version. */
  lemma LoadUnchanged(st: Loaded, path: string, content: Bytes, now: nat)
    requires path in st.files.values && st.files.values[path].content == content
    ensures LoadAll(st, [(path, content)], now) == st
  {
    assert [(path, content)][..0] == [];
  }

  /** A file `exclude` rejects is never stored by a directory load. */
  lemma ExcludedNeverStored(st: Loaded, base: string, dir: Node, exclude: Exclude, now: nat, p: string)
    requires dir.Dir? && exclude(p, FileKind) && p !in st.files.values
    ensures p !in LoadAll(st, WalkAll(base, dir, KeepFor(exclude)), now).files.values
  {
    WalkKept(base, dir, |dir.entries|, KeepFor(exclude));
    LoadAllStores(st, WalkAll(base, dir, KeepFor(exclude)), now);
  }

  /** A directory `exclude` rejects (offered as `path + '/'`) contributes nothing, whatever it holds. */
  lemma ExcludedDirSkipped(name: string, path: string, node: Node, exclude: Exclude)
    requires node.Dir? && exclude(path + "/", DirKind)
    ensures WalkNode(name, path, node, KeepFor(exclude)) == []
  {
  }

  /** The entry of a path that is gone, and of everything in a directory of that name. */
  predicate Gone(p: string, fp: string) {
    p == fp || StartsWith(p, fp + "/")
  }

  /** One `rem` per path, in order. */
  function RemChanges(ps: seq<string>): (cs: seq<Change>)
    ensures |cs| == |ps| && forall i :: 0 <= i < |cs| ==> cs[i] == Change(ps[i], Rem)
  {
    seq(|ps|, i requires 0 <= i < |ps| => Change(ps[i], Rem))
  }

  /** The test "lies inside the directory `fp`". */
  function Under(fp: string): (f: string -> bool)
    ensures forall p :: f(p) == StartsWith(p, fp + "/")
  {
    p => StartsWith(p, fp + "/")
  }

  /** The test "does not lie inside the directory `fp`". */
  function NotUnder(fp: string): (f: string -> bool)
    ensures forall p :: f(p) == !StartsWith(p, fp + "/")
  {
    p => !StartsWith(p, fp + "/")
  }

  /**
   * The paths a sweep of `fp` removes, in the order it reports them: the
   * exact entry first, then every entry inside the directory `fp` in map
   * order; each exactly once.
   */
  function Removed(files: Files, fp: string): (rs: seq<string>)
    requires files.Valid()
    ensures NoDup(rs)
    ensures forall p :: p in rs <==> p in files.values && Gone(p, fp)
    ensures fp in files.values ==> |rs| > 0 && rs[0] == fp
  {
    var exact := if fp in files.values then [fp] else [];
    var ds := Filter(Delete(files, fp).keys, Under(fp));
    assert fp !in ds;
    exact + ds
  }

  /**
   * The branch of `pathsUpdated` for a path `fp` that no longer exists:
   * every entry `Removed` names is deleted with one `rem` each; the others,
   * a sibling that only shares a string prefix with `fp` among them, stay.
   */
  function Sweep(st: Loaded, fp: string): (r: Loaded)
    requires st.files.Valid()
    ensures Keyed(st.files) ==> Keyed(r.files)
    ensures r.files.Valid()
    ensures forall p :: p in r.files.values <==> p in st.files.values && !Gone(p, fp)
    ensures forall p :: p in r.files.values ==> r.files.values[p] == st.files.values[p]
    ensures r.changes == st.changes + RemChanges(Removed(st.files, fp))
  {
    var f1 := Delete(st.files, fp);
    Loaded(OMap(Filter(f1.keys, NotUnder(fp)), map p | p in f1.values && !StartsWith(p, fp + "/") :: f1.values[p]),
           st.changes + RemChanges(Removed(st.files, fp)))
  }

  /** One path of a batch: re-read it if it exists, sweep it if it does not. */
  function UpdateOne(st: Loaded, fp: string, disk: DiskMap, keep: Keep, now: nat): (r: Loaded)
    requires st.files.Valid()
    ensures Keyed(st.files) ==> Keyed(r.files)
    ensures r.files.Valid()
  {
    if fp in disk then LoadAll(st, WalkNode(fp, fp, disk[fp], keep), now) else Sweep(st, fp)
  }

  /** The first loop of `pathsUpdated`, over the batch in order. */
  function Update(st: Loaded, paths: seq<string>, disk: DiskMap, keep: Keep, now: nat): (r: Loaded)
    requires st.files.Valid()
    ensures Keyed(st.files) ==> Keyed(r.files)
    ensures r.files.Valid()
  {
    if paths == [] then st
    else UpdateOne(Update(st, paths[..|paths| - 1], disk, keep, now), paths[|paths| - 1], disk, keep, now)
  }

  /** One more path of the batch is one more `UpdateOne`. */
  lemma UpdateSnoc(st: Loaded, paths: seq<string>, i: nat, disk: DiskMap, keep: Keep, now: nat)
    requires st.files.Valid() && i < |paths|
    ensures Update(st, paths[..i + 1], disk, keep, now) == UpdateOne(Update(st, paths[..i], disk, keep, now), paths[i], disk, keep, now)
  {
    assert paths[..i + 1][..i] == paths[..i];
  }

  /** The tree's key for a consumer: a `file://` URL loses the root's length, and a final `?ver=<digits>` is dropped. */
  function ConsumerKey(root: string, requiredBy: string): string
  {
    StripVer(if StartsWith(requiredBy, "file://") then SliceFrom(requiredBy, |root|) else requiredBy)
  }

  /** A module URL the loader handed out for `p` is keyed as `p` again. */
  lemma ConsumerKeyOfUrl(root: string, p: string, version: nat)
    requires StartsWith(root, "file://")
    ensures ConsumerKey(root, root + p + VerQuery + NatToString(version)) == p
  {
    var u := root + p + VerQuery + NatToString(version);
    assert u == root + (p + VerQuery + NatToString(version));
    StartsWithConcat(root, p + VerQuery + NatToString(version));
    StartsWithTrans(u, root, "file://");
    assert SliceFrom(u, |root|) == p + VerQuery + NatToString(version);
    StripVerOfVersioned(p, version);
  }

  class FileTree {
    /** The exact argument passed to the constructor. */
    const path: string
    /** The root as a full URL, never ending in `/`. */
    const root: string
    const exclude: Exclude
    var files: Files
    var deps: Graph

    ghost predicate Valid()
      reads this
    {
      Keyed(files)
    }

    /**
     * Builds the tree from the listing of the root directory; `href` is the
     * root resolved against the caller's module URL.
     */
    constructor(path: string, href: string, exclude: Exclude, listing: Node, now: nat)
      requires listing.Dir?
      ensures Valid() && this.path == path && root == TrimSlashes(href) && this.exclude == exclude
      ensures files == LoadAll(Loaded(Empty(), []), WalkAll("/", listing, KeepFor(exclude)), now).files
      ensures deps == map[]
    {
      this.path := path;
      root := TrimSlashes(href);
      this.exclude := exclude;
      files := Empty();
      deps := map[];
      new;
      var _ := LoadDir("/", listing, now, []);
    }

    /** `loadDir(base)` over the listing `dir` of `base`. */
    method LoadDir(base: string, dir: Node, now: nat, changes: seq<Change>) returns (changes': seq<Change>)
      requires Valid() && dir.Dir?
      modifies this
      ensures Valid() && deps == old(deps)
      ensures Loaded(files, changes') == LoadAll(Loaded(old(files), changes), WalkAll(base, dir, KeepFor(exclude)), now)
      decreases dir, 0
    {
      changes' := changes;
      for i := 0 to |dir.entries|
        invariant Valid() && deps == old(deps)
        invariant Loaded(files, changes') == LoadAll(Loaded(old(files), changes), Walk(base, dir, i, KeepFor(exclude)), now)
      {
        var e := dir.entries[i];
        assert e in dir.entries;
        ghost var before := Loaded(files, changes');
        changes' := MaybeAdd(e.0, Join(base, e.0), e.1, now, changes');
        LoadAllConcat(Loaded(old(files), changes), Walk(base, dir, i, KeepFor(exclude)),
                      WalkNode(e.0, Join(base, e.0), e.1, KeepFor(exclude)), now);
      }
    }

    /** `maybeAdd(path, stat)`: a directory is walked unless excluded, a file stored unless excluded, anything else ignored. */
    method MaybeAdd(name: string, path: string, node: Node, now: nat, changes: seq<Change>) returns (changes': seq<Change>)
      requires Valid()
      modifies this
      ensures Valid() && deps == old(deps)
      ensures Loaded(files, changes') == LoadAll(Loaded(old(files), changes), WalkNode(name, path, node, KeepFor(exclude)), now)
      ensures node.Dir? && exclude(path + "/", DirKind) ==> files == old(files) && changes' == changes
      ensures node.File? && exclude(path, FileKind) ==> files == old(files) && changes' == changes
      decreases node, 1
    {
      match node
      case Dir(es) =>
        if exclude(path + "/", DirKind) {
          changes' := changes;
        } else {
          changes' := LoadDir(path, node, now, changes);
        }
      case File(c) =>
        if exclude(path, FileKind) {
          changes' := changes;
        } else {
          changes' := CreateFile(path, c, now, changes);
          assert [(path, c)][..0] == [];
        }
      case Other =>
        changes' := changes;
    }

    /** `createFile(path)` with the bytes just read. */
    method CreateFile(path: string, content: Bytes, now: nat, changes: seq<Change>) returns (changes': seq<Change>)
      requires Valid()
      modifies this
      ensures Valid() && deps == old(deps)
      ensures Loaded(files, changes') == Create(Loaded(old(files), changes), path, content, now)
    {
      if path in files.values && files.values[path].content == content {
        return changes;
      }
      changes' := changes + [Change(path, if path in files.values then Dif else Add)];
      files := Put(files, path, TreeFile(path, content, now));
    }

    /** `addDependency(requiredBy, requiring)`: changes to `requiring` invalidate `requiredBy`. */
    method AddDependency(requiredBy: string, requiring: string)
      modifies this
      ensures files == old(files)
      ensures deps == AddEdge(old(deps), ConsumerKey(root, requiredBy), requiring)
    {
      var key := requiredBy;
      if StartsWith(key, "file://") {
        key := SliceFrom(key, |root|);
      }
      key := StripVer(key);
      deps := AddEdge(deps, key, requiring);
    }

    /**
     * `pathsUpdated(...paths)`: each path is re-read if it exists on `disk`
     * and swept if not; then invalidation runs from every change, in
     * order, with one `seen` set, and bumps each dependent it reaches to
     * version `now`. `ok` is false when a dependent has no entry, where the
     * code throws; the tree is then left as far as the walk got.
     */
    method PathsUpdated(paths: seq<string>, disk: DiskMap, now: nat)
      returns (changes: seq<Change>, ok: bool, ghost visited: set<string>, ghost bumped: set<string>)
      requires Valid()
      modifies this
      ensures Valid()
      ensures var st := Update(Loaded(old(files), []), paths, disk, KeepFor(exclude), now);
              changes == st.changes && files == Bump(st.files, bumped, now)
      ensures Within(deps, old(deps)) && Justified(old(deps), deps, visited)
      ensures visited <= Elems(ChangePaths(changes)) + bumped
      ensures bumped <= Dependents(old(deps), old(deps).Keys - deps.Keys)
      ensures ok ==> Elems(ChangePaths(changes)) <= visited
      ensures ok ==> bumped == Dependents(old(deps), old(deps).Keys - deps.Keys)
      ensures ok ==> forall k :: k in deps <==> k in old(deps) && forall p :: p in visited ==> !StartsWith(p, k)
      ensures !ok ==> MissingDependent(old(deps), deps, Update(Loaded(old(files), []), paths, disk, KeepFor(exclude), now).files.values.Keys)
    {
      changes := Reload(paths, disk, now);
      var h, seen, touched;
      h, seen, touched, ok := ResetAll(deps, ChangePaths(changes), files.values.Keys, true);
      if ok {
        Survivors(deps, h, seen, touched);
      }
      deps := h;
      files := Bump(files, Elems(touched), now);
      visited, bumped := seen, Elems(touched);
    }

    /** The first loop of `pathsUpdated`: each path is re-read or swept, in order. */
    method Reload(paths: seq<string>, disk: DiskMap, now: nat) returns (changes: seq<Change>)
      requires Valid()
      modifies this
      ensures Valid() && deps == old(deps)
      ensures Loaded(files, changes) == Update(Loaded(old(files), []), paths, disk, KeepFor(exclude), now)
    {
      changes := [];
      for i := 0 to |paths|
        invariant Valid() && deps == old(deps)
        invariant Loaded(files, changes) == Update(Loaded(old(files), []), paths[..i], disk, KeepFor(exclude), now)
      {
        var fp := paths[i];
        UpdateSnoc(Loaded(old(files), []), paths, i, disk, KeepFor(exclude), now);
        if fp in disk {
          changes := MaybeAdd(fp, fp, disk[fp], now, changes);
        } else {
          changes := Remove(fp, changes);
        }
      }
      assert paths[..|paths|] == paths;
    }

    /** The branch of `pathsUpdated` for a path that does not exist. */
    method Remove(fp: string, changes: seq<Change>) returns (changes': seq<Change>)
      requires Valid()
      modifies this
      ensures Valid() && deps == old(deps)
      ensures Loaded(files, changes') == Sweep(Loaded(old(files), changes), fp)
    {
      var fs;
      fs, changes' := SweepFiles(files, fp, changes);
      files := fs;
    }
  }

  const DefaultDebounceMs: nat := 100

  /** `'/' + filePath` with every `\\` turned into `/`. */
  function Normalize(filePath: string): (p: string)
    ensures |p| == |filePath| + 1 && p[0] == '/' && '\\' !in p
    ensures forall i :: 0 <= i < |filePath| ==> p[i + 1] == (if filePath[i] == '\\' then '/' else filePath[i])
  {
    "/" + ReplaceChar(filePath, '\\', '/')
  }

  /**
   * The batching of `watch`: file-system events collect `updatedPaths`, and
   * the debounce timer, when it fires, hands the whole batch to the tree.
   */
  class Watcher {
    const tree: FileTree
    const debounceMs: nat
    var pending: seq<string>

    constructor(tree: FileTree, debounceMs: Option<nat>)
      ensures this.tree == tree && pending == []
      ensures this.debounceMs == if debounceMs.Some? then debounceMs.value else DefaultDebounceMs
    {
      this.tree := tree;
      this.debounceMs := if debounceMs.Some? then debounceMs.value else DefaultDebounceMs;
      pending := [];
    }

    /** One event for `filePath`: an empty name is ignored, anything else is normalised and added once. */
    method Event(filePath: string)
      modifies this
      ensures filePath == "" ==> pending == old(pending)
      ensures filePath != "" ==> pending == AddOnce(old(pending), Normalize(filePath))
    {
      if filePath == "" {
        return;
      }
      pending := AddOnce(pending, Normalize(filePath));
    }

    /**
     * The timer fires: the batch goes to `pathsUpdated`; the callback runs
     * only when there are changes; the batch is cleared only when neither
     * `pathsUpdated` nor the callback threw (`callbackThrows`).
     */
    method Fire(disk: DiskMap, now: nat, callbackThrows: bool)
      returns (changes: seq<Change>, ok: bool, notified: bool, ghost visited: set<string>, ghost bumped: set<string>)
      requires tree.Valid()
      modifies this, tree
      ensures tree.Valid()
      ensures ok ==> changes == Update(Loaded(old(tree.files), []), old(pending), disk, KeepFor(tree.exclude), now).changes
      ensures var st := Update(Loaded(old(tree.files), []), old(pending), disk, KeepFor(tree.exclude), now);
              changes == st.changes && tree.files == Bump(st.files, bumped, now)
      ensures Within(tree.deps, old(tree.deps)) && Justified(old(tree.deps), tree.deps, visited)
      ensures visited <= Elems(ChangePaths(changes)) + bumped
      ensures bumped <= Dependents(old(tree.deps), old(tree.deps).Keys - tree.deps.Keys)
      ensures ok ==> Elems(ChangePaths(changes)) <= visited
      ensures ok ==> bumped == Dependents(old(tree.deps), old(tree.deps).Keys - tree.deps.Keys)
      ensures ok ==> forall k :: k in tree.deps <==> k in old(tree.deps) && forall p :: p in visited ==> !StartsWith(p, k)
      ensures !ok ==> MissingDependent(old(tree.deps), tree.deps, Update(Loaded(old(tree.files), []), old(pending), disk, KeepFor(tree.exclude), now).files.values.Keys)
      ensures notified <==> ok && changes != []
      ensures pending == if ok && !(notified && callbackThrows) then [] else old(pending)
    {
      changes, ok, visited, bumped := tree.PathsUpdated(pending, disk, now);
      notified := ok && changes != [];
      if ok && !(notified && callbackThrows) {
        pending := [];
      }
    }
  }

  /**
   * The loop of the missing-path branch: delete the exact entry, then walk
   * the keys present at that point and delete each one inside `fp`.
   */
  method SweepFiles(files: Files, fp: string, changes: seq<Change>) returns (files': Files, changes': seq<Change>)
    requires files.Valid()
    ensures Loaded(files', changes') == Sweep(Loaded(files, changes), fp)
  {
    var fs := files;
    var c1 := changes;
    if fp in fs.values {
      fs := Delete(fs, fp);
      c1 := c1 + [Change(fp, Rem)];
    } else {
      DeleteAbsent(fs, fp);
    }
    ghost var exact := if fp in files.values then [fp] else [];
    assert RemChanges(exact) == (if fp in files.values then [Change(fp, Rem)] else []);
    assert c1 == changes + RemChanges(exact);
    SweepChanges(files, fp, fs.keys);
    files', changes' := SweepInside(fs, fp, c1);
    ConcatAssoc(changes, RemChanges(exact), RemChanges(Filter(fs.keys, Under(fp))));
  }

  /** The `forEach` over the keys: every entry inside the directory `fp` is deleted, with one `rem` each, in map order. */
  method SweepInside(files: Files, fp: string, changes: seq<Change>) returns (files': Files, changes': seq<Change>)
    requires files.Valid()
    ensures files' == OMap(Filter(files.keys, NotUnder(fp)), map p | p in files.values && !StartsWith(p, fp + "/") :: files.values[p])
    ensures changes' == changes + RemChanges(Filter(files.keys, Under(fp)))
  {
    files' := files;
    changes' := changes;
    var snapshot := files.keys;
    for i := 0 to |snapshot|
      invariant files' == DeleteUnder(files, snapshot[..i], fp)
      invariant changes' == changes + RemChanges(Filter(snapshot[..i], Under(fp)))
    {
      var p := snapshot[i];
      TakeSnoc(snapshot, i);
      ghost var c0 := changes';
      if StartsWith(p, fp + "/") {
        files' := Delete(files', p);
        changes' := changes' + [Change(p, Rem)];
      }
      RemStep(changes, c0, changes', snapshot, i, fp);
    }
    assert snapshot[..|snapshot|] == snapshot;
    DeleteUnderAll(files, fp);
  }

  /** Deleting, in the order of `s`, each key of `s` that lies inside `fp`. */
  function DeleteUnder(files: Files, s: seq<string>, fp: string): Files
  {
    if s == [] then files
    else
      var f := DeleteUnder(files, s[..|s| - 1], fp);
      if StartsWith(s[|s| - 1], fp + "/") then Delete(f, s[|s| - 1]) else f
  }

  lemma {:induction false} DeleteUnderTo(files: Files, fp: string, i: nat)
    requires files.Valid() && i <= |files.keys|
    ensures SweptTo(DeleteUnder(files, files.keys[..i], fp), files, files.keys, i, fp)
  {
    if i == 0 {
      SweptStart(files, fp);
    } else {
      DeleteUnderTo(files, fp, i - 1);
      TakeSnoc(files.keys, i - 1);
      DeleteUnderSnoc(files, files.keys[..i - 1], files.keys[i - 1], fp);
      SweepStep(DeleteUnder(files, files.keys[..i - 1], fp), DeleteUnder(files, files.keys[..i], fp), files, files.keys, i - 1, fp);
    }
  }

  lemma DeleteUnderSnoc(files: Files, s: seq<string>, k: string, fp: string)
    ensures DeleteUnder(files, s + [k], fp) ==
            if StartsWith(k, fp + "/") then Delete(DeleteUnder(files, s, fp), k) else DeleteUnder(files, s, fp)
  {
    assert (s + [k])[..|s|] == s;
  }

  /** Walking all keys deletes exactly the entries inside `fp` and keeps the order of the rest. */
  lemma DeleteUnderAll(files: Files, fp: string)
    requires files.Valid()
    ensures DeleteUnder(files, files.keys, fp) ==
            OMap(Filter(files.keys, NotUnder(fp)), map p | p in files.values && !StartsWith(p, fp + "/") :: files.values[p])
  {
    DeleteUnderTo(files, fp, |files.keys|);
    assert files.keys[..|files.keys|] == files.keys;
    SweptAll(DeleteUnder(files, files.keys, fp), files, files.keys, fp);
  }

  lemma SweepChanges(files: Files, fp: string, snapshot: seq<string>)
    requires files.Valid() && snapshot == Delete(files, fp).keys
    ensures RemChanges(Removed(files, fp)) == RemChanges(if fp in files.values then [fp] else []) + RemChanges(Filter(snapshot, Under(fp)))
  {
    RemChangesConcat(if fp in files.values then [fp] else [], Filter(snapshot, Under(fp)));
  }

  lemma RemChangesConcat(a: seq<string>, b: seq<string>)
    ensures RemChanges(a + b) == RemChanges(a) + RemChanges(b)
  {
    var l, r := RemChanges(a + b), RemChanges(a) + RemChanges(b);
    forall i | 0 <= i < |l| ensures l[i] == r[i] {
      if i < |a| { assert (a + b)[i] == a[i]; } else { assert (a + b)[i] == b[i - |a|]; }
    }
  }

  /** After `i` steps of the sweep loop over `snapshot`, the keys of `f1` it has passed are gone exactly when they lie inside `fp`. */
  ghost predicate SweptTo(files: Files, f1: Files, snapshot: seq<string>, i: nat, fp: string) {
    i <= |snapshot| && f1.Valid() && f1.keys == snapshot && files.Valid() &&
    SweptKeys(files, snapshot, i, fp) &&
    (forall p :: p in files.values <==> p in f1.values && (p in snapshot[i..] || !StartsWith(p, fp + "/"))) &&
    (forall p :: p in files.values ==> files.values[p] == f1.values[p])
  }

  lemma RemStep(c: seq<Change>, c0: seq<Change>, c1: seq<Change>, snapshot: seq<string>, i: nat, fp: string)
    requires i < |snapshot|
    requires c0 == c + RemChanges(Filter(snapshot[..i], Under(fp)))
    requires c1 == c0 + (if StartsWith(snapshot[i], fp + "/") then [Change(snapshot[i], Rem)] else [])
    ensures c1 == c + RemChanges(Filter(snapshot[..i + 1], Under(fp)))
  {
    var p := snapshot[i];
    var done := Filter(snapshot[..i], Under(fp));
    var step := if StartsWith(p, fp + "/") then [p] else [];
    TakeSnoc(snapshot, i);
    FilterSnoc(snapshot[..i], p, Under(fp));
    RemChangesConcat(done, step);
    assert RemChanges(step) == (if StartsWith(p, fp + "/") then [Change(p, Rem)] else []);
    ConcatAssoc(c, RemChanges(done), RemChanges(step));
  }

  lemma SweptStart(f1: Files, fp: string)
    requires f1.Valid()
    ensures SweptTo(f1, f1, f1.keys, 0, fp)
  {
    assert f1.keys[..0] == [] && f1.keys[0..] == f1.keys;
  }

  ghost predicate SweptKeys(files: Files, snapshot: seq<string>, i: nat, fp: string) {
    i <= |snapshot| && files.keys == Filter(snapshot[..i], NotUnder(fp)) + snapshot[i..]
  }

  lemma SweepStep(files: Files, files': Files, f1: Files, snapshot: seq<string>, i: nat, fp: string)
    requires SweptTo(files, f1, snapshot, i, fp) && i < |snapshot|
    requires files' == if StartsWith(snapshot[i], fp + "/") then Delete(files, snapshot[i]) else files
    ensures SweptTo(files', f1, snapshot, i + 1, fp)
  {
    SweepStepKeys(files, files', snapshot, i, fp);
    SweepStepValues(files, files', f1, snapshot, i, fp);
  }

  lemma SweepStepKeys(files: Files, files': Files, snapshot: seq<string>, i: nat, fp: string)
    requires SweptKeys(files, snapshot, i, fp) && i < |snapshot| && files.Valid()
    requires files' == if StartsWith(snapshot[i], fp + "/") then Delete(files, snapshot[i]) else files
    ensures SweptKeys(files', snapshot, i + 1, fp)
  {
    var p, kept, tail := snapshot[i], Filter(snapshot[..i], NotUnder(fp)), snapshot[i + 1..];
    TakeSnoc(snapshot, i);
    DropCons(snapshot, i);
    FilterSnoc(snapshot[..i], p, NotUnder(fp));
    ConcatAssoc(kept, [p], tail);
    if StartsWith(p, fp + "/") {
      assert kept + [] == kept;
      DeleteMiddle(files, kept, p, tail);
    }
  }

  lemma SweepStepValues(files: Files, files': Files, f1: Files, snapshot: seq<string>, i: nat, fp: string)
    requires SweptTo(files, f1, snapshot, i, fp) && i < |snapshot|
    requires files' == if StartsWith(snapshot[i], fp + "/") then Delete(files, snapshot[i]) else files
    ensures forall p :: p in files'.values <==> p in f1.values && (p in snapshot[i + 1..] || !StartsWith(p, fp + "/"))
    ensures forall p :: p in files'.values ==> files'.values[p] == f1.values[p]
  {
    var p := snapshot[i];
    NextInTail(snapshot, i);
    assert p !in snapshot[i + 1..] by {
      forall j | i + 1 <= j < |snapshot| ensures snapshot[j] != p { }
    }
    forall q ensures q in files'.values <==> q in f1.values && (q in snapshot[i + 1..] || !StartsWith(q, fp + "/")) {
      if q != p {
        assert q in snapshot[i..] <==> q in snapshot[i + 1..];
      }
    }
  }

  lemma NextInTail(s: seq<string>, i: nat)
    requires i < |s|
    ensures forall q :: q in s[i..] <==> q == s[i] || q in s[i + 1..]
  {
    assert s[i..] == [s[i]] + s[i + 1..];
  }

  lemma SweptAll(files: Files, f1: Files, snapshot: seq<string>, fp: string)
    requires SweptTo(files, f1, snapshot, |snapshot|, fp)
    ensures files == OMap(Filter(f1.keys, NotUnder(fp)), map p | p in f1.values && !StartsWith(p, fp + "/") :: f1.values[p])
  {
    var n := |snapshot|;
    assert snapshot[..n] == snapshot && snapshot[n..] == [];
    assert files.keys == Filter(snapshot, NotUnder(fp)) + [];
    var m := map p | p in f1.values && !StartsWith(p, fp + "/") :: f1.values[p];
    MapExt(files.values, m);
  }
}
