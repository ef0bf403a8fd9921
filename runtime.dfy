/**
 * `Runtime` (src/runtime.ts): the site's files, compiled on the way in,
 * kept up to date from batches of changed paths. A TypeScript file is
 * stored under its `.js` path, so a deleted `/a.ts` takes the `/a.js`
 * entry with it. Invalidation is the shared `resetDepTree` walk in its
 * tolerant form: a dependent without an entry, or without a module, is
 * simply skipped, and every other one has its module's exports reset.
 */
module Runtimes {
  import opened Strings
  import opened Disk
  import opened DepGraph
  import opened OrderedMaps
  import opened TsFiles
  import opened Wrappers
  import LiveTrees

  type SiteFiles = OMap<SiteFile>

  /** The map is well formed and every file is stored under its own (converted) path. */
  ghost predicate Filed(files: SiteFiles) {
    files.Valid() && forall p :: p in files.values ==> files.values[p].path == p
  }

  const DefaultSiteDir: string := "site"

  /** The name filter of `#loadDir`, applied before the entry is even examined. */
  function SiteKeep(): (keep: Keep)
    ensures forall name, p, kind :: keep(name, p, kind) == (!StartsWith(name, ".") && !EndsWith(name, ".d.ts"))
  {
    (name: string, p: string, kind: Kind) => !StartsWith(name, ".") && !EndsWith(name, ".d.ts")
  }

  /** `#putFile(filepath, content)`: the file is built and stored under its own path. */
  function Store(files: SiteFiles, path: string, content: Bytes, compile: Compile, decode: Decode): (r: SiteFiles)
    ensures r.values == files.values[ConvertTsExts(path) := MakeFile(path, content, compile, decode)]
    ensures files.Valid() ==> r.Valid()
    ensures Filed(files) ==> Filed(r)
  {
    var f := MakeFile(path, content, compile, decode);
    Put(files, f.path, f)
  }

  /** The keys the files built from `items` are stored under. */
  function Converted(items: seq<(string, Bytes)>): set<string> {
    set i | 0 <= i < |items| :: ConvertTsExts(items[i].0)
  }

  lemma ConvertedSnoc(items: seq<(string, Bytes)>, x: (string, Bytes))
    ensures Converted(items + [x]) == Converted(items) + {ConvertTsExts(x.0)}
  {
    var s := items + [x];
    forall k | k in Converted(s) ensures k in Converted(items) + {ConvertTsExts(x.0)} {
      var i :| 0 <= i < |s| && ConvertTsExts(s[i].0) == k;
      if i < |items| { assert s[i] == items[i]; }
    }
    forall k | k in Converted(items) ensures k in Converted(s) {
      var i :| 0 <= i < |items| && ConvertTsExts(items[i].0) == k;
      assert s[i] == items[i];
    }
    assert s[|items|] == x;
  }

  /** `#putFile` for each item in order. */
  function PutAll(files: SiteFiles, items: seq<(string, Bytes)>, compile: Compile, decode: Decode): (r: SiteFiles)
    ensures files.Valid() ==> r.Valid()
    ensures Filed(files) ==> Filed(r)
    ensures r.values.Keys == files.values.Keys + Converted(items)
    ensures forall p :: p in files.values && p !in Converted(items) ==> r.values[p] == files.values[p]
  {
    if items == [] then files
    else
      var last := items[|items| - 1];
      ConvertedSnoc(items[..|items| - 1], last);
      assert items == items[..|items| - 1] + [last];
      Store(PutAll(files, items[..|items| - 1], compile, decode), last.0, last.1, compile, decode)
  }

  /** Each key holds the file built from the last item stored under it. */
  lemma {:induction false} PutAllLast(files: SiteFiles, items: seq<(string, Bytes)>, i: nat, compile: Compile, decode: Decode)
    requires i < |items|
    requires forall j :: i < j < |items| ==> ConvertTsExts(items[j].0) != ConvertTsExts(items[i].0)
    ensures PutAll(files, items, compile, decode).values[ConvertTsExts(items[i].0)] == MakeFile(items[i].0, items[i].1, compile, decode)
  {
    var init := items[..|items| - 1];
    if i < |items| - 1 {
      assert items[i] == init[i];
      forall j | i < j < |init| ensures ConvertTsExts(init[j].0) != ConvertTsExts(init[i].0) {
        assert init[j] == items[j];
      }
      PutAllLast(files, init, i, compile, decode);
    }
  }

  lemma {:induction false} PutAllConcat(files: SiteFiles, a: seq<(string, Bytes)>, b: seq<(string, Bytes)>, compile: Compile, decode: Decode)
    ensures PutAll(files, a + b, compile, decode) == PutAll(PutAll(files, a, compile, decode), b, compile, decode)
  {
    if b == [] {
      assert a + b == a;
    } else {
      var b0, x := b[..|b| - 1], b[|b| - 1];
      assert a + b == (a + b0) + [x];
      assert b == b0 + [x];
      PutAllConcat(files, a, b0, compile, decode);
    }
  }

  /** A path the update loop acts on: `.d.ts` paths are skipped. */
  predicate Counts(fp: string) {
    !EndsWith(fp, ".d.ts")
  }

  /** The update loop gets past `fp`: it is skipped, or it can be read, or it does not exist. */
  predicate Passes(disk: DiskMap, fp: string) {
    !Counts(fp) || LiveTrees.Readable(disk, fp)
  }

  predicate AllPass(disk: DiskMap, fps: seq<string>) {
    forall p :: p in fps ==> Passes(disk, p)
  }

  /** The position of the first path whose read throws, or `|fps|`. */
  function FirstFailing(fps: seq<string>, disk: DiskMap): (n: nat)
    ensures n <= |fps| && AllPass(disk, fps[..n])
    ensures n < |fps| ==> !Passes(disk, fps[n])
  {
    if fps == [] then 0
    else if !Passes(disk, fps[0]) then 0
    else
      var n := FirstFailing(fps[1..], disk);
      assert fps[..n + 1] == [fps[0]] + fps[1..][..n];
      n + 1
  }

  lemma {:induction false} FirstFailingAt(fps: seq<string>, disk: DiskMap, i: nat)
    requires i <= |fps| && AllPass(disk, fps[..i])
    requires i < |fps| ==> !Passes(disk, fps[i])
    ensures FirstFailing(fps, disk) == i
  {
    if i > 0 {
      assert fps[0] in fps[..i];
      assert fps[1..][..i - 1] == fps[..i][1..];
      FirstFailingAt(fps[1..], disk, i - 1);
    }
  }

  /** One path of the update loop: an existing file is stored, a missing one is deleted under its converted key. */
  function RefreshOne(files: SiteFiles, fp: string, disk: DiskMap, compile: Compile, decode: Decode): (r: SiteFiles)
    requires Passes(disk, fp)
  {
    if !Counts(fp) then files
    else if fp in disk then Store(files, fp, disk[fp].content, compile, decode)
    else Delete(files, ConvertTsExts(fp))
  }

  /** The update loop of `pathsUpdated`. */
  function Refresh(files: SiteFiles, fps: seq<string>, disk: DiskMap, compile: Compile, decode: Decode): (r: SiteFiles)
    requires AllPass(disk, fps)
    ensures files.Valid() ==> r.Valid()
    ensures Filed(files) ==> Filed(r)
  {
    if fps == [] then files
    else
      var fp := fps[|fps| - 1];
      assert fp in fps;
      assert forall x :: x in fps <==> x in fps[..|fps| - 1] || x == fp;
      RefreshOne(Refresh(files, fps[..|fps| - 1], disk, compile, decode), fp, disk, compile, decode)
  }

  /** A key that no counted path of the batch converts to keeps its entry, or its absence, as it was. */
  lemma {:induction false} RefreshOthers(files: SiteFiles, fps: seq<string>, disk: DiskMap, key: string, compile: Compile, decode: Decode)
    requires AllPass(disk, fps)
    requires forall i :: 0 <= i < |fps| && Counts(fps[i]) ==> ConvertTsExts(fps[i]) != key
    ensures var r := Refresh(files, fps, disk, compile, decode);
            (key in r.values <==> key in files.values) && (key in files.values ==> r.values[key] == files.values[key])
  {
    if fps != [] {
      var init := fps[..|fps| - 1];
      var fp := fps[|fps| - 1];
      assert fp in fps;
      assert AllPass(disk, init) by {
        assert forall x :: x in init ==> x in fps;
      }
      assert forall i :: 0 <= i < |init| ==> init[i] == fps[i];
      RefreshOthers(files, init, disk, key, compile, decode);
      RefreshOneOther(Refresh(files, init, disk, compile, decode), fp, disk, key, compile, decode);
    }
  }

  /** The last counted path of the batch that converts to a key decides that key: stored when it exists, gone when not. */
  lemma {:induction false} RefreshLast(files: SiteFiles, fps: seq<string>, disk: DiskMap, i: nat, compile: Compile, decode: Decode)
    requires AllPass(disk, fps) && i < |fps| && Counts(fps[i])
    requires forall j :: i < j < |fps| && Counts(fps[j]) ==> ConvertTsExts(fps[j]) != ConvertTsExts(fps[i])
    ensures var r := Refresh(files, fps, disk, compile, decode);
            (ConvertTsExts(fps[i]) in r.values <==> fps[i] in disk) &&
            (fps[i] in disk ==> disk[fps[i]].File? && r.values[ConvertTsExts(fps[i])] == MakeFile(fps[i], disk[fps[i]].content, compile, decode))
  {
    var init := fps[..|fps| - 1];
    var fp := fps[|fps| - 1];
    RefreshUnfold(files, fps, disk, compile, decode);
    var r0 := Refresh(files, init, disk, compile, decode);
    if i < |fps| - 1 {
      LastInInit(fps, i);
      RefreshLast(files, init, disk, i, compile, decode);
      RefreshOneOther(r0, fp, disk, ConvertTsExts(fps[i]), compile, decode);
    } else {
      RefreshOneSelf(r0, fp, disk, compile, decode);
    }
  }

  /** `Refresh` over a non-empty batch is its last step after the rest. */
  lemma RefreshUnfold(files: SiteFiles, fps: seq<string>, disk: DiskMap, compile: Compile, decode: Decode)
    requires AllPass(disk, fps) && fps != []
    ensures AllPass(disk, fps[..|fps| - 1]) && Passes(disk, fps[|fps| - 1])
    ensures Refresh(files, fps, disk, compile, decode) ==
            RefreshOne(Refresh(files, fps[..|fps| - 1], disk, compile, decode), fps[|fps| - 1], disk, compile, decode)
  {
    assert fps[|fps| - 1] in fps;
    assert forall x :: x in fps[..|fps| - 1] ==> x in fps;
  }

  /** A path that is last for its key in a batch is still last for it once the batch loses its final path. */
  lemma LastInInit(fps: seq<string>, i: nat)
    requires i < |fps| - 1
    requires forall j :: i < j < |fps| && Counts(fps[j]) ==> ConvertTsExts(fps[j]) != ConvertTsExts(fps[i])
    ensures var init := fps[..|fps| - 1];
            init[i] == fps[i] &&
            forall j :: i < j < |init| && Counts(init[j]) ==> ConvertTsExts(init[j]) != ConvertTsExts(init[i])
  {
    var init := fps[..|fps| - 1];
    forall j | i < j < |init| && Counts(init[j]) ensures ConvertTsExts(init[j]) != ConvertTsExts(init[i]) {
      assert init[j] == fps[j];
    }
  }

  lemma RefreshOneOther(r0: SiteFiles, fp: string, disk: DiskMap, key: string, compile: Compile, decode: Decode)
    requires Passes(disk, fp) && (!Counts(fp) || ConvertTsExts(fp) != key)
    ensures var r := RefreshOne(r0, fp, disk, compile, decode);
            (key in r.values <==> key in r0.values) && (key in r0.values ==> r.values[key] == r0.values[key])
  {
  }

  lemma RefreshOneSelf(r0: SiteFiles, fp: string, disk: DiskMap, compile: Compile, decode: Decode)
    requires Passes(disk, fp) && Counts(fp)
    ensures var r := RefreshOne(r0, fp, disk, compile, decode);
            (ConvertTsExts(fp) in r.values <==> fp in disk) &&
            (fp in disk ==> disk[fp].File? && r.values[ConvertTsExts(fp)] == MakeFile(fp, disk[fp].content, compile, decode))
  {
  }

  /** Deleting `/a.ts` from disk takes the `/a.js` entry with it. */
  lemma DeletedTsTakesJs(files: SiteFiles, fps: seq<string>, disk: DiskMap, compile: Compile, decode: Decode)
    requires fps == ["/a.ts"] && "/a.ts" !in disk
    ensures "/a.js" !in Refresh(files, fps, disk, compile, decode).values
  {
    assert fps[0] in fps;
    ConvertExample();
    RefreshLast(files, fps, disk, 0, compile, decode);
  }

  /** The keys whose module `#resetDepTree` resets, one per visit of a dependent, in order. */
  function ModuleResets(files: SiteFiles, touched: seq<string>): (r: seq<string>)
    ensures forall k :: k in r ==> k in files.values && files.values[k].mod.Some? &&
                                   exists d :: d in touched && k == ConvertTsExts(d)
    ensures forall d :: d in touched && ConvertTsExts(d) in files.values && files.values[ConvertTsExts(d)].mod.Some? ==>
              ConvertTsExts(d) in r
  {
    if touched == [] then []
    else
      var init := touched[..|touched| - 1];
      var d := touched[|touched| - 1];
      var k := ConvertTsExts(d);
      assert forall x :: x in touched <==> x in init || x == d;
      ModuleResets(files, init) + (if k in files.values && files.values[k].mod.Some? then [k] else [])
  }

  class Runtime {
    const siteDir: string
    const compile: Compile
    const decode: Decode
    var files: SiteFiles
    var deps: Graph
    /** How many compilers have been created: one by the field initializer, one per `rebuildAll`. */
    var compilers: nat
    /** The keys whose module exports were reset, in order. */
    var resets: seq<string>

    ghost predicate Valid()
      reads this
    {
      Filed(files)
    }

    /** `new Runtime(siteDir)`, with `listing` what the site directory holds. */
    constructor(siteDir: Option<string>, listing: Node, compile: Compile, decode: Decode)
      requires listing.Dir?
      ensures Valid() && this.compile == compile && this.decode == decode
      ensures this.siteDir == if siteDir.Some? then siteDir.value else DefaultSiteDir
      ensures files == PutAll(Empty(), WalkAll("/", listing, SiteKeep()), compile, decode)
      ensures deps == map[] && resets == [] && compilers == 2
    {
      this.siteDir := if siteDir.Some? then siteDir.value else DefaultSiteDir;
      this.compile := compile;
      this.decode := decode;
      files := Empty();
      deps := map[];
      compilers := 1;
      resets := [];
      new;
      RebuildAll(listing);
    }

    /** `rebuildAll()`: a new compiler and a reload from disk over what is there; nothing is cleared. */
    method RebuildAll(listing: Node)
      requires Valid() && listing.Dir?
      modifies this
      ensures Valid() && deps == old(deps) && resets == old(resets)
      ensures compilers == old(compilers) + 1
      ensures files == PutAll(old(files), WalkAll("/", listing, SiteKeep()), compile, decode)
    {
      compilers := compilers + 1;
      LoadDir("/", listing);
    }

    /** `#loadDir(path)` over the listing `dir` of `path`. */
    method LoadDir(path: string, dir: Node)
      requires Valid() && dir.Dir?
      modifies this
      ensures Valid() && deps == old(deps) && resets == old(resets) && compilers == old(compilers)
      ensures files == PutAll(old(files), WalkAll(path, dir, SiteKeep()), compile, decode)
      decreases dir, 0
    {
      for i := 0 to |dir.entries|
        invariant Valid() && deps == old(deps) && resets == old(resets) && compilers == old(compilers)
        invariant files == PutAll(old(files), Walk(path, dir, i, SiteKeep()), compile, decode)
      {
        var e := dir.entries[i];
        assert e in dir.entries;
        LoadEntry(e.0, Join(path, e.0), e.1);
        PutAllConcat(old(files), Walk(path, dir, i, SiteKeep()), WalkNode(e.0, Join(path, e.0), e.1, SiteKeep()), compile, decode);
      }
    }

    /** One entry of a listing: hidden and `.d.ts` names are skipped, then a directory is walked and a file stored. */
    method LoadEntry(name: string, path: string, node: Node)
      requires Valid()
      modifies this
      ensures Valid() && deps == old(deps) && resets == old(resets) && compilers == old(compilers)
      ensures files == PutAll(old(files), WalkNode(name, path, node, SiteKeep()), compile, decode)
      decreases node, 1
    {
      if StartsWith(name, ".") || EndsWith(name, ".d.ts") {
        return;
      }
      match node
      case Dir(es) =>
        LoadDir(path, node);
      case File(c) =>
        PutFile(path, c);
        assert [(path, c)][..0] == [];
      case Other =>
    }

    /** `#createFile(filepath)`, which is `#putFile` with the bytes read. */
    method PutFile(path: string, content: Bytes)
      requires Valid()
      modifies this
      ensures Valid() && deps == old(deps) && resets == old(resets) && compilers == old(compilers)
      ensures files == Store(old(files), path, content, compile, decode)
    {
      var f := MakeFile(path, content, compile, decode);
      files := Put(files, f.path, f);
    }

    /** `addDeps(requiredBy, requiring)`. */
    method AddDeps(requiredBy: string, requiring: string)
      modifies this
      ensures files == old(files) && resets == old(resets) && compilers == old(compilers)
      ensures deps == AddEdge(old(deps), requiredBy, requiring)
    {
      deps := AddEdge(deps, requiredBy, requiring);
    }

    /**
     * `pathsUpdated(...paths)`: a batch naming `package.json` rebuilds
     * everything from `listing` instead. Otherwise each path is re-read or
     * deleted, and when no read threw (`ok`), invalidation runs from every
     * path of the batch and resets the module of every dependent it reaches.
     */
    method PathsUpdated(paths: seq<string>, disk: DiskMap, listing: Node)
      returns (ok: bool, rebuilt: bool, ghost visited: set<string>, ghost touched: seq<string>)
      requires Valid() && listing.Dir?
      modifies this
      ensures Valid()
      ensures rebuilt <==> "package.json" in paths
      ensures rebuilt ==> ok && deps == old(deps) && resets == old(resets) && compilers == old(compilers) + 1 &&
                          files == PutAll(old(files), WalkAll("/", listing, SiteKeep()), compile, decode)
      ensures !rebuilt ==> compilers == old(compilers)
      ensures var fps := LiveTrees.SlicePaths(paths, |siteDir|);
              !rebuilt && FirstFailing(fps, disk) < |fps| ==>
                !ok && deps == old(deps) && resets == old(resets) &&
                files == Refresh(old(files), fps[..FirstFailing(fps, disk)], disk, compile, decode)
      ensures var fps := LiveTrees.SlicePaths(paths, |siteDir|);
              !rebuilt && FirstFailing(fps, disk) == |fps| ==>
                && ok && files == Refresh(old(files), fps, disk, compile, decode)
                && Within(deps, old(deps)) && Elems(fps) <= visited && Justified(old(deps), deps, visited)
                && visited <= Elems(fps) + Elems(touched)
                && Elems(touched) == Dependents(old(deps), old(deps).Keys - deps.Keys)
                && (forall k :: k in deps <==> k in old(deps) && forall p :: p in visited ==> !StartsWith(p, k))
                && resets == old(resets) + ModuleResets(files, touched)
    {
      visited, touched := {}, [];
      if "package.json" in paths {
        RebuildAll(listing);
        return true, true, visited, touched;
      }
      rebuilt := false;
      var fps := LiveTrees.SlicePaths(paths, |siteDir|);
      var n := Reload(fps, disk);
      if n < |fps| {
        ok := false;
        return;
      }
      assert fps[..|fps|] == fps;
      var h, seen, t;
      h, seen, t, ok := ResetAll(deps, fps, {}, false);
      Survivors(deps, h, seen, t);
      deps := h;
      resets := resets + ModuleResets(files, t);
      visited, touched := seen, t;
    }

    /** The update loop of `pathsUpdated`; it returns how far it got before a read threw. */
    method Reload(fps: seq<string>, disk: DiskMap) returns (n: nat)
      requires Valid()
      modifies this
      ensures Valid() && deps == old(deps) && resets == old(resets) && compilers == old(compilers)
      ensures n == FirstFailing(fps, disk)
      ensures files == Refresh(old(files), fps[..n], disk, compile, decode)
    {
      for i := 0 to |fps|
        invariant Valid() && deps == old(deps) && resets == old(resets) && compilers == old(compilers)
        invariant AllPass(disk, fps[..i])
        invariant files == Refresh(old(files), fps[..i], disk, compile, decode)
      {
        var fp := fps[i];
        LiveTrees.PrefixSnoc(fps, i);
        if EndsWith(fp, ".d.ts") {
          continue;
        }
        if fp in disk {
          if !disk[fp].File? {
            FirstFailingAt(fps, disk, i);
            return i;
          }
          PutFile(fp, disk[fp].content);
        } else {
          files := Delete(files, ConvertTsExts(fp));
        }
      }
      FirstFailingAt(fps, disk, |fps|);
      n := |fps|;
    }
  }
}
