/**
 * `LiveTree` (src/livetree.ts, and its older copy livetree.ts at the
 * repository root): an in-memory copy of a directory that serves its files
 * to Node's module loader. Every file read is stored unconditionally with a
 * fresh version; a batch of changed paths is re-read or deleted exactly and
 * then invalidates, through the shared `resetDepTree` walk, every module
 * that depends on one of them. The `resolve` and `load` hooks map import
 * specifiers onto the stored entries and hand out versioned URLs, so a
 * bumped version makes the loader fetch a module again.
 */
module LiveTrees {
  import opened Strings
  import opened Disk
  import opened DepGraph
  import opened OrderedMaps
  import opened Entries
  import opened Wrappers

  // ---------------------------------------------------------------------------
  // Storing files

  /** `loadDir` keeps every directory and every regular file. */
  function KeepAll(): (keep: Keep)
    ensures forall name, p, kind :: keep(name, p, kind)
  {
    (name: string, p: string, kind: Kind) => true
  }

  /**
   * `createFile` for each item in order: every path walked ends up stored
   * with the bytes read last for it and version `now`; everything else is
   * left as it was.
   */
  function StoreAll(files: Files, items: seq<(string, Bytes)>, now: nat): (r: Files)
    ensures files.Valid() ==> r.Valid()
    ensures Keyed(files) ==> Keyed(r)
    ensures r.values.Keys == files.values.Keys + Paths(items)
    ensures forall p :: p in r.values ==>
              r.values[p] == if p in Paths(items) then TreeFile(p, LastContent(items, p), now) else files.values[p]
  {
    if items == [] then files
    else
      var init, last := items[..|items| - 1], items[|items| - 1];
      var r0 := StoreAll(files, init, now);
      var r := Put(r0, last.0, TreeFile(last.0, last.1, now));
      SnocLast(items);
      PathsSnoc(init, last);
      StoreLastValues(files, items, now, r0, r);
      StoredKeyed(files, items, now, r);
      r
  }

  /** Every entry `StoreAll` leaves is stored under its own path. */
  lemma StoredKeyed(files: Files, items: seq<(string, Bytes)>, now: nat, r: Files)
    requires files.Valid() ==> r.Valid()
    requires r.values.Keys == files.values.Keys + Paths(items)
    requires forall p :: p in r.values ==>
               r.values[p] == if p in Paths(items) then TreeFile(p, LastContent(items, p), now) else files.values[p]
    ensures Keyed(files) ==> Keyed(r)
  {
  }

  /** Storing the last item on top of the stored prefix: the last write of each path wins. */
  lemma StoreLastValues(files: Files, items: seq<(string, Bytes)>, now: nat, r0: Files, r: Files)
    requires items != [] && Paths(items) == Paths(items[..|items| - 1]) + {items[|items| - 1].0}
    requires r0.values.Keys == files.values.Keys + Paths(items[..|items| - 1])
    requires forall p :: p in r0.values ==>
               r0.values[p] == if p in Paths(items[..|items| - 1]) then TreeFile(p, LastContent(items[..|items| - 1], p), now) else files.values[p]
    requires r == Put(r0, items[|items| - 1].0, TreeFile(items[|items| - 1].0, items[|items| - 1].1, now))
    ensures forall p :: p in r.values ==>
              r.values[p] == if p in Paths(items) then TreeFile(p, LastContent(items, p), now) else files.values[p]
  {
    var last := items[|items| - 1];
    forall p | p in r.values
      ensures r.values[p] == if p in Paths(items) then TreeFile(p, LastContent(items, p), now) else files.values[p]
    {
      if p != last.0 {
        assert p in r0.values;
      }
    }
  }

  lemma {:induction false} StoreAllConcat(files: Files, a: seq<(string, Bytes)>, b: seq<(string, Bytes)>, now: nat)
    ensures StoreAll(files, a + b, now) == StoreAll(StoreAll(files, a, now), b, now)
  {
    if b == [] {
      assert a + b == a;
    } else {
      var b0, x := b[..|b| - 1], b[|b| - 1];
      assert a + b == (a + b0) + [x];
      assert b == b0 + [x];
      StoreAllConcat(files, a, b0, now);
    }
  }

  // ---------------------------------------------------------------------------
  // A batch of changed paths

  /** `paths.map(p => p.slice(root.length))`. */
  function SlicePaths(paths: seq<string>, n: nat): (fps: seq<string>)
    ensures |fps| == |paths| && forall i :: 0 <= i < |paths| ==> fps[i] == SliceFrom(paths[i], n)
  {
    seq(|paths|, i requires 0 <= i < |paths| => SliceFrom(paths[i], n))
  }

  /** `readFileSync` succeeds on `fp`, or `existsSync` says it is not there. */
  predicate Readable(disk: DiskMap, fp: string) {
    fp !in disk || disk[fp].File?
  }

  predicate AllReadable(disk: DiskMap, fps: seq<string>) {
    forall p :: p in fps ==> Readable(disk, p)
  }

  /** The position of the first path that exists but cannot be read as a file, or `|fps|`. */
  function FirstUnreadable(fps: seq<string>, disk: DiskMap): (n: nat)
    ensures n <= |fps| && AllReadable(disk, fps[..n])
    ensures n < |fps| ==> !Readable(disk, fps[n])
  {
    if fps == [] then 0
    else if !Readable(disk, fps[0]) then 0
    else
      var n := FirstUnreadable(fps[1..], disk);
      assert fps[..n + 1] == [fps[0]] + fps[1..][..n];
      n + 1
  }

  lemma PrefixSnoc(s: seq<string>, i: nat)
    requires i < |s|
    ensures s[..i + 1][..i] == s[..i] && s[..i + 1][i] == s[i]
    ensures forall x :: x in s[..i + 1] <==> x in s[..i] || x == s[i]
  {
    assert s[..i + 1] == s[..i] + [s[i]];
  }

  /** The first unreadable path is at `i` when everything before it is readable and it is not (or `i` is the end). */
  lemma {:induction false} FirstUnreadableAt(fps: seq<string>, disk: DiskMap, i: nat)
    requires i <= |fps| && AllReadable(disk, fps[..i])
    requires i < |fps| ==> !Readable(disk, fps[i])
    ensures FirstUnreadable(fps, disk) == i
  {
    if i > 0 {
      assert fps[0] in fps[..i];
      assert fps[1..][..i - 1] == fps[..i][1..];
      FirstUnreadableAt(fps[1..], disk, i - 1);
    }
  }

  /**
   * The first loop of `pathsUpdated` over paths that can all be read: an
   * existing path is stored with its bytes and version `now`, a missing one
   * is deleted (only that exact key). The result holds exactly the batch's
   * existing paths and the untouched old entries.
   */
  function Refresh(files: Files, fps: seq<string>, disk: DiskMap, now: nat): (r: Files)
    requires AllReadable(disk, fps)
    ensures files.Valid() ==> r.Valid()
    ensures Keyed(files) ==> Keyed(r)
    ensures forall p :: p in r.values <==> if p in fps then p in disk else p in files.values
    ensures forall p :: p in r.values ==>
              r.values[p] == if p in fps then TreeFile(p, disk[p].content, now) else files.values[p]
  {
    if fps == [] then files
    else
      var fp := fps[|fps| - 1];
      assert fp in fps;
      assert forall x :: x in fps <==> x in fps[..|fps| - 1] || x == fp;
      var r0 := Refresh(files, fps[..|fps| - 1], disk, now);
      if fp in disk then Put(r0, fp, TreeFile(fp, disk[fp].content, now)) else Delete(r0, fp)
  }

  // ---------------------------------------------------------------------------
  // The module hooks

  /** `url.match(/^(\.|\/|file:\/\/\/)/)`: the specifiers the hook looks at. */
  predicate IsLocalSpecifier(url: string) {
    StartsWith(url, ".") || StartsWith(url, "/") || StartsWith(url, "file:///")
  }

  /**
   * `'/' + relative(base, path)` for a `path` inside the directory `base`:
   * `"/"` for the directory itself and `/`-separated rest otherwise; `None`
   * for a path outside it, whose relative form climbs out with `..`.
   */
  function Rel(base: string, path: string): (r: Option<string>)
    ensures r.Some? ==> StartsWith(r.value, "/")
    ensures r.Some? && r.value != "/" ==> path == TrimSlashes(base) + r.value
  {
    var b := TrimSlashes(base);
    if path == b then Some("/")
    else if StartsWith(path, b + "/") then
      assert path == b + SliceFrom(path, |b|);
      assert SliceFrom(path, |b|)[..1] == "/";
      Some(SliceFrom(path, |b|))
    else None
  }

  /** The keys `resolve` tries, in order. */
  function Candidates(rel: string): seq<string> {
    [rel, rel + ".ts", rel + ".tsx", rel + ".jsx"]
  }

  /** `files.get(c0) ?? files.get(c1) ?? …`: the entry of the first candidate stored. */
  function Lookup(files: Files, cs: seq<string>): (r: Option<TreeFile>)
    ensures r.None? <==> forall i :: 0 <= i < |cs| ==> cs[i] !in files.values
    ensures r.Some? ==> exists i :: 0 <= i < |cs| && cs[i] in files.values && r.value == files.values[cs[i]] &&
                                   forall j :: 0 <= j < i ==> cs[j] !in files.values
  {
    if cs == [] then None
    else if cs[0] in files.values then Some(files.values[cs[0]])
    else
      var r := Lookup(files, cs[1..]);
      assert forall i :: 1 <= i < |cs| ==> cs[i] == cs[1..][i - 1];
      r
  }

  /** What `resolve` answers: defer to the next hook, or a versioned URL with `shortCircuit`. */
  datatype Resolution = Next | ShortCircuit(url: string)

  /** `new URL('.' + p, base + '/')` with `search = 'ver=' + version`. */
  function VersionedUrl(base: string, p: string, version: nat): string {
    base + p + VerQuery + NatToString(version)
  }

  /**
   * The edge `resolve` records, as (dependent, dependency): for a local
   * specifier landing under `base` and a parent module that is itself under
   * `base` and is not the `noop.js` placeholder, the parent's path without
   * its version depends on the resolved path.
   */
  function ResolveEdge(base: string, url: string, parentUrl: Option<string>, href: string): Option<(string, string)>
  {
    if IsLocalSpecifier(url) && StartsWith(href, base) && parentUrl.Some? && StartsWith(parentUrl.value, base)
       && !EndsWith(parentUrl.value, "/noop.js")
    then Some((StripVer(SliceFrom(parentUrl.value, |base|)), SliceFrom(href, |base|)))
    else None
  }

  /**
   * The answer of `resolve` for specifier `url` whose URL, resolved against
   * the parent, is `href`: a local specifier under `base` whose relative
   * path, or that path with `.ts`, `.tsx` or `.jsx` added, is stored gets
   * the first such entry's versioned URL; anything else is deferred.
   */
  function ResolveResult(base: string, files: Files, url: string, href: string): (r: Resolution)
    ensures r.ShortCircuit? <==>
              IsLocalSpecifier(url) && StartsWith(href, base) && Rel(base, href).Some? &&
              exists i :: 0 <= i < 4 && Candidates(Rel(base, href).value)[i] in files.values
    ensures r.ShortCircuit? ==>
              exists i :: 0 <= i < 4 && Candidates(Rel(base, href).value)[i] in files.values &&
                (forall j :: 0 <= j < i ==> Candidates(Rel(base, href).value)[j] !in files.values) &&
                var f := files.values[Candidates(Rel(base, href).value)[i]];
                r.url == VersionedUrl(base, f.path, f.version)
  {
    if !IsLocalSpecifier(url) || !StartsWith(href, base) then Next
    else
      var rel := Rel(base, href);
      if rel.None? then Next
      else
        var found := Lookup(files, Candidates(rel.value));
        if found.None? then Next else ShortCircuit(VersionedUrl(base, found.value.path, found.value.version))
  }

  /** A dependent whose own URL was handed out by `resolve` is recorded under its path, without the version. */
  lemma EdgeOfVersionedParent(base: string, url: string, p: string, version: nat, href: string)
    requires IsLocalSpecifier(url) && StartsWith(href, base)
    ensures ResolveEdge(base, url, Some(VersionedUrl(base, p, version)), href) == Some((p, SliceFrom(href, |base|)))
  {
    var rest := p + VerQuery + NatToString(version);
    var parent := VersionedUrl(base, p, version);
    assert parent == base + rest;
    StartsWithConcat(base, rest);
    assert SliceFrom(parent, |base|) == rest;
    StripVerOfVersioned(p, version);
    var d := NatToString(version);
    assert parent[|parent| - 1] == d[|d| - 1];
    assert IsDigit(d[|d| - 1]);
  }

  /** The `transformJsx` option: (path to the root, file URL, file contents, is it `.tsx`) to module source. */
  type JsxTransformer = (string, string, Bytes, bool) -> string

  /** What `load` answers: defer to the next hook with a URL, or a module with `shortCircuit`. */
  datatype Loading = LoadNext(url: string) | Module(format: string, source: Content)

  function CountSlashes(s: string): nat {
    if s == [] then 0 else CountSlashes(s[..|s| - 1]) + (if s[|s| - 1] == '/' then 1 else 0)
  }

  /** `n` parent steps: `..`, `../..`, … */
  function Ups(n: nat): (r: string)
    requires n > 0
    ensures |r| == 3 * n - 1 && StartsWith(r, "..")
    ensures forall i :: 0 <= i < |r| ==> r[i] == (if i % 3 == 2 then '/' else '.')
  {
    if n == 1 then ".." else
      var r := Ups(n - 1);
      var m := 3 * (n - 1) - 1;
      assert m % 3 == 2 && (m + 1) % 3 == 0 && (m + 2) % 3 == 1 by {
        assert m == 3 * (n - 2) + 2;
      }
      assert (r + "/..")[..2] == r[..2];
      r + "/.."
  }

  /** `relative(dirname(url), base) || '.'` for the file at `path` under `base`. */
  function ToRoot(path: string): (r: string)
    ensures CountSlashes(path) <= 1 <==> r == "."
    ensures CountSlashes(path) > 1 ==> r == Ups(CountSlashes(path) - 1)
  {
    if CountSlashes(path) <= 1 then "." else Ups(CountSlashes(path) - 1)
  }

  /**
   * The found branch of `load` for the entry at `path`: a `.tsx`/`.jsx` file
   * goes through the transformer when there is one and becomes a plain
   * module; otherwise the raw bytes are served, as TypeScript exactly for
   * `.ts` and `.tsx`.
   */
  function Serve(path: string, found: TreeFile, url: string, transform: Option<JsxTransformer>): (r: Loading)
    ensures r.Module?
    ensures r.source.Text? <==> transform.Some? && (EndsWith(path, ".tsx") || EndsWith(path, ".jsx"))
    ensures r.source.Raw? ==> r.source.bytes == found.content
    ensures r.format == if r.source.Raw? && (EndsWith(path, ".ts") || EndsWith(path, ".tsx")) then "module-typescript" else "module"
    ensures r.source.Text? ==> r.source.text == transform.value(ToRoot(path), url, found.content, EndsWith(path, ".tsx"))
  {
    var tsx := EndsWith(path, ".tsx");
    var jsx := EndsWith(path, ".jsx");
    if transform.Some? && (tsx || jsx) then
      Module("module", Text(transform.value(ToRoot(path), url, found.content, tsx)))
    else
      Module(if EndsWith(path, ".ts") || tsx then "module-typescript" else "module", Raw(found.content))
  }

  /**
   * The `load` hook: a URL under `base` loses its version suffix and is
   * served from the entry at its path; a URL with no entry, or not under
   * `base`, goes to the next hook (with the version already removed, in
   * the first case).
   */
  function Load(base: string, files: Files, url: string, transform: Option<JsxTransformer>): (r: Loading)
    ensures !StartsWith(url, base) ==> r == LoadNext(url)
    ensures StartsWith(url, base) ==>
              var u := StripVer(url);
              var p := SliceFrom(u, |base|);
              r == if p in files.values then Serve(p, files.values[p], u, transform) else LoadNext(u)
  {
    if StartsWith(url, base) then
      var u := StripVer(url);
      var p := SliceFrom(u, |base|);
      if p in files.values then Serve(p, files.values[p], u, transform) else LoadNext(u)
    else LoadNext(url)
  }

  /** A URL handed out by `resolve` for a stored entry is loaded as that entry, whatever its version. */
  lemma LoadOfVersioned(base: string, files: Files, p: string, version: nat, transform: Option<JsxTransformer>)
    requires p in files.values
    ensures Load(base, files, VersionedUrl(base, p, version), transform) == Serve(p, files.values[p], base + p, transform)
  {
    var u := VersionedUrl(base, p, version);
    assert u == base + (p + VerQuery + NatToString(version));
    StartsWithConcat(base, p + VerQuery + NatToString(version));
    assert u == (base + p) + VerQuery + NatToString(version);
    StripVerOfVersioned(base + p, version);
    assert SliceFrom(base + p, |base|) == p;
  }

  /** Whatever `resolve` short-circuits to, `load` serves from the same stored entry. */
  lemma ResolveThenLoad(base: string, files: Files, url: string, href: string, transform: Option<JsxTransformer>)
    requires Keyed(files)
    requires ResolveResult(base, files, url, href).ShortCircuit?
    ensures exists c :: c in files.values &&
              ResolveResult(base, files, url, href).url == VersionedUrl(base, c, files.values[c].version) &&
              Load(base, files, ResolveResult(base, files, url, href).url, transform) == Serve(c, files.values[c], base + c, transform)
  {
    var cs := Candidates(Rel(base, href).value);
    var i :| 0 <= i < 4 && cs[i] in files.values &&
             ResolveResult(base, files, url, href).url == VersionedUrl(base, files.values[cs[i]].path, files.values[cs[i]].version);
    var c := cs[i];
    assert files.values[c].path == c;
    LoadOfVersioned(base, files, c, files.values[c].version, transform);
  }

  // ---------------------------------------------------------------------------
  // processFiles

  /** `{ path, content }`, the copy `processFiles` hands out. */
  datatype MemFile = MemFile(path: string, content: Bytes)

  /** `[...files.values().map(f => ({ ...f }))]`, without the version. */
  function Copies(files: Files): (r: seq<MemFile>)
    requires files.Valid()
    ensures |r| == |files.keys|
    ensures forall i :: 0 <= i < |r| ==> r[i] == MemFile(files.values[files.keys[i]].path, files.values[files.keys[i]].content)
  {
    seq(|files.keys|, i requires 0 <= i < |files.keys| => MemFile(files.values[files.keys[i]].path, files.values[files.keys[i]].content))
  }

  /** `files.map(f => [f.path, f.content])`. */
  function Pairs(items: seq<MemFile>): (ps: seq<(string, Bytes)>)
    ensures |ps| == |items| && forall i :: 0 <= i < |items| ==> ps[i] == (items[i].path, items[i].content)
  {
    seq(|items|, i requires 0 <= i < |items| => (items[i].path, items[i].content))
  }

  /**
   * `processFiles(fn)`: the transformer `fn` gets copies of the entries in
   * map order, and its output becomes a map from path to content in which a
   * later file with the same path overwrites an earlier one.
   */
  function ProcessFiles(files: Files, fn: seq<MemFile> -> seq<MemFile>): (r: OMap<Bytes>)
    requires files.Valid()
    ensures r.Valid()
    ensures forall p :: p in r.values <==> exists i :: 0 <= i < |fn(Copies(files))| && fn(Copies(files))[i].path == p
    ensures forall i :: 0 <= i < |fn(Copies(files))| &&
                        (forall j :: i < j < |fn(Copies(files))| ==> fn(Copies(files))[j].path != fn(Copies(files))[i].path) ==>
              r.values[fn(Copies(files))[i].path] == fn(Copies(files))[i].content
  {
    var out := fn(Copies(files));
    var ps := Pairs(out);
    forall p ensures p in FromPairs(ps).values <==> exists i :: 0 <= i < |out| && out[i].path == p {
      if p in Firsts(ps) {
        var i :| 0 <= i < |ps| && Firsts(ps)[i] == p;
        assert out[i].path == p;
      }
      if exists i :: 0 <= i < |out| && out[i].path == p {
        var i :| 0 <= i < |out| && out[i].path == p;
        assert Firsts(ps)[i] == p;
      }
    }
    forall i | 0 <= i < |out| && (forall j :: i < j < |out| ==> out[j].path != out[i].path)
      ensures FromPairs(ps).values[out[i].path] == out[i].content
    {
      FromPairsLast(ps, i);
    }
    FromPairs(ps)
  }

  /** Handing the copies back unchanged gives the tree's own contents, in the tree's order. */
  lemma ProcessUnchanged(files: Files)
    requires Keyed(files)
    ensures FromPairs(Pairs(Copies(files))).keys == files.keys
    ensures forall p :: p in files.values ==> FromPairs(Pairs(Copies(files))).values[p] == files.values[p].content
  {
    var ps := Pairs(Copies(files));
    assert Firsts(ps) == files.keys by {
      forall i | 0 <= i < |ps| ensures Firsts(ps)[i] == files.keys[i] {
        assert files.values[files.keys[i]].path == files.keys[i];
      }
    }
    FromPairsOrder(ps);
    forall p | p in files.values ensures FromPairs(ps).values[p] == files.values[p].content {
      var i :| 0 <= i < |files.keys| && files.keys[i] == p;
      CopyLast(files, ps, i);
      FromPairsLast(ps, i);
    }
  }

  lemma CopyLast(files: Files, ps: seq<(string, Bytes)>, i: nat)
    requires Keyed(files) && ps == Pairs(Copies(files)) && i < |ps|
    ensures ps[i] == (files.keys[i], files.values[files.keys[i]].content)
    ensures forall j :: i < j < |ps| ==> ps[j].0 != ps[i].0
  {
    forall j | i < j < |ps| ensures ps[j].0 != ps[i].0 {
      assert files.keys[j] != files.keys[i];
    }
  }

  // ---------------------------------------------------------------------------
  // The tree

  class LiveTree {
    const root: string
    /** `new URL(root, importMetaUrl).href`. */
    const base: string
    var files: Files
    var deps: Graph

    ghost predicate Valid()
      reads this
    {
      Keyed(files)
    }

    /** Builds the tree from the listing of `root`; `href` is the root resolved against the caller's URL. */
    constructor(root: string, href: string, listing: Node, now: nat)
      requires listing.Dir?
      ensures Valid() && this.root == root && base == href
      ensures files == StoreAll(Empty(), WalkAll("/", listing, KeepAll()), now) && deps == map[]
    {
      this.root := root;
      base := href;
      files := Empty();
      deps := map[];
      new;
      LoadDir("/", listing, now);
    }

    /** `loadDir(dir)` over the listing `dir` of `path`. */
    method LoadDir(path: string, dir: Node, now: nat)
      requires Valid() && dir.Dir?
      modifies this
      ensures Valid() && deps == old(deps)
      ensures files == StoreAll(old(files), WalkAll(path, dir, KeepAll()), now)
      decreases dir, 0
    {
      for i := 0 to |dir.entries|
        invariant Valid() && deps == old(deps)
        invariant files == StoreAll(old(files), Walk(path, dir, i, KeepAll()), now)
      {
        var e := dir.entries[i];
        assert e in dir.entries;
        LoadEntry(e.0, Join(path, e.0), e.1, now);
        StoreAllConcat(old(files), Walk(path, dir, i, KeepAll()), WalkNode(e.0, Join(path, e.0), e.1, KeepAll()), now);
      }
    }

    /** One entry of a listing: a directory is walked, a file stored, anything else skipped. */
    method LoadEntry(name: string, path: string, node: Node, now: nat)
      requires Valid()
      modifies this
      ensures Valid() && deps == old(deps)
      ensures files == StoreAll(old(files), WalkNode(name, path, node, KeepAll()), now)
      decreases node, 1
    {
      match node
      case Dir(es) =>
        LoadDir(path, node, now);
      case File(c) =>
        CreateFile(path, c, now);
        assert [(path, c)][..0] == [];
      case Other =>
    }

    /** `createFile(path)` with the bytes just read: stored whatever was there before. */
    method CreateFile(path: string, content: Bytes, now: nat)
      requires Valid()
      modifies this
      ensures Valid() && deps == old(deps)
      ensures files == Put(old(files), path, TreeFile(path, content, now))
    {
      files := Put(files, path, TreeFile(path, content, now));
    }

    /** `addDep(requiredBy, requiring)`. */
    method AddDep(requiredBy: string, requiring: string)
      modifies this
      ensures files == old(files)
      ensures deps == AddEdge(old(deps), requiredBy, requiring)
    {
      deps := AddEdge(deps, requiredBy, requiring);
    }

    /**
     * `pathsUpdated(...paths)`, with `disk` keyed by the paths relative to
     * the root. When a path exists but is not a regular file, reading it
     * throws: the batch stops there (`ok` false) and no invalidation runs.
     * Otherwise invalidation runs from every path of the batch, and `ok` is
     * false when it reaches a dependent with no entry, where the code throws.
     */
    method PathsUpdated(paths: seq<string>, disk: DiskMap, now: nat)
      returns (ok: bool, ghost visited: set<string>, ghost bumped: set<string>)
      requires Valid()
      modifies this
      ensures Valid()
      ensures var fps := SlicePaths(paths, |root|);
              FirstUnreadable(fps, disk) < |fps| ==>
                !ok && deps == old(deps) && files == Refresh(old(files), fps[..FirstUnreadable(fps, disk)], disk, now)
      ensures var fps := SlicePaths(paths, |root|);
              FirstUnreadable(fps, disk) == |fps| ==>
                && files == Bump(Refresh(old(files), fps, disk, now), bumped, now)
                && Within(deps, old(deps)) && Justified(old(deps), deps, visited)
                && visited <= Elems(fps) + bumped
                && bumped <= Dependents(old(deps), old(deps).Keys - deps.Keys)
                && (ok ==> Elems(fps) <= visited && bumped == Dependents(old(deps), old(deps).Keys - deps.Keys))
                && (ok ==> forall k :: k in deps <==> k in old(deps) && forall p :: p in visited ==> !StartsWith(p, k))
                && (!ok ==> MissingDependent(old(deps), deps, Refresh(old(files), fps, disk, now).values.Keys))
    {
      var fps := SlicePaths(paths, |root|);
      visited, bumped := {}, {};
      var n := Reload(fps, disk, now);
      if n < |fps| {
        ok := false;
        return;
      }
      assert fps[..|fps|] == fps;
      var h, seen, touched;
      h, seen, touched, ok := ResetAll(deps, fps, files.values.Keys, true);
      if ok {
        Survivors(deps, h, seen, touched);
      }
      deps := h;
      files := Bump(files, Elems(touched), now);
      visited, bumped := seen, Elems(touched);
    }

    /** The first loop of `pathsUpdated`; it returns how far it got before a read threw. */
    method Reload(fps: seq<string>, disk: DiskMap, now: nat) returns (n: nat)
      requires Valid()
      modifies this
      ensures Valid() && deps == old(deps)
      ensures n == FirstUnreadable(fps, disk)
      ensures files == Refresh(old(files), fps[..n], disk, now)
    {
      for i := 0 to |fps|
        invariant Valid() && deps == old(deps)
        invariant AllReadable(disk, fps[..i])
        invariant files == Refresh(old(files), fps[..i], disk, now)
      {
        var fp := fps[i];
        PrefixSnoc(fps, i);
        if fp in disk {
          if !disk[fp].File? {
            FirstUnreadableAt(fps, disk, i);
            return i;
          }
          CreateFile(fp, disk[fp].content, now);
        } else {
          files := Delete(files, fp);
        }
      }
      FirstUnreadableAt(fps, disk, |fps|);
      n := |fps|;
    }

    /**
     * The `resolve` hook for specifier `url` from `parentUrl`, where `href`
     * is `new URL(url, parentUrl).href`: it records the edge, if any, and
     * then answers.
     */
    method Resolve(url: string, parentUrl: Option<string>, href: string) returns (r: Resolution)
      modifies this
      ensures files == old(files)
      ensures r == ResolveResult(base, files, url, href)
      ensures var e := ResolveEdge(base, url, parentUrl, href);
              deps == if e.Some? then AddEdge(old(deps), e.value.0, e.value.1) else old(deps)
    {
      var e := ResolveEdge(base, url, parentUrl, href);
      if e.Some? {
        AddDep(e.value.0, e.value.1);
      }
      r := ResolveResult(base, files, url, href);
    }
  }

  const DebounceMs: nat := 100

  /** `filePath.split('\\').join('/')`. */
  function ToPosix(filePath: string): (p: string)
    ensures |p| == |filePath| && '\\' !in p
    ensures forall i :: 0 <= i < |filePath| ==> p[i] == (if filePath[i] == '\\' then '/' else filePath[i])
  {
    ReplaceChar(filePath, '\\', '/')
  }

  /**
   * The batching of `watch`: events collect the changed paths, and the
   * debounce timer hands the whole batch to the tree and then to `onchange`.
   */
  class Watcher {
    const tree: LiveTree
    var pending: seq<string>

    constructor(tree: LiveTree)
      ensures this.tree == tree && pending == []
    {
      this.tree := tree;
      pending := [];
    }

    /** An `add`, `change` or `unlink` event for `filePath`. */
    method Event(filePath: string)
      modifies this
      ensures pending == AddOnce(old(pending), ToPosix(filePath))
    {
      pending := AddOnce(pending, ToPosix(filePath));
    }

    /**
     * The timer fires: `pathsUpdated` runs on the batch, then `onchange`
     * (when `pathsUpdated` did not throw), then the batch is cleared (when
     * `onchange` did not throw either, `callbackThrows` being false).
     */
    method Fire(disk: DiskMap, now: nat, callbackThrows: bool)
      returns (ok: bool, notified: bool, ghost visited: set<string>, ghost bumped: set<string>)
      requires tree.Valid()
      modifies this, tree
      ensures tree.Valid()
      ensures notified == ok
      ensures ok ==> FirstUnreadable(SlicePaths(old(pending), |tree.root|), disk) == |old(pending)| &&
                     tree.files.values.Keys == Refresh(old(tree.files), SlicePaths(old(pending), |tree.root|), disk, now).values.Keys
      ensures var fps := SlicePaths(old(pending), |tree.root|);
              FirstUnreadable(fps, disk) == |fps| ==>
                && tree.files == Bump(Refresh(old(tree.files), fps, disk, now), bumped, now)
                && Within(tree.deps, old(tree.deps)) && Justified(old(tree.deps), tree.deps, visited)
                && visited <= Elems(fps) + bumped
                && bumped <= Dependents(old(tree.deps), old(tree.deps).Keys - tree.deps.Keys)
                && (ok ==> Elems(fps) <= visited && bumped == Dependents(old(tree.deps), old(tree.deps).Keys - tree.deps.Keys))
                && (ok ==> forall k :: k in tree.deps <==> k in old(tree.deps) && forall p :: p in visited ==> !StartsWith(p, k))
                && (!ok ==> MissingDependent(old(tree.deps), tree.deps, Refresh(old(tree.files), fps, disk, now).values.Keys))
      ensures var fps := SlicePaths(old(pending), |tree.root|);
              FirstUnreadable(fps, disk) < |fps| ==>
                !ok && tree.deps == old(tree.deps) && tree.files == Refresh(old(tree.files), fps[..FirstUnreadable(fps, disk)], disk, now)
      ensures pending == if ok && !callbackThrows then [] else old(pending)
    {
      ok, visited, bumped := tree.PathsUpdated(pending, disk, now);
      notified := ok;
      if ok && !callbackThrows {
        pending := [];
      }
    }
  }
}
