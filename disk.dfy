/**
 * What the trees read from the file system, as values: a `Node` is what
 * `statSync` reports for a path together with what reading it returns (the
 * bytes of a file, the listing of a directory in `readdirSync` order), and a
 * disk is the map from logical path to the node found there. The recursive
 * directory walk of every tree variant is `Walk`, parameterised by the
 * variant's filter.
 */
module Disk {
  import opened Strings

  datatype Node = File(content: Bytes) | Dir(entries: seq<(string, Node)>) | Other

  /** The two kinds of `fs.Stats` the walk distinguishes. */
  datatype Kind = FileKind | DirKind

  /** What `statSync`/`readFileSync` report, keyed by logical path; an absent key does not exist. */
  type DiskMap = map<string, Node>

  /** `posix.join(base, name)` for a directory `base` and a plain entry name. */
  function Join(base: string, name: string): (p: string)
    ensures p == DirPrefix(base) + name
  {
    if EndsWith(base, "/") then base + name else base + "/" + name
  }

  /** The prefix every path inside directory `base` starts with. */
  function DirPrefix(base: string): (d: string)
    ensures EndsWith(d, "/") && StartsWith(d, base)
  {
    if EndsWith(base, "/") then base
    else
      assert (base + "/")[..|base|] == base;
      base + "/"
  }

  /** A walk filter: keep the entry called `name` at `path` of the given kind? */
  type Keep = (string, string, Kind) -> bool

  /**
   * The files a recursive walk of the directory `dir`, found at `base`,
   * reaches from its first `n` entries, in the order it reaches them: files
   * kept by `keep`, and what lies inside directories kept by `keep`; anything
   * else is skipped.
   */
  function Walk(base: string, dir: Node, n: nat, keep: Keep): seq<(string, Bytes)>
    requires dir.Dir? && n <= |dir.entries|
    decreases dir, 0, n
  {
    if n == 0 then []
    else
      var e := dir.entries[n - 1];
      assert e in dir.entries;
      Walk(base, dir, n - 1, keep) + WalkNode(e.0, Join(base, e.0), e.1, keep)
  }

  /** The files reached from one node, found under the name `name` at `path`. */
  function WalkNode(name: string, path: string, node: Node, keep: Keep): seq<(string, Bytes)>
    decreases node, 1
  {
    match node
    case File(c) => if keep(name, path, FileKind) then [(path, c)] else []
    case Dir(es) => if keep(name, path, DirKind) then Walk(path, node, |es|, keep) else []
    case Other => []
  }

  /** The whole walk of directory `dir` at `base`. */
  function WalkAll(base: string, dir: Node, keep: Keep): seq<(string, Bytes)>
    requires dir.Dir?
  {
    Walk(base, dir, |dir.entries|, keep)
  }

  /** Every file a walk of `base` reaches lies inside `base`. */
  lemma {:induction false} WalkInside(base: string, dir: Node, n: nat, keep: Keep)
    requires dir.Dir? && n <= |dir.entries|
    ensures forall i :: 0 <= i < |Walk(base, dir, n, keep)| ==>
              Inside(Walk(base, dir, n, keep)[i].0, base)
    decreases dir, 0, n
  {
    if n != 0 {
      var e := dir.entries[n - 1];
      assert e in dir.entries;
      WalkInside(base, dir, n - 1, keep);
      WalkNodeInside(e.0, Join(base, e.0), e.1, keep);
      var p := Join(base, e.0);
      forall x | StartsWith(x, p) ensures Inside(x, base) {
        StartsWithConcat(DirPrefix(base), e.0);
        StartsWithTrans(x, p, DirPrefix(base));
      }
    }
  }

  lemma {:induction false} WalkNodeInside(name: string, path: string, node: Node, keep: Keep)
    ensures forall i :: 0 <= i < |WalkNode(name, path, node, keep)| ==>
              StartsWith(WalkNode(name, path, node, keep)[i].0, path)
    decreases node, 1
  {
    match node
    case File(c) =>
    case Dir(es) =>
      if keep(name, path, DirKind) {
        WalkInside(path, node, |es|, keep);
        forall x | Inside(x, path) ensures StartsWith(x, path) {
          StartsWithTrans(x, DirPrefix(path), path);
        }
      }
    case Other =>
  }

  function Paths(items: seq<(string, Bytes)>): set<string> {
    set i | 0 <= i < |items| :: items[i].0
  }

  /** `x` lies in the directory `base`. */
  predicate Inside(x: string, base: string) {
    StartsWith(x, DirPrefix(base))
  }

  /** Every file a walk reaches was accepted by the filter as a file, under some entry name. */
  lemma {:induction false} WalkKept(base: string, dir: Node, n: nat, keep: Keep)
    requires dir.Dir? && n <= |dir.entries|
    ensures forall x :: x in Paths(Walk(base, dir, n, keep)) ==> exists name :: keep(name, x, FileKind)
    decreases dir, 0, n
  {
    if n != 0 {
      var e := dir.entries[n - 1];
      assert e in dir.entries;
      WalkKept(base, dir, n - 1, keep);
      WalkNodeKept(e.0, Join(base, e.0), e.1, keep);
      PathsConcat(Walk(base, dir, n - 1, keep), WalkNode(e.0, Join(base, e.0), e.1, keep));
    }
  }

  lemma {:induction false} WalkNodeKept(name: string, path: string, node: Node, keep: Keep)
    ensures forall x :: x in Paths(WalkNode(name, path, node, keep)) ==> exists name :: keep(name, x, FileKind)
    decreases node, 1
  {
    match node
    case File(c) =>
      if keep(name, path, FileKind) {
        forall x | x in Paths([(path, c)]) ensures keep(name, x, FileKind) {
          var i :| 0 <= i < 1 && [(path, c)][i].0 == x;
        }
      }
    case Dir(es) =>
      if keep(name, path, DirKind) {
        WalkKept(path, node, |es|, keep);
      }
    case Other =>
  }

  lemma PathsConcat(a: seq<(string, Bytes)>, b: seq<(string, Bytes)>)
    ensures Paths(a + b) == Paths(a) + Paths(b)
  {
    forall x | x in Paths(a + b) ensures x in Paths(a) + Paths(b) {
      var i :| 0 <= i < |a + b| && (a + b)[i].0 == x;
      if i >= |a| { assert b[i - |a|] == (a + b)[i]; }
    }
    forall x | x in Paths(a) + Paths(b) ensures x in Paths(a + b) {
      if x in Paths(a) {
        var i :| 0 <= i < |a| && a[i].0 == x;
        assert (a + b)[i] == a[i];
      } else {
        var i :| 0 <= i < |b| && b[i].0 == x;
        assert (a + b)[|a| + i] == b[i];
      }
    }
  }

  /** The content of the last item stored under `p`. */
  function LastContent(items: seq<(string, Bytes)>, p: string): Bytes
    requires p in Paths(items)
  {
    var last := items[|items| - 1];
    PathsSnoc(items[..|items| - 1], last);
    assert items == items[..|items| - 1] + [last];
    if last.0 == p then last.1 else LastContent(items[..|items| - 1], p)
  }

  lemma PathsSnoc(items: seq<(string, Bytes)>, x: (string, Bytes))
    ensures Paths(items + [x]) == Paths(items) + {x.0}
  {
    PathsConcat(items, [x]);
    forall y | y in Paths([x]) ensures y == x.0 {
      var i :| 0 <= i < 1 && [x][i].0 == y;
    }
    assert [x][0].0 == x.0;
  }

  lemma StartsWithTrans(x: string, y: string, z: string)
    requires StartsWith(x, y) && StartsWith(y, z)
    ensures StartsWith(x, z)
  {
    assert x[..|z|] == x[..|y|][..|z|];
  }
}
