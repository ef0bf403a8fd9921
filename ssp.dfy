/**
 * Static site processing (src/ssp.ts): each site file becomes zero or more
 * output files. A module whose path has a `[slug]` segment and a double
 * extension (`/posts/[id].html.js`) exports `[name, content]` pairs, one
 * output per pair; a module with a double extension (`/index.html.js`)
 * exports one output; any other file is copied as is.
 */
module Ssp {
  import opened Strings
  import opened Wrappers
  import opened TsFiles

  /** The last index below `bound` holding `c`, or -1. */
  function LastBefore(s: string, c: char, bound: int): (i: int)
    requires bound <= |s|
    ensures i == -1 || 0 <= i < bound
    ensures i >= 0 ==> s[i] == c
    ensures forall j :: i < j < bound && 0 <= j ==> s[j] != c
    decreases bound
  {
    if bound <= 0 then -1
    else if s[bound - 1] == c then bound - 1
    else LastBefore(s, c, bound - 1)
  }

  /**
   * The tail `\..+\.js$` matches after position `b`: the path ends in `.js`
   * and a `.` sits after `b` with at least one character before that `.js`.
   */
  predicate DotTail(path: string, b: int) {
    EndsWith(path, ".js") && exists d :: 0 <= d && b < d && d + 5 <= |path| && path[d] == '.'
  }

  /** `isSingleFile`: `/\..+\.js$/`. */
  predicate IsSingleFile(path: string) {
    DotTail(path, -1)
  }

  /**
   * `isArrayFile`, `/\/.*(?<slug>\[.+\]).*\..+\.js$/`, matches with the
   * slug `path[a..b+1]`: a `/` before `a`, `[` at `a`, `]` at `b` with at
   * least one character between, and the double-extension tail after `b`.
   */
  predicate SlugAt(path: string, a: int, b: int) {
    0 <= a && a + 1 < b < |path| && path[a] == '[' && path[b] == ']' &&
    '/' in path[..a] && DotTail(path, b)
  }

  /**
   * The slug the regex captures. The engine starts at the first `/` that
   * admits a match and its greedy `.*` and `.+` choose the last feasible
   * `[` and then the last feasible `]`: the last `.` that can start the
   * tail, the last `]` before it, and the last `[` at least two before that.
   */
  function ArraySlug(path: string): (r: Option<(int, int)>)
    ensures r.Some? ==> SlugAt(path, r.value.0, r.value.1) && r.value.1 + 6 <= |path|
  {
    if !EndsWith(path, ".js") || |path| < 5 then None
    else
      var d := LastBefore(path, '.', |path| - 4);
      if d < 0 then None
      else
        var b := LastBefore(path, ']', d);
        if b < 0 then None
        else
          var a := LastBefore(path, '[', b - 1);
          if a < 0 || '/' !in path[..a] then None
          else Some((a, b))
  }

  /** `ArraySlug` is the regex's capture: none when the regex cannot match, else the greedy choice. */
  lemma ArraySlugGreedy(path: string, a: int, b: int)
    requires SlugAt(path, a, b)
    ensures ArraySlug(path).Some?
    ensures var (a', b') := ArraySlug(path).value; a < a' || (a == a' && b <= b')
  {
    var dd :| b < dd && dd + 5 <= |path| && path[dd] == '.';
    var d := LastBefore(path, '.', |path| - 4);
    assert d >= dd;
    var b' := LastBefore(path, ']', d);
    assert b' >= b;
    var a' := LastBefore(path, '[', b' - 1);
    assert a' >= a;
    assert path[..a] == path[..a'][..a];
  }

  /** Every array file also matches the single-file pattern, so the array test has to come first. */
  lemma ArrayFileIsSingleFile(path: string)
    requires ArraySlug(path).Some?
    ensures IsSingleFile(path)
  {
  }

  /** `pat` occurs in `s` at `j`. */
  predicate OccursAt(s: string, pat: string, j: int) {
    0 <= j && j + |pat| <= |s| && s[j..j + |pat|] == pat
  }

  /** The first index at or after `from` where `pat` occurs in `s`, or -1. */
  function FindSub(s: string, pat: string, from: nat): (i: int)
    ensures i == -1 || (from <= i && OccursAt(s, pat, i))
    decreases |s| - from
  {
    if from + |pat| > |s| then -1
    else if s[from..from + |pat|] == pat then from
    else FindSub(s, pat, from + 1)
  }

  /** `FindSub` finds an occurrence whenever there is one, and none after the first. */
  lemma {:induction false} FindSubFirst(s: string, pat: string, from: nat, j: nat)
    requires from <= j && OccursAt(s, pat, j)
    ensures from <= FindSub(s, pat, from) <= j
    decreases j - from
  {
    if s[from..from + |pat|] != pat {
      FindSubFirst(s, pat, from + 1, j);
    }
  }

  /** An occurrence with none before it is the one `FindSub` returns. */
  lemma {:induction false} FindSubAt(s: string, pat: string, from: nat, j: nat)
    requires from <= j && OccursAt(s, pat, j)
    requires forall k :: from <= k < j ==> !OccursAt(s, pat, k)
    ensures FindSub(s, pat, from) == j
    decreases j - from
  {
    if from < j {
      assert !OccursAt(s, pat, from);
      FindSubAt(s, pat, from + 1, j);
    }
  }

  /** `s.replace(pat, rep)` with a string pattern: only the first occurrence is replaced. */
  function ReplaceFirst(s: string, pat: string, rep: string): (r: string)
    ensures FindSub(s, pat, 0) == -1 ==> r == s
    ensures var i := FindSub(s, pat, 0); i >= 0 ==> r == s[..i] + rep + s[i + |pat|..]
  {
    var i := FindSub(s, pat, 0);
    if i < 0 then s else s[..i] + rep + s[i + |pat|..]
  }

  /** The module's default export, read as `[name, content]` pairs or as one value. */
  datatype Exports = Exports(pairs: seq<(string, Content)>, value: Content)

  /** `file.module!.require()`. */
  type Require = ModuleInfo -> Exports

  /** `{ path, content }`. */
  datatype OutFile = OutFile(path: string, content: Content)

  /** One output per pair: the path with `slug` replaced by the pair's name, minus its last 3 characters. */
  function Renamed(path: string, slug: string, pairs: seq<(string, Content)>): (r: seq<OutFile>)
    ensures |r| == |pairs|
  {
    seq(|pairs|, i requires 0 <= i < |pairs| => OutFile(DropLast(ReplaceFirst(path, slug, pairs[i].0), 3), pairs[i].1))
  }

  /**
   * What `processFile` returns for one file, or `None` when it throws: a
   * module pattern on a file that has no module (`file.module!`).
   */
  function Outputs(file: SiteFile, require: Require): (r: Option<seq<OutFile>>)
    ensures r.None? <==> file.mod.None? && IsSingleFile(file.path)
    ensures ArraySlug(file.path).None? && !IsSingleFile(file.path) ==> r == Some([OutFile(file.path, file.content)])
    ensures ArraySlug(file.path).None? && IsSingleFile(file.path) && file.mod.Some? ==>
              r == Some([OutFile(DropLast(file.path, 3), require(file.mod.value).value)])
  {
    var path := file.path;
    match ArraySlug(path)
    case Some((a, b)) =>
      ArrayFileIsSingleFile(path);
      if file.mod.None? then None
      else
        Some(Renamed(path, path[a..b + 1], require(file.mod.value).pairs))
    case None =>
      if IsSingleFile(path) then
        if file.mod.None? then None
        else Some([OutFile(DropLast(path, 3), require(file.mod.value).value)])
      else Some([OutFile(path, file.content)])
  }

  /**
   * An array file yields one output per exported pair, in order: the first
   * occurrence of the slug replaced by the pair's name, and `.js` dropped.
   */
  lemma ArrayOutputs(file: SiteFile, require: Require, a: int, b: int, i: nat)
    requires ArraySlug(file.path) == Some((a, b)) && file.mod.Some?
    requires i < |require(file.mod.value).pairs|
    ensures Renamed(file.path, file.path[a..b + 1], require(file.mod.value).pairs)[i] ==
              OutFile(file.path[..SlugIndex(file.path, a, b)] + require(file.mod.value).pairs[i].0 +
                      file.path[SlugIndex(file.path, a, b) + b + 1 - a..|file.path| - 3], require(file.mod.value).pairs[i].1)
  {
    var path := file.path;
    var slug := path[a..b + 1];
    assert |slug| == b + 1 - a;
    RenamedAt(path, slug, require(file.mod.value).pairs, i, SlugIndex(path, a, b));
  }

  /** The `i`th renamed output, when the slug first occurs at `j` inside the stem. */
  lemma RenamedAt(path: string, slug: string, pairs: seq<(string, Content)>, i: nat, j: nat)
    requires i < |pairs| && FindSub(path, slug, 0) == j && j + |slug| + 3 <= |path|
    ensures Renamed(path, slug, pairs)[i] == OutFile(path[..j] + pairs[i].0 + path[j + |slug|..|path| - 3], pairs[i].1)
  {
    ReplacedPath(path, j, slug, pairs[i].0);
  }

  /** Where `replace` finds the captured slug: its first occurrence, at or before the capture. */
  function SlugIndex(path: string, a: int, b: int): (j: nat)
    requires ArraySlug(path) == Some((a, b))
    ensures j == FindSub(path, path[a..b + 1], 0) && j <= a
  {
    assert OccursAt(path, path[a..b + 1], a);
    FindSubFirst(path, path[a..b + 1], 0, a);
    FindSub(path, path[a..b + 1], 0)
  }

  /** On an array file with a module, `processFile` renames each exported pair. */
  lemma OutputsArray(file: SiteFile, require: Require, a: int, b: int)
    requires ArraySlug(file.path) == Some((a, b)) && file.mod.Some?
    ensures Outputs(file, require) == Some(Renamed(file.path, file.path[a..b + 1], require(file.mod.value).pairs))
  {
  }

  /** Replacing inside the stem keeps the `.js` that `slice(0, -3)` drops. */
  lemma ReplacedPath(path: string, j: nat, slug: string, name: string)
    requires OccursAt(path, slug, j) && FindSub(path, slug, 0) == j && j + |slug| + 3 <= |path|
    ensures DropLast(ReplaceFirst(path, slug, name), 3) == path[..j] + name + path[j + |slug|..|path| - 3]
  {
    var rep := ReplaceFirst(path, slug, name);
    assert rep == path[..j] + name + path[j + |slug|..];
    assert path[j + |slug|..] == path[j + |slug|..|path| - 3] + path[|path| - 3..];
  }

  /** `LastBefore` is pinned by its contract: the `c` at `i` with none after it below `bound`. */
  lemma LastBeforeAt(s: string, c: char, bound: int, i: nat)
    requires i < bound <= |s| && s[i] == c
    requires forall j :: i < j < bound ==> s[j] != c
    ensures LastBefore(s, c, bound) == i
  {
  }

  /** The capture in `/posts/[id].html.js` is `[id]`, found first at index 7. */
  lemma ExampleSlug(path: string)
    requires path == "/posts/[id].html.js"
    ensures ArraySlug(path) == Some((7, 10)) && path[7..11] == "[id]" && FindSub(path, "[id]", 0) == 7
  {
    assert EndsWith(path, ".js") by {
      assert path[16..] == ".js";
    }
    LastBeforeAt(path, '.', 15, 11);
    LastBeforeAt(path, ']', 11, 10);
    LastBeforeAt(path, '[', 9, 7);
    assert path[..7][0] == '/';
    assert OccursAt(path, "[id]", 7);
    forall k | 0 <= k < 7
      ensures !OccursAt(path, "[id]", k)
    {
      assert path[k..k + 4][0] == path[k] != '[';
    }
    FindSubAt(path, "[id]", 0, 7);
  }

  /** Renaming the example: the stem before the slug, the name, and the stem after it up to `.js`. */
  lemma ExampleRenamed(path: string, name: string)
    requires path == "/posts/[id].html.js"
    ensures DropLast(ReplaceFirst(path, path[7..11], name), 3) == path[..7] + name + path[11..16]
  {
    ExampleSlug(path);
    ReplacedPath(path, 7, path[7..11], name);
  }

  lemma ExampleRenamedTo(path: string, name: char, out: string)
    requires path == "/posts/[id].html.js" && out == ['/', 'p', 'o', 's', 't', 's', '/', name, '.', 'h', 't', 'm', 'l']
    ensures DropLast(ReplaceFirst(path, path[7..11], [name]), 3) == out
  {
    ExampleRenamed(path, [name]);
    var r := path[..7] + [name] + path[11..16];
    assert |r| == |out|;
    forall k | 0 <= k < |out|
      ensures r[k] == out[k]
    {
      if k < 7 {
        assert r[k] == path[k];
      } else if k > 7 {
        assert r[k] == path[k + 3];
      }
    }
  }

  /** `/posts/[id].html.js` exporting `[["a", …], ["b", …]]` writes `/posts/a.html` and `/posts/b.html`. */
  lemma ArrayOutputsExample(path: string, c: Content, x: Content, y: Content, mi: ModuleInfo, require: Require)
    requires path == "/posts/[id].html.js"
    requires require(mi).pairs == [("a", x), ("b", y)]
    ensures Outputs(SiteFile(path, c, Some(mi)), require) == Some([OutFile("/posts/a.html", x), OutFile("/posts/b.html", y)])
  {
    ExampleSlug(path);
    ExampleRenamedTo(path, 'a', "/posts/a.html");
    ExampleRenamedTo(path, 'b', "/posts/b.html");
    TwoOutputs(SiteFile(path, c, Some(mi)), require, 7, 10, "/posts/a.html", "/posts/b.html");
  }

  lemma PairSeq<T>(o: seq<T>, x: T, y: T)
    requires |o| == 2 && o[0] == x && o[1] == y
    ensures o == [x, y]
  {
  }

  /** An array file whose module exports two pairs has exactly their two renamed outputs. */
  lemma TwoOutputs(file: SiteFile, require: Require, a: int, b: int, p0: string, p1: string)
    requires ArraySlug(file.path) == Some((a, b)) && file.mod.Some?
    requires |require(file.mod.value).pairs| == 2
    requires var path, pairs := file.path, require(file.mod.value).pairs;
             p0 == DropLast(ReplaceFirst(path, path[a..b + 1], pairs[0].0), 3) &&
             p1 == DropLast(ReplaceFirst(path, path[a..b + 1], pairs[1].0), 3)
    ensures Outputs(file, require) == Some([OutFile(p0, require(file.mod.value).pairs[0].1), OutFile(p1, require(file.mod.value).pairs[1].1)])
  {
    var path, pairs := file.path, require(file.mod.value).pairs;
    OutputsArray(file, require, a, b);
    var o := Renamed(path, path[a..b + 1], pairs);
    assert o[0] == OutFile(p0, pairs[0].1) && o[1] == OutFile(p1, pairs[1].1);
    PairSeq(o, OutFile(p0, pairs[0].1), OutFile(p1, pairs[1].1));
  }

  /** `processFile(file)`: builds its output list by pushing. */
  method ProcessFile(file: SiteFile, require: Require) returns (r: Option<seq<OutFile>>)
    ensures r == Outputs(file, require)
  {
    var path := file.path;
    var m := ArraySlug(path);
    if m.Some? {
      ArrayFileIsSingleFile(path);
      if file.mod.None? {
        return None;
      }
      var (a, b) := m.value;
      var slug := path[a..b + 1];
      var pairs := require(file.mod.value).pairs;
      var out: seq<OutFile> := [];
      for i := 0 to |pairs|
        invariant |out| == i
        invariant forall k :: 0 <= k < i ==> out[k] == OutFile(DropLast(ReplaceFirst(path, slug, pairs[k].0), 3), pairs[k].1)
      {
        var (name, content) := pairs[i];
        var filepath := ReplaceFirst(path, slug, name);
        out := out + [OutFile(DropLast(filepath, 3), content)];
      }
      assert out == Renamed(path, slug, pairs);
      return Some(out);
    } else if IsSingleFile(path) {
      if file.mod.None? {
        return None;
      }
      return Some([OutFile(DropLast(path, 3), require(file.mod.value).value)]);
    } else {
      return Some([OutFile(path, file.content)]);
    }
  }

  /** `processSite(files)`: `files.flatMap(processFile)`, throwing when any file throws. */
  function ProcessSite(files: seq<SiteFile>, require: Require): (r: Option<seq<OutFile>>) {
    if files == [] then Some([])
    else
      var first := Outputs(files[0], require);
      var rest := ProcessSite(files[1..], require);
      if first.None? || rest.None? then None else Some(first.value + rest.value)
  }

  /** `processSite` throws exactly when one of its files does. */
  lemma {:induction false} ProcessSiteThrows(files: seq<SiteFile>, require: Require)
    ensures ProcessSite(files, require).Some? <==> forall i :: 0 <= i < |files| ==> Outputs(files[i], require).Some?
  {
    if files != [] {
      ProcessSiteThrows(files[1..], require);
      assert forall i :: 1 <= i < |files| ==> files[i] == files[1..][i - 1];
    }
  }

  /** `processSite` is the in-order concatenation of `processFile`. */
  lemma {:induction false} ProcessSiteConcat(a: seq<SiteFile>, b: seq<SiteFile>, require: Require)
    requires ProcessSite(a, require).Some? && ProcessSite(b, require).Some?
    ensures ProcessSite(a + b, require) == Some(ProcessSite(a, require).value + ProcessSite(b, require).value)
  {
    if a == [] {
      assert a + b == b;
      assert [] + ProcessSite(b, require).value == ProcessSite(b, require).value;
    } else {
      ConsConcat(a, b);
      ProcessSiteConcat(a[1..], b, require);
      var first := Outputs(a[0], require).value;
      var restA := ProcessSite(a[1..], require).value;
      var restB := ProcessSite(b, require).value;
      ConcatAssoc(first, restA, restB);
    }
  }
}
