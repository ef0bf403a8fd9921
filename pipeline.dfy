/**
 * `Pipeline` (src/pipeline.ts): views over one shared, mutable list of
 * in-memory files. A view is the shared list plus a sequence of path
 * filters; `with`/`without` make a new view over the same list, and
 * `add`, `del` and `remove` change the list every view sees.
 */
module Pipelines {
  import opened Strings
  import opened OrderedMaps
  import opened Wrappers
  import Entries

  /** `Buffer.from(string)`. */
  type Encode = string -> Bytes

  /** `buffer.toString()`. */
  type Decode = Bytes -> string

  /** `MemFile`: a path, its bytes, and the text once it has been read or set. */
  class MemFile {
    const path: string
    var content: Bytes
    /** `#text`. */
    var text: Option<string>

    constructor(path: string, content: Content, encode: Encode)
      ensures this.path == path && text == None
      ensures this.content == if content.Text? then encode(content.text) else content.bytes
    {
      this.path := path;
      this.content := if content.Text? then encode(content.text) else content.bytes;
      text := None;
    }

    /** `get text()`: decoded once, then served from the cache. */
    method GetText(decode: Decode) returns (s: string)
      modifies this
      ensures s == if old(text).Some? then old(text).value else decode(content)
      ensures text == Some(s) && content == old(content)
      ensures TextOrContent() == Text(s)
    {
      if text.None? {
        text := Some(decode(content));
      }
      s := text.value;
    }

    /** `set text(s)`. */
    method SetText(s: string)
      modifies this
      ensures text == Some(s) && content == old(content)
      ensures TextOrContent() == Text(s)
    {
      text := Some(s);
    }

    /** `textOrContent()`: the text once known, the bytes before. */
    function TextOrContent(): (c: Content)
      reads this
      ensures c.Text? <==> text.Some?
      ensures c.Raw? ==> c.bytes == content
    {
      if text.Some? then Text(text.value) else Raw(content)
    }
  }

  /** `{ regex, negate }`, with the regex reduced to its test on a path. */
  datatype Filter = Filter(test: string -> bool, negate: bool)

  /** `#matches`: every filter's test gives `!negate`. */
  predicate Matches(path: string, filters: seq<Filter>) {
    forall i :: 0 <= i < |filters| ==> filters[i].test(path) == !filters[i].negate
  }

  /** The files whose match result is `want`, in list order. */
  function Select(files: seq<MemFile>, filters: seq<Filter>, want: bool): (r: seq<MemFile>)
    ensures forall i :: 0 <= i < |r| ==> r[i] in files && Matches(r[i].path, filters) == want
    ensures forall i :: 0 <= i < |files| && Matches(files[i].path, filters) == want ==> files[i] in r
    ensures |r| <= |files|
  {
    if files == [] then []
    else
      assert forall i :: 1 <= i < |files| ==> files[i] == files[1..][i - 1];
      (if Matches(files[0].path, filters) == want then [files[0]] else []) + Select(files[1..], filters, want)
  }

  /** Selecting keeps the list order: it distributes over concatenation. */
  lemma {:induction false} SelectConcat(a: seq<MemFile>, b: seq<MemFile>, filters: seq<Filter>, want: bool)
    ensures Select(a + b, filters, want) == Select(a, filters, want) + Select(b, filters, want)
  {
    if a == [] {
      assert a + b == b;
    } else {
      assert (a + b)[0] == a[0] && (a + b)[1..] == a[1..] + b;
      SelectConcat(a[1..], b, filters, want);
    }
  }

  /** Every file is either selected or left by `remove`, never both. */
  lemma {:induction false} SelectSplit(files: seq<MemFile>, filters: seq<Filter>)
    ensures |Select(files, filters, true)| + |Select(files, filters, false)| == |files|
  {
    if files != [] {
      SelectSplit(files[1..], filters);
    }
  }

  /** One step of `remove()`'s backward scan, at position `i`. */
  lemma RemoveStep(s: seq<MemFile>, i: nat, filters: seq<Filter>)
    requires i < |s|
    ensures Select(s[i..], filters, false) ==
              (if Matches(s[i].path, filters) then [] else [s[i]]) + Select(s[i + 1..], filters, false)
    ensures s[..i + 1] == s[..i] + [s[i]]
  {
    assert s[i..][0] == s[i] && s[i..][1..] == s[i + 1..];
  }

  /** One step of `remove()`'s backward loop: splicing out a selected file, or keeping an unselected one. */
  lemma RemoveSplice(s: seq<MemFile>, cur: seq<MemFile>, i: nat, filters: seq<Filter>)
    requires i < |s| && cur == s[..i + 1] + Select(s[i + 1..], filters, false)
    ensures i < |cur| && cur[i] == s[i]
    ensures Matches(s[i].path, filters) ==> cur[..i] + cur[i + 1..] == s[..i] + Select(s[i..], filters, false)
    ensures !Matches(s[i].path, filters) ==> cur == s[..i] + Select(s[i..], filters, false)
  {
    RemoveStep(s, i, filters);
    var rest := Select(s[i + 1..], filters, false);
    Splice(s[..i], s[i], rest);
    if Matches(s[i].path, filters) {
      assert [] + rest == rest;
    }
  }

  lemma Splice<T>(a: seq<T>, x: T, b: seq<T>)
    ensures var c := a + [x] + b;
            |a| < |c| && c[|a|] == x && c[..|a|] == a && c[|a| + 1..] == b && c == a + ([x] + b)
  {
  }

  /** The position of the first file with exactly this path, or -1: `findIndex`. */
  function FindPath(files: seq<MemFile>, path: string): (i: int)
    ensures -1 <= i < |files|
    ensures i == -1 <==> forall j :: 0 <= j < |files| ==> files[j].path != path
    ensures i >= 0 ==> files[i].path == path && forall j :: 0 <= j < i ==> files[j].path != path
  {
    if files == [] then -1
    else if files[0].path == path then 0
    else
      var i := FindPath(files[1..], path);
      assert forall j :: 1 <= j < |files| ==> files[j] == files[1..][j - 1];
      if i == -1 then -1 else i + 1
  }

  /** `del(path)`: the first file with that path is spliced out; without one nothing changes. */
  function RemoveFirst(files: seq<MemFile>, path: string): (r: seq<MemFile>)
    ensures FindPath(files, path) == -1 ==> r == files
    ensures FindPath(files, path) >= 0 ==>
              |r| == |files| - 1 && r == files[..FindPath(files, path)] + files[FindPath(files, path) + 1..]
  {
    var i := FindPath(files, path);
    if i < 0 then files else files[..i] + files[i + 1..]
  }

  /** The pairs `results()` builds, with `textOrContent()` of each file. */
  function ResultPairs(files: seq<MemFile>): (ps: seq<(string, Content)>)
    reads files
    ensures |ps| == |files| && forall i :: 0 <= i < |files| ==> ps[i] == (files[i].path, files[i].TextOrContent())
  {
    if files == [] then [] else [(files[0].path, files[0].TextOrContent())] + ResultPairs(files[1..])
  }

  /** The array every view of one pipeline shares (`#real`). */
  class Shared {
    var files: seq<MemFile>

    constructor(files: seq<MemFile>)
      ensures this.files == files
    {
      this.files := files;
    }
  }

  class Pipeline {
    const shared: Shared
    const filters: seq<Filter>

    constructor(shared: Shared, filters: seq<Filter>)
      ensures this.shared == shared && this.filters == filters
    {
      this.shared := shared;
      this.filters := filters;
    }

    /** `Pipeline.from(files)`: one fresh file per tree entry, in map order, and no filters. */
    static method From(files: Entries.Files, encode: Encode) returns (p: Pipeline)
      requires files.Valid()
      ensures fresh(p) && fresh(p.shared) && p.filters == []
      ensures |p.shared.files| == |files.keys|
      ensures forall i :: 0 <= i < |files.keys| ==>
                fresh(p.shared.files[i]) && p.shared.files[i].path == files.values[files.keys[i]].path &&
                p.shared.files[i].content == files.values[files.keys[i]].content && p.shared.files[i].text == None
    {
      var initial: seq<MemFile> := [];
      for i := 0 to |files.keys|
        invariant |initial| == i
        invariant forall j :: 0 <= j < i ==>
                    fresh(initial[j]) && initial[j].path == files.values[files.keys[j]].path &&
                    initial[j].content == files.values[files.keys[j]].content && initial[j].text == None
      {
        var f := files.values[files.keys[i]];
        var m := new MemFile(f.path, Raw(f.content), encode);
        initial := initial + [m];
      }
      var sh := new Shared(initial);
      p := new Pipeline(sh, []);
    }

    /** `all()`: the files every filter accepts, in list order. */
    function All(): (r: seq<MemFile>)
      reads shared
      ensures forall i :: 0 <= i < |r| ==> r[i] in shared.files && Matches(r[i].path, filters)
      ensures forall i :: 0 <= i < |shared.files| && Matches(shared.files[i].path, filters) ==> shared.files[i] in r
    {
      Select(shared.files, filters, true)
    }

    /** `add(path, content)`: appended to the shared list, whatever this view's filters. */
    method Add(path: string, content: Content, encode: Encode)
      modifies shared
      ensures |shared.files| == |old(shared.files)| + 1 && shared.files[..|old(shared.files)|] == old(shared.files)
      ensures var f := shared.files[|old(shared.files)|];
              fresh(f) && f.path == path && f.text == None &&
              f.content == if content.Text? then encode(content.text) else content.bytes
    {
      var f := new MemFile(path, content, encode);
      shared.files := shared.files + [f];
    }

    /** `del(path)`. */
    method Del(path: string)
      modifies shared
      ensures shared.files == RemoveFirst(old(shared.files), path)
    {
      var idx := FindPath(shared.files, path);
      if idx != -1 {
        shared.files := shared.files[..idx] + shared.files[idx + 1..];
      }
    }

    /** `with(regex)`: a view over the same list with one more filter that must match. */
    method With(test: string -> bool) returns (p: Pipeline)
      ensures fresh(p) && p.shared == shared && p.filters == filters + [Filter(test, false)]
    {
      p := new Pipeline(shared, filters + [Filter(test, false)]);
    }

    /** `without(regex)`: a view over the same list with one more filter that must not match. */
    method Without(test: string -> bool) returns (p: Pipeline)
      ensures fresh(p) && p.shared == shared && p.filters == filters + [Filter(test, true)]
    {
      p := new Pipeline(shared, filters + [Filter(test, true)]);
    }

    /** `remove()`: every file this view selects leaves the shared list; the rest keep their order. */
    method Remove()
      modifies shared
      ensures shared.files == Select(old(shared.files), filters, false)
    {
      ghost var s := shared.files;
      var i := |shared.files|;
      assert s[i..] == [];
      while i > 0
        invariant 0 <= i <= |s|
        invariant shared.files == s[..i] + Select(s[i..], filters, false)
      {
        i := i - 1;
        RemoveSplice(s, shared.files, i, filters);
        var file := shared.files[i];
        if Matches(file.path, filters) {
          shared.files := shared.files[..i] + shared.files[i + 1..];
        }
      }
      assert s[0..] == s;
    }

    /** `paths()`: the paths of `all()`, in order. */
    function Paths(): (ps: seq<string>)
      reads shared
      ensures |ps| == |All()| && forall i :: 0 <= i < |ps| ==> ps[i] == All()[i].path
    {
      var a := All();
      seq(|a|, i requires 0 <= i < |a| => a[i].path)
    }

    /**
     * `results()`: each selected path mapped to `textOrContent()`; a later
     * file with the same path overwrites an earlier one.
     */
    function Results(): (r: OMap<Content>)
      reads shared, shared.files
      ensures r.Valid()
      ensures forall p :: p in r.values <==> p in Paths()
    {
      var ps := ResultPairs(All());
      assert Firsts(ps) == Paths();
      FromPairs(ps)
    }

    /** In `results()` the last selected file with a path decides its value. */
    lemma ResultsLast(i: nat)
      requires i < |All()| && forall j :: i < j < |All()| ==> All()[j].path != All()[i].path
      ensures All()[i].path in Results().values && Results().values[All()[i].path] == All()[i].TextOrContent()
    {
      FromPairsLast(ResultPairs(All()), i);
    }
  }
}
