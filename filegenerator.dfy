/**
 * `generateFiles` (src/file-generator.ts): writes every output of a build
 * under `<parent>/<dir>`, creating each missing ancestor directory first,
 * at most once per run, and never one the `parent` path starts with. A dry
 * run logs the same lines and touches nothing.
 */
module FileGenerator {
  import opened Strings
  import opened OrderedMaps
  import opened Wrappers

  /** `path.posix.join(...segments)`. */
  type PosixJoin = seq<string> -> string

  /** `{ parent?, dry?, dir? }`; an absent `opts` has every field absent. */
  datatype Options = Options(parent: Option<string>, dry: Option<bool>, dir: Option<string>)

  const DefaultOutDir: string := "docs"

  function Dry(opts: Options): bool {
    if opts.dry.Some? then opts.dry.value else false
  }

  function OutDir(opts: Options): string {
    if opts.dir.Some? then opts.dir.value else DefaultOutDir
  }

  function Parent(opts: Options): string {
    if opts.parent.Some? then opts.parent.value else ""
  }

  /** A `console.log` line: `mkdir <dir>` or `writefile <path>`. */
  datatype LogLine = MkdirLine(dir: string) | WriteLine(path: string)

  /** The directories and files a run creates, in call order. */
  class FileSystem {
    var dirs: seq<string>
    var written: seq<(string, Content)>

    constructor()
      ensures dirs == [] && written == []
    {
      dirs := [];
      written := [];
    }

    /** `fs.mkdirSync(dir)`. */
    method Mkdir(dir: string)
      modifies this
      ensures dirs == old(dirs) + [dir] && written == old(written)
    {
      dirs := dirs + [dir];
    }

    /** `fs.writeFileSync(path, content)`. */
    method WriteFile(path: string, content: Content)
      modifies this
      ensures written == old(written) + [(path, content)] && dirs == old(dirs)
    {
      written := written + [(path, content)];
    }
  }

  /** `s.split('/')`. */
  function SplitSlash(s: string): (parts: seq<string>)
    ensures |parts| >= 1
    ensures forall i :: 0 <= i < |parts| ==> '/' !in parts[i]
    decreases |s|
  {
    var i := IndexOf(s, '/');
    if i == -1 then [s]
    else
      var rest := SplitSlash(s[i + 1..]);
      assert forall k :: 1 <= k < |rest| + 1 ==> ([s[..i]] + rest)[k] == rest[k - 1];
      [s[..i]] + rest
  }

  /** `parts.join('/')`. */
  function JoinSlash(parts: seq<string>): string
    requires |parts| >= 1
  {
    if |parts| == 1 then parts[0] else parts[0] + "/" + JoinSlash(parts[1..])
  }

  /** Splitting at `/` loses nothing: joining the parts gives the string back. */
  lemma {:induction false} SplitJoin(s: string)
    ensures JoinSlash(SplitSlash(s)) == s
    decreases |s|
  {
    var i := IndexOf(s, '/');
    if i != -1 {
      var tail := s[i + 1..];
      SplitJoin(tail);
      var rest := SplitSlash(tail);
      JoinCons(s[..i], rest);
      CutAt(s, i);
      assert SplitSlash(s) == [s[..i]] + rest;
    }
  }

  lemma JoinCons(head: string, rest: seq<string>)
    requires |rest| >= 1
    ensures JoinSlash([head] + rest) == head + "/" + JoinSlash(rest)
  {
    assert ([head] + rest)[1..] == rest;
  }

  lemma CutAt(s: string, i: nat)
    requires i < |s| && s[i] == '/'
    ensures s == s[..i] + "/" + s[i + 1..]
  {
  }

  /** Where an output goes: `path.posix.join(parent, outDir, filepath)`. */
  function Dest(opts: Options, filepath: string, join: PosixJoin): string {
    join([Parent(opts), OutDir(opts), filepath])
  }

  /** The directories considered before writing `dest`: the joins of its first 1, 2, … segments, shortest first. */
  function Ancestors(dest: string, join: PosixJoin): (dirs: seq<string>)
    ensures |dirs| == |SplitSlash(dest)| - 1
    ensures forall k :: 0 <= k < |dirs| ==> dirs[k] == join(SplitSlash(dest)[..k + 1])
  {
    var parts := SplitSlash(dest);
    seq(|parts| - 1, k requires 0 <= k < |parts| - 1 => join(parts[..k + 1]))
  }

  /** `mkdirIfNeeded(dir)` on the log so far: skipped once made, or when `parent` starts with it. */
  function StepDir(log: seq<LogLine>, dir: string, parent: string): seq<LogLine> {
    if MkdirLine(dir) in log || StartsWith(parent, dir) then log else log + [MkdirLine(dir)]
  }

  /** The inner loop: `mkdirIfNeeded` on each directory in order. */
  function DirsLog(log: seq<LogLine>, dirs: seq<string>, parent: string): seq<LogLine>
    decreases |dirs|
  {
    if dirs == [] then log else DirsLog(StepDir(log, dirs[0], parent), dirs[1..], parent)
  }

  /** One entry: its ancestors, then `writefile dest`. */
  function EntryLog(log: seq<LogLine>, dest: string, parent: string, join: PosixJoin): seq<LogLine> {
    DirsLog(log, Ancestors(dest, join), parent) + [WriteLine(dest)]
  }

  /** The outer loop over the remaining entries. */
  function EntriesLog(log: seq<LogLine>, keys: seq<string>, opts: Options, join: PosixJoin): seq<LogLine>
    decreases |keys|
  {
    if keys == [] then log
    else EntriesLog(EntryLog(log, Dest(opts, keys[0], join), Parent(opts), join), keys[1..], opts, join)
  }

  /** The log of a whole run. */
  function Plan(out: OMap<Content>, opts: Options, join: PosixJoin): seq<LogLine> {
    EntriesLog([], out.keys, opts, join)
  }

  /** The directories of the `mkdir` lines, in order. */
  function MkdirsOf(log: seq<LogLine>): (ds: seq<string>)
    ensures forall d :: d in ds <==> MkdirLine(d) in log
  {
    if log == [] then []
    else
      var rest := MkdirsOf(log[1..]);
      assert forall l :: l in log <==> l == log[0] || l in log[1..];
      (if log[0].MkdirLine? then [log[0].dir] else []) + rest
  }

  /** The paths of the `writefile` lines, in order. */
  function WritesOf(log: seq<LogLine>): seq<string> {
    if log == [] then [] else (if log[0].WriteLine? then [log[0].path] else []) + WritesOf(log[1..])
  }

  lemma {:induction false} MkdirsOfConcat(a: seq<LogLine>, b: seq<LogLine>)
    ensures MkdirsOf(a + b) == MkdirsOf(a) + MkdirsOf(b)
  {
    if a == [] {
      assert a + b == b;
    } else {
      assert (a + b)[0] == a[0] && (a + b)[1..] == a[1..] + b;
      MkdirsOfConcat(a[1..], b);
    }
  }

  lemma {:induction false} WritesOfConcat(a: seq<LogLine>, b: seq<LogLine>)
    ensures WritesOf(a + b) == WritesOf(a) + WritesOf(b)
  {
    if a == [] {
      assert a + b == b;
    } else {
      assert (a + b)[0] == a[0] && (a + b)[1..] == a[1..] + b;
      WritesOfConcat(a[1..], b);
    }
  }

  /**
   * The directory steps extend the log with `mkdir` lines only: no
   * directory twice, none that `parent` starts with, and every directory
   * looked at is made by the end (or is such a prefix).
   */
  lemma {:induction false} DirsLogFacts(log: seq<LogLine>, dirs: seq<string>, parent: string)
    requires NoDup(MkdirsOf(log))
    ensures var r := DirsLog(log, dirs, parent);
            NoDup(MkdirsOf(r)) &&
            (forall d :: MkdirLine(d) in r && MkdirLine(d) !in log ==> !StartsWith(parent, d)) &&
            (forall k :: 0 <= k < |dirs| ==> StartsWith(parent, dirs[k]) || MkdirLine(dirs[k]) in r)
    decreases |dirs|
  {
    if dirs != [] {
      var log1 := StepDir(log, dirs[0], parent);
      if log1 != log {
        MkdirsOfConcat(log, [MkdirLine(dirs[0])]);
        assert MkdirsOf([MkdirLine(dirs[0])]) == [dirs[0]];
      }
      assert MkdirLine(dirs[0]) in log1 || StartsWith(parent, dirs[0]);
      DirsLogFacts(log1, dirs[1..], parent);
      DirsLogOnlyMkdirs(log1, dirs[1..], parent);
      var r := DirsLog(log, dirs, parent);
      assert r[..|log1|] == log1;
      forall k | 0 <= k < |dirs|
        ensures StartsWith(parent, dirs[k]) || MkdirLine(dirs[k]) in r
      {
        if k == 0 {
          if MkdirLine(dirs[0]) in log1 {
            var j :| 0 <= j < |log1| && log1[j] == MkdirLine(dirs[0]);
            assert r[j] == log1[j];
          }
        } else {
          assert dirs[k] == dirs[1..][k - 1];
        }
      }
      forall d | MkdirLine(d) in r && MkdirLine(d) !in log
        ensures !StartsWith(parent, d)
      {
        if MkdirLine(d) in log1 {
          assert log1 == log + [MkdirLine(dirs[0])];
        }
      }
    }
  }

  /** A write line and everything in its prefix is kept when the log grows at its end. */
  ghost predicate Covered(log: seq<LogLine>, parent: string, join: PosixJoin) {
    forall i :: 0 <= i < |log| && log[i].WriteLine? ==>
      forall a :: a in Ancestors(log[i].path, join) ==> StartsWith(parent, a) || MkdirLine(a) in log[..i]
  }

  /** No directory made twice, none that `parent` starts with, and every write covered. */
  ghost predicate Sound(log: seq<LogLine>, parent: string, join: PosixJoin) {
    NoDup(MkdirsOf(log)) && Covered(log, parent, join) &&
    forall d :: MkdirLine(d) in log ==> !StartsWith(parent, d)
  }

  /** One entry of the outer loop keeps the log sound. */
  lemma EntryStep(log: seq<LogLine>, dest: string, parent: string, join: PosixJoin)
    requires Sound(log, parent, join)
    ensures Sound(EntryLog(log, dest, parent, join), parent, join)
  {
    var dirs := Ancestors(dest, join);
    var mid := DirsLog(log, dirs, parent);
    DirsLogFacts(log, dirs, parent);
    DirsLogOnlyMkdirs(log, dirs, parent);
    var next := mid + [WriteLine(dest)];
    MkdirsOfConcat(mid, [WriteLine(dest)]);
    assert MkdirsOf([WriteLine(dest)]) == [];
    assert MkdirsOf(next) == MkdirsOf(mid);
    forall d | MkdirLine(d) in next
      ensures !StartsWith(parent, d)
    {
      assert MkdirLine(d) in mid;
    }
    assert forall a :: a in dirs ==> StartsWith(parent, a) || MkdirLine(a) in mid;
    CoveredStep(log, mid, dest, parent, join);
  }

  /**
   * The outer loop's invariant: every write is preceded by the creation of
   * each of its ancestors (or the ancestor is a prefix of `parent`), and no
   * directory is made twice or when `parent` starts with it.
   */
  lemma {:induction false} EntriesLogSound(log: seq<LogLine>, keys: seq<string>, opts: Options, join: PosixJoin)
    requires Sound(log, Parent(opts), join)
    ensures Sound(EntriesLog(log, keys, opts, join), Parent(opts), join)
    decreases |keys|
  {
    if keys != [] {
      var dest := Dest(opts, keys[0], join);
      EntryStep(log, dest, Parent(opts), join);
      EntriesLogSound(EntryLog(log, dest, Parent(opts), join), keys[1..], opts, join);
    }
  }

  /** The outer loop writes once per remaining entry, in order. */
  lemma {:induction false} EntriesLogWrites(log: seq<LogLine>, keys: seq<string>, opts: Options, join: PosixJoin)
    ensures WritesOf(EntriesLog(log, keys, opts, join)) == WritesOf(log) + Dests(keys, opts, join)
    decreases |keys|
  {
    if keys == [] {
      assert WritesOf(log) + [] == WritesOf(log);
    } else {
      var next := EntryLog(log, Dest(opts, keys[0], join), Parent(opts), join);
      EntriesLogWrites(next, keys[1..], opts, join);
      EntriesLogWritesStep(log, keys, opts, join);
    }
  }

  /** The inductive step of `EntriesLogWrites`: the first entry's write comes first. */
  lemma EntriesLogWritesStep(log: seq<LogLine>, keys: seq<string>, opts: Options, join: PosixJoin)
    requires keys != []
    requires var next := EntryLog(log, Dest(opts, keys[0], join), Parent(opts), join);
             WritesOf(EntriesLog(next, keys[1..], opts, join)) == WritesOf(next) + Dests(keys[1..], opts, join)
    ensures WritesOf(EntriesLog(log, keys, opts, join)) == WritesOf(log) + Dests(keys, opts, join)
  {
    var dest := Dest(opts, keys[0], join);
    var next := EntryLog(log, dest, Parent(opts), join);
    EntryWrites(log, dest, Parent(opts), join);
    assert EntriesLog(log, keys, opts, join) == EntriesLog(next, keys[1..], opts, join);
    assert Dests(keys, opts, join) == [dest] + Dests(keys[1..], opts, join);
    ConcatAssoc(WritesOf(log), [dest], Dests(keys[1..], opts, join));
  }

  /** One entry writes exactly its destination. */
  lemma EntryWrites(log: seq<LogLine>, dest: string, parent: string, join: PosixJoin)
    ensures WritesOf(EntryLog(log, dest, parent, join)) == WritesOf(log) + [dest]
  {
    var mid := DirsLog(log, Ancestors(dest, join), parent);
    DirsLogWrites(log, Ancestors(dest, join), parent);
    WritesOfConcat(mid, [WriteLine(dest)]);
    assert WritesOf([WriteLine(dest)]) == [dest];
  }

  /** Where each entry is written, in order. */
  function Dests(keys: seq<string>, opts: Options, join: PosixJoin): seq<string>
  {
    if keys == [] then [] else [Dest(opts, keys[0], join)] + Dests(keys[1..], opts, join)
  }

  /** The directory steps write nothing. */
  lemma {:induction false} DirsLogWrites(log: seq<LogLine>, dirs: seq<string>, parent: string)
    ensures WritesOf(DirsLog(log, dirs, parent)) == WritesOf(log)
    decreases |dirs|
  {
    if dirs != [] {
      var log1 := StepDir(log, dirs[0], parent);
      if log1 != log {
        WritesOfConcat(log, [MkdirLine(dirs[0])]);
        assert WritesOf([MkdirLine(dirs[0])]) == [];
      }
      DirsLogWrites(log1, dirs[1..], parent);
    }
  }

  /** Appending `mkdir` lines for the ancestors of `dest`, then its write, keeps every write covered. */
  lemma CoveredStep(log: seq<LogLine>, mid: seq<LogLine>, dest: string, parent: string, join: PosixJoin)
    requires Covered(log, parent, join)
    requires |log| <= |mid| && mid[..|log|] == log
    requires forall k :: |log| <= k < |mid| ==> mid[k].MkdirLine?
    requires forall a :: a in Ancestors(dest, join) ==> StartsWith(parent, a) || MkdirLine(a) in mid
    ensures Covered(mid + [WriteLine(dest)], parent, join)
  {
    var next := mid + [WriteLine(dest)];
    forall i | 0 <= i < |next| && next[i].WriteLine?
      ensures forall a :: a in Ancestors(next[i].path, join) ==> StartsWith(parent, a) || MkdirLine(a) in next[..i]
    {
      if i == |mid| {
        assert next[..i] == mid;
      } else {
        assert i < |log|;
        assert next[i] == log[i];
        assert next[..i] == log[..i];
      }
    }
  }

  /** The directory steps only add `mkdir` lines. */
  lemma {:induction false} DirsLogOnlyMkdirs(log: seq<LogLine>, dirs: seq<string>, parent: string)
    ensures var r := DirsLog(log, dirs, parent);
            |log| <= |r| && r[..|log|] == log && forall k :: |log| <= k < |r| ==> r[k].MkdirLine?
    decreases |dirs|
  {
    if dirs != [] {
      var log1 := StepDir(log, dirs[0], parent);
      DirsLogOnlyMkdirs(log1, dirs[1..], parent);
      var r := DirsLog(log, dirs, parent);
      assert r[..|log1|] == log1;
      assert r[..|log|] == log1[..|log|];
    }
  }

  /**
   * A run's log: one `writefile` per entry, at its `join(parent, outDir,
   * path)`, in map order; each ancestor considered before that write has
   * been made earlier or is a prefix of `parent`; no directory is made
   * twice, nor one that `parent` starts with.
   */
  lemma PlanFacts(out: OMap<Content>, opts: Options, join: PosixJoin)
    ensures var plan := Plan(out, opts, join);
            WritesOf(plan) == Dests(out.keys, opts, join) &&
            Covered(plan, Parent(opts), join) &&
            NoDup(MkdirsOf(plan)) &&
            forall d :: MkdirLine(d) in plan ==> !StartsWith(Parent(opts), d)
  {
    assert MkdirsOf([]) == [];
    assert WritesOf([]) == [];
    EntriesLogSound([], out.keys, opts, join);
    EntriesLogWrites([], out.keys, opts, join);
  }

  /** With the default options the outputs go to `join("", "docs", path)`. */
  lemma DefaultDest(filepath: string, join: PosixJoin)
    ensures Dest(Options(None, None, None), filepath, join) == join(["", "docs", filepath])
  {
  }

  /** The contents written, one per entry in map order. */
  function Writes(out: OMap<Content>, opts: Options, join: PosixJoin): seq<(string, Content)>
    requires out.Valid()
  {
    seq(|out.keys|, i requires 0 <= i < |out.keys| => (Dest(opts, out.keys[i], join), out.values[out.keys[i]]))
  }

  /** The outer loop's step over the next entry. */
  lemma EntriesLogCons(log: seq<LogLine>, keys: seq<string>, opts: Options, join: PosixJoin)
    requires keys != []
    ensures EntriesLog(log, keys, opts, join) == EntriesLog(EntryLog(log, Dest(opts, keys[0], join), Parent(opts), join), keys[1..], opts, join)
  {
  }

  lemma WritesSnoc(out: OMap<Content>, opts: Options, join: PosixJoin, e: nat)
    requires out.Valid() && e < |out.keys|
    ensures Writes(out, opts, join)[..e + 1] == Writes(out, opts, join)[..e] + [(Dest(opts, out.keys[e], join), out.values[out.keys[e]])]
  {
  }

  /**
   * The inner loop of `generateFiles`: `mkdirIfNeeded` on the join of each
   * proper prefix of the segments of `dest`. `madeDirs` is the set of
   * directories on `mkdir` lines so far; `base` is what the file system held
   * before the run.
   */
  method MakeAncestors(dest: string, join: PosixJoin, parent: string, dry: bool, fs: FileSystem,
                       made0: set<string>, log0: seq<LogLine>, ghost base: seq<string>)
    returns (madeDirs: set<string>, log: seq<LogLine>)
    requires forall d :: d in made0 <==> MkdirLine(d) in log0
    requires !dry ==> fs.dirs == base + MkdirsOf(log0)
    modifies fs
    ensures forall d :: d in madeDirs <==> MkdirLine(d) in log
    ensures log == DirsLog(log0, Ancestors(dest, join), parent)
    ensures fs.written == old(fs.written)
    ensures dry ==> fs.dirs == old(fs.dirs)
    ensures !dry ==> fs.dirs == base + MkdirsOf(log)
  {
    var parts := SplitSlash(dest);
    ghost var dirs := Ancestors(dest, join);
    madeDirs, log := made0, log0;
    for i := 1 to |parts|
      invariant forall d :: d in madeDirs <==> MkdirLine(d) in log
      invariant DirsLog(log, dirs[i - 1..], parent) == DirsLog(log0, dirs, parent)
      invariant fs.written == old(fs.written)
      invariant dry ==> fs.dirs == old(fs.dirs)
      invariant !dry ==> fs.dirs == base + MkdirsOf(log)
    {
      var dir := join(parts[..i]);
      assert dir == dirs[i - 1];
      assert dirs[i - 1..][1..] == dirs[i..];
      if dir !in madeDirs && !StartsWith(parent, dir) {
        madeDirs := madeDirs + {dir};
        MkdirsOfConcat(log, [MkdirLine(dir)]);
        assert MkdirsOf([MkdirLine(dir)]) == [dir];
        log := log + [MkdirLine(dir)];
        if !dry {
          fs.Mkdir(dir);
        }
      }
    }
  }

  /** One entry of the outer loop: its ancestors, then `writefile` and `fs.writeFileSync`. */
  method GenerateEntry(dest: string, content: Content, join: PosixJoin, parent: string, dry: bool, fs: FileSystem,
                       made0: set<string>, log0: seq<LogLine>, ghost base: seq<string>)
    returns (madeDirs: set<string>, log: seq<LogLine>)
    requires forall d :: d in made0 <==> MkdirLine(d) in log0
    requires !dry ==> fs.dirs == base + MkdirsOf(log0)
    modifies fs
    ensures forall d :: d in madeDirs <==> MkdirLine(d) in log
    ensures log == EntryLog(log0, dest, parent, join)
    ensures dry ==> fs.dirs == old(fs.dirs) && fs.written == old(fs.written)
    ensures !dry ==> fs.dirs == base + MkdirsOf(log) && fs.written == old(fs.written) + [(dest, content)]
  {
    madeDirs, log := MakeAncestors(dest, join, parent, dry, fs, made0, log0, base);
    MkdirsOfConcat(log, [WriteLine(dest)]);
    assert MkdirsOf([WriteLine(dest)]) == [];
    log := log + [WriteLine(dest)];
    if !dry {
      fs.WriteFile(dest, content);
    }
  }

  /** The body of the outer loop for the entry at index `e`. */
  method GenerateStep(out: OMap<Content>, opts: Options, join: PosixJoin, fs: FileSystem, e: nat,
                      made0: set<string>, log0: seq<LogLine>, ghost dirs0: seq<string>, ghost written0: seq<(string, Content)>)
    returns (madeDirs: set<string>, log: seq<LogLine>)
    requires out.Valid() && e < |out.keys|
    requires forall d :: d in made0 <==> MkdirLine(d) in log0
    requires !Dry(opts) ==> fs.dirs == dirs0 + MkdirsOf(log0) && fs.written == written0 + Writes(out, opts, join)[..e]
    modifies fs
    ensures forall d :: d in madeDirs <==> MkdirLine(d) in log
    ensures EntriesLog(log, out.keys[e + 1..], opts, join) == EntriesLog(log0, out.keys[e..], opts, join)
    ensures Dry(opts) ==> fs.dirs == old(fs.dirs) && fs.written == old(fs.written)
    ensures !Dry(opts) ==> fs.dirs == dirs0 + MkdirsOf(log) && fs.written == written0 + Writes(out, opts, join)[..e + 1]
  {
    var filepath := out.keys[e];
    var content := out.values[filepath];
    var newFilepath := join([Parent(opts), OutDir(opts), filepath]);
    madeDirs, log := GenerateEntry(newFilepath, content, join, Parent(opts), Dry(opts), fs, made0, log0, dirs0);
    EntriesLogCons(log0, out.keys[e..], opts, join);
    assert out.keys[e..][0] == filepath && out.keys[e..][1..] == out.keys[e + 1..];
    if !Dry(opts) {
      WritesSnoc(out, opts, join, e);
    }
  }

  /**
   * `generateFiles(out, opts)`: returns the lines logged. The log is the
   * plan whether or not the run is dry; a dry run changes nothing, and a
   * real one makes exactly the logged directories and writes each entry.
   */
  method GenerateFiles(out: OMap<Content>, opts: Options, join: PosixJoin, fs: FileSystem) returns (log: seq<LogLine>)
    requires out.Valid()
    modifies fs
    ensures log == Plan(out, opts, join)
    ensures Dry(opts) ==> fs.dirs == old(fs.dirs) && fs.written == old(fs.written)
    ensures !Dry(opts) ==> fs.dirs == old(fs.dirs) + MkdirsOf(log) && fs.written == old(fs.written) + Writes(out, opts, join)
  {
    var madeDirs: set<string> := {};
    log := [];
    ghost var dirs0 := fs.dirs;
    ghost var written0 := fs.written;
    ghost var plan := Plan(out, opts, join);
    ghost var writes := Writes(out, opts, join);
    assert MkdirsOf([]) == [];
    for e := 0 to |out.keys|
      invariant forall d :: d in madeDirs <==> MkdirLine(d) in log
      invariant EntriesLog(log, out.keys[e..], opts, join) == plan
      invariant Dry(opts) ==> fs.dirs == dirs0 && fs.written == written0
      invariant !Dry(opts) ==> fs.dirs == dirs0 + MkdirsOf(log) && fs.written == written0 + writes[..e]
    {
      madeDirs, log := GenerateStep(out, opts, join, fs, e, madeDirs, log, dirs0, written0);
    }
    assert out.keys[|out.keys|..] == [];
    assert writes[..|out.keys|] == writes;
  }
}
