/**
 * The stand-alone loader hooks of src/hooks.ts: `tryAltExts` retries a
 * module that is not found under its `.js` name with `.ts`, `.tsx` and
 * `.jsx`; `compileJsx` passes JSX sources through a compiler; `mapImport`
 * renames one specifier. The rest of the loader chain (`next`) is a
 * function parameter.
 */
module Hooks {
  import opened Strings
  import opened Wrappers

  /** `ext` sits at `i` and is followed by `?` or the end: the regex `ext(\?|$)` matching at `i`. */
  predicate MatchesAt(s: string, ext: string, i: nat) {
    i + |ext| <= |s| && s[i..i + |ext|] == ext && (i + |ext| == |s| || s[i + |ext|] == '?')
  }

  /** The first position at or after `from` where `ext(\?|$)` matches, or -1. */
  function FindExt(s: string, ext: string, from: nat): (r: int)
    ensures r == -1 || (from <= r && MatchesAt(s, ext, r))
    ensures forall j :: from <= j && (r == -1 || j < r) ==> !MatchesAt(s, ext, j)
    decreases |s| - from
  {
    if from > |s| then -1
    else if MatchesAt(s, ext, from) then from
    else FindExt(s, ext, from + 1)
  }

  /** `spec.replace(/\.js(\?|$)/, ext + '$1')`: the first `.js` before `?` or the end becomes `ext`. */
  function ReplaceJs(spec: string, ext: string): (r: string)
    ensures FindExt(spec, ".js", 0) == -1 ==> r == spec
    ensures var i := FindExt(spec, ".js", 0);
            i >= 0 ==> r == spec[..i] + ext + spec[i + 3..]
  {
    var i := FindExt(spec, ".js", 0);
    if i < 0 then spec else spec[..i] + ext + spec[i + 3..]
  }

  /** `/util.js` is retried as `/util.ts`. */
  lemma ReplaceJsExample()
    ensures ReplaceJs("/util.js", ".ts") == "/util.ts"
  {
    assert MatchesAt("/util.js", ".js", 5);
    assert forall j :: 0 <= j < 5 ==> !MatchesAt("/util.js", ".js", j);
  }

  /** A query after the `.js` is kept. */
  lemma ReplaceJsQueryExample()
    ensures ReplaceJs("/util.js?v=1", ".tsx") == "/util.tsx?v=1"
  {
    assert MatchesAt("/util.js?v=1", ".js", 5);
    assert forall j :: 0 <= j < 5 ==> !MatchesAt("/util.js?v=1", ".js", j);
  }

  /** `.jsx` is not `.js` followed by a query or the end, so it is left alone. */
  lemma ReplaceJsxExample()
    ensures ReplaceJs("/util.jsx", ".ts") == "/util.jsx"
  {
    var s := "/util.jsx";
    forall j | 0 <= j ensures !MatchesAt(s, ".js", j) {
      if j + 3 <= |s| && s[j..j + 3] == ".js" {
        assert s[j] == s[j..j + 3][0] == '.';
        assert j == 5;
        assert s[j + 3] == 'x';
      }
    }
  }

  /** What the rest of the chain does with a specifier: it resolves it, or throws an error with a code. */
  datatype Attempt = Found(url: string) | Error(code: string)

  const ModuleNotFound: string := "ERR_MODULE_NOT_FOUND"

  /** What a hook ends with: a resolved URL, or an exception carrying a code. */
  datatype Outcome = Resolved(url: string) | Thrown(code: string)

  /** The specifiers `tryAltExts` tries, in order, before the final plain call. */
  function AltCandidates(spec: string): seq<string> {
    [spec, ReplaceJs(spec, ".ts"), ReplaceJs(spec, ".tsx"), ReplaceJs(spec, ".jsx")]
  }

  /** An attempt that ends the chain: it resolved, or threw something other than not-found. */
  predicate Stops(a: Attempt) {
    a.Found? || a.code != ModuleNotFound
  }

  function ToOutcome(a: Attempt): Outcome {
    match a
    case Found(u) => Resolved(u)
    case Error(c) => Thrown(c)
  }

  /** `trySpec(c0) ?? trySpec(c1) ?? …`: the first attempt that stops the chain, if any. */
  function TryEach(cands: seq<string>, next: string -> Attempt): (r: Option<Outcome>)
    ensures r.None? <==> forall i :: 0 <= i < |cands| ==> !Stops(next(cands[i]))
    ensures r.Some? ==> exists i :: 0 <= i < |cands| && Stops(next(cands[i])) && r.value == ToOutcome(next(cands[i])) &&
                                   forall j :: 0 <= j < i ==> !Stops(next(cands[j]))
  {
    if cands == [] then None
    else if Stops(next(cands[0])) then Some(ToOutcome(next(cands[0])))
    else
      var r := TryEach(cands[1..], next);
      assert forall i :: 1 <= i < |cands| ==> cands[i] == cands[1..][i - 1];
      r
  }

  /**
   * `tryAltExts.resolve`: the first of the specifier and its `.ts`, `.tsx`
   * and `.jsx` variants that does not fail with `ERR_MODULE_NOT_FOUND`
   * decides (found, or its error propagates); when all four are not found,
   * one more plain call decides.
   */
  function TryAltExts(spec: string, next: string -> Attempt): (r: Outcome)
    ensures Stops(next(spec)) ==> r == ToOutcome(next(spec))
    ensures (forall i :: 0 <= i < 4 ==> !Stops(next(AltCandidates(spec)[i]))) ==> r == ToOutcome(next(spec))
  {
    var t := TryEach(AltCandidates(spec), next);
    if t.Some? then t.value else ToOutcome(next(spec))
  }

  /**
   * When the specifier itself is not found, the `.ts` variant is tried
   * next; if it is not found either, `.tsx`, then `.jsx`; an error other
   * than not-found from any of them is thrown at once.
   */
  lemma TryAltExtsOrder(spec: string, next: string -> Attempt, k: nat)
    requires k < 4 && Stops(next(AltCandidates(spec)[k]))
    requires forall j :: 0 <= j < k ==> !Stops(next(AltCandidates(spec)[j]))
    ensures TryAltExts(spec, next) == ToOutcome(next(AltCandidates(spec)[k]))
  {
    var cs := AltCandidates(spec);
    var t := TryEach(cs, next);
    var i :| 0 <= i < |cs| && Stops(next(cs[i])) && t.value == ToOutcome(next(cs[i])) &&
             forall j :: 0 <= j < i ==> !Stops(next(cs[j]));
    assert i == k;
  }

  /** When every candidate is not found, the final plain call ends in the same not-found error. */
  lemma TryAltExtsAllMissing(spec: string, next: string -> Attempt)
    requires forall i :: 0 <= i < 4 ==> next(AltCandidates(spec)[i]) == Error(ModuleNotFound)
    ensures TryAltExts(spec, next) == Thrown(ModuleNotFound)
  {
    assert AltCandidates(spec)[0] == spec;
  }

  /** `url.match(/\.tsx(\?|$)/) || url.match(/\.jsx(\?|$)/)`. */
  predicate IsJsxUrl(url: string) {
    FindExt(url, ".tsx", 0) >= 0 || FindExt(url, ".jsx", 0) >= 0
  }

  /** What `next(url).source.toString()` gives: the text, or an error with a code. */
  datatype SourceAttempt = Source(text: string) | SourceError(code: string)

  const UnknownFileExtension: string := "ERR_UNKNOWN_FILE_EXTENSION"

  /** What `compileJsx`'s `load` answers: defer to the chain, a compiled module, or an exception. */
  datatype JsxLoad = Deferred | Compiled(source: string, format: string, shortCircuit: bool) | LoadThrown(code: string)

  /**
   * `compileJsx(fn).load(url)`: a URL without a `.tsx`/`.jsx` extension
   * (possibly before a query) is deferred; otherwise its source comes from
   * the chain, or from the file itself (`readFile`) when the chain does not
   * know the extension, and `fn(source, url)` becomes a module.
   */
  function CompileJsx(fn: (string, string) -> string, url: string, next: string -> SourceAttempt, readFile: string -> string): (r: JsxLoad)
    ensures !IsJsxUrl(url) <==> r == Deferred
    ensures IsJsxUrl(url) && next(url).Source? ==> r == Compiled(fn(next(url).text, url), "module", true)
    ensures IsJsxUrl(url) && next(url).SourceError? && next(url).code == UnknownFileExtension ==>
              r == Compiled(fn(readFile(url), url), "module", true)
    ensures IsJsxUrl(url) && next(url).SourceError? && next(url).code != UnknownFileExtension ==>
              r == LoadThrown(next(url).code)
    ensures r.Compiled? ==> r.format == "module" && r.shortCircuit
    ensures r.LoadThrown? <==> IsJsxUrl(url) && next(url).SourceError? && next(url).code != UnknownFileExtension
  {
    if !IsJsxUrl(url) then Deferred
    else
      match next(url)
      case Source(text) => Compiled(fn(text, url), "module", true)
      case SourceError(code) =>
        if code != UnknownFileExtension then LoadThrown(code)
        else Compiled(fn(readFile(url), url), "module", true)
  }

  /** A `.tsx` URL with a version query is compiled; a `.ts` URL is not. */
  lemma JsxGateExamples()
    ensures IsJsxUrl("/a.tsx?ver=3") && IsJsxUrl("/b.jsx")
    ensures !IsJsxUrl("/a.ts")
  {
    assert MatchesAt("/a.tsx?ver=3", ".tsx", 2);
    assert FindExt("/a.tsx?ver=3", ".tsx", 0) >= 0;
    assert MatchesAt("/b.jsx", ".jsx", 2);
    assert FindExt("/b.jsx", ".jsx", 0) >= 0;
    var s := "/a.ts";
    forall j | 0 <= j ensures !MatchesAt(s, ".tsx", j) && !MatchesAt(s, ".jsx", j) {
      if j + 4 <= |s| {
        assert j <= 1 && s[j..j + 4][3] == s[j + 3] != 'x';
      }
    }
  }

  /**
   * The URLs the live tree hands out (`base + path + '?ver=' + version`)
   * for a stored `.tsx` or `.jsx` entry pass the gate: `compileJsx` never
   * defers them, whatever the version.
   */
  lemma VersionedJsxCompiled(fn: (string, string) -> string, base: string, path: string, version: nat,
                             next: string -> SourceAttempt, readFile: string -> string)
    requires EndsWith(path, ".tsx") || EndsWith(path, ".jsx")
    ensures IsJsxUrl(base + path + VerQuery + NatToString(version))
    ensures CompileJsx(fn, base + path + VerQuery + NatToString(version), next, readFile) != Deferred
  {
    var url := base + path + VerQuery + NatToString(version);
    var i := |base| + |path| - 4;
    var ext := if EndsWith(path, ".tsx") then ".tsx" else ".jsx";
    assert url[i..i + 4] == path[|path| - 4..];
    assert url[i + 4] == '?';
    assert MatchesAt(url, ext, i);
  }

  /** `mapImport(from, to).resolve`: the specifier passed on to the chain. */
  function MapImport(from: string, to: string, spec: string): (r: string)
    ensures r == to <==> spec == from || spec == to
    ensures spec != from ==> r == spec
  {
    if spec == from then to else spec
  }
}
