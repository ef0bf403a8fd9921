/**
 * Bare-specifier rewriting (src/transforms.ts, and the same rule in
 * src/babel.ts): a relative, absolute or `http` specifier is left alone;
 * an exact key of the replacement table wins; otherwise the package name
 * before the first `/` is looked up, and failing that the remainder is
 * resolved against a package's `homepage`.
 */
module Transforms {
  import opened Strings
  import opened Wrappers

  /** `dep.match(/^[./]/) || dep.startsWith('http')`. */
  predicate Untouched(dep: string) {
    StartsWith(dep, ".") || StartsWith(dep, "/") || StartsWith(dep, "http")
  }

  /** `lib` and `imported`: the specifier split at its first `/`, or whole with an empty remainder. */
  function Split(dep: string): (r: (string, string))
    ensures r.0 + r.1 == dep
    ensures '/' !in r.0
    ensures r.1 == "" || r.1[0] == '/'
    ensures '/' !in dep ==> r == (dep, "")
  {
    var i := IndexOf(dep, '/');
    var split := if i == -1 then |dep| else i;
    assert dep[..split] + dep[split..] == dep;
    assert i == -1 ==> dep[..split] == dep;
    assert i >= 0 ==> dep[split..][0] == '/';
    (dep[..split], dep[split..])
  }

  /** `new URL(imported, homepage).href`. */
  type ResolveUrl = (string, string) -> string

  /** The replacement table, when one was given. */
  type Replacements = Option<map<string, string>>

  predicate HasKey(reps: Replacements, k: string) {
    reps.Some? && k in reps.value
  }

  /**
   * The new specifier text, or `None` when the specifier stays as it is.
   * `homepage(lib)` is the `homepage` of the package.json that is consulted
   * for the fallback.
   */
  function Rewrite(dep: string, reps: Replacements, homepage: string -> string, resolve: ResolveUrl): (r: Option<string>)
    ensures r.None? <==> Untouched(dep)
  {
    if Untouched(dep) then None
    else if HasKey(reps, dep) then Some(reps.value[dep])
    else
      var (lib, imported) := Split(dep);
      if HasKey(reps, lib) then Some(reps.value[lib] + imported)
      else Some(resolve(imported, homepage(lib)))
  }

  /** An exact key wins over its package name and replaces the whole specifier. */
  lemma ExactKeyWins(dep: string, reps: Replacements, homepage: string -> string, resolve: ResolveUrl)
    requires !Untouched(dep) && HasKey(reps, dep)
    ensures Rewrite(dep, reps, homepage, resolve) == Some(reps.value[dep])
  {
  }

  /** A package key keeps the subpath: `lib/sub` becomes `replacements[lib] + "/sub"`. */
  lemma PackageKeyKeepsSubpath(lib: string, sub: string, reps: Replacements, homepage: string -> string, resolve: ResolveUrl)
    requires !Untouched(lib + "/" + sub) && !HasKey(reps, lib + "/" + sub)
    requires '/' !in lib && HasKey(reps, lib)
    ensures Rewrite(lib + "/" + sub, reps, homepage, resolve) == Some(reps.value[lib] + "/" + sub)
  {
    var dep := lib + "/" + sub;
    assert dep[|lib|] == '/' && dep[..|lib|] == lib;
    assert IndexOf(dep, '/') == |lib|;
    assert dep[|lib|..] == "/" + sub;
    assert Split(dep) == (lib, "/" + sub);
    assert reps.value[lib] + ("/" + sub) == reps.value[lib] + "/" + sub;
  }

  /** A specifier without `/` is its own package name, and the fallback resolves the empty remainder. */
  lemma WholeSpecifierFallback(dep: string, reps: Replacements, homepage: string -> string, resolve: ResolveUrl)
    requires !Untouched(dep) && '/' !in dep && !HasKey(reps, dep)
    ensures Rewrite(dep, reps, homepage, resolve) == Some(resolve("", homepage(dep)))
  {
  }

  /** The homepage of one fixed package (`findPackageJSON('ref.api.90s.dev', …)`), whatever `lib` is. */
  function Fixed(homepage: string): (f: string -> string)
    ensures forall lib :: f(lib) == homepage
  {
    _ => homepage
  }

  /**
   * `maybeReplace(node, replacements)`: `None` returns the original node,
   * `Some(text)` a new string literal.
   */
  function MaybeReplace(dep: string, reps: Replacements, homepage: string, resolve: ResolveUrl): (r: Option<string>)
    ensures r.None? <==> Untouched(dep)
    ensures !Untouched(dep) && HasKey(reps, dep) ==> r == Some(reps.value[dep])
  {
    Rewrite(dep, reps, Fixed(homepage), resolve)
  }

  /** Two specifiers with the same remainder and no keys fall back to the same URL, whatever their package names. */
  lemma FallbackIgnoresLib(dep1: string, dep2: string, reps: Replacements, homepage: string, resolve: ResolveUrl)
    requires !Untouched(dep1) && !Untouched(dep2)
    requires !HasKey(reps, dep1) && !HasKey(reps, Split(dep1).0)
    requires !HasKey(reps, dep2) && !HasKey(reps, Split(dep2).0)
    requires Split(dep1).1 == Split(dep2).1
    ensures MaybeReplace(dep1, reps, homepage, resolve) == MaybeReplace(dep2, reps, homepage, resolve)
  {
  }

  /** Where a string literal sits. */
  datatype Parent = ImportDeclaration | ExportDeclaration | ImportCall | OtherParent

  /**
   * The visitor of `transformExternalModuleNames`: only the specifier of an
   * import or export declaration or of a dynamic `import(…)` is rewritten.
   */
  function VisitLiteral(parent: Parent, dep: string, reps: Replacements, homepage: string, resolve: ResolveUrl): (r: Option<string>)
    ensures parent == OtherParent ==> r.None?
    ensures parent != OtherParent ==> r == MaybeReplace(dep, reps, homepage, resolve)
    ensures r.Some? <==> parent != OtherParent && !Untouched(dep)
    ensures parent != OtherParent && !Untouched(dep) && HasKey(reps, dep) ==> r == Some(reps.value[dep])
  {
    if parent == OtherParent then None else MaybeReplace(dep, reps, homepage, resolve)
  }
}
