/**
 * The Babel plugin of src/babel.ts: import and export declarations have
 * their source string literal rewritten in place by `modifyPath`, with the
 * rule of `Transforms.Rewrite`; the fallback reads the `homepage` of the
 * imported package's own package.json under the project root.
 */
module Babel {
  import opened Strings
  import opened Wrappers
  import opened Transforms

  /** A Babel `StringLiteral` node, whose `value` the plugin assigns. */
  class StringLiteral {
    var value: string

    constructor(value: string)
      ensures this.value == value
    {
      this.value := value;
    }
  }

  /** `homepage` of `<projectRoot>/node_modules/<lib>/package.json`. */
  type PackageHomepage = (string, string) -> string

  function HomepageIn(projectRoot: string, pkg: PackageHomepage): (f: string -> string)
    ensures forall lib :: f(lib) == pkg(projectRoot, lib)
  {
    lib => pkg(projectRoot, lib)
  }

  /** `modifyPath(projectRoot, source, replacements)`. */
  method ModifyPath(projectRoot: string, source: StringLiteral, reps: Replacements, pkg: PackageHomepage, resolve: ResolveUrl)
    modifies source
    ensures var r := Rewrite(old(source.value), reps, HomepageIn(projectRoot, pkg), resolve);
            source.value == if r.None? then old(source.value) else r.value
  {
    var dep := source.value;
    if StartsWith(dep, ".") || StartsWith(dep, "/") || StartsWith(dep, "http") {
      return;
    }
    if reps.Some? && dep in reps.value {
      source.value := reps.value[dep];
      return;
    }
    var split := IndexOf(dep, '/');
    if split == -1 {
      split := |dep|;
    }
    var lib := dep[..split];
    var imported := dep[split..];
    assert (lib, imported) == Split(dep);
    if reps.Some? && lib in reps.value {
      source.value := reps.value[lib] + imported;
      return;
    }
    var homepage := pkg(projectRoot, lib);
    source.value := resolve(imported, homepage);
  }

  /** The `ImportDeclaration` visitor: every import's source is rewritten. */
  method EnterImport(projectRoot: string, source: StringLiteral, reps: Replacements, pkg: PackageHomepage, resolve: ResolveUrl)
    modifies source
    ensures var r := Rewrite(old(source.value), reps, HomepageIn(projectRoot, pkg), resolve);
            source.value == if r.None? then old(source.value) else r.value
  {
    ModifyPath(projectRoot, source, reps, pkg, resolve);
  }

  /** The `ExportDeclaration` visitor: only an export with a non-empty source is rewritten. */
  method EnterExport(projectRoot: string, source: Option<StringLiteral>, reps: Replacements, pkg: PackageHomepage, resolve: ResolveUrl)
    modifies if source.Some? then {source.value} else {}
    ensures source.Some? && old(source.value.value) == "" ==> source.value.value == ""
    ensures source.Some? && old(source.value.value) != "" ==>
              var r := Rewrite(old(source.value.value), reps, HomepageIn(projectRoot, pkg), resolve);
              source.value.value == if r.None? then old(source.value.value) else r.value
  {
    if source.Some? && source.value.value != "" {
      ModifyPath(projectRoot, source.value, reps, pkg, resolve);
    }
  }
}
