/**
 * The site file of src/file.ts: a TypeScript source (`.ts` or `.tsx`) is
 * compiled when the file is built, and it is then known under its `.js`
 * path; every other file keeps its path and bytes.
 */
module TsFiles {
  import opened Strings
  import opened Wrappers

  /** `path.match(/\.tsx?$/)`. */
  predicate IsTs(path: string) {
    EndsWith(path, ".ts") || EndsWith(path, ".tsx")
  }

  /** `path.replace(/\.tsx?$/, '.js')`. */
  function ConvertTsExts(path: string): (r: string)
    ensures EndsWith(path, ".ts") ==> r == path[..|path| - 3] + ".js"
    ensures EndsWith(path, ".tsx") ==> r == path[..|path| - 4] + ".js"
    ensures !IsTs(path) ==> r == path
  {
    if EndsWith(path, ".ts") then
      assert path[|path| - 1] == 's';
      path[..|path| - 3] + ".js"
    else if EndsWith(path, ".tsx") then path[..|path| - 4] + ".js"
    else path
  }

  /** A converted path is never a TypeScript path. */
  lemma ConvertedIsNotTs(path: string)
    ensures !IsTs(ConvertTsExts(path))
  {
    var r := ConvertTsExts(path);
    if IsTs(path) {
      assert r[|r| - 3..] == ".js";
      assert r[|r| - 2] == 'j' && r[|r| - 1] == 's';
    }
  }

  /** Converting twice is converting once. */
  lemma ConvertIdempotent(path: string)
    ensures ConvertTsExts(ConvertTsExts(path)) == ConvertTsExts(path)
  {
    ConvertedIsNotTs(path);
  }

  /** The deletion key of `/a.ts` is the entry `/a.js`. */
  lemma ConvertExample()
    ensures ConvertTsExts("/a.ts") == "/a.js"
  {
    ConvertTs("/a.ts", "/a");
  }

  /** Only the last extension is converted: `/a.d.ts` becomes `/a.d.js`. */
  lemma ConvertDeclarationExample()
    ensures ConvertTsExts("/a.d.ts") == "/a.d.js"
  {
    ConvertTs("/a.d.ts", "/a.d");
  }

  /** `/a.tsx` becomes `/a.js`. */
  lemma ConvertTsxExample()
    ensures ConvertTsExts("/a.tsx") == "/a.js"
  {
    ConvertTsx("/a.tsx", "/a");
  }

  /** A `.ts` path has its extension replaced by `.js`. */
  lemma ConvertTs(path: string, stem: string)
    requires path == stem + ".ts"
    ensures ConvertTsExts(path) == stem + ".js"
  {
    assert path[..|path| - 3] == stem;
  }

  /** A `.tsx` path has its extension replaced by `.js`. */
  lemma ConvertTsx(path: string, stem: string)
    requires path == stem + ".tsx"
    ensures ConvertTsExts(path) == stem + ".js"
  {
    assert path[|path| - 1] == 'x';
    assert path[|path| - 3..][2] == 'x';
    assert path[..|path| - 4] == stem;
  }

  /** `/a.js` is left as it is. */
  lemma ConvertJs(path: string)
    requires path == "/a.js"
    ensures ConvertTsExts(path) == path
  {
    assert path[|path| - 3..] != ".ts";
    assert path[|path| - 4..] != ".tsx";
  }

  /** The `Module` a TypeScript file gets: its source text and its original path. */
  datatype ModuleInfo = ModuleInfo(code: string, path: string)

  /** `File` of src/file.ts. */
  datatype SiteFile = SiteFile(path: string, content: Content, mod: Option<ModuleInfo>)

  /** `compiler.compile(code, undefined, path).code`. */
  type Compile = (string, string) -> string

  /** `content.toString('utf8')`. */
  type Decode = Bytes -> string

  /** `new File(path, content, runtime)`. */
  function MakeFile(path: string, content: Bytes, compile: Compile, decode: Decode): (f: SiteFile)
    ensures f.path == ConvertTsExts(path)
    ensures f.mod.Some? <==> IsTs(path)
    ensures IsTs(path) ==> f.mod == Some(ModuleInfo(decode(content), path)) &&
                           f.content == Text(compile(decode(content), path))
    ensures !IsTs(path) ==> f == SiteFile(path, Raw(content), None)
  {
    if IsTs(path) then
      var code := decode(content);
      SiteFile(ConvertTsExts(path), Text(compile(code, path)), Some(ModuleInfo(code, path)))
    else SiteFile(path, Raw(content), None)
  }

  /** The path a file is built with is already converted, so building it again does not move it. */
  lemma MakeFileSettled(path: string, content: Bytes, compile: Compile, decode: Decode)
    ensures ConvertTsExts(MakeFile(path, content, compile, decode).path) == MakeFile(path, content, compile, decode).path
    ensures !IsTs(MakeFile(path, content, compile, decode).path)
  {
    ConvertIdempotent(path);
    ConvertedIsNotTs(path);
  }
}
