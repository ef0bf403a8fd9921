/**
 * The in-memory entry the file trees keep per logical path, `{ path,
 * content, version }`, the `files` map of such entries in insertion order,
 * and the version bump that invalidation gives the dependents it reaches.
 */
module Entries {
  import opened Strings
  import opened OrderedMaps

  datatype TreeFile = TreeFile(path: string, content: Bytes, version: nat)

  type Files = OMap<TreeFile>

  /** The map is well formed and every entry records the key it is stored under. */
  ghost predicate Keyed(files: Files) {
    files.Valid() && forall p :: p in files.values ==> files.values[p].path == p
  }

  /**
   * `file.version = Date.now()` for every path in `ts`, with one clock value
   * `now` for the whole batch; content, order and the other entries stay.
   */
  function Bump(files: Files, ts: set<string>, now: nat): (r: Files)
    ensures r.keys == files.keys && r.values.Keys == files.values.Keys
    ensures forall p :: p in files.values ==>
              r.values[p] == (if p in ts then files.values[p].(version := now) else files.values[p])
    ensures Keyed(files) ==> Keyed(r)
  {
    OMap(files.keys, map p | p in files.values :: if p in ts then files.values[p].(version := now) else files.values[p])
  }

  /** Bumping nothing changes nothing. */
  lemma BumpNothing(files: Files, now: nat)
    ensures Bump(files, {}, now) == files
  {
  }
}
