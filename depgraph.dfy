/**
 * The dependency graph every tree variant keeps, and the cycle-safe
 * invalidation walk (`resetDepTree`) they all run over it.
 *
 * The graph maps a *required* path to the set of paths that *require* it.
 * Invalidating a changed path deletes every key that is a string prefix of
 * it and recurses into the recorded dependents of each deleted key; a shared
 * `seen` set stops a path from being expanded twice. The walk is written on
 * values: the trees hand it their `deps` map and the set of paths they hold,
 * and apply the returned version bumps to their own entries.
 */
module DepGraph {
  import opened Strings

  type Graph = map<string, set<string>>

  /** `requiredBy` is recorded as depending on `requiring`. */
  predicate HasEdge(g: Graph, requiredBy: string, requiring: string) {
    requiring in g && requiredBy in g[requiring]
  }

  /** `addDep(requiredBy, requiring)`: record one edge, keyed by the required path. */
  function AddEdge(g: Graph, requiredBy: string, requiring: string): (g': Graph)
    ensures g'.Keys == g.Keys + {requiring}
    ensures forall x, y :: HasEdge(g', x, y) <==> HasEdge(g, x, y) || (x == requiredBy && y == requiring)
  {
    g[requiring := (if requiring in g then g[requiring] else {}) + {requiredBy}]
  }

  /** Recording an edge that is already there leaves the graph as it was. */
  lemma AddEdgeIdempotent(g: Graph, requiredBy: string, requiring: string)
    requires HasEdge(g, requiredBy, requiring)
    ensures AddEdge(g, requiredBy, requiring) == g
  {
    assert g[requiring] + {requiredBy} == g[requiring];
  }

  /** Recording the same edge twice gives the graph that recording it once gives. */
  lemma AddEdgeTwice(g: Graph, requiredBy: string, requiring: string)
    ensures AddEdge(AddEdge(g, requiredBy, requiring), requiredBy, requiring) == AddEdge(g, requiredBy, requiring)
  {
    AddEdgeIdempotent(AddEdge(g, requiredBy, requiring), requiredBy, requiring);
  }

  function Elems(s: seq<string>): set<string> {
    set x | x in s
  }

  /** Every path recorded under one of `keys`. */
  ghost function Dependents(g: Graph, keys: set<string>): set<string> {
    set k, d | k in keys && k in g && d in g[k] :: d
  }

  /** `h` is `g` with some keys deleted and nothing else changed. */
  ghost predicate Within(h: Graph, g: Graph) {
    h.Keys <= g.Keys && forall k :: k in h ==> h[k] == g[k]
  }

  /** No key left in `g` is a prefix of a visited path. */
  ghost predicate Swept(g: Graph, visited: set<string>) {
    forall p, k :: p in visited && k in g ==> !StartsWith(p, k)
  }

  /** Every key deleted from `g` on the way to `h` is a prefix of a visited path. */
  ghost predicate Justified(g: Graph, h: Graph, visited: set<string>) {
    forall k :: k in g && k !in h ==> exists p :: p in visited && StartsWith(p, k)
  }

  /** The dependents of every key deleted from `g` on the way to `h` were visited. */
  ghost predicate Closed(g: Graph, h: Graph, visited: set<string>) {
    forall k :: k in g && k !in h ==> g[k] <= visited
  }

  /** Some deleted key has a dependent that is not among the stored paths. */
  ghost predicate MissingDependent(g: Graph, h: Graph, present: set<string>) {
    exists k, d :: k in g && k !in h && d in g[k] && d !in present
  }

  /** What any prefix of the walk guarantees: keys only deleted, `seen` only grown, touched paths are dependents of deleted keys. */
  ghost predicate Walked(g: Graph, h: Graph, s0: set<string>, s1: set<string>, t: seq<string>, present: set<string>, strict: bool) {
    && Within(h, g)
    && s0 <= s1
    && Elems(t) <= Dependents(g, g.Keys - h.Keys)
    && (strict ==> Elems(t) <= present)
  }

  /** What a walk that ran to the end guarantees: the new paths are swept, the deleted keys' dependents visited and touched. */
  ghost predicate Complete(g: Graph, h: Graph, s0: set<string>, s1: set<string>, t: seq<string>) {
    && Swept(h, s1 - s0)
    && Closed(g, h, s1)
    && Elems(t) == Dependents(g, g.Keys - h.Keys)
  }

  lemma ElemsConcat(a: seq<string>, b: seq<string>)
    ensures Elems(a + b) == Elems(a) + Elems(b)
  {
    assert forall x :: x in a + b <==> x in a || x in b;
  }

  lemma WithinTrans(g: Graph, h: Graph, h2: Graph)
    requires Within(h, g) && Within(h2, h)
    ensures Within(h2, g)
  {
  }

  lemma DependentsWithin(g: Graph, h: Graph, a: set<string>)
    requires Within(h, g) && a <= h.Keys
    ensures Dependents(h, a) == Dependents(g, a)
  {
    forall d | d in Dependents(g, a) ensures d in Dependents(h, a) {
      var k :| k in a && k in g && d in g[k];
      assert d in h[k];
    }
  }

  lemma DependentsGrow(g: Graph, h: Graph, a: set<string>, b: set<string>)
    requires Within(h, g) && b <= h.Keys
    ensures Dependents(g, a) + Dependents(h, b) == Dependents(g, a + b)
  {
    DependentsWithin(g, h, b);
    forall d | d in Dependents(g, a + b) ensures d in Dependents(g, a) + Dependents(g, b) {
      var k :| k in a + b && k in g && d in g[k];
      if k in b { assert d in Dependents(g, b); } else { assert d in Dependents(g, a); }
    }
  }

  lemma DependentsOne(g: Graph, a: set<string>, k: string)
    requires k in g
    ensures Dependents(g, a + {k}) == Dependents(g, a) + g[k]
  {
    forall d | d in g[k] ensures d in Dependents(g, a + {k}) {
      assert k in a + {k} && k in g && d in g[k];
    }
  }

  lemma MissingTrans(g: Graph, h: Graph, h2: Graph, present: set<string>)
    requires Within(h, g) && MissingDependent(h, h2, present)
    ensures MissingDependent(g, h2, present)
  {
    var k, d :| k in h && k !in h2 && d in h[k] && d !in present;
    assert k in g && d in g[k];
  }

  lemma {:induction false} ComposeWalked(g: Graph, h: Graph, h2: Graph, s0: set<string>, s1: set<string>, s2: set<string>,
                                         t1: seq<string>, t2: seq<string>, present: set<string>, strict: bool)
    requires Walked(g, h, s0, s1, t1, present, strict) && Walked(h, h2, s1, s2, t2, present, strict)
    ensures Walked(g, h2, s0, s2, t1 + t2, present, strict)
  {
    ElemsConcat(t1, t2);
    DependentsGrow(g, h, g.Keys - h.Keys, h.Keys - h2.Keys);
    assert (g.Keys - h.Keys) + (h.Keys - h2.Keys) == g.Keys - h2.Keys;
  }

  lemma {:induction false} ComposeComplete(g: Graph, h: Graph, h2: Graph, s0: set<string>, s1: set<string>, s2: set<string>,
                                           t1: seq<string>, t2: seq<string>)
    requires Within(h, g) && Within(h2, h) && s0 <= s1 <= s2
    requires Complete(g, h, s0, s1, t1) && Complete(h, h2, s1, s2, t2)
    ensures Complete(g, h2, s0, s2, t1 + t2)
  {
    ElemsConcat(t1, t2);
    DependentsGrow(g, h, g.Keys - h.Keys, h.Keys - h2.Keys);
    assert (g.Keys - h.Keys) + (h.Keys - h2.Keys) == g.Keys - h2.Keys;
    assert s2 - s0 == (s1 - s0) + (s2 - s1);
  }

  /**
   * `resetDepTree(path, seen)`: if `path` was not seen, mark it, delete every
   * key of `g` that is a prefix of it and, for each dependent of a deleted
   * key, touch it (the caller bumps its version) and recurse. `present` is the
   * set of stored paths; when `strict` holds, touching a dependent that is not
   * stored fails (`files.get(dep)!` throws), leaving the walk where it stopped.
   * The keys are visited in any order, as a JavaScript `Map` iteration may
   * visit them; keys deleted by a nested call are skipped.
   */
  method Reset(g: Graph, path: string, seen: set<string>, present: set<string>, strict: bool)
    returns (h: Graph, seen': set<string>, touched: seq<string>, ok: bool)
    ensures Walked(g, h, seen, seen', touched, present, strict)
    ensures path in seen'
    ensures seen' - seen <= {path} + Elems(touched)
    ensures path in seen ==> h == g && seen' == seen && touched == [] && ok
    ensures Justified(g, h, seen' - seen)
    ensures ok ==> Complete(g, h, seen, seen', touched)
    ensures !ok ==> strict && MissingDependent(g, h, present)
    decreases g.Keys, 1
  {
    if path in seen {
      return g, seen, [], true;
    }
    h, seen', touched, ok := g, seen + {path}, [], true;
    var todo := g.Keys;
    while todo != {}
      invariant todo <= g.Keys
      invariant Walked(g, h, seen, seen', touched, present, strict)
      invariant path in seen' && seen' - seen <= {path} + Elems(touched)
      invariant Justified(g, h, seen' - seen)
      invariant Complete(g, h, seen + {path}, seen', touched)
      invariant forall k :: k in h && k !in todo ==> !StartsWith(path, k)
      decreases todo
    {
      var key :| key in todo;
      todo := todo - {key};
      if key in h && StartsWith(path, key) {
        var h1, seen1, touched1, ok1 := ExpandKey(h, key, seen', present, strict);
        ResetStep(g, h, h1, key, path, seen, seen', seen1, touched, touched1, present, strict, ok1);
        h, seen', touched := h1, seen1, touched + touched1;
        if !ok1 {
          ok := false;
          return;
        }
      }
    }
    ResetDone(g, h, path, seen, seen', touched, todo);
  }

  lemma ResetDone(g: Graph, h: Graph, path: string, seen: set<string>, s: set<string>, t: seq<string>, todo: set<string>)
    requires todo == {} && path in s && path !in seen && seen <= s
    requires Complete(g, h, seen + {path}, s, t)
    requires forall k :: k in h && k !in todo ==> !StartsWith(path, k)
    ensures Complete(g, h, seen, s, t)
  {
    assert s - seen == (s - (seen + {path})) + {path};
  }

  lemma {:induction false} ResetStep(g: Graph, h: Graph, h1: Graph, key: string, path: string,
                                     seen: set<string>, s0: set<string>, s1: set<string>,
                                     t0: seq<string>, t1: seq<string>, present: set<string>, strict: bool, ok1: bool)
    requires Walked(g, h, seen, s0, t0, present, strict)
    requires path in s0 && path !in seen && s0 - seen <= {path} + Elems(t0)
    requires Justified(g, h, s0 - seen)
    requires key in h && key !in h1 && StartsWith(path, key)
    requires Walked(h, h1, s0, s1, t1, present, strict)
    requires s1 - s0 <= Elems(t1)
    requires Justified(h - {key}, h1, s1 - s0)
    ensures Walked(g, h1, seen, s1, t0 + t1, present, strict)
    ensures path in s1 && s1 - seen <= {path} + Elems(t0 + t1)
    ensures Justified(g, h1, s1 - seen)
    ensures ok1 && Complete(g, h, seen + {path}, s0, t0) && Complete(h, h1, s0, s1, t1) ==> Complete(g, h1, seen + {path}, s1, t0 + t1)
    ensures !ok1 && MissingDependent(h, h1, present) ==> MissingDependent(g, h1, present)
  {
    ComposeWalked(g, h, h1, seen, s0, s1, t0, t1, present, strict);
    ElemsConcat(t0, t1);
    assert s1 - seen == (s0 - seen) + (s1 - s0);
    forall k | k in g && k !in h1 ensures exists p :: p in s1 - seen && StartsWith(p, k) {
      if k !in h {
        var p :| p in s0 - seen && StartsWith(p, k);
        assert p in s1 - seen;
      } else if k == key {
        assert path in s1 - seen;
      } else {
        assert k in h - {key};
        var p :| p in s1 - s0 && StartsWith(p, k);
        assert p in s1 - seen;
      }
    }
    if ok1 && Complete(g, h, seen + {path}, s0, t0) && Complete(h, h1, s0, s1, t1) {
      ComposeComplete(g, h, h1, seen + {path}, s0, s1, t0, t1);
    }
    if !ok1 && MissingDependent(h, h1, present) {
      MissingTrans(g, h, h1, present);
    }
  }

  /**
   * The body of the match branch in `resetDepTree`: delete `key` and, for each
   * of its dependents in any order, touch it and run `Reset` on it with the
   * shared `seen` set.
   */
  method ExpandKey(g: Graph, key: string, seen: set<string>, present: set<string>, strict: bool)
    returns (h: Graph, seen': set<string>, touched: seq<string>, ok: bool)
    requires key in g
    ensures key !in h
    ensures Walked(g, h, seen, seen', touched, present, strict)
    ensures seen' - seen <= Elems(touched)
    ensures Justified(g - {key}, h, seen' - seen)
    ensures ok ==> Complete(g, h, seen, seen', touched)
    ensures !ok ==> strict && MissingDependent(g, h, present)
    decreases g.Keys, 0
  {
    var requiredBy := g[key];
    h, seen', touched, ok := g - {key}, seen, [], true;
    ghost var h0 := h;
    ghost var nested: seq<string> := [];
    var pending := requiredBy;
    while pending != {}
      invariant pending <= requiredBy
      invariant key !in h
      invariant Walked(h0, h, seen, seen', nested, present, strict)
      invariant Complete(h0, h, seen, seen', nested)
      invariant Elems(touched) == Elems(nested) + (requiredBy - pending)
      invariant requiredBy - pending <= seen'
      invariant strict ==> requiredBy - pending <= present
      invariant seen' - seen <= Elems(touched)
      invariant Justified(h0, h, seen' - seen)
      decreases pending
    {
      var dep :| dep in pending;
      ghost var done := requiredBy - pending;
      pending := pending - {dep};
      if strict && dep !in present {
        ok := false;
        ExpandFailed(g, key, h0, h, dep, seen, seen', nested, touched, requiredBy, pending, present, strict);
        return;
      }
      var h1, seen1, touched1, ok1 := Reset(h, dep, seen', present, strict);
      ExpandStep(h0, h, h1, dep, seen, seen', seen1, nested, touched, touched1, present, strict, ok1);
      TouchedStep(Elems(touched), Elems(nested), done, requiredBy - pending, dep, Elems(touched1));
      h, seen', touched, nested := h1, seen1, touched + [dep] + touched1, nested + touched1;
      if !ok1 {
        ok := false;
        ExpandFailed(g, key, h0, h, dep, seen, seen', nested, touched, requiredBy, pending, present, strict);
        return;
      }
    }
    assert requiredBy - pending == requiredBy;
    ExpandDone(g, key, h0, h, seen, seen', nested, touched, present, strict);
  }

  /** The touched set after one more dependent: the nested touches, plus the dependents done so far. */
  lemma TouchedStep(t0: set<string>, nested: set<string>, done: set<string>, done': set<string>, dep: string, t1: set<string>)
    requires t0 == nested + done && done' == done + {dep}
    ensures t0 + {dep} + t1 == (nested + t1) + done'
  {
  }

  lemma {:induction false} ExpandStep(h0: Graph, h: Graph, h1: Graph, dep: string, seen: set<string>,
                                      s0: set<string>, s1: set<string>, nested: seq<string>, t0: seq<string>,
                                      t1: seq<string>, present: set<string>, strict: bool, ok1: bool)
    requires Walked(h0, h, seen, s0, nested, present, strict) && Complete(h0, h, seen, s0, nested)
    requires s0 - seen <= Elems(t0) && Justified(h0, h, s0 - seen)
    requires Walked(h, h1, s0, s1, t1, present, strict) && dep in s1
    requires s1 - s0 <= {dep} + Elems(t1) && Justified(h, h1, s1 - s0)
    requires ok1 ==> Complete(h, h1, s0, s1, t1)
    ensures Walked(h0, h1, seen, s1, nested + t1, present, strict)
    ensures ok1 ==> Complete(h0, h1, seen, s1, nested + t1)
    ensures Elems(t0 + [dep] + t1) == Elems(t0) + {dep} + Elems(t1)
    ensures Elems(nested + t1) == Elems(nested) + Elems(t1)
    ensures s1 - seen <= Elems(t0 + [dep] + t1)
    ensures Justified(h0, h1, s1 - seen)
  {
    ComposeWalked(h0, h, h1, seen, s0, s1, nested, t1, present, strict);
    if ok1 { ComposeComplete(h0, h, h1, seen, s0, s1, nested, t1); }
    ElemsConcat(t0 + [dep], t1);
    ElemsConcat(t0, [dep]);
    ElemsConcat(nested, t1);
    assert s1 - seen == (s0 - seen) + (s1 - s0);
    forall k | k in h0 && k !in h1 ensures exists p :: p in s1 - seen && StartsWith(p, k) {
      if k !in h {
        var p :| p in s0 - seen && StartsWith(p, k);
        assert p in s1 - seen;
      } else {
        var p :| p in s1 - s0 && StartsWith(p, k);
        assert p in s1 - seen;
      }
    }
  }

  lemma {:induction false} ExpandFailed(g: Graph, key: string, h0: Graph, h: Graph, dep: string, seen: set<string>,
                                        s: set<string>, nested: seq<string>, touched: seq<string>, requiredBy: set<string>,
                                        pending: set<string>, present: set<string>, strict: bool)
    requires key in g && h0 == g - {key} && requiredBy == g[key] && dep in requiredBy && pending <= requiredBy
    requires Walked(h0, h, seen, s, nested, present, strict)
    requires Elems(touched) <= Elems(nested) + (requiredBy - pending)
    requires strict ==> Elems(touched) <= present
    requires strict && (dep !in present || MissingDependent(h0, h, present))
    ensures key !in h && Walked(g, h, seen, s, touched, present, strict)
    ensures Justified(h0, h, s - seen) ==> Justified(g - {key}, h, s - seen)
    ensures MissingDependent(g, h, present)
  {
    assert Within(h0, g);
    WithinTrans(g, h0, h);
    DependentsWithin(g, h0, h0.Keys - h.Keys);
    DependentsOne(g, h0.Keys - h.Keys, key);
    assert g.Keys - h.Keys == (h0.Keys - h.Keys) + {key};
    if dep !in present {
      assert key in g && key !in h && dep in g[key];
    } else {
      MissingTrans(g, h0, h, present);
    }
  }

  lemma {:induction false} ExpandDone(g: Graph, key: string, h0: Graph, h: Graph, seen: set<string>, s: set<string>,
                                      nested: seq<string>, touched: seq<string>, present: set<string>, strict: bool)
    requires key in g && h0 == g - {key} && key !in h
    requires Walked(h0, h, seen, s, nested, present, strict) && Complete(h0, h, seen, s, nested)
    requires Elems(touched) == Elems(nested) + g[key]
    requires g[key] <= s && (strict ==> g[key] <= present)
    requires Justified(h0, h, s - seen)
    ensures Walked(g, h, seen, s, touched, present, strict)
    ensures Complete(g, h, seen, s, touched)
    ensures Justified(g - {key}, h, s - seen)
  {
    assert Within(h0, g);
    WithinTrans(g, h0, h);
    DependentsWithin(g, h0, h0.Keys - h.Keys);
    DependentsOne(g, h0.Keys - h.Keys, key);
    assert g.Keys - h.Keys == (h0.Keys - h.Keys) + {key};
  }

  /**
   * The invalidation loop of `pathsUpdated`: `resetDepTree` for each changed
   * path in order, with one `seen` set for the whole batch. A failure stops
   * the loop (the exception leaves `pathsUpdated`).
   */
  method ResetAll(g: Graph, paths: seq<string>, present: set<string>, strict: bool)
    returns (h: Graph, seen: set<string>, touched: seq<string>, ok: bool)
    ensures Walked(g, h, {}, seen, touched, present, strict)
    ensures seen <= Elems(paths) + Elems(touched)
    ensures Justified(g, h, seen)
    ensures ok ==> Elems(paths) <= seen && Complete(g, h, {}, seen, touched)
    ensures !ok ==> strict && MissingDependent(g, h, present)
    ensures !strict ==> ok
    ensures paths == [] ==> h == g && seen == {} && touched == [] && ok
  {
    h, seen, touched, ok := g, {}, [], true;
    for i := 0 to |paths|
      invariant Walked(g, h, {}, seen, touched, present, strict)
      invariant Elems(paths[..i]) <= seen <= Elems(paths[..i]) + Elems(touched)
      invariant Justified(g, h, seen)
      invariant Complete(g, h, {}, seen, touched)
      invariant paths == [] ==> h == g && touched == []
    {
      var h1, seen1, touched1, ok1 := Reset(h, paths[i], seen, present, strict);
      ResetAllStep(g, h, h1, paths[..i], paths[i], seen, seen1, touched, touched1, present, strict, ok1);
      assert paths[..i + 1] == paths[..i] + [paths[i]];
      h, seen, touched := h1, seen1, touched + touched1;
      if !ok1 {
        ok := false;
        return;
      }
    }
    assert paths[..|paths|] == paths;
  }

  lemma {:induction false} ResetAllStep(g: Graph, h: Graph, h1: Graph, done: seq<string>, path: string,
                                        s0: set<string>, s1: set<string>, t0: seq<string>, t1: seq<string>,
                                        present: set<string>, strict: bool, ok1: bool)
    requires Walked(g, h, {}, s0, t0, present, strict)
    requires Elems(done) <= s0 <= Elems(done) + Elems(t0)
    requires Justified(g, h, s0)
    requires Walked(h, h1, s0, s1, t1, present, strict) && path in s1
    requires s1 - s0 <= {path} + Elems(t1) && Justified(h, h1, s1 - s0)
    requires ok1 ==> Complete(g, h, {}, s0, t0) && Complete(h, h1, s0, s1, t1)
    requires !ok1 ==> strict && MissingDependent(h, h1, present)
    ensures Walked(g, h1, {}, s1, t0 + t1, present, strict)
    ensures Elems(done + [path]) <= s1 <= Elems(done + [path]) + Elems(t0 + t1)
    ensures Justified(g, h1, s1)
    ensures ok1 ==> Complete(g, h1, {}, s1, t0 + t1)
    ensures !ok1 ==> MissingDependent(g, h1, present)
  {
    ComposeWalked(g, h, h1, {}, s0, s1, t0, t1, present, strict);
    ElemsConcat(t0, t1);
    ElemsConcat(done, [path]);
    assert s1 == s0 + (s1 - s0);
    forall k | k in g && k !in h1 ensures exists p :: p in s1 && StartsWith(p, k) {
      if k !in h {
        var p :| p in s0 && StartsWith(p, k);
        assert p in s1;
      } else {
        var p :| p in s1 - s0 && StartsWith(p, k);
        assert p in s1;
      }
    }
    if ok1 { ComposeComplete(g, h, h1, {}, s0, s1, t0, t1); }
    if !ok1 { MissingTrans(g, h, h1, present); }
  }

  /** After a complete walk a key survives exactly when no visited path starts with it. */
  lemma Survivors(g: Graph, h: Graph, visited: set<string>, touched: seq<string>)
    requires Within(h, g) && Justified(g, h, visited) && Complete(g, h, {}, visited, touched)
    ensures forall k :: k in h <==> k in g && forall p :: p in visited ==> !StartsWith(p, k)
  {
    assert visited - {} == visited;
  }

  /**
   * `/a.js` requires `/b.js`, which requires `/c.js`: a change to `/c.js`
   * invalidates exactly `/c.js`, `/b.js` and `/a.js` and removes both keys.
   */
  method ChainExample() returns (visited: set<string>, left: Graph, ok: bool)
    ensures ok && visited == {"/a.js", "/b.js", "/c.js"} && left == map[]
  {
    var g: Graph := map["/c.js" := {"/b.js"}, "/b.js" := {"/a.js"}];
    var present := {"/a.js", "/b.js", "/c.js"};
    assert !MissingDependent(g, g, present) by {
      forall k, d | k in g && d in g[k] ensures d in present { }
    }
    var touched;
    left, visited, touched, ok := ResetAll(g, ["/c.js"], present, true);
    assert "/c.js" in Elems(["/c.js"]);
    assert StartsWith("/c.js", "/c.js") && StartsWith("/b.js", "/b.js") && StartsWith("/a.js", "/a.js");
    assert Dependents(g, g.Keys - left.Keys) <= {"/a.js", "/b.js"};
    assert Elems(["/c.js"]) == {"/c.js"};
  }

  /** `/a.js` and `/b.js` require each other: the walk stops once both are seen. */
  method CycleExample() returns (visited: set<string>, left: Graph, ok: bool)
    ensures ok && visited == {"/a.js", "/b.js"} && left == map[]
  {
    var g: Graph := map["/a.js" := {"/b.js"}, "/b.js" := {"/a.js"}];
    var present := {"/a.js", "/b.js"};
    assert !MissingDependent(g, g, present) by {
      forall k, d | k in g && d in g[k] ensures d in present { }
    }
    var touched;
    left, visited, touched, ok := ResetAll(g, ["/a.js"], present, true);
    assert "/a.js" in Elems(["/a.js"]);
    assert StartsWith("/a.js", "/a.js") && StartsWith("/b.js", "/b.js");
    assert Dependents(g, g.Keys - left.Keys) <= {"/a.js", "/b.js"};
    assert Elems(["/a.js"]) == {"/a.js"};
  }

  /**
   * Matching is by string prefix, not by path segment: a change to `/a.tsx`
   * also invalidates what was recorded under `/a.ts`.
   */
  method SiblingPrefixExample() returns (visited: set<string>, ok: bool)
    ensures ok && visited == {"/a.tsx", "/m.js"}
  {
    var g: Graph := map["/a.ts" := {"/m.js"}];
    var present := {"/a.ts", "/a.tsx", "/m.js"};
    assert !MissingDependent(g, g, present) by {
      forall k, d | k in g && d in g[k] ensures d in present { }
    }
    var left, touched;
    left, visited, touched, ok := ResetAll(g, ["/a.tsx"], present, true);
    assert "/a.tsx" in Elems(["/a.tsx"]);
    assert StartsWith("/a.tsx", "/a.ts");
    assert Dependents(g, g.Keys - left.Keys) <= {"/m.js"};
    assert Elems(["/a.tsx"]) == {"/a.tsx"};
  }
}
