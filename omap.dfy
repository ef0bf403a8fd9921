/**
 * A JavaScript `Map` keyed by strings: a map from key to value together with
 * the insertion order of its keys, which is the order `keys()`, `values()`
 * and `for…of` visit. `set` on a present key keeps its place, `set` on a new
 * key appends it, and `delete` drops it from the order.
 */
module OrderedMaps {
  predicate NoDup(s: seq<string>) {
    forall i, j :: 0 <= i < j < |s| ==> s[i] != s[j]
  }

  datatype OMap<V> = OMap(keys: seq<string>, values: map<string, V>) {
    /** The order lists every key exactly once. */
    predicate Valid() {
      NoDup(keys) && (forall k :: k in keys ==> k in values) && forall k :: k in values ==> k in keys
    }
  }

  function Empty<V>(): (m: OMap<V>)
    ensures m.Valid() && m.values == map[]
  {
    OMap([], map[])
  }

  /** The keys of `s` that satisfy `f`, in their order in `s`. */
  function Filter(s: seq<string>, f: string -> bool): (r: seq<string>)
    ensures forall x :: x in r <==> x in s && f(x)
    ensures NoDup(s) ==> NoDup(r)
    ensures |r| <= |s|
  {
    if s == [] then []
    else
      var r0 := Filter(s[..|s| - 1], f);
      assert forall x :: x in s <==> x in s[..|s| - 1] || x == s[|s| - 1];
      if f(s[|s| - 1]) then r0 + [s[|s| - 1]] else r0
  }

  lemma {:induction false} FilterAll(s: seq<string>, f: string -> bool)
    requires forall x :: x in s ==> f(x)
    ensures Filter(s, f) == s
  {
    if s != [] {
      var init, last := s[..|s| - 1], s[|s| - 1];
      assert last in s;
      assert forall x :: x in init ==> x in s;
      FilterAll(init, f);
      assert s == init + [last];
    }
  }

  /** `map.set(k, v)`. */
  function Put<V>(m: OMap<V>, k: string, v: V): (r: OMap<V>)
    ensures r.values == m.values[k := v]
    ensures m.Valid() ==> r.Valid()
    ensures m.Valid() && k in m.values ==> r.keys == m.keys
    ensures k !in m.values ==> r.keys == m.keys + [k]
  {
    OMap(if k in m.values then m.keys else m.keys + [k], m.values[k := v])
  }

  /** The test "is not `k`". */
  function Except(k: string): (f: string -> bool)
    ensures forall x :: f(x) == (x != k)
  {
    x => x != k
  }

  /** `map.delete(k)`. */
  function Delete<V>(m: OMap<V>, k: string): (r: OMap<V>)
    ensures r.values == m.values - {k}
    ensures m.Valid() ==> r.Valid()
  {
    OMap(Filter(m.keys, Except(k)), m.values - {k})
  }

  /** Deleting an absent key changes nothing, order included. */
  lemma DeleteAbsent<V>(m: OMap<V>, k: string)
    requires m.Valid() && k !in m.values
    ensures Delete(m, k) == m
  {
    FilterAll(m.keys, Except(k));
  }

  /** Deleting a key that sits between `a` and `b` in the order. */
  lemma DeleteMiddle<V>(m: OMap<V>, a: seq<string>, x: string, b: seq<string>)
    requires m.Valid() && m.keys == a + [x] + b
    ensures Delete(m, x).keys == a + b
  {
    forall y | y in a ensures Except(x)(y) {
      var i :| 0 <= i < |a| && a[i] == y;
      assert m.keys[i] == y && m.keys[|a|] == x;
    }
    forall y | y in b ensures Except(x)(y) {
      var i :| 0 <= i < |b| && b[i] == y;
      assert m.keys[|a| + 1 + i] == y && m.keys[|a|] == x;
    }
    FilterAll(a, Except(x));
    FilterAll(b, Except(x));
    FilterSnoc(a, x, Except(x));
    FilterConcat(a + [x], b, Except(x));
  }

  lemma {:induction false} FilterSnoc(s: seq<string>, x: string, f: string -> bool)
    ensures Filter(s + [x], f) == Filter(s, f) + (if f(x) then [x] else [])
  {
    assert (s + [x])[..|s + [x]| - 1] == s;
  }

  lemma {:induction false} FilterConcat(a: seq<string>, b: seq<string>, f: string -> bool)
    ensures Filter(a + b, f) == Filter(a, f) + Filter(b, f)
  {
    if b != [] {
      var b0, x := b[..|b| - 1], b[|b| - 1];
      assert a + b == (a + b0) + [x];
      assert b == b0 + [x];
      FilterSnoc(a + b0, x, f);
      FilterSnoc(b0, x, f);
      FilterConcat(a, b0, f);
    } else {
      assert a + b == a;
    }
  }

  /** `[...map.values()]`. */
  function Values<V>(m: OMap<V>): (r: seq<V>)
    requires m.Valid()
    ensures |r| == |m.keys|
    ensures forall i :: 0 <= i < |r| ==> r[i] == m.values[m.keys[i]]
  {
    seq(|m.keys|, i requires 0 <= i < |m.keys| => m.values[m.keys[i]])
  }

  /** `set.add(x)` on a set kept in insertion order. */
  function AddOnce(s: seq<string>, x: string): (r: seq<string>)
    ensures NoDup(s) ==> NoDup(r)
    ensures forall y :: y in r <==> y in s || y == x
    ensures x in s ==> r == s
  {
    if x in s then s else s + [x]
  }

  /** The keys of `pairs`, in order. */
  function Firsts<V>(pairs: seq<(string, V)>): (ks: seq<string>)
    ensures |ks| == |pairs| && forall i :: 0 <= i < |pairs| ==> ks[i] == pairs[i].0
  {
    seq(|pairs|, i requires 0 <= i < |pairs| => pairs[i].0)
  }

  /**
   * `new Map(pairs)`: every key of `pairs` is present, in the order of its
   * first occurrence.
   */
  function FromPairs<V>(pairs: seq<(string, V)>): (r: OMap<V>)
    ensures r.Valid()
    ensures forall k :: k in r.values <==> k in Firsts(pairs)
  {
    if pairs == [] then Empty()
    else
      var last := pairs[|pairs| - 1];
      assert Firsts(pairs) == Firsts(pairs[..|pairs| - 1]) + [last.0];
      Put(FromPairs(pairs[..|pairs| - 1]), last.0, last.1)
  }

  /** A key holds the value of its last occurrence: a later duplicate overwrites an earlier one. */
  lemma {:induction false} FromPairsLast<V>(pairs: seq<(string, V)>, i: nat)
    requires i < |pairs| && forall j :: i < j < |pairs| ==> pairs[j].0 != pairs[i].0
    ensures pairs[i].0 in FromPairs(pairs).values && FromPairs(pairs).values[pairs[i].0] == pairs[i].1
  {
    var init := pairs[..|pairs| - 1];
    assert Firsts(pairs) == Firsts(init) + [pairs[|pairs| - 1].0];
    if i < |pairs| - 1 {
      assert pairs[i] == init[i];
      forall j | i < j < |init| ensures init[j].0 != init[i].0 {
        assert init[j] == pairs[j];
      }
      FromPairsLast(init, i);
    }
  }

  /** With distinct keys the map keeps the order of the list. */
  lemma {:induction false} FromPairsOrder<V>(pairs: seq<(string, V)>)
    requires NoDup(Firsts(pairs))
    ensures FromPairs(pairs).keys == Firsts(pairs)
  {
    if pairs != [] {
      var init := pairs[..|pairs| - 1];
      assert Firsts(pairs) == Firsts(init) + [pairs[|pairs| - 1].0];
      FromPairsOrder(init);
      assert pairs[|pairs| - 1].0 !in Firsts(init);
    }
  }
}
