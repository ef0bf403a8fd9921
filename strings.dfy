/**
 * String and byte helpers shared by the tree, the loader hooks and the
 * specifier rewriters: prefix and suffix tests, JavaScript's `slice`, the
 * decimal form of a version number and the `?ver=<digits>` suffix that the
 * module loader appends to locators.
 */
module Strings {

  newtype byte = x: int | 0 <= x < 256

  /** The raw contents of a file (a Node `Buffer`). */
  type Bytes = seq<byte>

  /** `Buffer | string`. */
  datatype Content = Raw(bytes: Bytes) | Text(text: string)

  predicate StartsWith(s: string, prefix: string) {
    |prefix| <= |s| && s[..|prefix|] == prefix
  }

  predicate EndsWith(s: string, suffix: string) {
    |suffix| <= |s| && s[|s| - |suffix|..] == suffix
  }

  lemma StartsWithConcat(prefix: string, rest: string)
    ensures StartsWith(prefix + rest, prefix)
  {
    assert (prefix + rest)[..|prefix|] == prefix;
  }

  /** `s.slice(n)` for a non-negative `n`: the empty string once `n` passes the end. */
  function SliceFrom(s: string, n: nat): (r: string)
    ensures n <= |s| ==> |r| == |s| - n && s == s[..n] + r
    ensures n >= |s| ==> r == ""
  {
    if n >= |s| then "" else s[n..]
  }

  /** `s.slice(0, -n)` for a positive `n`: the empty string when `s` is no longer than `n`. */
  function DropLast(s: string, n: nat): (r: string)
    requires n > 0
    ensures n <= |s| ==> |r| == |s| - n && s == r + s[|s| - n..]
    ensures n >= |s| ==> r == ""
  {
    if n >= |s| then "" else s[..|s| - n]
  }

  /** `s.split(from).join(to)` for one-character separators. */
  function ReplaceChar(s: string, from: char, to: char): (r: string)
    ensures |r| == |s|
    ensures forall i :: 0 <= i < |s| ==> r[i] == (if s[i] == from then to else s[i])
  {
    if s == [] then [] else
      [if s[0] == from then to else s[0]] + ReplaceChar(s[1..], from, to)
  }

  /** The index of the first `c` in `s`, or -1 (`s.indexOf(c)`). */
  function IndexOf(s: string, c: char): (i: int)
    ensures -1 <= i < |s|
    ensures i == -1 <==> c !in s
    ensures i >= 0 ==> s[i] == c && c !in s[..i]
  {
    if s == [] then -1
    else if s[0] == c then 0
    else
      var j := IndexOf(s[1..], c);
      if j == -1 then -1
      else
        assert s[..j + 1] == [s[0]] + s[1..][..j];
        j + 1
  }

  predicate IsDigit(c: char) {
    '0' <= c <= '9'
  }

  predicate AllDigits(s: string) {
    forall i :: 0 <= i < |s| ==> IsDigit(s[i])
  }

  function DigitChar(d: nat): (c: char)
    requires d < 10
    ensures IsDigit(c)
  {
    (48 + d) as char
  }

  /** The decimal digits of `n`, as `${n}` prints a non-negative integer. */
  function NatToString(n: nat): (s: string)
    ensures |s| > 0 && AllDigits(s)
    ensures s[0] == '0' ==> n == 0 && s == "0"
  {
    if n < 10 then [DigitChar(n)] else NatToString(n / 10) + [DigitChar(n % 10)]
  }

  /** The value of a string of decimal digits. */
  function ParseNat(s: string): nat
    requires AllDigits(s)
  {
    if s == [] then 0 else 10 * ParseNat(s[..|s| - 1]) + (s[|s| - 1] as int - 48)
  }

  lemma {:induction false} ParseNatToString(n: nat)
    ensures ParseNat(NatToString(n)) == n
  {
    if n >= 10 {
      var s := NatToString(n);
      assert s[..|s| - 1] == NatToString(n / 10);
      ParseNatToString(n / 10);
    }
  }

  /** Distinct versions print as distinct strings, so each bump yields a new locator. */
  lemma NatToStringInjective(m: nat, n: nat)
    requires NatToString(m) == NatToString(n)
    ensures m == n
  {
    ParseNatToString(m);
    ParseNatToString(n);
  }

  /** The number of decimal digits at the end of `s`. */
  function TrailingDigits(s: string): (n: nat)
    ensures n <= |s|
    ensures AllDigits(s[|s| - n..])
    ensures n < |s| ==> !IsDigit(s[|s| - n - 1])
  {
    if s == [] || !IsDigit(s[|s| - 1]) then 0
    else
      var init := s[..|s| - 1];
      var m := TrailingDigits(init);
      assert s[|s| - (m + 1)..] == init[|init| - m..] + [s[|s| - 1]];
      AllDigitsSnoc(init[|init| - m..], s[|s| - 1]);
      assert m + 1 < |s| ==> s[|s| - (m + 1) - 1] == init[|init| - m - 1];
      m + 1
  }

  lemma AllDigitsSnoc(d: string, c: char)
    requires AllDigits(d) && IsDigit(c)
    ensures AllDigits(d + [c])
  {
    assert forall i :: 0 <= i < |d| ==> (d + [c])[i] == d[i];
  }

  const VerQuery: string := "?ver="

  /**
   * `s.replace(/\?ver=\d+$/, '')`: remove a final `?ver=` followed by one or
   * more digits that run to the end of the string; anything else is kept.
   */
  function StripVer(s: string): (r: string)
    ensures r == s || (StartsWith(s, r) && HasVerSuffix(s, r))
  {
    var n := TrailingDigits(s);
    if n > 0 && n + 5 <= |s| && s[|s| - n - 5..|s| - n] == VerQuery then
      assert s == s[..|s| - n - 5] + VerQuery + s[|s| - n..];
      s[..|s| - n - 5]
    else s
  }

  /** `s` is `r` followed by `?ver=` and a non-empty run of digits. */
  ghost predicate HasVerSuffix(s: string, r: string) {
    exists d :: d != [] && AllDigits(d) && s == r + VerQuery + d
  }

  lemma {:induction false} TrailingDigitsOfSuffix(x: string, d: string)
    requires AllDigits(d)
    requires x == [] || !IsDigit(x[|x| - 1])
    ensures TrailingDigits(x + d) == |d|
  {
    if d == [] {
      assert x + d == x;
    } else {
      var s := x + d;
      assert s[..|s| - 1] == x + d[..|d| - 1];
      TrailingDigitsOfSuffix(x, d[..|d| - 1]);
    }
  }

  /**
   * Every final `?ver=` with a non-empty digit run is removed, leading zeros
   * included (`a?ver=007` becomes `a`): the regex matches whenever it can.
   */
  lemma StripVerOfDigits(x: string, d: string)
    requires d != [] && AllDigits(d)
    ensures StripVer(x + VerQuery + d) == x
  {
    var s := x + VerQuery + d;
    assert s == (x + VerQuery) + d;
    TrailingDigitsOfSuffix(x + VerQuery, d);
    assert s[|s| - |d| - 5..|s| - |d|] == VerQuery;
    assert s[..|s| - |d| - 5] == x;
  }

  /** The version query the loader appends is removed again by `StripVer`. */
  lemma StripVerOfVersioned(x: string, version: nat)
    ensures StripVer(x + VerQuery + NatToString(version)) == x
  {
    StripVerOfDigits(x, NatToString(version));
  }

  /** A string that does not end in a digit is left alone by `StripVer`. */
  lemma StripVerNoDigits(s: string)
    requires s == [] || !IsDigit(s[|s| - 1])
    ensures StripVer(s) == s
  {
  }

  /** `href.replace(/\/+$/, '')`: every trailing `/` removed. */
  function TrimSlashes(s: string): (r: string)
    ensures !EndsWith(r, "/")
    ensures StartsWith(s, r) && forall i :: |r| <= i < |s| ==> s[i] == '/'
  {
    if s != [] && s[|s| - 1] == '/' then
      var r := TrimSlashes(s[..|s| - 1]);
      assert s[..|r|] == s[..|s| - 1][..|r|];
      r
    else s
  }

  /** Concatenation regroups freely. */
  lemma ConcatAssoc<T>(a: seq<T>, b: seq<T>, c: seq<T>)
    ensures (a + b) + c == a + (b + c)
  {
  }

  /** A prefix one longer ends in the next element. */
  lemma TakeSnoc<T>(s: seq<T>, i: nat)
    requires i < |s|
    ensures s[..i + 1] == s[..i] + [s[i]]
  {
  }

  /** A suffix starts with its first element. */
  lemma DropCons<T>(s: seq<T>, i: nat)
    requires i < |s|
    ensures s[i..] == [s[i]] + s[i + 1..]
  {
  }

  /** A concatenation starts with its non-empty left part. */
  lemma ConsConcat<T>(a: seq<T>, b: seq<T>)
    requires a != []
    ensures a + b != [] && (a + b)[0] == a[0] && (a + b)[1..] == a[1..] + b
  {
  }

  /** Two maps with the same keys and the same value at each key are equal. */
  lemma MapExt<K, V>(a: map<K, V>, b: map<K, V>)
    requires forall k :: k in a <==> k in b
    requires forall k :: k in a ==> a[k] == b[k]
    ensures a == b
  {
  }

  /** A non-empty sequence is its front followed by its last element. */
  lemma SnocLast<T>(s: seq<T>)
    requires s != []
    ensures s == s[..|s| - 1] + [s[|s| - 1]]
  {
  }
}
