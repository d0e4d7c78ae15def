/**
 * Parsing of the "key=value" rule texts: `is_valid_pair` and `split_pair`
 * of restricted_dictionary.c. Both look for the FIRST '=' only (the C
 * library's strchr); any later '=' belongs to the value.
 */
module Pairs {
  import opened Wrappers

  const Separator: char := '='

  datatype Pair = Pair(key: string, value: string)

  /** The text a pair is written as: key, '=', value. */
  function Join(kv: Pair): string {
    kv.key + [Separator] + kv.value
  }

  /** Index of the first occurrence of `c` in `s`, as strchr finds it. */
  function FirstIndex(s: string, c: char): (r: Option<nat>)
    ensures r.None? <==> c !in s
    ensures r.Some? ==> r.value < |s| && s[r.value] == c && c !in s[..r.value]
  {
    if |s| == 0 then None
    else if s[0] == c then Some(0)
    else
      match FirstIndex(s[1..], c)
      case None =>
        assert s == [s[0]] + s[1..];
        None
      case Some(i) =>
        assert s[..i + 1] == [s[0]] + s[1..][..i];
        Some(i + 1)
  }

  /**
   * `is_valid_pair`: there is an '=', and the first '=' is neither the first
   * character nor the last one.
   */
  predicate IsValidPair(p: string) {
    match FirstIndex(p, Separator)
    case None => false
    case Some(i) => i != 0 && i + 1 != |p|
  }

  /**
   * The check of `is_valid_pair` read on the text itself: there is an '='
   * with none before it, and it is neither the first character nor the last.
   */
  lemma ValidPairFirstSeparator(p: string)
    ensures IsValidPair(p) <==>
      exists i :: 0 < i < |p| - 1 && p[i] == Separator && Separator !in p[..i]
  {
    if exists i :: 0 < i < |p| - 1 && p[i] == Separator && Separator !in p[..i] {
      var i :| 0 < i < |p| - 1 && p[i] == Separator && Separator !in p[..i];
      FirstIndexUnique(p, Separator, i);
    }
  }

  /** Any occurrence with none before it is the one strchr finds. */
  lemma FirstIndexUnique(s: string, c: char, j: nat)
    requires j < |s| && s[j] == c && c !in s[..j]
    ensures FirstIndex(s, c) == Some(j)
  {
    var i := FirstIndex(s, c).value;
    assert forall t :: 0 <= t < j ==> s[..j][t] == s[t];
    assert forall t :: 0 <= t < i ==> s[..i][t] == s[t];
  }

  /**
   * `split_pair`: fails only when there is no '='; otherwise the key is the
   * text before the first '=' and the value everything after it.
   */
  function SplitPair(p: string): (r: Option<Pair>)
    ensures r.None? <==> Separator !in p
    ensures r.Some? ==> Join(r.value) == p && Separator !in r.value.key
  {
    match FirstIndex(p, Separator)
    case None => None
    case Some(i) =>
      assert p == p[..i] + [Separator] + p[i + 1..];
      Some(Pair(p[..i], p[i + 1..]))
  }

  /** Splitting the text of a pair whose key has no '=' gives the pair back. */
  lemma {:induction false} SplitJoin(kv: Pair)
    requires Separator !in kv.key
    ensures SplitPair(Join(kv)) == Some(kv)
  {
    var p := Join(kv);
    var n := |kv.key|;
    assert p[n] == Separator;
    var i := FirstIndex(p, Separator).value;
    assert i == n;
    assert p[..n] == kv.key;
    assert p[n + 1..] == kv.value;
  }

  /** A valid pair is exactly one whose split has a non-empty key and value. */
  lemma {:induction false} ValidPairIff(p: string)
    ensures IsValidPair(p) <==>
      SplitPair(p).Some? && SplitPair(p).value.key != [] && SplitPair(p).value.value != []
  {
    match FirstIndex(p, Separator)
    case None =>
    case Some(i) =>
      assert SplitPair(p).value.key == p[..i];
      assert SplitPair(p).value.value == p[i + 1..];
  }

  /**
   * Written out as a pair: the text of (k, v), k free of '=', is valid exactly
   * when k and v are both non-empty; v may itself contain '='.
   */
  lemma {:induction false} ValidJoinIff(kv: Pair)
    requires Separator !in kv.key
    ensures IsValidPair(Join(kv)) <==> kv.key != [] && kv.value != []
  {
    SplitJoin(kv);
    ValidPairIff(Join(kv));
  }
}
