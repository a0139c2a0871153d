/**
 * String primitives the policies are built from: ASCII lower-casing (the
 * model's stand-in for mb_strtolower), substring search (mb_strpos,
 * str_contains) and the "some prefix matches" search of validatePath.
 */
module Text {
  import opened Common

  /** ASCII lower-casing of one character. */
  function LowerChar(c: char): char {
    if 'A' <= c <= 'Z' then (c as int + 32) as char else c
  }

  predicate IsLowerChar(c: char) {
    !('A' <= c <= 'Z')
  }

  /**
   * mb_strtolower, restricted to ASCII letters: the result has no upper-case
   * letter, and a string that has none is its own lower-case form.
   */
  function Lower(s: string): (r: string)
    ensures |r| == |s| && IsLower(r)
    ensures IsLower(s) ==> r == s
  {
    seq(|s|, i requires 0 <= i < |s| => LowerChar(s[i]))
  }

  predicate IsLower(s: string) {
    forall i :: 0 <= i < |s| ==> IsLowerChar(s[i])
  }

  /** Lowering is idempotent. */
  lemma LowerIsLower(s: string)
    ensures IsLower(Lower(s))
    ensures Lower(Lower(s)) == Lower(s)
  {
  }

  /**
   * array_map('mb_strtolower', ...): every string lowered, so each is
   * lower case and equal to the original up to case.
   */
  function LowerAll(ss: seq<string>): (r: seq<string>)
    ensures |r| == |ss|
    ensures forall i :: 0 <= i < |ss| ==> IsLower(r[i]) && Lower(r[i]) == Lower(ss[i])
  {
    seq(|ss|, i requires 0 <= i < |ss| => Lower(ss[i]))
  }

  /** `pat` occurs in `s` starting at index `j`. */
  predicate OccursAt(s: string, pat: string, j: int) {
    0 <= j && j + |pat| <= |s| && s[j..j + |pat|] == pat
  }

  /** mb_strpos: the index of the first occurrence of `pat` in `s` at or after `from`. */
  function IndexOfFrom(s: string, pat: string, from: nat): (r: Option<nat>)
    requires from <= |s|
    ensures r.Some? ==> from <= r.value && OccursAt(s, pat, r.value)
    ensures r.Some? ==> forall j :: from <= j < r.value ==> !OccursAt(s, pat, j)
    ensures r.None? ==> forall j :: from <= j ==> !OccursAt(s, pat, j)
    decreases |s| - from
  {
    if from + |pat| > |s| then None
    else if s[from..from + |pat|] == pat then Some(from)
    else if from == |s| then None
    else IndexOfFrom(s, pat, from + 1)
  }

  /** Where `pat` occurs at `j`, the characters from `j` on are those of `pat`. */
  lemma OccursAtStart(s: string, pat: string, j: int)
    requires OccursAt(s, pat, j)
    ensures forall k :: 0 <= k < |pat| ==> s[j + k] == pat[k]
  {
    forall k | 0 <= k < |pat| ensures s[j + k] == pat[k] {
      assert s[j..j + |pat|][k] == s[j + k];
    }
  }

  /** Where a non-empty `pat` occurs at `j`, the character at `j` is its first. */
  lemma OccursAtFirst(s: string, pat: string, j: int)
    requires OccursAt(s, pat, j) && |pat| > 0
    ensures s[j] == pat[0]
  {
    assert s[j..j + |pat|][0] == s[j];
  }

  /** The first occurrence of `pat` in `s`, if any. */
  function IndexOf(s: string, pat: string): (r: Option<nat>)
    ensures r.Some? ==> OccursAt(s, pat, r.value)
    ensures r.Some? ==> forall j :: 0 <= j < r.value ==> !OccursAt(s, pat, j)
    ensures r.None? ==> forall j :: !OccursAt(s, pat, j)
  {
    IndexOfFrom(s, pat, 0)
  }

  /** str_contains. */
  predicate Contains(s: string, pat: string)
  {
    IndexOf(s, pat).Some?
  }

  /** PHP's empty() on a string: the empty string and "0". */
  predicate EmptyString(s: string) {
    s == "" || s == "0"
  }

  /**
   * The loop of validatePath in FtpPolicy and HttpPolicy: true as soon as
   * one base path is a string prefix (str_starts_with) of `s`.
   */
  function AnyPrefix(prefixes: seq<string>, s: string): (r: bool)
    ensures r <==> exists i :: 0 <= i < |prefixes| && prefixes[i] <= s
  {
    if |prefixes| == 0 then false
    else if prefixes[0] <= s then true
    else
      var rest := AnyPrefix(prefixes[1..], s);
      assert forall i :: 1 <= i < |prefixes| ==> prefixes[i] == prefixes[1..][i - 1];
      rest
  }

  /** The empty prefix admits every string. */
  lemma EmptyPrefixAdmitsAll(prefixes: seq<string>, s: string)
    requires "" in prefixes
    ensures AnyPrefix(prefixes, s)
  {
    var i :| 0 <= i < |prefixes| && prefixes[i] == "";
    assert prefixes[i] <= s;
  }

  /**
   * The loop of validateQueryString: false as soon as one key is not in
   * `allowed`.
   */
  function AllIn(keys: seq<string>, allowed: seq<string>): (r: bool)
    ensures r <==> forall i :: 0 <= i < |keys| ==> keys[i] in allowed
  {
    if |keys| == 0 then true
    else if keys[0] !in allowed then false
    else
      var rest := AllIn(keys[1..], allowed);
      assert forall i :: 1 <= i < |keys| ==> keys[i] == keys[1..][i - 1];
      rest
  }

  /** The index of the last occurrence of `c` in `s` (zend_memrchr). */
  function LastIndexOf(s: string, c: char): (r: Option<nat>)
    ensures r.Some? ==> r.value < |s| && s[r.value] == c && c !in s[r.value + 1..]
    ensures r.None? <==> c !in s
  {
    if |s| == 0 then None
    else if s[|s| - 1] == c then Some(|s| - 1)
    else
      var r := LastIndexOf(s[..|s| - 1], c);
      assert s == s[..|s| - 1] + [s[|s| - 1]];
      if r.Some? then
        assert s[r.value + 1..] == s[..|s| - 1][r.value + 1..] + [s[|s| - 1]];
        r
      else r
  }
}
