/**
 * The few pieces of the C string library the server relies on, stated over
 * `seq<char>`: the NUL-terminated view of a buffer, `strchr` and `strstr`.
 */
module CStrings {
  import opened Wrappers

  /** `p` is a prefix of `s` (what `strncmp(s, p, |p|) == 0` tests on NUL-free strings). */
  predicate StartsWith(s: string, p: string) {
    |p| <= |s| && s[..|p|] == p
  }

  /** `pat` occurs in `s` starting at index `k`. */
  predicate OccursAt(s: string, pat: string, k: int) {
    0 <= k && k + |pat| <= |s| && s[k..k + |pat|] == pat
  }

  /** `k` is the first index at which `pat` occurs in `s`. */
  predicate FirstOccurrence(s: string, pat: string, k: int) {
    OccursAt(s, pat, k) && forall j :: 0 <= j < k ==> !OccursAt(s, pat, j)
  }

  /** Index of the first `c` in `s` at or after `from`. */
  function IndexFrom(s: string, c: char, from: nat): (r: Option<nat>)
    requires from <= |s|
    ensures r.Some? ==> from <= r.value < |s| && s[r.value] == c
    ensures r.Some? ==> forall j :: from <= j < r.value ==> s[j] != c
    ensures r.None? ==> forall j :: from <= j < |s| ==> s[j] != c
    decreases |s| - from
  {
    if from == |s| then None
    else if s[from] == c then Some(from)
    else IndexFrom(s, c, from + 1)
  }

  /** `strchr(s, c)` for a character other than NUL: the index of the first `c`, if any. */
  function IndexOf(s: string, c: char): (r: Option<nat>)
    ensures r.None? <==> c !in s
    ensures r.Some? ==> r.value < |s| && s[r.value] == c && c !in s[..r.value]
  {
    IndexFrom(s, c, 0)
  }

  /**
   * The string a C function sees in a buffer: everything before the first
   * NUL, or the whole buffer when the NUL that ends it lies beyond.
   */
  function CString(buffer: string): (r: string)
    ensures '\0' !in r
    ensures r <= buffer
    ensures |r| < |buffer| ==> buffer[|r|] == '\0'
  {
    match IndexOf(buffer, '\0')
    case None => buffer
    case Some(k) => buffer[..k]
  }

  /** First occurrence of `pat` in `s` at or after `from`. */
  function FindFrom(s: string, pat: string, from: nat): (r: Option<nat>)
    requires from <= |s|
    ensures r.Some? ==> from <= r.value && OccursAt(s, pat, r.value)
    ensures r.Some? ==> forall j :: from <= j < r.value ==> !OccursAt(s, pat, j)
    ensures r.None? ==> forall j :: from <= j ==> !OccursAt(s, pat, j)
    decreases |s| - from
  {
    if from + |pat| > |s| then None
    else if s[from..from + |pat|] == pat then Some(from)
    else FindFrom(s, pat, from + 1)
  }

  /** `strstr(s, pat)`: the index of the first occurrence of `pat`, if any. */
  function Find(s: string, pat: string): (r: Option<nat>)
    ensures r.None? <==> forall j :: !OccursAt(s, pat, j)
    ensures r.Some? ==> FirstOccurrence(s, pat, r.value)
  {
    FindFrom(s, pat, 0)
  }

  /** There is at most one first occurrence, so `Find` is determined by its contract. */
  lemma FirstOccurrenceUnique(s: string, pat: string, k: int, k': int)
    requires FirstOccurrence(s, pat, k) && FirstOccurrence(s, pat, k')
    ensures k == k'
  {
  }

  /** Whether `pat` occurs at `j` depends only on the characters up to `j + |pat|`. */
  lemma OccursAtPrefix(s: string, t: string, pat: string, n: int, j: int)
    requires 0 <= n <= |s| && n <= |t| && s[..n] == t[..n]
    requires 0 <= j && j + |pat| <= n
    ensures OccursAt(s, pat, j) <==> OccursAt(t, pat, j)
  {
    assert s[j..j + |pat|] == s[..n][j..j + |pat|];
    assert t[j..j + |pat|] == t[..n][j..j + |pat|];
  }
}
