/**
 * Sequence operations standing for the Python `bytes`/`str` library calls the
 * patcher and the scraper rely on: `find`, slicing, `startswith`, `endswith`.
 */
module Seqs {

  /** `pat` occurs in `s` starting at index `j`. */
  predicate OccursAt<T(==)>(s: seq<T>, pat: seq<T>, j: nat)
  {
    j + |pat| <= |s| && s[j..j + |pat|] == pat
  }

  /**
   * Python's `s.find(pat, lo, hi)` for a non-empty pattern and non-negative
   * bounds: the least `j >= lo` such that `pat` occurs at `j` and ends at or
   * before `hi` (bounds past the end are clamped), or -1.
   */
  function Find<T(==)>(s: seq<T>, pat: seq<T>, lo: nat, hi: nat): (r: int)
    requires |pat| > 0
    ensures r == -1 || (lo <= r && r + |pat| <= hi && OccursAt(s, pat, r))
    ensures forall j: nat :: lo <= j && j + |pat| <= hi && (r == -1 || j < r) ==> !OccursAt(s, pat, j)
    decreases |s| - lo
  {
    if lo + |pat| > hi || lo + |pat| > |s| then -1
    else if s[lo..lo + |pat|] == pat then lo
    else Find(s, pat, lo + 1, hi)
  }

  /** Python's `s[lo:hi]` for non-negative bounds: both ends are clamped to `|s|`. */
  function Slice<T>(s: seq<T>, lo: nat, hi: nat): (r: seq<T>)
    ensures |r| <= |s|
    ensures hi <= |s| && lo <= hi ==> r == s[lo..hi]
    ensures forall k :: 0 <= k < |r| ==> lo + k < |s| && r[k] == s[lo + k]
  {
    var stop := if hi <= |s| then hi else |s|;
    if lo >= stop then [] else s[lo..stop]
  }

  predicate StartsWith<T(==)>(s: seq<T>, prefix: seq<T>)
  {
    |prefix| <= |s| && s[..|prefix|] == prefix
  }

  predicate EndsWith<T(==)>(s: seq<T>, suffix: seq<T>)
  {
    |suffix| <= |s| && s[|s| - |suffix|..] == suffix
  }

  /** A non-empty sequence is its front followed by its last element. */
  lemma InitLast<T>(s: seq<T>)
    requires s != []
    ensures s[..|s| - 1] + [s[|s| - 1]] == s
  {
  }
}
