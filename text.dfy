/**
 * First-occurrence search and replacement on strings, as JavaScript's
 * `String.prototype.indexOf` and `String.prototype.replace` behave when the
 * pattern is a plain string (not a regular expression) and the replacement
 * holds no `$` (JavaScript expands `$$`, `$&`, `` $` `` and `$'` in it).
 */
module Text {
  import opened Wrappers

  /** `pat` occurs in `s` starting at position `k`. */
  predicate OccursAt(s: string, pat: string, k: nat) {
    k + |pat| <= |s| && s[k..k + |pat|] == pat
  }

  /** Occurrences in `s` past its first character are the occurrences in `s[1..]`, shifted by one. */
  lemma OccursShifted(s: string, pat: string)
    requires |s| > 0
    ensures forall j: nat :: 1 <= j ==> OccursAt(s, pat, j) == OccursAt(s[1..], pat, j - 1)
  {
    forall j: nat | 1 <= j
      ensures OccursAt(s, pat, j) == OccursAt(s[1..], pat, j - 1)
    {
      if j + |pat| <= |s| {
        var a, b := s[j..j + |pat|], s[1..][j - 1..j - 1 + |pat|];
        assert |a| == |b| && forall m :: 0 <= m < |a| ==> a[m] == b[m];
      }
    }
  }

  /** Position of the first occurrence of `pat` in `s`, if any. */
  function IndexOf(s: string, pat: string): (r: Option<nat>)
    ensures r.Some? ==> OccursAt(s, pat, r.value)
    ensures r.Some? ==> forall j: nat :: j < r.value ==> !OccursAt(s, pat, j)
    ensures r.None? ==> forall j: nat :: !OccursAt(s, pat, j)
    decreases |s|
  {
    if |pat| > |s| then None
    else if s[..|pat|] == pat then Some(0)
    else
      OccursShifted(s, pat);
      match IndexOf(s[1..], pat)
      case None => None
      case Some(k) => Some(k + 1)
  }

  /** `s.replace(pat, rep)` for a `rep` without `$`: only the first occurrence of `pat` is replaced. */
  function ReplaceFirst(s: string, pat: string, rep: string): (r: string)
    ensures (forall j: nat :: !OccursAt(s, pat, j)) ==> r == s
    ensures (exists j: nat :: OccursAt(s, pat, j)) ==>
      exists k: nat :: OccursAt(s, pat, k) && r == s[..k] + rep + s[k + |pat|..]
    ensures (exists j: nat :: OccursAt(s, pat, j)) ==> |r| == |s| - |pat| + |rep|
  {
    match IndexOf(s, pat)
    case None => s
    case Some(k) => s[..k] + rep + s[k + |pat|..]
  }

  /** Without an occurrence of the pattern, the text is returned unchanged. */
  lemma ReplaceFirstAbsent(s: string, pat: string, rep: string)
    requires forall j: nat :: !OccursAt(s, pat, j)
    ensures ReplaceFirst(s, pat, rep) == s
  {
  }

  /**
   * When the first occurrence of `pat` starts at `k`, exactly that occurrence
   * is replaced and everything before and after it is kept.
   */
  lemma ReplaceFirstAt(s: string, pat: string, rep: string, k: nat)
    requires OccursAt(s, pat, k)
    requires forall j: nat :: j < k ==> !OccursAt(s, pat, j)
    ensures ReplaceFirst(s, pat, rep) == s[..k] + rep + s[k + |pat|..]
  {
  }

  /** A pattern at the very start of the text is the one removed. */
  lemma ReplaceFirstLeading(pat: string, rest: string, rep: string)
    ensures ReplaceFirst(pat + rest, pat, rep) == rep + rest
  {
    var s := pat + rest;
    assert s[0..|pat|] == pat;
    ReplaceFirstAt(s, pat, rep, 0);
    assert s[|pat|..] == rest;
  }
}
