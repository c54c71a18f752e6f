/**
 * Names of the rendered frames. Frame `i` is written to `temp_<i>.png` in the
 * temp folder, `<i>` being the zero-based move index in decimal without
 * padding; the encoder reads the same files back through the printf-style
 * pattern `temp_%d.png`.
 */
module FrameNaming {
  import opened Text

  predicate IsDigit(c: char) {
    '0' <= c <= '9'
  }

  predicate AllDigits(s: string) {
    forall k :: 0 <= k < |s| ==> IsDigit(s[k])
  }

  function DigitChar(d: nat): (c: char)
    requires d < 10
    ensures IsDigit(c)
  {
    (('0' as int) + d) as char
  }

  function DigitValue(c: char): (d: nat)
    requires IsDigit(c)
    ensures d < 10
  {
    (c as int) - ('0' as int)
  }

  /** The decimal text of `n`, as a template literal renders a non-negative integer. */
  function Decimal(n: nat): (s: string)
    ensures 1 <= |s| && AllDigits(s)
    ensures s[0] == '0' ==> n == 0 && s == "0"
    decreases n
  {
    if n < 10 then [DigitChar(n)] else Decimal(n / 10) + [DigitChar(n % 10)]
  }

  /** The number a string of decimal digits denotes (the reading side of `Decimal`). */
  function DigitsValue(s: string): (v: nat)
    requires AllDigits(s)
    decreases |s|
  {
    if s == [] then 0 else DigitsValue(s[..|s| - 1]) * 10 + DigitValue(s[|s| - 1])
  }

  /** Reading the decimal text of `n` gives `n` back. */
  lemma {:induction false} DecimalRoundTrip(n: nat)
    ensures DigitsValue(Decimal(n)) == n
    decreases n
  {
    if n >= 10 {
      var s := Decimal(n);
      assert s[..|s| - 1] == Decimal(n / 10);
      DecimalRoundTrip(n / 10);
    }
  }

  /** Distinct indices have distinct decimal texts. */
  lemma DecimalInjective(i: nat, j: nat)
    requires Decimal(i) == Decimal(j)
    ensures i == j
  {
    DecimalRoundTrip(i);
    DecimalRoundTrip(j);
  }

  /** `path.join(dir, name)`, with the separator written out. */
  function Join(dir: string, name: string): (path: string) {
    dir + "/" + name
  }

  const FramePrefix: string := "temp_"
  const FrameExtension: string := ".png"

  /** The file name of frame `i`: `temp_${i}.png`. */
  function FrameName(i: nat): (name: string)
    ensures |FramePrefix| + |FrameExtension| < |name|
    ensures name[..|FramePrefix|] == FramePrefix && name[|name| - |FrameExtension|..] == FrameExtension
    ensures AllDigits(name[|FramePrefix|..|name| - |FrameExtension|])
  {
    FramePrefix + Decimal(i) + FrameExtension
  }

  /** The path frame `i` is rendered to: its file name inside `dir`. */
  function FramePath(dir: string, i: nat): (path: string)
    ensures |path| == |dir| + 1 + |FrameName(i)|
  {
    var name := FrameName(i);
    assert Join(dir, name)[|dir| + 1..] == name;
    Join(dir, name)
  }

  /** The paths of frames `0 .. n-1`, in index order. */
  function FramePaths(dir: string, n: nat): (paths: seq<string>)
    ensures |paths| == n
    ensures forall i :: 0 <= i < n ==> paths[i] == FramePath(dir, i)
  {
    seq(n, i requires 0 <= i => FramePath(dir, i))
  }

  /** The paths of one more frame extend the paths so far by that frame's path. */
  lemma FramePathsSnoc(dir: string, n: nat)
    ensures FramePaths(dir, n + 1) == FramePaths(dir, n) + [FramePath(dir, n)]
  {
  }

  /** Two frame paths in the same folder are equal only for the same index. */
  lemma FramePathInjective(dir: string, i: nat, j: nat)
    requires FramePath(dir, i) == FramePath(dir, j)
    ensures i == j
  {
    var lead := dir + "/" + FramePrefix;
    var pi, pj := FramePath(dir, i), FramePath(dir, j);
    assert pi == lead + Decimal(i) + FrameExtension;
    assert pj == lead + Decimal(j) + FrameExtension;
    assert |Decimal(i)| == |Decimal(j)|;
    assert Decimal(i) == pi[|lead|..|lead| + |Decimal(i)|];
    assert Decimal(j) == pj[|lead|..|lead| + |Decimal(j)|];
    DecimalInjective(i, j);
  }

  /** The frames of one run are written to pairwise distinct paths: none overwrites another. */
  lemma FramePathsDistinct(dir: string, n: nat)
    ensures forall i, j :: 0 <= i < j < n ==> FramePaths(dir, n)[i] != FramePaths(dir, n)[j]
  {
    forall i, j | 0 <= i < j < n ensures FramePaths(dir, n)[i] != FramePaths(dir, n)[j] {
      if FramePath(dir, i) == FramePath(dir, j) {
        FramePathInjective(dir, i, j);
      }
    }
  }

  /** The set of paths of frames `0 .. n-1`: what a folder holds after they are written. */
  function FrameFiles(dir: string, n: nat): (files: set<string>)
    ensures forall i :: 0 <= i < n ==> FramePath(dir, i) in files
  {
    set i: nat | i < n :: FramePath(dir, i)
  }

  /** Writing one more frame adds its path to the files so far. */
  lemma FrameFilesSnoc(dir: string, n: nat)
    ensures FrameFiles(dir, n + 1) == FrameFiles(dir, n) + {FramePath(dir, n)}
  {
    forall p | p in FrameFiles(dir, n + 1) ensures p in FrameFiles(dir, n) + {FramePath(dir, n)} {
      var i: nat :| i < n + 1 && p == FramePath(dir, i);
      if i < n {
        assert p in FrameFiles(dir, n);
      }
    }
  }

  /** Writing frames `0 .. n-1` leaves exactly `n` files, since no two share a path. */
  lemma {:induction false} FrameFilesCount(dir: string, n: nat)
    ensures |FrameFiles(dir, n)| == n
    decreases n
  {
    if n > 0 {
      FrameFilesCount(dir, n - 1);
      FrameFilesSnoc(dir, n - 1);
      if FramePath(dir, n - 1) in FrameFiles(dir, n - 1) {
        var i: nat :| i < n - 1 && FramePath(dir, i) == FramePath(dir, n - 1);
        FramePathInjective(dir, i, n - 1);
      }
    }
  }

  /** Within one folder, distinct names give distinct joined paths. */
  lemma JoinInjective(dir: string, a: string, b: string)
    requires Join(dir, a) == Join(dir, b)
    ensures a == b
  {
    assert a == Join(dir, a)[|dir| + 1..];
    assert b == Join(dir, b)[|dir| + 1..];
  }

  /** The folder the encoder reads frames from, relative to the working directory. */
  const EncoderFolder: string := "./temp/"
  /** The printf-style placeholder the encoder replaces by a frame number. */
  const IndexPlaceholder: string := "%d"

  /** The input pattern handed to the encoder: `./temp/temp_%d.png`. */
  const EncoderInput: string := EncoderFolder + FramePrefix + IndexPlaceholder + FrameExtension

  /**
   * The file the encoder reads for frame `i`, for a pattern of the shape of
   * `EncoderInput`: its one `%` starts its one `%d`, which is replaced by the
   * decimal index. Other printf forms (`%%`, `%0Nd`, a second `%d`) are not
   * modelled.
   */
  function ExpandPattern(pattern: string, i: nat): (file: string)
    ensures (forall j: nat :: !OccursAt(pattern, IndexPlaceholder, j)) ==> file == pattern
    ensures (exists j: nat :: OccursAt(pattern, IndexPlaceholder, j)) ==>
      |file| == |pattern| - |IndexPlaceholder| + |Decimal(i)|
  {
    ReplaceFirst(pattern, IndexPlaceholder, Decimal(i))
  }

  /** The encoder's pattern names, for every index, exactly the file the renderer wrote. */
  lemma EncoderReadsFrame(i: nat)
    ensures ExpandPattern(EncoderInput, i) == EncoderFolder + FrameName(i)
  {
    var lead := EncoderFolder + FramePrefix;
    forall j | 0 <= j < |lead| ensures lead[j] != '%' {
    }
    ExpandSinglePattern(lead, FrameExtension, i);
  }

  /**
   * A pattern whose only `%d` follows a `%`-free lead expands to the lead,
   * the decimal index and the rest, in that order.
   */
  lemma ExpandSinglePattern(lead: string, tail: string, i: nat)
    requires forall j :: 0 <= j < |lead| ==> lead[j] != '%'
    ensures ExpandPattern(lead + IndexPlaceholder + tail, i) == lead + Decimal(i) + tail
  {
    var s := lead + IndexPlaceholder + tail;
    forall j: nat | j < |lead| ensures !OccursAt(s, IndexPlaceholder, j) {
      assert s[j] == lead[j];
    }
    assert s[|lead|..|lead| + 2] == IndexPlaceholder;
    ReplaceFirstAt(s, IndexPlaceholder, Decimal(i), |lead|);
    assert s[..|lead|] == lead;
    assert s[|lead| + 2..] == tail;
  }
}
