/**
 * The message shown when the game record does not parse: a fixed header
 * followed by the parser's error text, with the parser's own
 * `Error: Invalid FEN: ` framing removed (its first occurrence only).
 */
module Diagnostics {
  import opened Text

  const Header: string := "Invalid PGN! "
  const FenFraming: string := "Error: Invalid FEN: "

  /** The diagnostic for the parser error whose string form is `err`. */
  function ParseDiagnostic(err: string): (message: string)
    ensures |Header| <= |message| <= |Header| + |err|
    ensures message[..|Header|] == Header
  {
    Header + ReplaceFirst(err, FenFraming, "")
  }

  /** The error text is shown unchanged exactly when it holds no framing to strip. */
  lemma DiagnosticUnchangedIff(err: string)
    ensures ParseDiagnostic(err) == Header + err <==> forall j: nat :: !OccursAt(err, FenFraming, j)
  {
    match IndexOf(err, FenFraming)
    case None =>
    case Some(k) =>
      assert |ReplaceFirst(err, FenFraming, "")| == |err| - |FenFraming|;
  }

  /** The usual case: a leading framing is dropped and the rest shown verbatim. */
  lemma DiagnosticStripsFraming(msg: string)
    ensures ParseDiagnostic(FenFraming + msg) == Header + msg
  {
    ReplaceFirstLeading(FenFraming, msg, "");
  }

  /**
   * Only the first framing is removed; text before it and everything after
   * it, including any later framing, is kept.
   */
  lemma DiagnosticRemovesFirstOnly(err: string, k: nat)
    requires OccursAt(err, FenFraming, k)
    requires forall j: nat :: j < k ==> !OccursAt(err, FenFraming, j)
    ensures ParseDiagnostic(err) == Header + err[..k] + err[k + |FenFraming|..]
  {
    ReplaceFirstAt(err, FenFraming, "", k);
  }
}
