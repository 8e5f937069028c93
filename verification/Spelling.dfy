/** Classes of characters, written as characters. */
module Spelling {
  import opened CodeUnits

  predicate Between(u: int, first: char, last: char) { first as int <= u <= last as int }

  predicate LowerOrDigit(u: int) { Between(u, 'a', 'z') || Between(u, '0', '9') }

  predicate AllLowerOrDigit(t: Text) { forall i :: 0 <= i < |t| ==> LowerOrDigit(t[i]) }

  /** 64 lower-case hexadecimal digits */
  predicate Hex64(d: Text) { |d| == 64 && forall i :: 0 <= i < 64 ==> Between(d[i], '0', '9') || Between(d[i], 'a', 'f') }

  /** sha256: and such digits */
  ghost predicate Sha256(t: Text) { exists hex: Text :: t == Lit("sha256:") + hex && Hex64(hex) }

  lemma Sha256Parts(t: Text)
    ensures Sha256(t) <==> |t| == 71 && t[..7] == Lit("sha256:") && Hex64(t[7..])
  {
    hide Hex64;
    if Sha256(t) {
      var hex: Text :| t == Lit("sha256:") + hex && Hex64(hex);
      assert t[7..] == hex && |hex| == 64 by { HexLength(hex); }
    }
    if |t| == 71 && t[..7] == Lit("sha256:") { assert t == t[..7] + t[7..]; }
  }

  lemma HexLength(hex: Text)
    requires Hex64(hex)
    ensures |hex| == 64
  {}
}
