/** The characters of the JSON grammar, as RFC 8259 writes them. */
module JsonAlphabet {
  import opened CodeUnits
  import opened Json
  import opened Spelling

  const SPACES: Text := Lit(" \t\n\r")
  const LOWER_DIGITS: Text := Lit("0123456789abcdef")
  const UPPER_DIGITS: Text := Lit("0123456789ABCDEF")

  /** The characters a two-character escape may name, and what each stands for:
      quotation mark, reverse solidus, solidus, backspace, form feed, line feed,
      carriage return and tab. */
  const LETTERS: Text := Lit("\"\\/bfnrt")
  const UNITS: Text := Lit("\"\\/") + [0x08, 0x0C] + Lit("\n\r\t")

  /** Section 7. */
  lemma ShortEscapesExactly(e: int)
    ensures |LETTERS| == |UNITS|
    ensures ShortEscape(e) >= 0 <==> e in LETTERS
    ensures forall k :: 0 <= k < |LETTERS| ==> ShortEscape(LETTERS[k]) == UNITS[k]
  {
    assert LETTERS == [0x22, 0x5C, 0x2F, 0x62, 0x66, 0x6E, 0x72, 0x74];
    assert UNITS == [0x22, 0x5C, 0x2F, 0x08, 0x0C, 0x0A, 0x0D, 0x09];
  }

  /** Section 2. */
  lemma SpaceExactly(u: int)
    ensures IsSpace(u) <==> u in SPACES
  {
    assert SPACES == [0x20, 0x09, 0x0A, 0x0D];
  }

  /** Section 6, and the digits of section 7. */
  lemma DigitsExactly(u: int)
    ensures IsDigit(u) <==> Between(u, '0', '9')
    ensures IsNonZeroDigit(u) <==> Between(u, '1', '9')
    ensures IsHexDigit(u) <==> Between(u, '0', '9') || Between(u, 'a', 'f') || Between(u, 'A', 'F')
  {}

  /** A hexadecimal digit is worth its place among the sixteen. */
  lemma HexDigitExactly(u: int)
    requires IsHexDigit(u)
    ensures |LOWER_DIGITS| == 16 && |UPPER_DIGITS| == 16
    ensures LOWER_DIGITS[HexDigit(u)] == u || UPPER_DIGITS[HexDigit(u)] == u
  {
    assert LOWER_DIGITS == [0x30, 0x31, 0x32, 0x33, 0x34, 0x35, 0x36, 0x37, 0x38, 0x39, 0x61, 0x62, 0x63, 0x64, 0x65, 0x66];
    assert UPPER_DIGITS == [0x30, 0x31, 0x32, 0x33, 0x34, 0x35, 0x36, 0x37, 0x38, 0x39, 0x41, 0x42, 0x43, 0x44, 0x45, 0x46];
  }

  /** Four of them are read as one number to the base sixteen. */
  lemma HexValueExactly(h: Text)
    requires IsHex4(h)
    ensures HexValue(h) == ((HexDigit(h[0]) * 16 + HexDigit(h[1])) * 16 + HexDigit(h[2])) * 16 + HexDigit(h[3])
  {}

  /** Section 3, and the marks of sections 2, 6 and 7. */
  lemma NamesExactly()
    ensures TRUE == Lit("true") && FALSE == Lit("false") && NULL == Lit("null")
    ensures [LBRACE, RBRACE, LBRACKET, RBRACKET, COLON, COMMA] == Lit("{}[]:,")
    ensures [QUOTE, BACKSLASH, LOWER_U] == Lit("\"\\u")
    ensures [MINUS, PLUS, DOT, LOWER_E, UPPER_E, ZERO] == Lit("-+.eE0")
  {}
}
