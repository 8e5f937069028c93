/** Whitespace, number tokens and strings: the scanners against the grammar. */
module JsonLexical {
  import opened CodeUnits
  import opened Json
  import opened StrictJson
  import opened JsonGrammar

  // ---- whitespace ----

  lemma {:induction false} SkipSpaceOver(text: Text, i: nat, w: Text)
    requires At(text, i, w) && AllSpace(w) && !IsSpace(Peek(text, i + |w|))
    ensures SkipSpace(text, i) == i + |w|
    decreases |w|
  {
    if w != [] {
      AtFirst(text, i, w);
      assert w == [w[0]] + w[1..];
      AtConcat(text, i, [w[0]], w[1..]);
      SkipSpaceOver(text, i + 1, w[1..]);
    }
  }

  lemma {:induction false} SkipSpaceTakes(text: Text, i: nat)
    requires i <= |text|
    ensures AllSpace(text[i..SkipSpace(text, i)])
    decreases |text| - i
  {
    if IsSpace(Peek(text, i)) {
      SkipSpaceTakes(text, i + 1);
      var j := SkipSpace(text, i);
      assert text[i..j] == [text[i]] + text[i + 1..j];
    }
  }

  // ---- numbers ----

  /** Nothing that could lengthen a number token. */
  predicate NumberStops(u: int) {
    !IsDigit(u) && u != DOT && u != LOWER_E && u != UPPER_E
  }

  lemma {:induction false} DigitsEndOver(text: Text, i: nat, d: Text)
    requires At(text, i, d) && AllDigits(d) && !IsDigit(Peek(text, i + |d|))
    ensures DigitsEnd(text, i) == i + |d|
    decreases |d|
  {
    if d != [] {
      AtFirst(text, i, d);
      assert d == [d[0]] + d[1..];
      AtConcat(text, i, [d[0]], d[1..]);
      DigitsEndOver(text, i + 1, d[1..]);
    }
  }

  lemma {:induction false} DigitsEndTakes(text: Text, i: nat)
    requires i <= |text|
    ensures AllDigits(text[i..DigitsEnd(text, i)])
    decreases |text| - i
  {
    if IsDigit(Peek(text, i)) {
      DigitsEndTakes(text, i + 1);
      var j := DigitsEnd(text, i);
      assert text[i..j] == [text[i]] + text[i + 1..j];
    }
  }

  lemma IntegerRendered(text: Text, i: nat, minus: bool, whole: Text)
    requires GoodInt(whole)
    requires At(text, i, (if minus then [MINUS] else []) + whole)
    requires !IsDigit(Peek(text, i + (if minus then 1 else 0) + |whole|))
    ensures IntegerEnd(text, i) == Ok((), i + (if minus then 1 else 0) + |whole|)
  {
    hide At;
    var sign: Text := if minus then [MINUS] else [];
    AtConcat(text, i, sign, whole);
    var k := i + |sign|;
    AtFirst(text, k, whole);
    if minus { AtFirst(text, i, sign); }
    if whole != [ZERO] {
      assert whole == [whole[0]] + whole[1..];
      AtConcat(text, k, [whole[0]], whole[1..]);
      DigitsEndOver(text, k + 1, whole[1..]);
    }
  }

  lemma FractionRendered(text: Text, i: nat, frac: Text)
    requires i <= |text| && GoodFrac(frac) && At(text, i, frac)
    requires !IsDigit(Peek(text, i + |frac|)) && Peek(text, i + |frac|) != DOT
    ensures FractionEnd(text, i) == Ok((), i + |frac|)
  {
    if frac != [] {
      AtFirst(text, i, frac);
      AtIndex(text, i, frac, 1);
      assert frac == [DOT] + frac[1..];
      AtConcat(text, i, [DOT], frac[1..]);
      DigitsEndOver(text, i + 1, frac[1..]);
    }
  }

  lemma ExponentRendered(text: Text, i: nat, exp: Text)
    requires i <= |text| && GoodExp(exp) && At(text, i, exp)
    requires NumberStops(Peek(text, i + |exp|))
    ensures ExponentEnd(text, i) == Ok((), i + |exp|)
  {
    if exp != [] {
      AtFirst(text, i, exp);
      AtIndex(text, i, exp, 1);
      var n := if exp[1] == PLUS || exp[1] == MINUS then 2 else 1;
      AtIndex(text, i, exp, n);
      assert exp == exp[..n] + exp[n..];
      AtConcat(text, i, exp[..n], exp[n..]);
      DigitsEndOver(text, i + n, exp[n..]);
    }
  }

  /** What stands at the end of the integer, and of the fraction. */
  lemma PartStops(text: Text, j: nat, frac: Text, exp: Text)
    requires GoodFrac(frac) && GoodExp(exp) && At(text, j, frac) && At(text, j + |frac|, exp)
    requires NumberStops(Peek(text, j + |frac| + |exp|))
    ensures !IsDigit(Peek(text, j)) && !IsDigit(Peek(text, j + |frac|)) && Peek(text, j + |frac|) != DOT
  {
    if exp != [] { AtFirst(text, j + |frac|, exp); }
    if frac != [] { AtFirst(text, j, frac); }
    hide At;
  }

  lemma TokenRendered(text: Text, i: nat, t: NumberToken)
    requires GoodToken(t) && At(text, i, RenderToken(t))
    requires NumberStops(Peek(text, i + |RenderToken(t)|))
    ensures TokenEnd(text, i) == Ok((), i + |RenderToken(t)|)
  {
    hide IntegerEnd, FractionEnd, ExponentEnd, GoodInt, GoodFrac, GoodExp, At, Peek, NumberStops;
    var head: Text := (if t.minus then [MINUS] else []) + t.whole;
    var j := i + |head|;
    var k := j + |t.frac|;
    TokenParts(text, i, head, t.frac, t.exp);
    AtFits(text, j, t.frac);
    AtFits(text, k, t.exp);
    PartStops(text, j, t.frac, t.exp);
    ExponentRendered(text, k, t.exp);
    FractionRendered(text, j, t.frac);
    IntegerRendered(text, i, t.minus, t.whole);
  }

  lemma AtFits(text: Text, i: nat, p: Text)
    requires At(text, i, p)
    ensures i + |p| <= |text|
  {}

  lemma TokenParts(text: Text, i: nat, a: Text, b: Text, c: Text)
    requires At(text, i, a + b + c)
    ensures At(text, i, a) && At(text, i + |a|, b) && At(text, i + |a| + |b|, c)
  {
    AtConcat(text, i, a + b, c);
    AtConcat(text, i, a, b);
  }

  lemma IntegerSound(text: Text, i: nat) returns (minus: bool, whole: Text)
    requires i <= |text| && IntegerEnd(text, i).Ok?
    ensures GoodInt(whole) && (if minus then [MINUS] else []) + whole == text[i..IntegerEnd(text, i).next]
  {
    minus := Peek(text, i) == MINUS;
    var m := if minus then i + 1 else i;
    var j := IntegerEnd(text, i).next;
    whole := text[m..j];
    if Peek(text, m) != ZERO {
      DigitsEndTakes(text, m + 1);
      assert whole[1..] == text[m + 1..j];
    }
  }

  lemma FractionSound(text: Text, i: nat)
    requires i <= |text| && FractionEnd(text, i).Ok?
    ensures GoodFrac(text[i..FractionEnd(text, i).next])
  {
    if Peek(text, i) == DOT {
      DigitsEndTakes(text, i + 1);
      var j := FractionEnd(text, i).next;
      assert text[i..j][1..] == text[i + 1..j];
    }
  }

  lemma ExponentSound(text: Text, i: nat)
    requires i <= |text| && ExponentEnd(text, i).Ok?
    ensures GoodExp(text[i..ExponentEnd(text, i).next])
  {
    if Peek(text, i) == LOWER_E || Peek(text, i) == UPPER_E {
      var q := if Peek(text, i + 1) == PLUS || Peek(text, i + 1) == MINUS then i + 2 else i + 1;
      var j := ExponentEnd(text, i).next;
      DigitsEndTakes(text, q);
      assert text[i..j][q - i..] == text[q..j];
    }
  }

  /** What stands behind a token does not lengthen it. */
  predicate TokenStops(t: NumberToken, next: int) {
    && !IsDigit(next)
    && (t.exp == [] ==> next != LOWER_E && next != UPPER_E)
    && (t.exp == [] && t.frac == [] ==> next != DOT)
  }

  lemma IntegerStops(text: Text, i: nat)
    requires i <= |text| && IntegerEnd(text, i).Ok?
    ensures !IsDigit(Peek(text, IntegerEnd(text, i).next))
  {}

  lemma FractionStops(text: Text, i: nat)
    requires i <= |text| && !IsDigit(Peek(text, i)) && FractionEnd(text, i).Ok?
    ensures var j := FractionEnd(text, i).next; !IsDigit(Peek(text, j)) && (j == i ==> Peek(text, j) != DOT)
  {}

  lemma ExponentStops(text: Text, i: nat)
    requires i <= |text| && !IsDigit(Peek(text, i)) && ExponentEnd(text, i).Ok?
    ensures var j := ExponentEnd(text, i).next;
            !IsDigit(Peek(text, j)) && (j == i ==> Peek(text, j) != LOWER_E && Peek(text, j) != UPPER_E)
  {}

  /** A token is read in three steps. */
  lemma TokenSteps(text: Text, i: nat)
    requires i <= |text| && TokenEnd(text, i).Ok?
    ensures IntegerEnd(text, i).Ok? && i < IntegerEnd(text, i).next <= |text|
    ensures var j := IntegerEnd(text, i).next;
            FractionEnd(text, j).Ok? && j <= FractionEnd(text, j).next <= |text|
    ensures var k := FractionEnd(text, IntegerEnd(text, i).next).next;
            ExponentEnd(text, k).Ok? && k <= ExponentEnd(text, k).next <= |text| && TokenEnd(text, i).next == ExponentEnd(text, k).next
  {
    hide IntegerEnd, FractionEnd, ExponentEnd;
  }

  lemma ThreeSlices(text: Text, i: nat, j: nat, k: nat, e: nat)
    requires i <= j <= k <= e <= |text|
    ensures text[i..j] + text[j..k] + text[k..e] == text[i..e]
  {}

  lemma TokenText(text: Text, i: nat, j: nat, k: nat, e: nat, t: NumberToken)
    requires i <= j <= k <= e <= |text|
    requires (if t.minus then [MINUS] else []) + t.whole == text[i..j] && t.frac == text[j..k] && t.exp == text[k..e]
    ensures RenderToken(t) == text[i..e]
  {
    ThreeSlices(text, i, j, k, e);
  }

  lemma ThreeStops(text: Text, i: nat, t: NumberToken)
    requires i <= |text| && TokenEnd(text, i).Ok?
    requires var j := IntegerEnd(text, i).next;
             var k := FractionEnd(text, j).next;
             t.frac == text[j..k] && t.exp == text[k..TokenEnd(text, i).next]
    ensures TokenStops(t, Peek(text, TokenEnd(text, i).next))
  {
    TokenSteps(text, i);
    hide IntegerEnd, FractionEnd, ExponentEnd, TokenEnd;
    var j := IntegerEnd(text, i).next;
    var k := FractionEnd(text, j).next;
    IntegerStops(text, i);
    FractionStops(text, j);
    ExponentStops(text, k);
  }

  /** The token read has the grammar's parts, and nothing that would lengthen it
      follows. */
  lemma TokenSound(text: Text, i: nat) returns (t: NumberToken)
    requires i <= |text| && TokenEnd(text, i).Ok?
    ensures GoodToken(t) && RenderToken(t) == text[i..TokenEnd(text, i).next]
    ensures TokenStops(t, Peek(text, TokenEnd(text, i).next))
  {
    TokenSteps(text, i);
    hide IntegerEnd, FractionEnd, ExponentEnd, TokenEnd, GoodInt, GoodFrac, GoodExp, TokenStops, RenderToken;
    var j := IntegerEnd(text, i).next;
    var k := FractionEnd(text, j).next;
    var e := ExponentEnd(text, k).next;
    var minus, whole := IntegerSound(text, i);
    FractionSound(text, j);
    ExponentSound(text, k);
    t := NumberToken(minus, whole, text[j..k], text[k..e]);
    TokenText(text, i, j, k, e, t);
    ThreeStops(text, i, t);
  }

  // ---- strings ----

  /** After one piece the string parser goes on with that piece decoded. */
  lemma PieceRendered(p: Profile, text: Text, i: nat, c: Piece, acc: Text)
    requires GoodPiece(c) && At(text, i, RenderPiece(c)) && i + |RenderPiece(c)| < |text|
    ensures ParseString(p, text, i, acc) == ParseString(p, text, i + |RenderPiece(c)|, acc + DecodePiece(c))
  {
    AtFirst(text, i, RenderPiece(c));
    match c
    case Plain(u) =>
    case Pair(high, low) =>
      assert text[i..i + 2] == [high, low];
      AtIndex(text, i, RenderPiece(c), 1);
    case Short(e) =>
      AtIndex(text, i, RenderPiece(c), 1);
    case Hex(h) =>
      AtIndex(text, i, RenderPiece(c), 1);
      AtConcat(text, i, [BACKSLASH, LOWER_U], h);
      assert ReadHex(text, i + 2) == Ok(HexValue(h), i + 6);
    case HexPair(h1, h2) => EscapedPairRendered(p, text, i, h1, h2, acc);
  }

  lemma EscapedPairRendered(p: Profile, text: Text, i: nat, h1: Text, h2: Text, acc: Text)
    requires GoodPiece(HexPair(h1, h2)) && At(text, i, RenderPiece(HexPair(h1, h2))) && i + 12 < |text|
    ensures ParseString(p, text, i, acc) == ParseString(p, text, i + 12, acc + [HexValue(h1), HexValue(h2)])
  {
    AtConcat(text, i, [BACKSLASH, LOWER_U] + h1, [BACKSLASH, LOWER_U] + h2);
    AtConcat(text, i, [BACKSLASH, LOWER_U], h1);
    AtConcat(text, i + 6, [BACKSLASH, LOWER_U], h2);
    AtIndex(text, i, [BACKSLASH, LOWER_U], 0);
    AtIndex(text, i, [BACKSLASH, LOWER_U], 1);
    AtIndex(text, i + 6, [BACKSLASH, LOWER_U], 0);
    AtIndex(text, i + 6, [BACKSLASH, LOWER_U], 1);
    CodePointRoundTrip(HexValue(h1), HexValue(h2));
    assert ReadHex(text, i + 2) == Ok(HexValue(h1), i + 6);
    assert ReadHex(text, i + 8) == Ok(HexValue(h2), i + 12);
  }

  lemma StringEndRendered(p: Profile, text: Text, i: nat, acc: Text)
    requires Peek(text, i) == QUOTE
    ensures ParseString(p, text, i, acc) == if ByteLength(acc) <= p.limits.maxStringBytes then Ok(acc, i + 1) else Bad(ByteLimit)
  {}

  lemma {:induction false} StringRendered(p: Profile, text: Text, i: nat, cs: seq<Piece>, acc: Text)
    requires GoodPieces(cs) && At(text, i, RenderPieces(cs) + [QUOTE])
    ensures ParseString(p, text, i, acc) ==
            if ByteLength(acc + Decode(cs)) <= p.limits.maxStringBytes
            then Ok(acc + Decode(cs), i + |RenderPieces(cs)| + 1) else Bad(ByteLimit)
    decreases |cs|
  {
    hide ParseString, At, ByteLength, RenderPiece, DecodePiece, GoodPiece;
    if cs == [] {
      assert RenderPieces(cs) + [QUOTE] == [QUOTE];
      AtFirst(text, i, [QUOTE]);
      StringEndRendered(p, text, i, acc);
      assert acc + Decode(cs) == acc;
    } else {
      var n := i + |RenderPiece(cs[0])|;
      assert RenderPieces(cs) + [QUOTE] == RenderPiece(cs[0]) + (RenderPieces(cs[1..]) + [QUOTE]);
      AtConcat(text, i, RenderPiece(cs[0]), RenderPieces(cs[1..]) + [QUOTE]);
      AtWithin(text, n, RenderPieces(cs[1..]) + [QUOTE]);
      PieceRendered(p, text, i, cs[0], acc);
      StringRendered(p, text, n, cs[1..], acc + DecodePiece(cs[0]));
      assert (acc + DecodePiece(cs[0])) + Decode(cs[1..]) == acc + (DecodePiece(cs[0]) + Decode(cs[1..]));
    }
  }

  lemma AtWithin(text: Text, i: nat, p: Text)
    requires At(text, i, p) && p != []
    ensures i < |text|
  {}

  /** The piece at index i of a string that parses, the closing quote not yet reached. */
  lemma PieceSound(p: Profile, text: Text, i: nat, acc: Text) returns (c: Piece)
    requires i < |text| && text[i] != QUOTE && ParseString(p, text, i, acc).Ok?
    ensures GoodPiece(c) && At(text, i, RenderPiece(c)) && RenderPiece(c) != [] && i + |RenderPiece(c)| < |text|
    ensures ParseString(p, text, i, acc) == ParseString(p, text, i + |RenderPiece(c)|, acc + DecodePiece(c))
  {
    var code := text[i];
    if code == BACKSLASH {
      c := EscapeSound(p, text, i, acc);
    } else if IsSurrogate(code) {
      c := Pair(code, text[i + 1]);
      assert text[i..i + 2] == [code, text[i + 1]];
    } else {
      c := Plain(code);
    }
  }

  lemma EscapeSound(p: Profile, text: Text, i: nat, acc: Text) returns (c: Piece)
    requires i < |text| && text[i] == BACKSLASH && ParseString(p, text, i, acc).Ok?
    ensures GoodPiece(c) && At(text, i, RenderPiece(c)) && RenderPiece(c) != [] && i + |RenderPiece(c)| < |text|
    ensures ParseString(p, text, i, acc) == ParseString(p, text, i + |RenderPiece(c)|, acc + DecodePiece(c))
  {
    hide ParseString, HexValue, At, GoodPiece, RenderPiece, DecodePiece, ShortEscape, IsHex4, Peek;
    if ShortEscape(Peek(text, i + 1)) >= 0 {
      c := ShortSound(p, text, i, acc);
    } else {
      HexFollows(p, text, i, acc);
      if IsHigh(HexValue(text[i + 2..i + 6])) {
        c := EscapedPairSound(p, text, i, acc);
      } else {
        c := HexSound(p, text, i, acc);
      }
    }
  }

  lemma ShortSound(p: Profile, text: Text, i: nat, acc: Text) returns (c: Piece)
    requires i < |text| && text[i] == BACKSLASH && ParseString(p, text, i, acc).Ok? && ShortEscape(Peek(text, i + 1)) >= 0
    ensures GoodPiece(c) && At(text, i, RenderPiece(c)) && RenderPiece(c) != [] && i + |RenderPiece(c)| < |text|
    ensures ParseString(p, text, i, acc) == ParseString(p, text, i + |RenderPiece(c)|, acc + DecodePiece(c))
  {
    hide HexValue, At;
    c := Short(text[i + 1]);
    AtSlice(text, i, 2);
    assert text[i..i + 2] == RenderPiece(c);
  }

  lemma HexFollows(p: Profile, text: Text, i: nat, acc: Text)
    requires i < |text| && text[i] == BACKSLASH && ParseString(p, text, i, acc).Ok? && ShortEscape(Peek(text, i + 1)) < 0
    ensures Peek(text, i + 1) == LOWER_U && i + 6 < |text| && IsHex4(text[i + 2..i + 6])
  {
    hide HexValue, IsHex4;
  }

  lemma HexSound(p: Profile, text: Text, i: nat, acc: Text) returns (c: Piece)
    requires i < |text| && text[i] == BACKSLASH && ParseString(p, text, i, acc).Ok? && ShortEscape(Peek(text, i + 1)) < 0
    requires Peek(text, i + 1) == LOWER_U && i + 6 < |text| && IsHex4(text[i + 2..i + 6]) && !IsHigh(HexValue(text[i + 2..i + 6]))
    ensures GoodPiece(c) && At(text, i, RenderPiece(c)) && RenderPiece(c) != [] && i + |RenderPiece(c)| < |text|
    ensures ParseString(p, text, i, acc) == ParseString(p, text, i + |RenderPiece(c)|, acc + DecodePiece(c))
  {
    hide HexValue, At, IsHex4;
    var h := text[i + 2..i + 6];
    c := Hex(h);
    AtSlice(text, i, 6);
    assert text[i..i + 6] == RenderPiece(c);
  }

  lemma EscapedPairSound(p: Profile, text: Text, i: nat, acc: Text) returns (c: Piece)
    requires i < |text| && text[i] == BACKSLASH && ParseString(p, text, i, acc).Ok? && ShortEscape(Peek(text, i + 1)) < 0
    requires i + 6 <= |text| && IsHex4(text[i + 2..i + 6]) && IsHigh(HexValue(text[i + 2..i + 6]))
    ensures GoodPiece(c) && At(text, i, RenderPiece(c)) && RenderPiece(c) != [] && i + |RenderPiece(c)| < |text|
    ensures ParseString(p, text, i, acc) == ParseString(p, text, i + |RenderPiece(c)|, acc + DecodePiece(c))
  {
    hide HexValue, At, IsHex4;
    var h, h2 := text[i + 2..i + 6], text[i + 8..i + 12];
    c := HexPair(h, h2);
    CodePointRoundTrip(HexValue(h), HexValue(h2));
    AtSlice(text, i, 12);
    assert text[i..i + 12] == RenderPiece(c);
  }

  lemma AtSlice(text: Text, i: nat, n: nat)
    requires i + n <= |text|
    ensures At(text, i, text[i..i + n])
  {}

  /** A string parse from i whose body is the rendering of cs. */
  predicate StringBody(p: Profile, text: Text, i: nat, acc: Text, cs: seq<Piece>) {
    GoodPieces(cs) && At(text, i, RenderPieces(cs) + [QUOTE]) &&
    ByteLength(acc + Decode(cs)) <= p.limits.maxStringBytes
  }

  lemma DecodeCons(c: Piece, rest: seq<Piece>)
    requires GoodPiece(c) && GoodPieces(rest)
    ensures GoodPieces([c] + rest)
    ensures Decode([c] + rest) == DecodePiece(c) + Decode(rest)
    ensures RenderPieces([c] + rest) == RenderPiece(c) + RenderPieces(rest)
  {
    assert ([c] + rest)[1..] == rest;
  }

  lemma AtPrepend(text: Text, i: nat, a: Text, b: Text, c: Text)
    requires At(text, i, a) && At(text, i + |a|, b + c)
    ensures At(text, i, (a + b) + c)
  {
    AtConcat(text, i, a, b + c);
    assert a + (b + c) == (a + b) + c;
  }

  lemma StringBodyStep(p: Profile, text: Text, i: nat, acc: Text, c: Piece, rest: seq<Piece>)
    requires GoodPiece(c) && At(text, i, RenderPiece(c))
    requires StringBody(p, text, i + |RenderPiece(c)|, acc + DecodePiece(c), rest)
    ensures StringBody(p, text, i, acc, [c] + rest)
  {
    hide At, ByteLength, RenderPieces, Decode, RenderPiece, DecodePiece, GoodPiece;
    var cs := [c] + rest;
    DecodeCons(c, rest);
    AtPrepend(text, i, RenderPiece(c), RenderPieces(rest), [QUOTE]);
    var one, more := DecodePiece(c), Decode(rest);
    assert (acc + one) + more == acc + (one + more);
    assert At(text, i, RenderPieces(cs) + [QUOTE]);
    assert ByteLength(acc + Decode(cs)) <= p.limits.maxStringBytes;
  }

  lemma StringBodyEnd(p: Profile, text: Text, i: nat, acc: Text)
    requires i < |text| && text[i] == QUOTE && ByteLength(acc) <= p.limits.maxStringBytes
    ensures StringBody(p, text, i, acc, [])
  {
    assert RenderPieces([]) + [QUOTE] == [QUOTE] == text[i..i + 1];
    assert acc + Decode([]) == acc;
  }

  lemma {:induction false} StringPieces(p: Profile, text: Text, i: nat, acc: Text) returns (cs: seq<Piece>)
    requires i < |text| && ParseString(p, text, i, acc).Ok?
    ensures StringBody(p, text, i, acc, cs)
    decreases |text| - i
  {
    if text[i] == QUOTE {
      cs := [];
      StringBodyEnd(p, text, i, acc);
    } else {
      var c := PieceSound(p, text, i, acc);
      var rest := StringPieces(p, text, i + |RenderPiece(c)|, acc + DecodePiece(c));
      cs := [c] + rest;
      StringBodyStep(p, text, i, acc, c, rest);
    }
  }

  /** A string the parser reads is the rendering of well-formed pieces up to its
      closing quote, and their decoding is what it returns. */
  lemma StringSound(p: Profile, text: Text, i: nat, acc: Text) returns (cs: seq<Piece>)
    requires i < |text| && ParseString(p, text, i, acc).Ok?
    ensures StringBody(p, text, i, acc, cs)
    ensures ParseString(p, text, i, acc) == Ok(acc + Decode(cs), i + |RenderPieces(cs)| + 1)
  {
    cs := StringPieces(p, text, i, acc);
    hide ParseString, At, ByteLength, RenderPieces, Decode;
    StringRendered(p, text, i, cs, acc);
  }
}
