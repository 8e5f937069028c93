/** Strict admission of bytes, and canonical bytes. */
module Admission {
  import opened CodeUnits
  import opened Json
  import opened StrictJson
  import opened JsonGrammar
  import opened JsonSoundness
  import opened Canonical
  import opened CanonicalTrees
  import opened CanonicalForm

  datatype Admitted = Accepted(value: Value) | Denied(reason: Reason)

  predicate Encodes(s: Text, b: Bytes) { Scalar(s) && Utf8(s) == b }

  /** TextDecoder with fatal set: the text these bytes encode, if they encode any. */
  ghost function DecodeUtf8(b: Bytes): Option<Text> {
    if exists s :: Encodes(s, b) then
      var s :| Encodes(s, b); Some(s)
    else None
  }

  const BOM: Bytes := [0xEF, 0xBB, 0xBF]

  /** admitStrictJson without the caller's validation hook. */
  ghost function Admit(p: Profile, input: Bytes): Admitted {
    if |input| > p.limits.maxBytes then Denied(ByteLimit)
    else if |input| >= 3 && input[..3] == BOM then Denied(InvalidBom)
    else
      match DecodeUtf8(input)
      case None => Denied(InvalidUnicode)
      case Some(text) =>
        match Parse(p, text)
        case Fail(reason) => Denied(reason)
        case Done(value, _, _) => Accepted(value)
  }

  lemma DecodeEncoded(s: Text)
    requires Scalar(s)
    ensures DecodeUtf8(Utf8(s)) == Some(s)
  {
    assert Encodes(s, Utf8(s));
    var t := DecodeUtf8(Utf8(s)).value;
    Utf8Injective(s, t);
  }

  // ---- rendered text is well formed ----

  predicate Ascii(t: Text) { forall k :: 0 <= k < |t| ==> t[k] < 0x80 }

  lemma {:induction false} AsciiScalar(t: Text)
    requires Ascii(t)
    ensures Scalar(t)
    decreases |t|
  {
    if t != [] { AsciiScalar(t[1..]); }
  }

  lemma TokenAscii(t: NumberToken)
    requires GoodToken(t)
    ensures Ascii(RenderToken(t))
  {
    assert Ascii(t.whole) by { if t.whole != [ZERO] { assert t.whole == [t.whole[0]] + t.whole[1..]; } }
    assert Ascii(t.frac) by { if t.frac != [] { assert t.frac == [DOT] + t.frac[1..]; } }
    ExponentAscii(t.exp);
  }

  lemma ExponentAscii(t: Text)
    requires GoodExp(t)
    ensures Ascii(t)
  {
    if t != [] {
      var n := if t[1] == PLUS || t[1] == MINUS then 2 else 1;
      assert t == t[..n] + t[n..];
    }
  }

  lemma {:induction false} EscapedScalar(s: Text)
    requires Scalar(s)
    ensures Scalar(Escaped(s))
    decreases |s|
  {
    if s != [] {
      FirstPieceMeans(s);
      EscapedScalar(s[Width(s)..]);
      PieceScalar(FirstPiece(s));
      ScalarConcat(RenderPiece(FirstPiece(s)), Escaped(s[Width(s)..]));
    }
  }

  lemma PieceScalar(c: Piece)
    requires GoodPiece(c)
    ensures Scalar(RenderPiece(c))
  {
    match c
    case Hex(h) => EscapeScalar(h);
    case HexPair(h1, h2) =>
      EscapeScalar(h1);
      EscapeScalar(h2);
      ScalarConcat([BACKSLASH, LOWER_U] + h1, [BACKSLASH, LOWER_U] + h2);
    case _ =>
  }

  lemma EscapeScalar(h: Text)
    requires IsHex4(h)
    ensures Scalar([BACKSLASH, LOWER_U] + h)
  {
    AsciiScalar([BACKSLASH, LOWER_U] + h);
  }

  lemma WrappedScalar(open: Unit, t: Text, close: Unit)
    requires Scalar(t) && open < 0x80 && close < 0x80
    ensures Scalar([open] + t + [close])
  {
    ScalarConcat([open], t);
    ScalarConcat([open] + t, [close]);
  }

  lemma JoinedScalar(first: Text, separator: Unit, rest: Text)
    requires Scalar(first) && separator < 0x80 && Scalar(rest)
    ensures Scalar(first + ([separator] + rest))
  {
    ScalarConcat([separator], rest);
    ScalarConcat(first, [separator] + rest);
  }

  lemma {:induction false} SerializedScalar(rt: Runtime, v: Value)
    requires Printable(rt, v)
    ensures Serialize(rt, v).Output? && Scalar(Serialize(rt, v).text)
    decreases v, 2
  {
    hide Escaped, RenderToken, SerializeItems, SerializeFields;
    match v
    case Null => AsciiScalar(NULL);
    case Bool(b) => AsciiScalar(if b then TRUE else FALSE);
    case Str(s) =>
      EscapedScalar(s);
      WrappedScalar(QUOTE, Escaped(s), QUOTE);
    case Num(n) =>
      TokenAscii(rt.show(n.x));
      AsciiScalar(RenderToken(rt.show(n.x)));
    case Arr(items) =>
      SerializedItemsScalar(rt, items);
      WrappedScalar(LBRACKET, SerializeItems(rt, items).text, RBRACKET);
    case Obj(members) =>
      var keys := SortedKeys(members.Keys);
      SerializedFieldsScalar(rt, v, keys);
      WrappedScalar(LBRACE, SerializeFields(rt, v, keys).text, RBRACE);
  }

  lemma {:induction false} SerializedItemsScalar(rt: Runtime, items: seq<Value>)
    requires forall k :: 0 <= k < |items| ==> Printable(rt, items[k])
    ensures SerializeItems(rt, items).Output? && Scalar(SerializeItems(rt, items).text)
    decreases items, 1
  {
    if items != [] {
      SerializedScalar(rt, items[0]);
      SerializedItemsScalar(rt, items[1..]);
      JoinedScalar(Serialize(rt, items[0]).text, COMMA, SerializeItems(rt, items[1..]).text);
    }
  }

  lemma {:induction false} SerializedFieldsScalar(rt: Runtime, v: Value, keys: seq<Text>)
    requires Printable(rt, v) && KeysOf(v, keys)
    ensures SerializeFields(rt, v, keys).Output? && Scalar(SerializeFields(rt, v, keys).text)
    decreases v, 1, |keys|
  {
    if keys != [] {
      hide Escaped;
      SerializedScalar(rt, v.members[keys[0]]);
      SerializedFieldsScalar(rt, v, keys[1..]);
      EscapedScalar(keys[0]);
      WrappedScalar(QUOTE, Escaped(keys[0]), QUOTE);
      JoinedScalar(Quoted(keys[0]), COLON, Serialize(rt, v.members[keys[0]]).text);
      JoinedScalar(Quoted(keys[0]) + ([COLON] + Serialize(rt, v.members[keys[0]]).text), COMMA, SerializeFields(rt, v, keys[1..]).text);
    }
  }

  // ---- exactly which values are canonicalized ----

  /** Every finite number in the value is one the runtime prints faithfully. */
  predicate NumbersKnown(rt: Runtime, v: Value) {
    match v
    case Num(n) => n.Finite? ==> Shown(rt, n.x)
    case Arr(items) => forall k :: 0 <= k < |items| ==> NumbersKnown(rt, items[k])
    case Obj(members) => forall k :: k in members ==> NumbersKnown(rt, members[k])
    case _ => true
  }

  /** Canonicalization refuses exactly the values with an unpaired surrogate in
      a string or key, or a number that is negative zero or not finite. */
  lemma {:induction false} SerializeExact(rt: Runtime, v: Value)
    requires NumbersKnown(rt, v)
    ensures Serialize(rt, v).Output? <==> Printable(rt, v)
    decreases v, 2
  {
    match v
    case Arr(items) => SerializeItemsExact(rt, items);
    case Obj(members) =>
      var keys := SortedKeys(members.Keys);
      SerializeFieldsExact(rt, v, keys);
      assert forall k :: k in keys <==> k in members;
    case _ =>
  }

  lemma {:induction false} SerializeItemsExact(rt: Runtime, items: seq<Value>)
    requires forall k :: 0 <= k < |items| ==> NumbersKnown(rt, items[k])
    ensures SerializeItems(rt, items).Output? <==> AllPrintable(rt, items)
    decreases items, 1
  {
    if items != [] {
      SerializeExact(rt, items[0]);
      SerializeItemsExact(rt, items[1..]);
      assert items == [items[0]] + items[1..];
      if AllPrintable(rt, items[1..]) && Printable(rt, items[0]) { PrintableCons(rt, items[0], items[1..]); }
      if AllPrintable(rt, items) {
        forall k | 0 <= k < |items[1..]| ensures Printable(rt, items[1..][k]) { assert items[1..][k] == items[k + 1]; }
      }
    }
  }

  predicate FieldsPrintable(rt: Runtime, v: Value, keys: seq<Text>)
    requires KeysOf(v, keys)
  {
    forall i :: 0 <= i < |keys| ==> Scalar(keys[i]) && Printable(rt, v.members[keys[i]])
  }

  lemma {:induction false} SerializeFieldsExact(rt: Runtime, v: Value, keys: seq<Text>)
    requires NumbersKnown(rt, v) && KeysOf(v, keys)
    ensures SerializeFields(rt, v, keys).Output? <==> FieldsPrintable(rt, v, keys)
    decreases v, 1, |keys|
  {
    if keys != [] {
      SerializeExact(rt, v.members[keys[0]]);
      SerializeFieldsExact(rt, v, keys[1..]);
      if FieldsPrintable(rt, v, keys) {
        forall i | 0 <= i < |keys[1..]| ensures Scalar(keys[1..][i]) && Printable(rt, v.members[keys[1..][i]]) {
          assert keys[1..][i] == keys[i + 1];
        }
      }
      if FieldsPrintable(rt, v, keys[1..]) && Scalar(keys[0]) && Printable(rt, v.members[keys[0]]) {
        forall i | 0 <= i < |keys| ensures Scalar(keys[i]) && Printable(rt, v.members[keys[i]]) {
          if i > 0 { assert keys[i] == keys[1..][i - 1]; }
        }
      }
    }
  }

  // ---- canonical bytes ----

  function CanonicalBytes(rt: Runtime, v: Value): Bytes
    requires Printable(rt, v)
  {
    SerializedScalar(rt, v);
    Utf8(Serialize(rt, v).text)
  }

  lemma CanonicalBytesInjective(rt: Runtime, v: Value, w: Value)
    requires Printable(rt, v) && Printable(rt, w) && CanonicalBytes(rt, v) == CanonicalBytes(rt, w)
    ensures v == w
  {
    hide Serialize, Printable, Utf8;
    SerializedScalar(rt, v);
    SerializedScalar(rt, w);
    Utf8Injective(Serialize(rt, v).text, Serialize(rt, w).text);
    CanonicalInjective(rt, v, w);
  }

  /** A text that starts in ASCII does not start with a byte order mark. */
  lemma NoBom(s: Text)
    requires s != [] && Scalar(s) && s[0] < 0x80
    ensures Utf8(s)[0] == s[0]
  {
    assert Utf8Head(s) == [s[0]];
  }

  /** Admission of canonical bytes returns exactly the value, if and only if the
      value is within the profile and the bytes within their limit. */
  lemma AdmitCanonical(p: Profile, rt: Runtime, v: Value)
    requires Printable(rt, v) && p.toNumber == rt.toNumber
    ensures var b := CanonicalBytes(rt, v);
            if |b| <= p.limits.maxBytes && FitsAll(p, v) then Admit(p, b) == Accepted(v) else Admit(p, b).Denied?
  {
    SerializedStart(rt, v);
    CanonicalRoundTrip(p, rt, v);
    hide Parse, FitsAll, Printable, Serialize;
    if |CanonicalBytes(rt, v)| <= p.limits.maxBytes { AdmitEncoded(p, Serialize(rt, v).text); }
  }

  /** Admission of encoded text is the parse of that text. */
  lemma AdmitEncoded(p: Profile, text: Text)
    requires Scalar(text) && text != [] && text[0] < 0x80 && |Utf8(text)| <= p.limits.maxBytes
    ensures Admit(p, Utf8(text)) == (match Parse(p, text)
                                     case Fail(reason) => Denied(reason)
                                     case Done(value, _, _) => Accepted(value))
  {
    hide Parse, Scalar, Utf8;
    DecodeEncoded(text);
    NoBom(text);
    if |Utf8(text)| >= 3 { assert Utf8(text)[..3][0] != BOM[0]; }
  }

  lemma SerializedStart(rt: Runtime, v: Value)
    requires Printable(rt, v)
    ensures Serialize(rt, v).Output? && Scalar(Serialize(rt, v).text)
    ensures Serialize(rt, v).text != [] && Serialize(rt, v).text[0] < 0x80
  {
    SerializedScalar(rt, v);
    if v.Num? { TokenAscii(rt.show(v.n.x)); }
  }

  /** The bytes encode w1, an admissible tree denoting v, w2. */
  predicate DerivesBytes(p: Profile, input: Bytes, v: Value, w1: Text, t: Tree, w2: Text) {
    Encodes(w1 + Render(t) + w2, input) && Derives(p, w1 + Render(t) + w2, w1, t, w2) && Denote(p, t) == v
  }

  /** What admission accepts as bytes. */
  lemma AdmitExact(p: Profile, input: Bytes, v: Value)
    ensures Admit(p, input) == Accepted(v) <==>
            && |input| <= p.limits.maxBytes && !(|input| >= 3 && input[..3] == BOM)
            && exists w1, t, w2 :: DerivesBytes(p, input, v, w1, t, w2)
  {
    hide Parse, Render, Denote, Scalar, Utf8, Fits, Count, Grammatical;
    if Admit(p, input) == Accepted(v) {
      var text := DecodeUtf8(input).value;
      var w1, t, w2 := ParseSound(p, text);
      assert DerivesBytes(p, input, v, w1, t, w2);
    }
    if w1, t, w2 :| DerivesBytes(p, input, v, w1, t, w2) {
      DecodeEncoded(w1 + Render(t) + w2);
      DerivesParse(p, w1, t, w2);
    }
  }

  lemma DerivesParse(p: Profile, w1: Text, t: Tree, w2: Text)
    requires Derives(p, w1 + Render(t) + w2, w1, t, w2)
    ensures Parse(p, w1 + Render(t) + w2).Done? && Parse(p, w1 + Render(t) + w2).value == Denote(p, t)
  {
    ParseRendered(p, w1, t, w2);
  }

  // ---- integers ----

  /** What ECMAScript's Number gives for integer tokens: exact in the safe range,
      never a safe integer outside it, negative zero for a negated zero. */
  ghost predicate ReadsIntegers(toNumber: Text -> Number) {
    forall t: Text | IsIntegerToken(t) ::
      if IntegerValue(t) == 0 && t[0] == MINUS then toNumber(t) == NegativeZero
      else if -MAX_SAFE <= IntegerValue(t) <= MAX_SAFE then toNumber(t) == Finite(IntegerValue(t) as real)
      else !SafeInteger(toNumber(t)) && !toNumber(t).NaN? && toNumber(t) != Finite(0.0)
  }

  lemma {:induction false} ZeroSignificand(t: Text)
    requires AllDigits(t)
    ensures NonZeroSignificand(t) <==> exists k :: 0 <= k < |t| && IsNonZeroDigit(t[k])
    decreases |t|
  {
    if t != [] {
      ZeroSignificand(t[1..]);
      if k :| 0 <= k < |t| && IsNonZeroDigit(t[k]) {
        if k > 0 { assert IsNonZeroDigit(t[1..][k - 1]); }
      }
      if k :| 0 <= k < |t[1..]| && IsNonZeroDigit(t[1..][k]) { assert IsNonZeroDigit(t[k + 1]); }
    }
  }

  lemma {:induction false} DecimalZero(t: Text)
    requires AllDigits(t) && Decimal(t) == 0
    ensures forall k :: 0 <= k < |t| ==> !IsNonZeroDigit(t[k])
    decreases |t|
  {
    if t != [] { DecimalZero(t[..|t| - 1]); }
  }

  lemma IntegerSignificand(t: Text)
    requires IsIntegerToken(t) && IntegerValue(t) == 0
    ensures !NonZeroSignificand(t)
  {
    var d := if t[0] == MINUS then t[1..] else t;
    DecimalZero(d);
    ZeroSignificand(d);
    if t[0] == MINUS { assert NonZeroSignificand(t) == NonZeroSignificand(t[1..]); }
  }

  /** Admission takes an integer token exactly when it is not a negated zero and
      its value is within plus or minus 2^53 - 1. */
  lemma IntegerTokenAdmitted(p: Profile, t: Text)
    requires ReadsIntegers(p.toNumber) && p.refuseUnsafe && IsIntegerToken(t)
    ensures TokenFault(p, t).None? <==>
            -MAX_SAFE <= IntegerValue(t) <= MAX_SAFE && !(IntegerValue(t) == 0 && t[0] == MINUS)
  {
    if IntegerValue(t) == 0 { IntegerSignificand(t); }
    hide IntegerValue, NonZeroSignificand, IsIntegerToken;
  }

  const ONE_E20: Text := [0x31, 0x65, 0x32, 0x30]

  const E20: real := 100000000000000000000.0

  lemma OneE20Token()
    ensures var token := NumberToken(false, [0x31], [], [0x65, 0x32, 0x30]);
            GoodToken(token) && RenderToken(token) == ONE_E20 && !IsIntegerToken(ONE_E20)
  {
    assert [0x65, 0x32, 0x30][1..] == [0x32, 0x30];
    assert !IsDigit(ONE_E20[1]);
  }

  lemma OneE20Parses(p: Profile)
    requires p.toNumber(ONE_E20) == Finite(E20)
    requires p.limits.maxDepth >= 1 && p.limits.maxTotal >= 1
    ensures Parse(p, ONE_E20) == Done(Num(Finite(E20)), 4, 1)
  {
    OneE20Token();
    hide Parse, GoodToken, RenderToken, IsIntegerToken;
    ParseRendered(p, [], TNumber(NumberToken(false, [0x31], [], [0x65, 0x32, 0x30])), []);
    assert [] + ONE_E20 + [] == ONE_E20;
  }

  /** Canonicalization can leave the admitted profile: 1e20 is admitted, and its
      canonical bytes, an integer token, are refused. */
  lemma CanonicalNotAlwaysAdmitted(p: Profile, rt: Runtime)
    requires p.toNumber == rt.toNumber && Ecma(rt) && p.refuseUnsafe
    requires rt.toNumber(ONE_E20) == Finite(E20)
    requires p.limits.maxDepth >= 1 && p.limits.maxTotal >= 1
    ensures Parse(p, ONE_E20) == Done(Num(Finite(E20)), 4, 1)
    ensures Printable(rt, Num(Finite(E20))) && Admit(p, CanonicalBytes(rt, Num(Finite(E20)))).Denied?
  {
    OneE20Parses(p);
    assert Shown(rt, rt.toNumber(ONE_E20).x);
    hide Parse, Admit, Shown;
    AdmitCanonical(p, rt, Num(Finite(E20)));
    assert PrintsUnsafe(Finite(E20));
  }
}
