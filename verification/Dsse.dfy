/** The DSSE v1 pre-authentication encoding: the Go form, the two TypeScript
    forms, and what makes the encoding injective. */
module Dsse {
  import opened CodeUnits
  import Decimal

  /** The ASCII digits of %d and of a template literal. */
  function DecimalBytes(n: nat): (b: Bytes)
    ensures b != [] && forall i :: 0 <= i < |b| ==> 0x30 <= b[i] <= 0x39
  {
    var ds := Decimal.Digits(n);
    seq(|ds|, i requires 0 <= i < |ds| => ds[i] as int + 0x30)
  }

  lemma DecimalBytesInjective(m: nat, n: nat)
    requires DecimalBytes(m) == DecimalBytes(n)
    ensures m == n
  {
    forall i | 0 <= i < |Decimal.Digits(m)| ensures Decimal.Digits(m)[i] == Decimal.Digits(n)[i] {
      assert DecimalBytes(m)[i] == DecimalBytes(n)[i];
    }
    Decimal.DigitsInjective(m, n);
  }

  const SPACE: Byte := 0x20
  const DSSE_V1: Bytes := Lit("DSSEv1 ")

  /** Buffer.concat of the two headers, the type and the payload, as both
      TypeScript modules write it; the type is the UTF-8 of the payload type. */
  function PreAuthEncoding(payloadType: Bytes, payload: Bytes): Bytes {
    (DSSE_V1 + DecimalBytes(|payloadType|) + [SPACE]) + payloadType + ([SPACE] + DecimalBytes(|payload|) + [SPACE]) + payload
  }

  const REPLACEMENT: Unit := 0xFFFD

  /** What Buffer.from encodes: U+FFFD for each unpaired surrogate. */
  function Mended(t: Text): (r: Text)
    ensures Scalar(r)
    decreases |t|
  {
    if t == [] then []
    else if IsHigh(t[0]) && |t| >= 2 && IsLow(t[1]) then
      var rest := Mended(t[2..]);
      assert (t[..2] + rest)[2..] == rest;
      t[..2] + rest
    else
      var rest := Mended(t[1..]);
      var u := if IsSurrogate(t[0]) then REPLACEMENT else t[0];
      assert ([u] + rest)[1..] == rest;
      [u] + rest
  }

  function TypeScriptEncoding(payloadType: Text, payload: Bytes): Bytes {
    PreAuthEncoding(Utf8(Mended(payloadType)), payload)
  }

  /** The Go form: one formatted prefix, then two appends to a buffer. Its
      argument is a Go string, which is its bytes. */
  method GoEncoding(payloadType: Bytes, payload: Bytes) returns (encoded: Bytes)
    ensures encoded == PreAuthEncoding(payloadType, payload)
  {
    var prefix := DSSE_V1 + DecimalBytes(|payloadType|) + [SPACE] + payloadType + [SPACE] + DecimalBytes(|payload|) + [SPACE];
    encoded := [];
    encoded := encoded + prefix;
    encoded := encoded + payload;
    assert encoded == PreAuthEncoding(payloadType, payload);
  }

  /** The encoding after its fixed start, field by field. */
  lemma Fields(t: Bytes, p: Bytes)
    ensures PreAuthEncoding(t, p) == DSSE_V1 + (DecimalBytes(|t|) + ([SPACE] + (t + ([SPACE] + (DecimalBytes(|p|) + ([SPACE] + p))))))
  {}

  // ---- what the encoding is, read off the bytes ----

  predicate Spells(b: Bytes, ds: seq<Decimal.Digit>) {
    |b| == |ds| && forall i :: 0 <= i < |b| ==> b[i] == ds[i] as int + 0x30
  }

  /** The bytes are the decimal numeral of n. */
  ghost predicate Numeral(b: Bytes, n: nat) { exists ds :: Spells(b, ds) && Decimal.NumeralOf(ds, n) }

  lemma DecimalBytesExactly(b: Bytes, n: nat)
    ensures b == DecimalBytes(n) <==> Numeral(b, n)
  {
    Decimal.DigitsExactly(Decimal.Digits(n), n);
    assert Spells(DecimalBytes(n), Decimal.Digits(n));
    if Numeral(b, n) {
      var ds :| Spells(b, ds) && Decimal.NumeralOf(ds, n);
      Decimal.DigitsExactly(ds, n);
    }
  }

  /** PAE of the DSSE v1 protocol: DSSEv1, the length of the type, the type, the
      length of the body and the body, with single spaces between, lengths being
      decimal numerals. */
  ghost predicate PreAuth(m: Bytes, payloadType: Bytes, payload: Bytes) {
    exists a, b :: Numeral(a, |payloadType|) && Numeral(b, |payload|) && m == Spaced(Lit("DSSEv1"), a, payloadType, b, payload)
  }

  function Spaced(start: Bytes, a: Bytes, t: Bytes, b: Bytes, p: Bytes): Bytes {
    start + ([0x20] + (a + ([0x20] + (t + ([0x20] + (b + ([0x20] + p)))))))
  }

  lemma PreAuthExactly(m: Bytes, payloadType: Bytes, payload: Bytes)
    ensures PreAuth(m, payloadType, payload) <==> m == PreAuthEncoding(payloadType, payload)
  {
    Fields(payloadType, payload);
    var a, b := DecimalBytes(|payloadType|), DecimalBytes(|payload|);
    DecimalBytesExactly(a, |payloadType|);
    DecimalBytesExactly(b, |payload|);
    assert DSSE_V1 == Lit("DSSEv1") + [0x20];
    assert PreAuthEncoding(payloadType, payload) == Spaced(Lit("DSSEv1"), a, payloadType, b, payload);
    hide PreAuthEncoding, Numeral, Spaced, DecimalBytes;
    if PreAuth(m, payloadType, payload) {
      var c, d :| Numeral(c, |payloadType|) && Numeral(d, |payload|) && m == Spaced(Lit("DSSEv1"), c, payloadType, d, payload);
      DecimalBytesExactly(c, |payloadType|);
      DecimalBytesExactly(d, |payload|);
    }
  }

  predicate Ascii(t: Text) { forall i :: 0 <= i < |t| ==> t[i] < 0x80 }

  lemma {:induction false} AsciiPlain(t: Text)
    requires Ascii(t)
    ensures Scalar(t) && Utf8(t) == t
    decreases |t|
  {
    if t != [] {
      AsciiPlain(t[1..]);
      assert Scalar(t) && Utf8Head(t) == [t[0]] && Width(t) == 1;
      hide Utf8Head, Scalar, Width;
      assert t == [t[0]] + t[1..];
    }
  }

  /** A payload type in ASCII stands in the encoding as it is. */
  lemma TypeScriptExactly(m: Bytes, payloadType: Text, typeBytes: Bytes, payload: Bytes)
    requires Ascii(payloadType) && typeBytes == payloadType
    ensures PreAuth(m, typeBytes, payload) <==> m == TypeScriptEncoding(payloadType, payload)
  {
    AsciiPlain(payloadType);
    NothingToMend(payloadType);
    PreAuthExactly(m, typeBytes, payload);
    hide PreAuth, PreAuthEncoding;
  }

  /** The encoding determines the payload type and the payload. */
  lemma EncodingInjective(t: Bytes, p: Bytes, t': Bytes, p': Bytes)
    requires PreAuthEncoding(t, p) == PreAuthEncoding(t', p')
    ensures t == t' && p == p'
  {
    Fields(t, p);
    Fields(t', p');
    hide PreAuthEncoding, DecimalBytes;
    var last, last' := DecimalBytes(|p|) + ([SPACE] + p), DecimalBytes(|p'|) + ([SPACE] + p');
    var middle, middle' := t + ([SPACE] + last), t' + ([SPACE] + last');
    DropPrefix(DSSE_V1, DecimalBytes(|t|) + ([SPACE] + middle), DecimalBytes(|t'|) + ([SPACE] + middle'));
    SplitAtSeparator(SPACE, DecimalBytes(|t|), middle, DecimalBytes(|t'|), middle');
    DecimalBytesInjective(|t|, |t'|);
    assert t == middle[..|t|] && t' == middle'[..|t'|];
    DropPrefix(t, [SPACE] + last, [SPACE] + last');
    DropPrefix([SPACE], last, last');
    SplitAtSeparator(SPACE, DecimalBytes(|p|), p, DecimalBytes(|p'|), p');
  }

  /** The TypeScript forms determine the payload and the payload type, the latter
      up to what stands for an unpaired surrogate. */
  lemma TypeScriptInjective(t: Text, p: Bytes, t': Text, p': Bytes)
    ensures TypeScriptEncoding(t, p) == TypeScriptEncoding(t', p') <==> Mended(t) == Mended(t') && p == p'
  {
    if TypeScriptEncoding(t, p) == TypeScriptEncoding(t', p') {
      EncodingInjective(Utf8(Mended(t)), p, Utf8(Mended(t')), p');
      Utf8Injective(Mended(t), Mended(t'));
    }
  }

  lemma {:induction false} NothingToMend(t: Text)
    requires Scalar(t)
    ensures Mended(t) == t
    decreases |t|
  {
    if t != [] {
      if IsHigh(t[0]) {
        NothingToMend(t[2..]);
      } else {
        NothingToMend(t[1..]);
      }
    }
  }

  lemma {:induction false} UnmendedIsSame(t: Text)
    requires REPLACEMENT !in Mended(t)
    ensures Mended(t) == t
    decreases |t|
  {
    if t != [] {
      if IsHigh(t[0]) && |t| >= 2 && IsLow(t[1]) {
        UnmendedIsSame(t[2..]);
      } else {
        assert Mended(t)[0] in Mended(t);
        UnmendedIsSame(t[1..]);
      }
    }
  }

  /** An unpaired surrogate in the place of a U+FFFD. */
  lemma {:induction false} Unmended(t: Text, i: nat)
    requires Scalar(t) && i < |t| && t[i] == REPLACEMENT
    ensures Mended(t[i := 0xD800]) == t
    decreases |t|
  {
    var s := t[i := 0xD800];
    if i == 0 {
      NothingToMend(t[1..]);
      assert s[1..] == t[1..];
      assert |t| >= 2 ==> !IsLow(t[1]);
    } else if IsHigh(t[0]) {
      Unmended(t[2..], i - 2);
      assert s[2..] == t[2..][i - 2 := 0xD800];
    } else {
      Unmended(t[1..], i - 1);
      assert s[1..] == t[1..][i - 1 := 0xD800];
    }
  }

  ghost predicate Determined(t: Text) {
    forall s, p, q :: TypeScriptEncoding(s, p) == TypeScriptEncoding(t, q) ==> s == t && p == q
  }

  /** No other payload type has the encodings of t exactly when t is well formed
      and holds no U+FFFD. */
  lemma DeterminedExactly(t: Text)
    ensures Determined(t) <==> Scalar(t) && REPLACEMENT !in t
  {
    hide TypeScriptEncoding;
    if !Scalar(t) {
      NothingToMend(Mended(t));
      TypeScriptInjective(Mended(t), [], t, []);
    } else if REPLACEMENT in t {
      var i :| 0 <= i < |t| && t[i] == REPLACEMENT;
      Unmended(t, i);
      NothingToMend(t);
      assert t[i := 0xD800][i] != t[i];
      TypeScriptInjective(t[i := 0xD800], [], t, []);
    } else {
      NothingToMend(t);
      forall s, p, q | TypeScriptEncoding(s, p) == TypeScriptEncoding(t, q) ensures s == t && p == q {
        TypeScriptInjective(s, p, t, q);
        UnmendedIsSame(s);
      }
    }
  }
}
