/** Text as the ECMAScript runtime holds it: sequences of UTF-16 code units.
    Also the UTF-8 encoding of well-formed text, and what it means for a decoder
    to be fatal on malformed input. */
module CodeUnits {

  type Unit = u: int | 0 <= u < 0x1_0000
  type Text = seq<Unit>

  type Byte = b: int | 0 <= b < 0x100
  type Bytes = seq<Byte>

  predicate IsHigh(u: int) { 0xD800 <= u <= 0xDBFF }

  predicate IsLow(u: int) { 0xDC00 <= u <= 0xDFFF }

  predicate IsSurrogate(u: int) { 0xD800 <= u <= 0xDFFF }

  /** The unit at index i, or -1 where ECMAScript would give undefined. */
  function Peek(text: Text, i: nat): int {
    if i < |text| then text[i] else -1
  }

  /** The text p occurs in text at index i. */
  predicate At(text: Text, i: nat, p: Text) {
    i + |p| <= |text| && text[i..i + |p|] == p
  }

  lemma AtConcat(text: Text, i: nat, p: Text, q: Text)
    ensures At(text, i, p + q) <==> At(text, i, p) && At(text, i + |p|, q)
  {
    if At(text, i, p + q) {
      var whole := text[i..i + |p + q|];
      assert whole[..|p|] == p;
      assert whole[|p|..] == q;
      assert text[i..i + |p|] == whole[..|p|];
      assert text[i + |p|..i + |p| + |q|] == whole[|p|..];
    }
    if At(text, i, p) && At(text, i + |p|, q) {
      assert text[i..i + |p + q|] == text[i..i + |p|] + text[i + |p|..i + |p| + |q|];
    }
  }

  lemma AtFirst(text: Text, i: nat, p: Text)
    requires At(text, i, p) && |p| > 0
    ensures Peek(text, i) == p[0]
  {
    assert text[i..i + |p|][0] == text[i];
  }

  lemma AtIndex(text: Text, i: nat, p: Text, k: nat)
    requires At(text, i, p) && k < |p|
    ensures Peek(text, i + k) == p[k]
  {
    assert text[i..i + |p|][k] == text[i + k];
  }

  /** The units, or bytes, of a string literal in ASCII. */
  function Lit(s: string): (t: Bytes)
    requires forall i :: 0 <= i < |s| ==> s[i] < 128 as char
    ensures |t| == |s| && forall i :: 0 <= i < |s| ==> t[i] == s[i] as int
  {
    seq(|s|, i requires 0 <= i < |s| => s[i] as int)
  }

  // ---- taking byte strings apart ----

  lemma DropPrefix(p: Bytes, a: Bytes, b: Bytes)
    requires p + a == p + b
    ensures a == b
  {
    assert a == (p + a)[|p|..] && b == (p + b)[|p|..];
  }

  lemma FirstSeparator(separator: Byte, a: Bytes, r: Bytes)
    requires separator !in a
    ensures (a + ([separator] + r))[|a|] == separator
    ensures forall i :: 0 <= i < |a| ==> (a + ([separator] + r))[i] != separator
  {}

  /** A field, its separator and the rest can be told apart when the field does
      not contain the separator. */
  lemma SplitAtSeparator(separator: Byte, a: Bytes, r: Bytes, b: Bytes, s: Bytes)
    requires a + ([separator] + r) == b + ([separator] + s)
    requires separator !in a && separator !in b
    ensures a == b && r == s
  {
    var x, y := a + ([separator] + r), b + ([separator] + s);
    FirstSeparator(separator, a, r);
    FirstSeparator(separator, b, s);
    assert |a| == |b|;
    assert a == x[..|a|] && b == y[..|b|];
    assert r == x[|a| + 1..] && s == y[|b| + 1..];
  }

  // ---- Unicode scalar strings ----

  /** Every surrogate belongs to a high-low pair. */
  predicate Scalar(s: Text) {
    if s == [] then true
    else if IsHigh(s[0]) then |s| >= 2 && IsLow(s[1]) && Scalar(s[2..])
    else !IsLow(s[0]) && Scalar(s[1..])
  }

  lemma {:induction false} ScalarConcat(a: Text, b: Text)
    requires Scalar(a)
    ensures Scalar(a + b) == Scalar(b)
    decreases |a|
  {
    if a == [] {
      assert a + b == b;
    } else if IsHigh(a[0]) {
      ScalarConcat(a[2..], b);
      assert (a + b)[2..] == a[2..] + b;
    } else {
      ScalarConcat(a[1..], b);
      assert (a + b)[1..] == a[1..] + b;
    }
  }

  /** The loop that refuses an unpaired surrogate; true when it falls through. */
  method AssertUnicodeScalarString(value: Text) returns (ok: bool)
    ensures ok == Scalar(value)
  {
    var index := 0;
    while index < |value|
      invariant 0 <= index <= |value|
      invariant Scalar(value) == Scalar(value[index..])
      decreases |value| - index
    {
      var unit := value[index];
      if IsHigh(unit) {
        var next := Peek(value, index + 1);
        if !IsLow(next) {
          return false;
        }
        assert value[index..][2..] == value[index + 2..];
        index := index + 1;
      } else if IsLow(unit) {
        return false;
      } else {
        assert value[index..][1..] == value[index + 1..];
      }
      index := index + 1;
    }
    return true;
  }

  // ---- UTF-8 ----

  /** The number of UTF-8 bytes; an unpaired surrogate counts as U+FFFD does. */
  function ByteLength(s: Text): nat {
    if s == [] then 0
    else if IsHigh(s[0]) && |s| >= 2 && IsLow(s[1]) then 4 + ByteLength(s[2..])
    else if s[0] < 0x80 then 1 + ByteLength(s[1..])
    else if s[0] < 0x800 then 2 + ByteLength(s[1..])
    else 3 + ByteLength(s[1..])
  }

  function CodePoint(high: Unit, low: Unit): (p: int)
    requires IsHigh(high) && IsLow(low)
    ensures 0x1_0000 <= p <= 0x10_FFFF
  {
    0x1_0000 + (high - 0xD800) * 0x400 + (low - 0xDC00)
  }

  /** String.fromCodePoint for a supplementary code point. */
  function FromCodePoint(p: int): Text
    requires 0x1_0000 <= p <= 0x10_FFFF
  {
    [0xD800 + (p - 0x1_0000) / 0x400, 0xDC00 + (p - 0x1_0000) % 0x400]
  }

  /** Decoding an escaped pair and taking it apart again returns the two units. */
  lemma CodePointRoundTrip(high: Unit, low: Unit)
    requires IsHigh(high) && IsLow(low)
    ensures FromCodePoint(CodePoint(high, low)) == [high, low]
  {
    var d := (high - 0xD800) * 0x400 + (low - 0xDC00);
    assert d / 0x400 == high - 0xD800;
    assert d % 0x400 == low - 0xDC00;
  }

  function Utf8Head(s: Text): (b: Bytes)
    requires s != [] && Scalar(s)
  {
    var u := s[0];
    if IsHigh(u) then
      var p := CodePoint(u, s[1]);
      [0xF0 + p / 0x4_0000, 0x80 + p / 0x1000 % 0x40, 0x80 + p / 0x40 % 0x40, 0x80 + p % 0x40]
    else if u < 0x80 then [u]
    else if u < 0x800 then [0xC0 + u / 0x40, 0x80 + u % 0x40]
    else [0xE0 + u / 0x1000, 0x80 + u / 0x40 % 0x40, 0x80 + u % 0x40]
  }

  /** Units taken by the first scalar value. */
  function Width(s: Text): (w: nat)
    requires s != [] && Scalar(s)
    ensures 1 <= w <= |s| && Scalar(s[w..])
  {
    if IsHigh(s[0]) then 2 else 1
  }

  function Utf8(s: Text): (b: Bytes)
    requires Scalar(s)
    ensures |b| == ByteLength(s)
    decreases |s|
  {
    if s == [] then [] else Utf8Head(s) + Utf8(s[Width(s)..])
  }

  lemma Utf8HeadLength(s: Text)
    requires s != [] && Scalar(s)
    ensures var n := Utf8Head(s)[0];
            |Utf8Head(s)| == if n < 0x80 then 1 else if n < 0xE0 then 2 else if n < 0xF0 then 3 else 4
  {}

  /** The scalar value an encoded head stands for, by the number of its bytes. */
  function HeadScalar(b: Bytes): int
    requires 1 <= |b| <= 4
  {
    var at := (k: nat) => if k < |b| then b[k] as int else 0;
    if |b| == 1 then at(0)
    else if |b| == 2 then (at(0) - 0xC0) * 0x40 + (at(1) - 0x80)
    else if |b| == 3 then (at(0) - 0xE0) * 0x1000 + (at(1) - 0x80) * 0x40 + (at(2) - 0x80)
    else (at(0) - 0xF0) * 0x4_0000 + (at(1) - 0x80) * 0x1000 + (at(2) - 0x80) * 0x40 + (at(3) - 0x80)
  }

  lemma SplitBase64(p: nat)
    ensures p == p / 0x40 * 0x40 + p % 0x40
    ensures p / 0x40 == p / 0x1000 * 0x40 + p / 0x40 % 0x40
    ensures p / 0x1000 == p / 0x4_0000 * 0x40 + p / 0x1000 % 0x40
  {
    assert p / 0x1000 == p / 0x40 / 0x40;
    assert p / 0x4_0000 == p / 0x1000 / 0x40;
  }

  lemma Utf8HeadDecodes(s: Text)
    requires s != [] && Scalar(s)
    ensures 1 <= |Utf8Head(s)| <= 4
    ensures HeadScalar(Utf8Head(s)) == if IsHigh(s[0]) then CodePoint(s[0], s[1]) else s[0]
  {
    SplitBase64(if IsHigh(s[0]) then CodePoint(s[0], s[1]) else s[0]);
  }

  predicate Continues(u: int) { 0x80 <= u <= 0xBF }

  /** A byte sequence for one character, by the syntax of RFC 3629, section 4. */
  predicate Octets(b: Bytes) {
    if |b| == 1 then b[0] <= 0x7F
    else if |b| == 2 then 0xC2 <= b[0] <= 0xDF && Continues(b[1])
    else if |b| == 3 then
      && 0xE0 <= b[0] <= 0xEF && Continues(b[1]) && Continues(b[2])
      && (b[0] == 0xE0 ==> b[1] >= 0xA0) && (b[0] == 0xED ==> b[1] <= 0x9F)
    else
      && |b| == 4 && 0xF0 <= b[0] <= 0xF4 && Continues(b[1]) && Continues(b[2]) && Continues(b[3])
      && (b[0] == 0xF0 ==> b[1] >= 0x90) && (b[0] == 0xF4 ==> b[1] <= 0x8F)
  }

  lemma HeadOctets(s: Text)
    requires s != [] && Scalar(s)
    ensures Octets(Utf8Head(s))
  {
    SplitBase64(if IsHigh(s[0]) then CodePoint(s[0], s[1]) else s[0]);
  }

  lemma OctetsLength(b: Bytes)
    requires Octets(b)
    ensures 1 <= |b| <= 4
    ensures var p := HeadScalar(b);
            |b| == if p < 0x80 then 1 else if p < 0x800 then 2 else if p < 0x1_0000 then 3 else 4
  {}

  lemma SameSextets(a: int, b: int, c: int, d: int, x: int, y: int, z: int, w: int)
    requires 0 <= b < 0x40 && 0 <= c < 0x40 && 0 <= d < 0x40 && 0 <= y < 0x40 && 0 <= z < 0x40 && 0 <= w < 0x40
    requires a * 0x4_0000 + b * 0x1000 + c * 0x40 + d == x * 0x4_0000 + y * 0x1000 + z * 0x40 + w
    ensures a == x && b == y && c == z && d == w
  {}

  lemma OctetsDetermined(a: Bytes, b: Bytes)
    requires Octets(a) && Octets(b) && HeadScalar(a) == HeadScalar(b)
    ensures a == b
  {
    OctetsLength(a);
    OctetsLength(b);
    if |a| == 2 {
      SameSextets(0, 0, a[0] - 0xC0, a[1] - 0x80, 0, 0, b[0] - 0xC0, b[1] - 0x80);
    } else if |a| == 3 {
      SameSextets(0, a[0] - 0xE0, a[1] - 0x80, a[2] - 0x80, 0, b[0] - 0xE0, b[1] - 0x80, b[2] - 0x80);
    } else if |a| == 4 {
      SameSextets(a[0] - 0xF0, a[1] - 0x80, a[2] - 0x80, a[3] - 0x80, b[0] - 0xF0, b[1] - 0x80, b[2] - 0x80, b[3] - 0x80);
    }
  }

  /** A scalar value is encoded as the one such sequence that stands for it. */
  lemma Utf8HeadExactly(s: Text, b: Bytes)
    requires s != [] && Scalar(s) && 1 <= |b| <= 4
    ensures b == Utf8Head(s) <==> Octets(b) && HeadScalar(b) == if IsHigh(s[0]) then CodePoint(s[0], s[1]) else s[0]
  {
    Utf8HeadDecodes(s);
    HeadOctets(s);
    hide Utf8Head, HeadScalar, Octets;
    if Octets(b) && HeadScalar(b) == HeadScalar(Utf8Head(s)) { OctetsDetermined(b, Utf8Head(s)); }
  }

  lemma Utf8HeadInjective(s: Text, t: Text)
    requires s != [] && t != [] && Scalar(s) && Scalar(t)
    requires Utf8Head(s) == Utf8Head(t)
    ensures s[..Width(s)] == t[..Width(t)]
  {
    Utf8HeadDecodes(s);
    Utf8HeadDecodes(t);
    if IsHigh(s[0]) {
      CodePointRoundTrip(s[0], s[1]);
      CodePointRoundTrip(t[0], t[1]);
      assert s[..2] == [s[0], s[1]] && t[..2] == [t[0], t[1]];
    }
  }

  lemma Utf8Heads(s: Text, t: Text)
    requires s != [] && t != [] && Scalar(s) && Scalar(t) && Utf8(s) == Utf8(t)
    ensures Utf8Head(s) == Utf8Head(t) && Utf8(s[Width(s)..]) == Utf8(t[Width(t)..])
  {
    Utf8HeadLength(s);
    Utf8HeadLength(t);
    hide Utf8Head;
    assert Utf8(s)[0] == Utf8Head(s)[0] && Utf8(t)[0] == Utf8Head(t)[0];
    var n := |Utf8Head(s)|;
    assert Utf8Head(s) == Utf8(s)[..n] && Utf8Head(t) == Utf8(t)[..n];
    assert Utf8(s[Width(s)..]) == Utf8(s)[n..] && Utf8(t[Width(t)..]) == Utf8(t)[n..];
  }

  /** Distinct well-formed texts have distinct encodings. */
  lemma {:induction false} Utf8Injective(s: Text, t: Text)
    requires Scalar(s) && Scalar(t) && Utf8(s) == Utf8(t)
    ensures s == t
    decreases |s|
  {
    if s == [] || t == [] {
      Utf8NonEmpty(s);
      Utf8NonEmpty(t);
    } else {
      hide Utf8Head, Utf8;
      Utf8Heads(s, t);
      Utf8HeadInjective(s, t);
      Utf8Injective(s[Width(s)..], t[Width(t)..]);
      assert s == s[..Width(s)] + s[Width(s)..] && t == t[..Width(t)] + t[Width(t)..];
    }
  }

  lemma Utf8NonEmpty(s: Text)
    requires Scalar(s)
    ensures Utf8(s) == [] <==> s == []
  {}
}
