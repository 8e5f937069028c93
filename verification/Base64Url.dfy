/** Unpadded base64url (RFC 4648, section 5), and which texts are accepted as it. */
module Base64Url {
  import opened CodeUnits
  import opened Json

  predicate Symbol(u: int) {
    0x41 <= u <= 0x5A || 0x61 <= u <= 0x7A || IsDigit(u) || u == 0x2D || u == 0x5F
  }

  type Sextet = n: int | 0 <= n < 64

  function SymbolOf(n: Sextet): (u: Unit)
    ensures Symbol(u)
  {
    if n < 26 then n + 0x41 else if n < 52 then n - 26 + 0x61 else if n < 62 then n - 52 + 0x30 else if n == 62 then 0x2D else 0x5F
  }

  function SextetOf(u: Unit): (n: Sextet)
    requires Symbol(u)
    ensures SymbolOf(n) == u
  {
    if u == 0x2D then 62 else if u == 0x5F then 63
    else if u >= 0x61 then u - 0x61 + 26 else if u >= 0x41 then u - 0x41 else u - 0x30 + 52
  }

  lemma SymbolRoundTrip(n: Sextet)
    ensures SextetOf(SymbolOf(n)) == n
  {}

  /** bytes.toString("base64url") */
  function Encode(b: Bytes): (t: Text)
    ensures t == [] <==> b == []
    ensures forall i :: 0 <= i < |t| ==> Symbol(t[i])
  {
    if b == [] then []
    else if |b| == 1 then [SymbolOf(b[0] / 4), SymbolOf(b[0] % 4 * 16)]
    else if |b| == 2 then [SymbolOf(b[0] / 4), SymbolOf(b[0] % 4 * 16 + b[1] / 16), SymbolOf(b[1] % 16 * 4)]
    else
      [SymbolOf(b[0] / 4), SymbolOf(b[0] % 4 * 16 + b[1] / 16), SymbolOf(b[1] % 16 * 4 + b[2] / 64), SymbolOf(b[2] % 64)]
      + Encode(b[3..])
  }

  predicate AllSymbols(t: Text) { forall i :: 0 <= i < |t| ==> Symbol(t[i]) }

  function FirstByte(a: Sextet, b: Sextet): Byte { a * 4 + b / 16 }

  function SecondByte(b: Sextet, c: Sextet): Byte { b % 16 * 16 + c / 4 }

  function ThirdByte(c: Sextet, d: Sextet): Byte { c % 4 * 64 + d }

  /** Buffer.from(t, "base64url") for a text of symbols: left-over bits, and a
      left-over symbol, are ignored. */
  function Decode(t: Text): Bytes
    requires AllSymbols(t)
    decreases |t|
  {
    if |t| < 2 then []
    else
      var first := FirstByte(SextetOf(t[0]), SextetOf(t[1]));
      if |t| == 2 then [first]
      else
        var second := SecondByte(SextetOf(t[1]), SextetOf(t[2]));
        if |t| == 3 then [first, second]
        else [first, second, ThirdByte(SextetOf(t[2]), SextetOf(t[3]))] + Decode(t[4..])
  }

  lemma Bits(x: Byte, y: Byte, z: Byte)
    ensures FirstByte(x / 4, x % 4 * 16 + y / 16) == x
    ensures FirstByte(x / 4, x % 4 * 16) == x
    ensures SecondByte(x % 4 * 16 + y / 16, y % 16 * 4 + z / 64) == y
    ensures SecondByte(x % 4 * 16 + y / 16, y % 16 * 4) == y
    ensures ThirdByte(y % 16 * 4 + z / 64, z % 64) == z
  {}

  lemma DecodeTwo(a: Sextet, b: Sextet)
    ensures Decode([SymbolOf(a), SymbolOf(b)]) == [FirstByte(a, b)]
  {
    hide FirstByte, Symbol;
    SymbolRoundTrip(a);
    SymbolRoundTrip(b);
    hide SymbolOf, SextetOf;
  }

  lemma DecodeThree(a: Sextet, b: Sextet, c: Sextet)
    ensures Decode([SymbolOf(a), SymbolOf(b), SymbolOf(c)]) == [FirstByte(a, b), SecondByte(b, c)]
  {
    hide FirstByte, SecondByte, Symbol;
    SymbolRoundTrip(a);
    SymbolRoundTrip(b);
    SymbolRoundTrip(c);
    hide SymbolOf, SextetOf;
  }

  lemma DecodeGroup(a: Sextet, b: Sextet, c: Sextet, d: Sextet, rest: Text)
    requires AllSymbols(rest)
    ensures AllSymbols([SymbolOf(a), SymbolOf(b), SymbolOf(c), SymbolOf(d)] + rest)
    ensures Decode([SymbolOf(a), SymbolOf(b), SymbolOf(c), SymbolOf(d)] + rest)
         == [FirstByte(a, b), SecondByte(b, c), ThirdByte(c, d)] + Decode(rest)
  {
    hide FirstByte, SecondByte, ThirdByte, Symbol;
    SymbolRoundTrip(a);
    SymbolRoundTrip(b);
    SymbolRoundTrip(c);
    SymbolRoundTrip(d);
    hide SymbolOf, SextetOf;
    assert ([SymbolOf(a), SymbolOf(b), SymbolOf(c), SymbolOf(d)] + rest)[4..] == rest;
  }

  lemma {:induction false} DecodeEncode(b: Bytes)
    ensures Decode(Encode(b)) == b
    decreases |b|
  {
    hide FirstByte, SecondByte, ThirdByte, SymbolOf, Decode;
    if b == [] {
      assert Decode([]) == [] by { DecodeNothing(); }
    } else if |b| == 1 {
      Bits(b[0], 0, 0);
      DecodeTwo(b[0] / 4, b[0] % 4 * 16);
    } else if |b| == 2 {
      Bits(b[0], b[1], 0);
      DecodeThree(b[0] / 4, b[0] % 4 * 16 + b[1] / 16, b[1] % 16 * 4);
    } else {
      Bits(b[0], b[1], b[2]);
      DecodeGroup(b[0] / 4, b[0] % 4 * 16 + b[1] / 16, b[1] % 16 * 4 + b[2] / 64, b[2] % 64, Encode(b[3..]));
      DecodeEncode(b[3..]);
      assert b == [b[0], b[1], b[2]] + b[3..];
    }
  }

  lemma DecodeNothing()
    ensures Decode([]) == []
  {}

  /** decodeBase64Url: None where it throws. */
  function DecodeCanonical(t: Text): Option<Bytes> {
    if t == [] || !AllSymbols(t) then None
    else if Encode(Decode(t)) != t then None
    else Some(Decode(t))
  }

  /** Accepted is exactly the encoding of some bytes, and as those bytes: no two
      texts stand for the same ones. */
  lemma DecodesExactly(t: Text, b: Bytes)
    ensures DecodeCanonical(t) == Some(b) <==> b != [] && t == Encode(b)
  {
    hide Decode;
    DecodeEncode(b);
    if DecodeCanonical(t) == Some(b) { assert t == Encode(b); }
  }
}
