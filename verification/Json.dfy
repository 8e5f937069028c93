/** JSON data as the platform's TypeScript code holds it, and number tokens. */
module Json {
  import opened CodeUnits

  datatype Option<+T> = None | Some(value: T)

  /** An ECMAScript Number. The zero of Finite is positive zero. */
  datatype Number = NaN | Infinite(negative: bool) | NegativeZero | Finite(x: real)

  /** A JSON value; an object is a map, since nothing here reads insertion order. */
  datatype Value =
    | Null
    | Bool(b: bool)
    | Num(n: Number)
    | Str(s: Text)
    | Arr(items: seq<Value>)
    | Obj(members: map<Text, Value>)

  const MAX_SAFE: int := 9007199254740991

  predicate IsInteger(x: real) { x.Floor as real == x }

  /** Number.isSafeInteger */
  predicate SafeInteger(n: Number) {
    match n
    case Finite(x) => IsInteger(x) && -MAX_SAFE <= x.Floor <= MAX_SAFE
    case NegativeZero => true
    case _ => false
  }

  /** The number a value compares as; NaN never does. */
  predicate Below(a: Number, b: Number) {
    if a.NaN? || b.NaN? then false
    else if a.Infinite? then a.negative && !(b.Infinite? && b.negative)
    else if b.Infinite? then !b.negative
    else RealOf(a) < RealOf(b)
  }

  function RealOf(n: Number): real
    requires n.NegativeZero? || n.Finite?
  {
    if n.Finite? then n.x else 0.0
  }

  /** Number.isInteger */
  predicate WholeNumber(n: Number) { n.NegativeZero? || (n.Finite? && IsInteger(n.x)) }

  // ---- characters of the JSON grammar ----

  const QUOTE: Unit := 0x22
  const BACKSLASH: Unit := 0x5C
  const LBRACE: Unit := 0x7B
  const RBRACE: Unit := 0x7D
  const LBRACKET: Unit := 0x5B
  const RBRACKET: Unit := 0x5D
  const COLON: Unit := 0x3A
  const COMMA: Unit := 0x2C
  const MINUS: Unit := 0x2D
  const PLUS: Unit := 0x2B
  const DOT: Unit := 0x2E
  const HASH: Unit := 0x23
  const SLASH: Unit := 0x2F
  const ZERO: Unit := 0x30
  const LOWER_U: Unit := 0x75
  const LOWER_E: Unit := 0x65
  const UPPER_E: Unit := 0x45

  const TRUE: Text := [0x74, 0x72, 0x75, 0x65]
  const FALSE: Text := [0x66, 0x61, 0x6C, 0x73, 0x65]
  const NULL: Text := [0x6E, 0x75, 0x6C, 0x6C]

  predicate IsSpace(u: int) { u == 0x20 || u == 0x09 || u == 0x0A || u == 0x0D }

  predicate IsDigit(u: int) { 0x30 <= u <= 0x39 }

  predicate IsNonZeroDigit(u: int) { 0x31 <= u <= 0x39 }

  predicate IsHexDigit(u: int) { IsDigit(u) || 0x61 <= u <= 0x66 || 0x41 <= u <= 0x46 }

  function HexDigit(u: int): (d: int)
    requires IsHexDigit(u)
    ensures 0 <= d < 16
  {
    if IsDigit(u) then u - 0x30 else if u >= 0x61 then u - 0x61 + 10 else u - 0x41 + 10
  }

  predicate IsHex4(h: Text) {
    |h| == 4 && IsHexDigit(h[0]) && IsHexDigit(h[1]) && IsHexDigit(h[2]) && IsHexDigit(h[3])
  }

  /** Number.parseInt(h, 16) */
  function HexValue(h: Text): (u: Unit)
    requires IsHex4(h)
  {
    HexDigit(h[0]) * 0x1000 + HexDigit(h[1]) * 0x100 + HexDigit(h[2]) * 0x10 + HexDigit(h[3])
  }

  /** The unit a two-character escape stands for, or -1 when there is none. */
  function ShortEscape(e: int): (u: int)
    ensures u == -1 || (0 <= u < 0x80)
  {
    if e == QUOTE then QUOTE
    else if e == BACKSLASH then BACKSLASH
    else if e == 0x2F then 0x2F
    else if e == 0x62 then 0x08
    else if e == 0x66 then 0x0C
    else if e == 0x6E then 0x0A
    else if e == 0x72 then 0x0D
    else if e == 0x74 then 0x09
    else -1
  }

  // ---- number tokens ----

  predicate AllDigits(t: Text) { forall k :: 0 <= k < |t| ==> IsDigit(t[k]) }

  /** The value of a string of decimal digits. */
  function Decimal(t: Text): (n: nat)
    requires AllDigits(t)
  {
    if t == [] then 0 else Decimal(t[..|t| - 1]) * 10 + (t[|t| - 1] - 0x30)
  }

  /** /^-?[0-9]+$/ */
  predicate IsIntegerToken(t: Text) {
    if t != [] && t[0] == MINUS then t[1..] != [] && AllDigits(t[1..]) else t != [] && AllDigits(t)
  }

  function IntegerValue(t: Text): int
    requires IsIntegerToken(t)
  {
    if t[0] == MINUS then -(Decimal(t[1..]) as int) else Decimal(t)
  }

  /** A digit 1 to 9 before any exponent mark. */
  predicate NonZeroSignificand(t: Text) {
    if t == [] || t[0] == LOWER_E || t[0] == UPPER_E then false
    else IsNonZeroDigit(t[0]) || NonZeroSignificand(t[1..])
  }
}
