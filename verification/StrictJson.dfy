/** What strict admission computes: each function is one method of the parser,
    with the moving index and the value counter as arguments and results. */
module StrictJson {
  import opened CodeUnits
  import opened Json

  datatype Reason =
    | ByteLimit | DepthLimit | DuplicateKey | InvalidBom | InvalidJson | InvalidUnicode
    | ItemLimit | NegativeZeroToken | NumberRange | UnsafeInteger

  datatype Limits = Limits(maxBytes: nat, maxDepth: nat, maxItems: nat, maxTotal: nat, maxStringBytes: nat)

  /** The limits, the runtime's conversion from a number token to a Number, and
      whether integer tokens outside the safe range are refused. The last is
      always true in the source; the parser without that check serves to show
      that canonical text is unambiguous even where admission refuses it. */
  datatype Profile = Profile(limits: Limits, toNumber: Text -> Number, refuseUnsafe: bool)

  datatype Scan<+T> = Ok(value: T, next: nat) | Bad(reason: Reason)

  datatype Parsed = Done(value: Value, next: nat, total: nat) | Fail(reason: Reason)

  function SkipSpace(text: Text, i: nat): (j: nat)
    ensures i <= j && (i <= |text| ==> j <= |text|)
    ensures !IsSpace(Peek(text, j))
    decreases |text| - i
  {
    if IsSpace(Peek(text, i)) then SkipSpace(text, i + 1) else i
  }

  // ---- strings ----

  /** Four hexadecimal digits at index i. */
  function ReadHex(text: Text, i: nat): (r: Scan<Unit>)
    ensures r.Ok? ==> r.next == i + 4 <= |text|
  {
    if i + 4 <= |text| && IsHex4(text[i..i + 4]) then Ok(HexValue(text[i..i + 4]), i + 4) else Bad(InvalidJson)
  }

  /** The rest of a string from index i, after the decoded units acc. */
  function ParseString(p: Profile, text: Text, i: nat, acc: Text): (r: Scan<Text>)
    ensures r.Ok? ==> i < r.next <= |text|
    decreases |text| - i
  {
    if i >= |text| then Bad(InvalidJson)
    else
      var code := text[i];
      if code == QUOTE then
        if ByteLength(acc) > p.limits.maxStringBytes then Bad(ByteLimit) else Ok(acc, i + 1)
      else if code < 0x20 then Bad(InvalidJson)
      else if code == BACKSLASH then
        var escape := Peek(text, i + 1);
        if ShortEscape(escape) >= 0 then ParseString(p, text, i + 2, acc + [ShortEscape(escape)])
        else if escape != LOWER_U then Bad(InvalidJson)
        else
          match ReadHex(text, i + 2)
          case Bad(reason) => Bad(reason)
          case Ok(first, j) =>
            if IsHigh(first) then
              if Peek(text, j) != BACKSLASH || Peek(text, j + 1) != LOWER_U then Bad(InvalidUnicode)
              else
                match ReadHex(text, j + 2)
                case Bad(reason) => Bad(reason)
                case Ok(second, k) =>
                  if !IsLow(second) then Bad(InvalidUnicode)
                  else ParseString(p, text, k, acc + FromCodePoint(CodePoint(first, second)))
            else if IsLow(first) then Bad(InvalidUnicode)
            else ParseString(p, text, j, acc + [first])
      else if IsSurrogate(code) then
        // charCodeAt past the end is NaN, which fails neither comparison
        if IsLow(code) || (i + 1 < |text| && !IsLow(text[i + 1])) then Bad(InvalidUnicode)
        else if i + 1 < |text| then ParseString(p, text, i + 2, acc + text[i..i + 2])
        else Bad(InvalidJson)
      else ParseString(p, text, i + 1, acc + [code])
  }

  // ---- numbers ----

  function DigitsEnd(text: Text, i: nat): (j: nat)
    ensures i <= j && (i <= |text| ==> j <= |text|)
    ensures !IsDigit(Peek(text, j))
    decreases |text| - i
  {
    if IsDigit(Peek(text, i)) then DigitsEnd(text, i + 1) else i
  }

  function IntegerEnd(text: Text, i: nat): (r: Scan<()>)
    ensures r.Ok? ==> i < r.next <= |text|
  {
    var k := if Peek(text, i) == MINUS then i + 1 else i;
    if Peek(text, k) == ZERO then
      if IsDigit(Peek(text, k + 1)) then Bad(InvalidJson) else Ok((), k + 1)
    else if !IsNonZeroDigit(Peek(text, k)) then Bad(InvalidJson)
    else Ok((), DigitsEnd(text, k + 1))
  }

  function FractionEnd(text: Text, i: nat): (r: Scan<()>)
    requires i <= |text|
    ensures r.Ok? ==> i <= r.next <= |text|
  {
    if Peek(text, i) != DOT then Ok((), i)
    else if !IsDigit(Peek(text, i + 1)) then Bad(InvalidJson)
    else Ok((), DigitsEnd(text, i + 1))
  }

  function ExponentEnd(text: Text, i: nat): (r: Scan<()>)
    requires i <= |text|
    ensures r.Ok? ==> i <= r.next <= |text|
  {
    if Peek(text, i) != LOWER_E && Peek(text, i) != UPPER_E then Ok((), i)
    else
      var k := if Peek(text, i + 1) == PLUS || Peek(text, i + 1) == MINUS then i + 2 else i + 1;
      if !IsDigit(Peek(text, k)) then Bad(InvalidJson) else Ok((), DigitsEnd(text, k))
  }

  function TokenEnd(text: Text, i: nat): (r: Scan<()>)
    ensures r.Ok? ==> i < r.next <= |text|
  {
    match IntegerEnd(text, i)
    case Bad(reason) => Bad(reason)
    case Ok(_, j) =>
      match FractionEnd(text, j)
      case Bad(reason) => Bad(reason)
      case Ok(_, k) => ExponentEnd(text, k)
  }

  /** Why a well-formed number token is refused, if it is. */
  function TokenFault(p: Profile, token: Text): Option<Reason> {
    var value := p.toNumber(token);
    if value.NaN? || value.Infinite? then Some(NumberRange)
    else if (value.NegativeZero? || value == Finite(0.0)) && NonZeroSignificand(token) then Some(NumberRange)
    else if value.NegativeZero? then Some(NegativeZeroToken)
    else if p.refuseUnsafe && IsIntegerToken(token) && !SafeInteger(value) then Some(UnsafeInteger)
    else None
  }

  function ParseNumber(p: Profile, text: Text, i: nat): (r: Scan<Number>)
    ensures r.Ok? ==> i < r.next <= |text|
  {
    match TokenEnd(text, i)
    case Bad(reason) => Bad(reason)
    case Ok(_, j) =>
      var token := text[i..j];
      match TokenFault(p, token)
      case Some(reason) => Bad(reason)
      case None => Ok(p.toNumber(token), j)
  }

  // ---- values ----

  function ParseLiteral(text: Text, i: nat, total: nat, literal: Text, value: Value): (r: Parsed)
    requires literal != []
    ensures r.Done? ==> i < r.next <= |text|
  {
    if At(text, i, literal) then Done(value, i + |literal|, total) else Fail(InvalidJson)
  }

  function ParseValue(p: Profile, text: Text, i: nat, total: nat, depth: nat): (r: Parsed)
    requires i <= |text|
    ensures r.Done? ==> i < r.next <= |text|
    decreases |text| - i, 0
  {
    if depth > p.limits.maxDepth then Fail(DepthLimit)
    else if total + 1 > p.limits.maxTotal then Fail(ItemLimit)
    else
      var u := Peek(text, i);
      if u == LBRACE then
        var k := SkipSpace(text, i + 1);
        if Peek(text, k) == RBRACE then Done(Obj(map[]), k + 1, total + 1)
        else ParseMembers(p, text, k, total + 1, depth, map[])
      else if u == LBRACKET then
        var k := SkipSpace(text, i + 1);
        if Peek(text, k) == RBRACKET then Done(Arr([]), k + 1, total + 1)
        else ParseItems(p, text, k, total + 1, depth, [])
      else if u == QUOTE then
        match ParseString(p, text, i + 1, [])
        case Bad(reason) => Fail(reason)
        case Ok(s, j) => Done(Str(s), j, total + 1)
      else if u == TRUE[0] then ParseLiteral(text, i, total + 1, TRUE, Bool(true))
      else if u == FALSE[0] then ParseLiteral(text, i, total + 1, FALSE, Bool(false))
      else if u == NULL[0] then ParseLiteral(text, i, total + 1, NULL, Null)
      else if u == MINUS || IsDigit(u) then
        match ParseNumber(p, text, i)
        case Bad(reason) => Fail(reason)
        case Ok(n, j) => Done(Num(n), j, total + 1)
      else Fail(InvalidJson)
  }

  /** Array items from index i, after the items acc. */
  function ParseItems(p: Profile, text: Text, i: nat, total: nat, depth: nat, acc: seq<Value>): (r: Parsed)
    ensures r.Done? ==> i < r.next <= |text|
    decreases |text| - i, 1
  {
    if i >= |text| then Fail(InvalidJson)
    else if |acc| >= p.limits.maxItems then Fail(ItemLimit)
    else
      match ParseValue(p, text, i, total, depth + 1)
      case Fail(reason) => Fail(reason)
      case Done(v, n, t) => AfterItem(p, text, n, t, depth, acc + [v])
  }

  function AfterItem(p: Profile, text: Text, i: nat, total: nat, depth: nat, acc: seq<Value>): (r: Parsed)
    requires i <= |text|
    ensures r.Done? ==> i < r.next <= |text|
    decreases |text| - i, 0
  {
    var q := SkipSpace(text, i);
    if Peek(text, q) == RBRACKET then Done(Arr(acc), q + 1, total)
    else if Peek(text, q) != COMMA then Fail(InvalidJson)
    else ParseItems(p, text, SkipSpace(text, q + 1), total, depth, acc)
  }

  /** Object members from index i, after the members acc. */
  function ParseMembers(p: Profile, text: Text, i: nat, total: nat, depth: nat, acc: map<Text, Value>): (r: Parsed)
    ensures r.Done? ==> i < r.next <= |text|
    decreases |text| - i, 1
  {
    if i >= |text| then Fail(InvalidJson)
    else if Peek(text, i) != QUOTE then Fail(InvalidJson)
    else
      match ParseString(p, text, i + 1, [])
      case Bad(reason) => Fail(reason)
      case Ok(key, j) => AfterKey(p, text, j, total, depth, acc, key)
  }

  function AfterKey(p: Profile, text: Text, i: nat, total: nat, depth: nat, acc: map<Text, Value>, key: Text): (r: Parsed)
    requires i <= |text|
    ensures r.Done? ==> i < r.next <= |text|
    decreases |text| - i, 1
  {
    if key in acc then Fail(DuplicateKey)
    else if |acc| + 1 > p.limits.maxItems then Fail(ItemLimit)
    else
      var k := SkipSpace(text, i);
      if Peek(text, k) != COLON then Fail(InvalidJson)
      else
        match ParseValue(p, text, SkipSpace(text, k + 1), total, depth + 1)
        case Fail(reason) => Fail(reason)
        case Done(v, n, t) => AfterMember(p, text, n, t, depth, acc[key := v])
  }

  function AfterMember(p: Profile, text: Text, i: nat, total: nat, depth: nat, acc: map<Text, Value>): (r: Parsed)
    requires i <= |text|
    ensures r.Done? ==> i < r.next <= |text|
    decreases |text| - i, 0
  {
    var q := SkipSpace(text, i);
    if Peek(text, q) == RBRACE then Done(Obj(acc), q + 1, total)
    else if Peek(text, q) != COMMA then Fail(InvalidJson)
    else ParseMembers(p, text, SkipSpace(text, q + 1), total, depth, acc)
  }

  /** The whole text: one value with whitespace around it and nothing after. */
  function Parse(p: Profile, text: Text): (r: Parsed) {
    match ParseValue(p, text, SkipSpace(text, 0), 0, 1)
    case Fail(reason) => Fail(reason)
    case Done(v, n, t) =>
      var q := SkipSpace(text, n);
      if q != |text| then Fail(InvalidJson) else Done(v, q, t)
  }
}
