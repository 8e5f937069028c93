/** The strict parser itself: one moving index and one value counter, updated
    in place by every method, proved against the functions of StrictJson. */
module StrictJsonParser {
  import opened CodeUnits
  import opened Json
  import opened StrictJson

  datatype Result<+T> = Success(value: T) | Rejected(reason: Reason) {
    predicate IsFailure() { Rejected? }

    function PropagateFailure<U>(): Result<U>
      requires Rejected?
    {
      Rejected(reason)
    }

    function Extract(): T
      requires Success?
    {
      value
    }
  }

  class Parser {
    const text: Text
    const profile: Profile
    var index: nat
    var totalValues: nat

    constructor (text: Text, profile: Profile)
      ensures this.text == text && this.profile == profile && index == 0 && totalValues == 0
    {
      this.text, this.profile := text, profile;
      index, totalValues := 0, 0;
    }

    /** The result and the new state agree with what a scan function computed. */
    predicate Scanned<T(==)>(r: Result<T>, scan: Scan<T>)
      reads this
    {
      match scan
      case Ok(value, next) => r == Success(value) && index == next
      case Bad(reason) => r == Rejected(reason)
    }

    predicate ParsedAs(r: Result<Value>, parsed: Parsed)
      reads this
    {
      match parsed
      case Done(value, next, total) => r == Success(value) && index == next && totalValues == total
      case Fail(reason) => r == Rejected(reason)
    }

    method Parse() returns (r: Result<Value>)
      requires index == 0 && totalValues == 0
      modifies this
      ensures ParsedAs(r, StrictJson.Parse(profile, text))
    {
      SkipWhitespace();
      var value :- ParseValue(1);
      SkipWhitespace();
      if index != |text| {
        return Rejected(InvalidJson);
      }
      return Success(value);
    }

    method SkipWhitespace()
      modifies this`index
      ensures index == SkipSpace(text, old(index))
    {
      while IsSpace(Peek(text, index))
        invariant SkipSpace(text, index) == SkipSpace(text, old(index))
        decreases |text| - index
      {
        index := index + 1;
      }
    }

    method ParseValue(depth: nat) returns (r: Result<Value>)
      requires index <= |text|
      modifies this
      ensures ParsedAs(r, StrictJson.ParseValue(profile, text, old(index), old(totalValues), depth))
      decreases |text| - index, 1
    {
      if depth > profile.limits.maxDepth {
        return Rejected(DepthLimit);
      }
      totalValues := totalValues + 1;
      if totalValues > profile.limits.maxTotal {
        return Rejected(ItemLimit);
      }
      var u := Peek(text, index);
      if u == LBRACE {
        r := ParseObject(depth);
      } else if u == LBRACKET {
        r := ParseArray(depth);
      } else if u == QUOTE {
        var s :- ParseString();
        r := Success(Str(s));
      } else if u == TRUE[0] {
        r := ParseLiteral(TRUE, Bool(true));
      } else if u == FALSE[0] {
        r := ParseLiteral(FALSE, Bool(false));
      } else if u == NULL[0] {
        r := ParseLiteral(NULL, Null);
      } else if u == MINUS || IsDigit(u) {
        var n :- ParseNumber();
        r := Success(Num(n));
      } else {
        r := Rejected(InvalidJson);
      }
    }

    method ParseLiteral(literal: Text, value: Value) returns (r: Result<Value>)
      requires literal != []
      modifies this`index
      ensures ParsedAs(r, StrictJson.ParseLiteral(text, old(index), totalValues, literal, value))
    {
      if !At(text, index, literal) {
        return Rejected(InvalidJson);
      }
      index := index + |literal|;
      return Success(value);
    }

    method ParseObject(depth: nat) returns (r: Result<Value>)
      requires index < |text|
      modifies this
      ensures var k := SkipSpace(text, old(index) + 1);
              ParsedAs(r, if Peek(text, k) == RBRACE then Done(Obj(map[]), k + 1, old(totalValues))
                          else ParseMembers(profile, text, k, old(totalValues), depth, map[]))
      decreases |text| - index, 0
    {
      index := index + 1;
      SkipWhitespace();
      if Peek(text, index) == RBRACE {
        index := index + 1;
        return Success(Obj(map[]));
      }
      r := ParseObjectMembers(depth);
    }

    /** The loop of ParseObject, once the object is known not to be empty. */
    method ParseObjectMembers(depth: nat) returns (r: Result<Value>)
      modifies this
      ensures ParsedAs(r, ParseMembers(profile, text, old(index), old(totalValues), depth, map[]))
      decreases |text| - index, 2
    {
      hide StrictJson.ParseValue, StrictJson.ParseString, SkipSpace, AfterKey;
      var result: map<Text, Value> := map[];
      var keys: set<Text> := {};
      ghost var all := ParseMembers(profile, text, index, totalValues, depth, result);
      while index < |text|
        invariant old(index) <= index
        invariant keys == result.Keys
        invariant all == ParseMembers(profile, text, index, totalValues, depth, result)
        decreases |text| - index
      {
        var member :- ParseMember(keys, depth, result);
        keys := keys + {member.0};
        result := result[member.0 := member.1];
        SkipWhitespace();
        if Peek(text, index) == RBRACE {
          index := index + 1;
          return Success(Obj(result));
        }
        if Peek(text, index) != COMMA {
          return Rejected(InvalidJson);
        }
        index := index + 1;
        SkipWhitespace();
      }
      return Rejected(InvalidJson);
    }

    /** One turn of that loop up to the member's value; keys holds the names seen so far. */
    method ParseMember(keys: set<Text>, depth: nat, ghost acc: map<Text, Value>) returns (r: Result<(Text, Value)>)
      requires index < |text| && keys == acc.Keys
      modifies this
      ensures var all := ParseMembers(profile, text, old(index), old(totalValues), depth, acc);
              match r
              case Rejected(reason) => all == Fail(reason)
              case Success(member) =>
                && old(index) < index <= |text|
                && all == AfterMember(profile, text, index, totalValues, depth, acc[member.0 := member.1])
      decreases |text| - index, 1
    {
      hide StrictJson.ParseValue, StrictJson.ParseString, SkipSpace, AfterMember;
      if text[index] != QUOTE {
        return Rejected(InvalidJson);
      }
      var key :- ParseString();
      if key in keys {
        return Rejected(DuplicateKey);
      }
      if |keys| + 1 > profile.limits.maxItems {
        return Rejected(ItemLimit);
      }
      SkipWhitespace();
      if Peek(text, index) != COLON {
        return Rejected(InvalidJson);
      }
      index := index + 1;
      SkipWhitespace();
      var value :- ParseValue(depth + 1);
      return Success((key, value));
    }

    method ParseArray(depth: nat) returns (r: Result<Value>)
      requires index < |text|
      modifies this
      ensures var k := SkipSpace(text, old(index) + 1);
              ParsedAs(r, if Peek(text, k) == RBRACKET then Done(Arr([]), k + 1, old(totalValues))
                          else ParseItems(profile, text, k, old(totalValues), depth, []))
      decreases |text| - index, 0
    {
      index := index + 1;
      SkipWhitespace();
      if Peek(text, index) == RBRACKET {
        index := index + 1;
        return Success(Arr([]));
      }
      r := ParseArrayItems(depth);
    }

    /** The loop of ParseArray, once the array is known not to be empty. */
    method ParseArrayItems(depth: nat) returns (r: Result<Value>)
      modifies this
      ensures ParsedAs(r, ParseItems(profile, text, old(index), old(totalValues), depth, []))
      decreases |text| - index, 2
    {
      hide StrictJson.ParseValue, SkipSpace;
      var result: seq<Value> := [];
      ghost var all := ParseItems(profile, text, index, totalValues, depth, result);
      while index < |text|
        invariant old(index) <= index
        invariant all == ParseItems(profile, text, index, totalValues, depth, result)
        decreases |text| - index
      {
        if |result| >= profile.limits.maxItems {
          return Rejected(ItemLimit);
        }
        var value :- ParseValue(depth + 1);
        result := result + [value];
        assert all == AfterItem(profile, text, index, totalValues, depth, result);
        SkipWhitespace();
        if Peek(text, index) == RBRACKET {
          index := index + 1;
          return Success(Arr(result));
        }
        if Peek(text, index) != COMMA {
          return Rejected(InvalidJson);
        }
        index := index + 1;
        SkipWhitespace();
      }
      return Rejected(InvalidJson);
    }

    method ParseString() returns (r: Result<Text>)
      requires index < |text|
      modifies this`index
      ensures Scanned(r, StrictJson.ParseString(profile, text, old(index) + 1, []))
    {
      hide ByteLength, HexValue, IsHex4;
      index := index + 1;
      var result: Text := [];
      ghost var all := StrictJson.ParseString(profile, text, index, result);
      while index < |text|
        invariant all == StrictJson.ParseString(profile, text, index, result)
        decreases |text| - index
      {
        var code := text[index];
        if code == QUOTE {
          index := index + 1;
          if ByteLength(result) > profile.limits.maxStringBytes {
            return Rejected(ByteLimit);
          }
          return Success(result);
        }
        if code < 0x20 {
          return Rejected(InvalidJson);
        }
        if code == BACKSLASH {
          index := index + 1;
          var escape := Peek(text, index);
          var simple := ShortEscape(escape);
          if simple >= 0 {
            result := result + [simple];
            index := index + 1;
            continue;
          }
          if escape != LOWER_U {
            return Rejected(InvalidJson);
          }
          var first :- ReadUnicodeEscape();
          if IsHigh(first) {
            if Peek(text, index) != BACKSLASH || Peek(text, index + 1) != LOWER_U {
              return Rejected(InvalidUnicode);
            }
            index := index + 1;
            var second :- ReadUnicodeEscape();
            if !IsLow(second) {
              return Rejected(InvalidUnicode);
            }
            result := result + FromCodePoint(CodePoint(first, second));
            continue;
          }
          if IsLow(first) {
            return Rejected(InvalidUnicode);
          }
          result := result + [first];
          continue;
        }
        if IsSurrogate(code) {
          if IsLow(code) || (index + 1 < |text| && !IsLow(text[index + 1])) {
            return Rejected(InvalidUnicode);
          }
          result := result + text[index..if index + 2 <= |text| then index + 2 else |text|];
          index := index + 2;
          continue;
        }
        result := result + [code];
        index := index + 1;
      }
      return Rejected(InvalidJson);
    }

    /** The index is at the u of the escape. */
    method ReadUnicodeEscape() returns (r: Result<Unit>)
      requires index < |text|
      modifies this`index
      ensures Scanned(r, ReadHex(text, old(index) + 1))
    {
      if !(index + 5 <= |text| && IsHex4(text[index + 1..index + 5])) {
        return Rejected(InvalidJson);
      }
      var hex := text[index + 1..index + 5];
      index := index + 5;
      return Success(HexValue(hex));
    }

    method SkipDigits()
      modifies this`index
      ensures index == DigitsEnd(text, old(index))
    {
      while IsDigit(Peek(text, index))
        invariant DigitsEnd(text, index) == DigitsEnd(text, old(index))
        decreases |text| - index
      {
        index := index + 1;
      }
    }

    /** The integer part of a number token. */
    method SkipInteger() returns (r: Result<()>)
      modifies this`index
      ensures Scanned(r, IntegerEnd(text, old(index)))
    {
      if Peek(text, index) == MINUS {
        index := index + 1;
      }
      if Peek(text, index) == ZERO {
        index := index + 1;
        if IsDigit(Peek(text, index)) {
          return Rejected(InvalidJson);
        }
      } else {
        if !IsNonZeroDigit(Peek(text, index)) {
          return Rejected(InvalidJson);
        }
        SkipDigits();
      }
      return Success(());
    }

    method SkipFraction() returns (r: Result<()>)
      requires index <= |text|
      modifies this`index
      ensures Scanned(r, FractionEnd(text, old(index)))
    {
      if Peek(text, index) == DOT {
        index := index + 1;
        if !IsDigit(Peek(text, index)) {
          return Rejected(InvalidJson);
        }
        SkipDigits();
      }
      return Success(());
    }

    method SkipExponent() returns (r: Result<()>)
      requires index <= |text|
      modifies this`index
      ensures Scanned(r, ExponentEnd(text, old(index)))
    {
      if Peek(text, index) == LOWER_E || Peek(text, index) == UPPER_E {
        index := index + 1;
        if Peek(text, index) == PLUS || Peek(text, index) == MINUS {
          index := index + 1;
        }
        if !IsDigit(Peek(text, index)) {
          return Rejected(InvalidJson);
        }
        SkipDigits();
      }
      return Success(());
    }

    method ParseNumber() returns (r: Result<Number>)
      requires index < |text|
      modifies this`index
      ensures Scanned(r, StrictJson.ParseNumber(profile, text, old(index)))
    {
      hide IntegerEnd, FractionEnd, ExponentEnd;
      var start := index;
      var _ :- SkipInteger();
      var _ :- SkipFraction();
      var _ :- SkipExponent();
      var token := text[start..index];
      var value := profile.toNumber(token);
      if value.NaN? || value.Infinite? {
        return Rejected(NumberRange);
      }
      if (value.NegativeZero? || value == Finite(0.0)) && NonZeroSignificand(token) {
        return Rejected(NumberRange);
      }
      if value.NegativeZero? {
        return Rejected(NegativeZeroToken);
      }
      if profile.refuseUnsafe && IsIntegerToken(token) && !SafeInteger(value) {
        return Rejected(UnsafeInteger);
      }
      return Success(value);
    }
  }
}
