/** RFC 8785 canonical text, as the identity adapter prints it. */
module Canonical {
  import opened CodeUnits
  import opened Json
  import opened JsonGrammar

  // ---- the order of property names (RFC 8785, section 3.2.3) ----

  /** Code-unit order, ECMAScript's default string order. */
  predicate Less(a: Text, b: Text) {
    if b == [] then false
    else if a == [] then true
    else a[0] < b[0] || (a[0] == b[0] && Less(a[1..], b[1..]))
  }

  lemma {:induction false} LessIrreflexive(a: Text)
    ensures !Less(a, a)
    decreases |a|
  {
    if a != [] { LessIrreflexive(a[1..]); }
  }

  lemma {:induction false} LessTransitive(a: Text, b: Text, c: Text)
    requires Less(a, b) && Less(b, c)
    ensures Less(a, c)
    decreases |a|
  {
    if a != [] && a[0] == b[0] && b[0] == c[0] { LessTransitive(a[1..], b[1..], c[1..]); }
  }

  lemma {:induction false} LessTotal(a: Text, b: Text)
    ensures Less(a, b) || a == b || Less(b, a)
    decreases |a|
  {
    if a != [] && b != [] && a[0] == b[0] {
      LessTotal(a[1..], b[1..]);
      assert a == [a[0]] + a[1..] && b == [b[0]] + b[1..];
    }
  }

  predicate Least(k: Text, keys: set<Text>) {
    k in keys && forall x :: x in keys && x != k ==> Less(k, x)
  }

  lemma {:induction false} LeastExists(keys: set<Text>) returns (k: Text)
    requires keys != {}
    ensures Least(k, keys)
    decreases |keys|
  {
    k :| k in keys;
    var rest := keys - {k};
    if rest != {} {
      var m := LeastExists(rest);
      LessTotal(k, m);
      if Less(m, k) {
        k := m;
      } else {
        forall x | x in keys && x != k ensures Less(k, x) {
          if x != m { LessTransitive(k, m, x); }
        }
      }
    }
  }

  lemma LeastUnique(k: Text, m: Text, keys: set<Text>)
    requires Least(k, keys) && Least(m, keys)
    ensures k == m
  {
    if k != m {
      LessTransitive(k, m, k);
      LessIrreflexive(k);
    }
  }

  lemma LeastDetermined(keys: set<Text>)
    requires keys != {}
    ensures exists k :: Least(k, keys)
    ensures forall a, b :: Least(a, keys) && Least(b, keys) ==> a == b
  {
    var k := LeastExists(keys);
    forall a, b | Least(a, keys) && Least(b, keys) ensures a == b { LeastUnique(a, b, keys); }
  }

  function LeastKey(keys: set<Text>): (k: Text)
    requires keys != {}
    ensures Least(k, keys)
  {
    LeastDetermined(keys);
    var k :| Least(k, keys); k
  }

  /** Object.keys(value).sort() */
  function SortedKeys(keys: set<Text>): (ks: seq<Text>)
    ensures forall k :: k in ks <==> k in keys
    ensures |ks| == |keys|
    decreases |keys|
  {
    if keys == {} then []
    else
      var k := LeastKey(keys);
      [k] + SortedKeys(keys - {k})
  }

  predicate Ascending(ks: seq<Text>) {
    forall i, j :: 0 <= i < j < |ks| ==> Less(ks[i], ks[j])
  }

  lemma {:induction false} SortedAscending(keys: set<Text>)
    ensures Ascending(SortedKeys(keys))
    decreases |keys|
  {
    if keys != {} {
      var k := LeastKey(keys);
      SortedAscending(keys - {k});
      var rest := SortedKeys(keys - {k});
      forall j | 0 <= j < |rest| ensures Less(k, rest[j]) { assert rest[j] in keys - {k}; }
    }
  }

  lemma SameEmptiness(ks: seq<Text>, keys: set<Text>)
    requires forall k :: k in ks <==> k in keys
    ensures ks == [] <==> keys == {}
  {
    if ks != [] { assert ks[0] in keys; }
    if keys != {} {
      var k :| k in keys;
      assert k in ks;
    }
  }

  /** Whatever order the keys were inserted in, sorting them gives one sequence. */
  lemma {:induction false} SortedUnique(ks: seq<Text>, keys: set<Text>)
    requires Ascending(ks) && forall k :: k in ks <==> k in keys
    ensures ks == SortedKeys(keys)
    decreases |keys|
  {
    SameEmptiness(ks, keys);
    if keys != {} {
      var least := LeastKey(keys);
      assert least in ks;
      var first := ks[0];
      assert first in ks;
      forall x | x in keys && x != first ensures Less(first, x) {
        assert x in ks;
      }
      LeastUnique(first, least, keys);
      var rest := ks[1..];
      forall k ensures k in rest <==> k in keys - {first} {
        if k in rest {
          var i :| 0 <= i < |rest| && rest[i] == k;
          assert ks[i + 1] == k;
          LessIrreflexive(first);
        }
        if k in keys - {first} { assert k in ks; }
      }
      SortedUnique(rest, keys - {first});
    }
  }

  // ---- strings (RFC 8785, section 3.2.2.2) ----

  /** The letter of the two-character escape ECMAScript uses for a unit, or -1. */
  function EscapeLetter(u: Unit): (e: int)
    ensures e == -1 || (0 <= e < 0x80)
    ensures e >= 0 ==> ShortEscape(e) == u
    ensures e < 0 ==> u != QUOTE && u != BACKSLASH
  {
    if u == QUOTE then QUOTE
    else if u == BACKSLASH then BACKSLASH
    else if u == 0x08 then 0x62
    else if u == 0x0C then 0x66
    else if u == 0x0A then 0x6E
    else if u == 0x0D then 0x72
    else if u == 0x09 then 0x74
    else -1
  }

  function HexLetter(d: int): (u: Unit)
    requires 0 <= d < 16
    ensures IsHexDigit(u) && HexDigit(u) == d
  {
    if d < 10 then 0x30 + d else 0x61 + (d - 10)
  }

  /** JSON.stringify of a scalar string, without its quotation marks. */
  function Escaped(s: Text): Text
    requires Scalar(s)
    decreases |s|
  {
    if s == [] then []
    else
      var u := s[0];
      if IsHigh(u) then [u, s[1]] + Escaped(s[2..])
      else if EscapeLetter(u) >= 0 then [BACKSLASH, EscapeLetter(u)] + Escaped(s[1..])
      else if u < 0x20 then [BACKSLASH, LOWER_U, ZERO, ZERO, HexLetter(u / 16), HexLetter(u % 16)] + Escaped(s[1..])
      else [u] + Escaped(s[1..])
  }

  function Quoted(s: Text): Text
    requires Scalar(s)
  {
    [QUOTE] + Escaped(s) + [QUOTE]
  }

  // ---- values ----

  datatype Fault = UnpairedSurrogate | NotFinite | NegativeZeroValue

  datatype Printed = Output(text: Text) | Refused(fault: Fault)

  /** What the code relies on ECMAScript for: Number(token) and JSON.stringify of
      a finite number, the latter given by the parts of its token. */
  datatype Runtime = Runtime(toNumber: Text -> Number, show: real -> NumberToken)

  function Serialize(rt: Runtime, v: Value): Printed
    decreases v, 2
  {
    match v
    case Null => Output(NULL)
    case Bool(b) => Output(if b then TRUE else FALSE)
    case Str(s) => if Scalar(s) then Output(Quoted(s)) else Refused(UnpairedSurrogate)
    case Num(n) =>
      if n.NaN? || n.Infinite? then Refused(NotFinite)
      else if n.NegativeZero? then Refused(NegativeZeroValue)
      else Output(RenderToken(rt.show(n.x)))
    case Arr(items) =>
      (match SerializeItems(rt, items)
       case Refused(fault) => Refused(fault)
       case Output(text) => Output([LBRACKET] + text + [RBRACKET]))
    case Obj(members) =>
      (match SerializeFields(rt, v, SortedKeys(members.Keys))
       case Refused(fault) => Refused(fault)
       case Output(text) => Output([LBRACE] + text + [RBRACE]))
  }

  /** The items joined by commas. */
  function SerializeItems(rt: Runtime, items: seq<Value>): Printed
    decreases items, 1
  {
    if items == [] then Output([])
    else
      match Serialize(rt, items[0])
      case Refused(fault) => Refused(fault)
      case Output(first) =>
        match SerializeItems(rt, items[1..])
        case Refused(fault) => Refused(fault)
        case Output(rest) => Output(if |items| == 1 then first else first + ([COMMA] + rest))
  }

  /** The fields of the listed keys joined by commas. */
  function SerializeFields(rt: Runtime, v: Value, keys: seq<Text>): Printed
    requires v.Obj? && forall k :: k in keys ==> k in v.members
    decreases v, 1, |keys|
  {
    if keys == [] then Output([])
    else if !Scalar(keys[0]) then Refused(UnpairedSurrogate)
    else
      match Serialize(rt, v.members[keys[0]])
      case Refused(fault) => Refused(fault)
      case Output(first) =>
        match SerializeFields(rt, v, keys[1..])
        case Refused(fault) => Refused(fault)
        case Output(rest) =>
          var field := Quoted(keys[0]) + ([COLON] + first);
          Output(if |keys| == 1 then field else field + ([COMMA] + rest))
  }
}
