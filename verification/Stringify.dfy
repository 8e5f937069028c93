/** JSON.stringify on data as it is laid out, members in the order they were
    written: what it means that two values are written alike. */
module Stringify {
  import opened CodeUnits
  import opened Json
  import Canonical
  import opened LaidJson

  // ---- the text ----

  /** How a finite Number is written, and which reals are Numbers. */
  datatype Numbers = Numbers(show: real -> Text, isNumber: real -> bool)

  predicate NumberUnit(u: int) { IsDigit(u) || u == MINUS || u == PLUS || u == DOT || u == LOWER_E }

  predicate NumberText(t: Text) {
    t != [] && (IsDigit(t[0]) || t[0] == MINUS) && forall i :: 0 <= i < |t| ==> NumberUnit(t[i])
  }

  /** Different Numbers are written differently, each as a number token. */
  ghost predicate Distinguishes(ns: Numbers) {
    && ns.isNumber(0.0)
    && (forall x :: ns.isNumber(x) ==> NumberText(ns.show(x)))
    && (forall x, y :: ns.isNumber(x) && ns.isNumber(y) && ns.show(x) == ns.show(y) ==> x == y)
  }

  predicate WithNumbers(ns: Numbers, a: Laid) {
    match a
    case LNum(n) => n.Finite? ==> ns.isNumber(n.x)
    case LArr(items) => forall i :: 0 <= i < |items| ==> WithNumbers(ns, items[i])
    case LObj(fields) => forall i :: 0 <= i < |fields| ==> WithNumbers(ns, fields[i].value)
    case _ => true
  }

  /** The units the first character of a string takes: two for a surrogate pair. */
  function Width(s: Text): (n: nat)
    requires s != []
    ensures 1 <= n <= 2 && n <= |s|
  {
    if IsHigh(s[0]) && |s| >= 2 && IsLow(s[1]) then 2 else 1
  }

  function HexEscape(u: Unit): Text {
    [BACKSLASH, LOWER_U, Canonical.HexLetter(u / 0x1000), Canonical.HexLetter(u / 0x100 % 16),
     Canonical.HexLetter(u / 16 % 16), Canonical.HexLetter(u % 16)]
  }

  /** Its text: control units and unpaired surrogates are escaped by number. */
  function First(s: Text): Text
    requires s != []
  {
    var u := s[0];
    if Width(s) == 2 then s[..2]
    else if Canonical.EscapeLetter(u) >= 0 then [BACKSLASH, Canonical.EscapeLetter(u)]
    else if u < 0x20 || IsSurrogate(u) then HexEscape(u)
    else [u]
  }

  /** A string up to its closing quotation mark. */
  function StringText(s: Text): Text
    decreases |s|
  {
    if s == [] then [QUOTE] else First(s) + StringText(s[Width(s)..])
  }

  function TextOf(ns: Numbers, a: Laid): Text
    decreases a, 1
  {
    match a
    case LNull => NULL
    case LBool(b) => if b then TRUE else FALSE
    case LNum(n) =>
      (match n
       case NaN => NULL
       case Infinite(_) => NULL
       case NegativeZero => ns.show(0.0)
       case Finite(x) => ns.show(x))
    case LStr(s) => [QUOTE] + StringText(s)
    case LArr(items) => [LBRACKET] + if items == [] then [RBRACKET] else TextOf(ns, items[0]) + RestOfItems(ns, items[1..])
    case LObj(fields) => [LBRACE] + if fields == [] then [RBRACE] else FieldText(ns, fields[0]) + RestOfFields(ns, fields[1..])
  }

  function RestOfItems(ns: Numbers, items: seq<Laid>): Text
    decreases items, 0
  {
    if items == [] then [RBRACKET] else [COMMA] + (TextOf(ns, items[0]) + RestOfItems(ns, items[1..]))
  }

  function FieldText(ns: Numbers, f: Field): Text
    decreases f, 2
  {
    [QUOTE] + (StringText(f.name) + ([COLON] + TextOf(ns, f.value)))
  }

  function RestOfFields(ns: Numbers, fields: seq<Field>): Text
    decreases fields, 0
  {
    if fields == [] then [RBRACE] else [COMMA] + (FieldText(ns, fields[0]) + RestOfFields(ns, fields[1..]))
  }

  /** What the text keeps: negative zero becomes zero, NaN and infinities null. */
  function Kept(a: Laid): Laid
    decreases a
  {
    match a
    case LNum(n) => if n.NaN? || n.Infinite? then LNull else if n.NegativeZero? then LNum(Finite(0.0)) else a
    case LArr(items) => LArr(KeptItems(items))
    case LObj(fields) => LObj(KeptFields(fields))
    case _ => a
  }

  function KeptItems(items: seq<Laid>): (kept: seq<Laid>)
    ensures |kept| == |items|
    decreases items
  {
    seq(|items|, i requires 0 <= i < |items| => Kept(items[i]))
  }

  function KeptFields(fields: seq<Field>): (kept: seq<Field>)
    ensures |kept| == |fields|
    decreases fields
  {
    seq(|fields|, i requires 0 <= i < |fields| => KeptField(fields[i]))
  }

  function KeptField(f: Field): Field
    decreases f
  {
    Field(f.name, Kept(f.value))
  }

  // ---- the text determines what it keeps ----

  /** What can follow a value inside a text. */
  predicate Ends(x: Text) { x == [] || x[0] == COMMA || x[0] == RBRACKET || x[0] == RBRACE }

  /** The unit a text starts with. */
  function Head(t: Text): int { if t == [] then -1 else t[0] }

  lemma HeadOf(a: Text, x: Text)
    requires a != []
    ensures Head(a + x) == a[0]
  {}

  lemma Base16(u: int)
    ensures u == u / 16 * 16 + u % 16
    ensures u / 0x100 == u / 16 / 16 && u / 0x1000 == u / 0x100 / 16
  {}

  lemma HexEscapeInjective(u: Unit, v: Unit)
    requires HexEscape(u) == HexEscape(v)
    ensures u == v
  {
    var a, b := HexEscape(u), HexEscape(v);
    assert forall k :: 2 <= k < 6 ==> HexDigit(a[k]) == HexDigit(b[k]);
    assert HexDigit(a[2]) == u / 0x1000 && HexDigit(a[3]) == u / 0x100 % 16 && HexDigit(a[4]) == u / 16 % 16 && HexDigit(a[5]) == u % 16;
    assert HexDigit(b[2]) == v / 0x1000 && HexDigit(b[3]) == v / 0x100 % 16 && HexDigit(b[4]) == v / 16 % 16 && HexDigit(b[5]) == v % 16;
    hide HexEscape, HexDigit;
    FourDigits(u);
    FourDigits(v);
  }

  lemma FourDigits(u: Unit)
    ensures u == ((u / 0x1000 * 16 + u / 0x100 % 16) * 16 + u / 16 % 16) * 16 + u % 16
  {
    Base16(u);
    Base16(u / 16);
    Base16(u / 0x100);
  }

  /** First characters that start alike are alike. */
  lemma FirstRead(s: Text, t: Text, p: Text, q: Text)
    requires s != [] && t != [] && First(s) + p == First(t) + q
    ensures Width(s) == Width(t) && s[..Width(s)] == t[..Width(t)] && p == q
  {
    var a, b := First(s), First(t);
    var whole := a + p;
    assert whole[0] == a[0] == b[0];
    if a[0] == BACKSLASH {
      assert whole[1] == a[1] && whole[1] == b[1];
      FirstEscaped(s);
      FirstEscaped(t);
      assert |a| == |b|;
    } else {
      FirstPlain(s);
      FirstPlain(t);
      assert |a| == |b|;
    }
    assert a == whole[..|a|] && b == whole[..|b|] && p == whole[|a|..] && q == whole[|b|..];
    SameFirst(s, t);
  }

  lemma FirstEscaped(s: Text)
    requires s != [] && First(s)[0] == BACKSLASH
    ensures Width(s) == 1 && |First(s)| == if First(s)[1] == LOWER_U then 6 else 2
    ensures First(s)[1] != LOWER_U ==> First(s)[1] == Canonical.EscapeLetter(s[0])
    ensures First(s)[1] == LOWER_U ==> First(s) == HexEscape(s[0])
  {}

  lemma FirstPlain(s: Text)
    requires s != [] && First(s)[0] != BACKSLASH
    ensures First(s) == s[..Width(s)] && (|First(s)| == 2 <==> IsHigh(First(s)[0])) && First(s)[0] != QUOTE
  {}

  lemma SameFirst(s: Text, t: Text)
    requires s != [] && t != [] && First(s) == First(t)
    ensures Width(s) == Width(t) && s[..Width(s)] == t[..Width(t)]
  {
    if First(s)[0] == BACKSLASH {
      FirstEscaped(s);
      FirstEscaped(t);
      if First(s)[1] == LOWER_U {
        HexEscapeInjective(s[0], t[0]);
      } else {
        assert ShortEscape(First(s)[1]) == s[0] && ShortEscape(First(t)[1]) == t[0];
      }
      hide First;
      assert s[..1] == t[..1];
    } else {
      FirstPlain(s);
      FirstPlain(t);
    }
  }

  lemma FirstIsNoQuote(s: Text, p: Text)
    requires s != []
    ensures Head(First(s) + p) != QUOTE
  {
    if First(s)[0] != BACKSLASH { FirstPlain(s); }
  }

  lemma {:induction false} StringRead(s: Text, t: Text, x: Text, y: Text)
    requires StringText(s) + x == StringText(t) + y
    ensures s == t && x == y
    decreases |s|
  {
    hide First;
    if s == [] || t == [] {
      if s != [] { StringStarts(s, x); }
      if t != [] { StringStarts(t, y); }
      assert ([QUOTE] + x)[1..] == x && ([QUOTE] + y)[1..] == y;
    } else {
      var u, v := s[Width(s)..], t[Width(t)..];
      StringSplit(s, x);
      StringSplit(t, y);
      FirstRead(s, t, StringText(u) + x, StringText(v) + y);
      StringRead(u, v, x, y);
      assert s == s[..Width(s)] + u && t == t[..Width(t)] + v;
    }
  }

  lemma StringSplit(s: Text, x: Text)
    requires s != []
    ensures StringText(s) + x == First(s) + (StringText(s[Width(s)..]) + x)
  {}

  lemma StringStarts(s: Text, x: Text)
    requires s != []
    ensures Head(StringText(s) + x) != QUOTE
  {
    StringSplit(s, x);
    FirstIsNoQuote(s, StringText(s[Width(s)..]) + x);
  }

  lemma NoLonger(a: Text, b: Text, x: Text, y: Text)
    requires NumberText(b) && Ends(x) && a + x == b + y
    ensures |b| <= |a|
  {
    assert forall k :: 0 <= k < |b| ==> NumberUnit((b + y)[k]);
    assert x != [] ==> (a + x)[|a|] == x[0];
    assert |a + x| == |a| + |x| && |b + y| == |b| + |y|;
  }

  lemma NumberRead(a: Text, b: Text, x: Text, y: Text)
    requires NumberText(a) && NumberText(b) && Ends(x) && Ends(y) && a + x == b + y
    ensures a == b && x == y
  {
    NoLonger(a, b, x, y);
    NoLonger(b, a, y, x);
    var whole := a + x;
    assert a == whole[..|a|] && b == whole[..|b|] && x == whole[|a|..] && y == whole[|b|..];
  }

  // ---- values, read from the front ----

  lemma StartOf(ns: Numbers, a: Laid)
    requires Distinguishes(ns) && WithNumbers(ns, a)
    ensures TextOf(ns, a) != []
    ensures var h := TextOf(ns, a)[0];
            match Kept(a)
            case LNull => TextOf(ns, a) == NULL
            case LBool(b) => TextOf(ns, a) == if b then TRUE else FALSE
            case LNum(n) => n.Finite? && ns.isNumber(n.x) && TextOf(ns, a) == ns.show(n.x)
            case LStr(_) => h == QUOTE
            case LArr(_) => h == LBRACKET
            case LObj(_) => h == LBRACE
  {
    hide StringText, RestOfItems, FieldText, RestOfFields;
  }

  lemma NumberStart(t: Text)
    requires NumberText(t)
    ensures IsDigit(t[0]) || t[0] == MINUS
  {}

  /** Equal starts: values of one kind. */
  lemma SameKind(ns: Numbers, a: Laid, b: Laid)
    requires Distinguishes(ns) && WithNumbers(ns, a) && WithNumbers(ns, b)
    requires Head(TextOf(ns, a)) == Head(TextOf(ns, b))
    ensures var k, l := Kept(a), Kept(b);
            && (k.LNull? <==> l.LNull?) && (k.LBool? <==> l.LBool?) && (k.LBool? ==> k.b == l.b) && (k.LNum? <==> l.LNum?)
            && (k.LStr? <==> l.LStr?) && (k.LArr? <==> l.LArr?) && (k.LObj? <==> l.LObj?)
  {
    StartOf(ns, a);
    StartOf(ns, b);
    if Kept(a).LNum? { NumberStart(TextOf(ns, a)); }
    if Kept(b).LNum? { NumberStart(TextOf(ns, b)); }
    hide TextOf, Kept, NumberText, WithNumbers, Distinguishes;
  }

  lemma Split(a: Text, b: Text, x: Text)
    ensures a + b + x == a + (b + x) && (a + b) + x == a + (b + x)
  {}

  lemma HeadAndRest(u: Unit, v: Unit, x: Text, y: Text)
    requires [u] + x == [v] + y
    ensures u == v && x == y
  {
    assert ([u] + x)[0] == u && ([v] + y)[0] == v;
    assert ([u] + x)[1..] == x && ([v] + y)[1..] == y;
  }

  lemma SameTextSameRest(a: Text, x: Text, y: Text)
    requires a + x == a + y
    ensures x == y
  {
    assert (a + x)[|a|..] == x && (a + y)[|a|..] == y;
  }

  /** Two texts that go on from values: the values keep the same, and so do the
      texts go on. */
  lemma {:induction false} ValueRead(ns: Numbers, a: Laid, b: Laid, x: Text, y: Text)
    requires Distinguishes(ns) && WithNumbers(ns, a) && WithNumbers(ns, b) && Ends(x) && Ends(y)
    requires TextOf(ns, a) + x == TextOf(ns, b) + y
    ensures Kept(a) == Kept(b) && x == y
    decreases a, 1
  {
    StartOf(ns, a);
    StartOf(ns, b);
    HeadOf(TextOf(ns, a), x);
    HeadOf(TextOf(ns, b), y);
    SameKind(ns, a, b);
    hide Ends;
    match Kept(a)
    case LNull => hide TextOf, Kept; SameTextSameRest(NULL, x, y);
    case LBool(t) => hide TextOf, Kept; SameTextSameRest(if t then TRUE else FALSE, x, y);
    case LNum(n) => hide TextOf; NumberRead(ns.show(n.x), ns.show(Kept(b).n.x), x, y);
    case LStr(_) => StringValueRead(ns, a, b, x, y);
    case LArr(_) => ArrayRead(ns, a, b, x, y);
    case LObj(_) => ObjectRead(ns, a, b, x, y);
  }

  lemma StringValueRead(ns: Numbers, a: Laid, b: Laid, x: Text, y: Text)
    requires a.LStr? && b.LStr? && TextOf(ns, a) + x == TextOf(ns, b) + y
    ensures a == b && x == y
  {
    hide StringText;
    Split([QUOTE], StringText(a.s), x);
    Split([QUOTE], StringText(b.s), y);
    HeadAndRest(QUOTE, QUOTE, StringText(a.s) + x, StringText(b.s) + y);
    StringRead(a.s, b.s, x, y);
  }

  lemma NoClosing(ns: Numbers, a: Laid, x: Text)
    requires Distinguishes(ns) && WithNumbers(ns, a)
    ensures Head(TextOf(ns, a) + x) != RBRACKET
  {
    StartOf(ns, a);
    HeadOf(TextOf(ns, a), x);
    if Kept(a).LNum? { NumberStart(TextOf(ns, a)); }
  }

  /** An array after its opening bracket. */
  function ItemsText(ns: Numbers, items: seq<Laid>): Text {
    if items == [] then [RBRACKET] else TextOf(ns, items[0]) + RestOfItems(ns, items[1..])
  }

  predicate AllNumbers(ns: Numbers, items: seq<Laid>) { forall i :: 0 <= i < |items| ==> WithNumbers(ns, items[i]) }

  predicate SameKept(items: seq<Laid>, others: seq<Laid>) {
    |items| == |others| && forall i :: 0 <= i < |items| ==> Kept(items[i]) == Kept(others[i])
  }

  lemma RestEnds(ns: Numbers, items: seq<Laid>, x: Text)
    ensures Ends(RestOfItems(ns, items) + x)
    ensures Head(RestOfItems(ns, items) + x) == if items == [] then RBRACKET else COMMA
    ensures items != [] ==> RestOfItems(ns, items) + x == [COMMA] + (ItemsText(ns, items) + x)
    ensures items == [] ==> RestOfItems(ns, items) + x == [RBRACKET] + x
  {
    if items != [] { Split([COMMA], ItemsText(ns, items), x); }
  }

  lemma SameKeptCons(items: seq<Laid>, others: seq<Laid>)
    requires items != [] && others != [] && Kept(items[0]) == Kept(others[0]) && SameKept(items[1..], others[1..])
    ensures SameKept(items, others)
  {
    hide Kept;
    forall i | 0 <= i < |items| ensures Kept(items[i]) == Kept(others[i]) {
      if i > 0 { assert items[1..][i - 1] == items[i] && others[1..][i - 1] == others[i]; }
    }
  }

  lemma {:induction false} RestRead(ns: Numbers, items: seq<Laid>, others: seq<Laid>, x: Text, y: Text)
    requires Distinguishes(ns) && AllNumbers(ns, items) && AllNumbers(ns, others) && Ends(x) && Ends(y)
    requires RestOfItems(ns, items) + x == RestOfItems(ns, others) + y
    ensures SameKept(items, others) && x == y
    decreases items, 3
  {
    RestEnds(ns, items, x);
    RestEnds(ns, others, y);
    hide RestOfItems, ItemsText, AllNumbers, Kept, Distinguishes, Ends;
    if items == [] {
      HeadAndRest(RBRACKET, RBRACKET, x, y);
    } else {
      HeadAndRest(COMMA, COMMA, ItemsText(ns, items) + x, ItemsText(ns, others) + y);
      ItemsRead(ns, items, others, x, y);
    }
  }

  lemma {:induction false} ItemsRead(ns: Numbers, items: seq<Laid>, others: seq<Laid>, x: Text, y: Text)
    requires Distinguishes(ns) && AllNumbers(ns, items) && AllNumbers(ns, others) && Ends(x) && Ends(y)
    requires ItemsText(ns, items) + x == ItemsText(ns, others) + y
    ensures SameKept(items, others) && x == y
    decreases items, 2
  {
    hide RestOfItems, TextOf, Kept, Distinguishes, Ends, WithNumbers;
    if items == [] || others == [] {
      if items != [] {
        Split(TextOf(ns, items[0]), RestOfItems(ns, items[1..]), x);
        NoClosing(ns, items[0], RestOfItems(ns, items[1..]) + x);
      }
      if others != [] {
        Split(TextOf(ns, others[0]), RestOfItems(ns, others[1..]), y);
        NoClosing(ns, others[0], RestOfItems(ns, others[1..]) + y);
      }
      HeadAndRest(RBRACKET, RBRACKET, x, y);
    } else {
      Split(TextOf(ns, items[0]), RestOfItems(ns, items[1..]), x);
      Split(TextOf(ns, others[0]), RestOfItems(ns, others[1..]), y);
      RestEnds(ns, items[1..], x);
      RestEnds(ns, others[1..], y);
      ValueRead(ns, items[0], others[0], RestOfItems(ns, items[1..]) + x, RestOfItems(ns, others[1..]) + y);
      RestRead(ns, items[1..], others[1..], x, y);
      SameKeptCons(items, others);
    }
  }

  lemma {:induction false} ArrayRead(ns: Numbers, a: Laid, b: Laid, x: Text, y: Text)
    requires a.LArr? && b.LArr?
    requires Distinguishes(ns) && WithNumbers(ns, a) && WithNumbers(ns, b) && Ends(x) && Ends(y)
    requires TextOf(ns, a) + x == TextOf(ns, b) + y
    ensures Kept(a) == Kept(b) && x == y
    decreases a, 0
  {
    Split([LBRACKET], ItemsText(ns, a.items), x);
    Split([LBRACKET], ItemsText(ns, b.items), y);
    HeadAndRest(LBRACKET, LBRACKET, ItemsText(ns, a.items) + x, ItemsText(ns, b.items) + y);
    hide ItemsText, Ends;
    ItemsRead(ns, a.items, b.items, x, y);
  }

  // ---- objects ----

  function FieldsText(ns: Numbers, fields: seq<Field>): Text {
    if fields == [] then [RBRACE] else FieldText(ns, fields[0]) + RestOfFields(ns, fields[1..])
  }

  predicate AllFieldNumbers(ns: Numbers, fields: seq<Field>) { forall i :: 0 <= i < |fields| ==> WithNumbers(ns, fields[i].value) }

  predicate SameFields(fields: seq<Field>, others: seq<Field>) {
    |fields| == |others| && forall i :: 0 <= i < |fields| ==> KeptField(fields[i]) == KeptField(others[i])
  }

  lemma FieldsEnd(ns: Numbers, fields: seq<Field>, x: Text)
    ensures Ends(RestOfFields(ns, fields) + x)
    ensures Head(RestOfFields(ns, fields) + x) == if fields == [] then RBRACE else COMMA
    ensures fields != [] ==> RestOfFields(ns, fields) + x == [COMMA] + (FieldsText(ns, fields) + x)
    ensures fields == [] ==> RestOfFields(ns, fields) + x == [RBRACE] + x
  {
    if fields != [] { Split([COMMA], FieldsText(ns, fields), x); }
  }

  lemma SameFieldsCons(fields: seq<Field>, others: seq<Field>)
    requires fields != [] && others != [] && KeptField(fields[0]) == KeptField(others[0]) && SameFields(fields[1..], others[1..])
    ensures SameFields(fields, others)
  {
    hide KeptField;
    forall i | 0 <= i < |fields| ensures KeptField(fields[i]) == KeptField(others[i]) {
      if i > 0 { assert fields[1..][i - 1] == fields[i] && others[1..][i - 1] == others[i]; }
    }
  }

  lemma FieldSplit(ns: Numbers, f: Field, x: Text)
    ensures FieldText(ns, f) + x == [QUOTE] + (StringText(f.name) + ([COLON] + (TextOf(ns, f.value) + x)))
  {
    hide StringText, TextOf;
    var value := TextOf(ns, f.value);
    Split([QUOTE], StringText(f.name) + ([COLON] + value), x);
    Split(StringText(f.name), [COLON] + value, x);
    Split([COLON], value, x);
  }

  lemma {:induction false} FieldRead(ns: Numbers, f: Field, g: Field, x: Text, y: Text)
    requires Distinguishes(ns) && WithNumbers(ns, f.value) && WithNumbers(ns, g.value) && Ends(x) && Ends(y)
    requires FieldText(ns, f) + x == FieldText(ns, g) + y
    ensures KeptField(f) == KeptField(g) && x == y
    decreases f, 4
  {
    FieldSplit(ns, f, x);
    FieldSplit(ns, g, y);
    hide FieldText, StringText, TextOf, Kept, Distinguishes, Ends, WithNumbers;
    var u, v := [COLON] + (TextOf(ns, f.value) + x), [COLON] + (TextOf(ns, g.value) + y);
    HeadAndRest(QUOTE, QUOTE, StringText(f.name) + u, StringText(g.name) + v);
    StringRead(f.name, g.name, u, v);
    HeadAndRest(COLON, COLON, TextOf(ns, f.value) + x, TextOf(ns, g.value) + y);
    ValueRead(ns, f.value, g.value, x, y);
  }

  lemma {:induction false} RestFieldsRead(ns: Numbers, fields: seq<Field>, others: seq<Field>, x: Text, y: Text)
    requires Distinguishes(ns) && AllFieldNumbers(ns, fields) && AllFieldNumbers(ns, others) && Ends(x) && Ends(y)
    requires RestOfFields(ns, fields) + x == RestOfFields(ns, others) + y
    ensures SameFields(fields, others) && x == y
    decreases fields, 3
  {
    FieldsEnd(ns, fields, x);
    FieldsEnd(ns, others, y);
    hide RestOfFields, FieldsText, AllFieldNumbers, KeptField, Distinguishes, Ends;
    if fields == [] {
      HeadAndRest(RBRACE, RBRACE, x, y);
    } else {
      HeadAndRest(COMMA, COMMA, FieldsText(ns, fields) + x, FieldsText(ns, others) + y);
      FieldsRead(ns, fields, others, x, y);
    }
  }

  lemma {:induction false} FieldsRead(ns: Numbers, fields: seq<Field>, others: seq<Field>, x: Text, y: Text)
    requires Distinguishes(ns) && AllFieldNumbers(ns, fields) && AllFieldNumbers(ns, others) && Ends(x) && Ends(y)
    requires FieldsText(ns, fields) + x == FieldsText(ns, others) + y
    ensures SameFields(fields, others) && x == y
    decreases fields, 2
  {
    if fields != [] {
      Split(FieldText(ns, fields[0]), RestOfFields(ns, fields[1..]), x);
      FieldSplit(ns, fields[0], RestOfFields(ns, fields[1..]) + x);
    }
    if others != [] {
      Split(FieldText(ns, others[0]), RestOfFields(ns, others[1..]), y);
      FieldSplit(ns, others[0], RestOfFields(ns, others[1..]) + y);
    }
    hide RestOfFields, FieldText, TextOf, StringText, KeptField, Distinguishes, Ends, WithNumbers;
    assert Head(FieldsText(ns, fields) + x) == if fields == [] then RBRACE else QUOTE;
    assert Head(FieldsText(ns, others) + y) == if others == [] then RBRACE else QUOTE;
    if fields == [] {
      HeadAndRest(RBRACE, RBRACE, x, y);
    } else {
      FieldsEnd(ns, fields[1..], x);
      FieldsEnd(ns, others[1..], y);
      FieldRead(ns, fields[0], others[0], RestOfFields(ns, fields[1..]) + x, RestOfFields(ns, others[1..]) + y);
      RestFieldsRead(ns, fields[1..], others[1..], x, y);
      SameFieldsCons(fields, others);
    }
  }

  lemma {:induction false} ObjectRead(ns: Numbers, a: Laid, b: Laid, x: Text, y: Text)
    requires a.LObj? && b.LObj?
    requires Distinguishes(ns) && WithNumbers(ns, a) && WithNumbers(ns, b) && Ends(x) && Ends(y)
    requires TextOf(ns, a) + x == TextOf(ns, b) + y
    ensures Kept(a) == Kept(b) && x == y
    decreases a, 0
  {
    Split([LBRACE], FieldsText(ns, a.fields), x);
    Split([LBRACE], FieldsText(ns, b.fields), y);
    HeadAndRest(LBRACE, LBRACE, FieldsText(ns, a.fields) + x, FieldsText(ns, b.fields) + y);
    hide FieldsText, Ends;
    FieldsRead(ns, a.fields, b.fields, x, y);
  }

  // ---- and nothing else ----

  lemma {:induction false} KeptText(ns: Numbers, a: Laid)
    ensures TextOf(ns, Kept(a)) == TextOf(ns, a)
    decreases a, 1
  {
    match a
    case LArr(items) =>
      if items != [] {
        KeptText(ns, items[0]);
        KeptRest(ns, items[1..]);
        assert KeptItems(items)[1..] == KeptItems(items[1..]);
      }
    case LObj(fields) =>
      if fields != [] {
        KeptFieldText(ns, fields[0]);
        KeptRestFields(ns, fields[1..]);
        assert KeptFields(fields)[1..] == KeptFields(fields[1..]);
      }
    case _ =>
  }

  lemma {:induction false} KeptRest(ns: Numbers, items: seq<Laid>)
    ensures RestOfItems(ns, KeptItems(items)) == RestOfItems(ns, items)
    decreases items, 0
  {
    if items != [] {
      hide TextOf, Kept;
      KeptText(ns, items[0]);
      KeptRest(ns, items[1..]);
      assert KeptItems(items)[1..] == KeptItems(items[1..]);
    }
  }

  lemma {:induction false} KeptFieldText(ns: Numbers, f: Field)
    ensures FieldText(ns, KeptField(f)) == FieldText(ns, f)
    decreases f, 2
  {
    KeptText(ns, f.value);
  }

  lemma {:induction false} KeptRestFields(ns: Numbers, fields: seq<Field>)
    ensures RestOfFields(ns, KeptFields(fields)) == RestOfFields(ns, fields)
    decreases fields, 0
  {
    if fields != [] {
      hide FieldText, KeptField;
      KeptFieldText(ns, fields[0]);
      KeptRestFields(ns, fields[1..]);
      assert KeptFields(fields)[1..] == KeptFields(fields[1..]);
    }
  }

  /** Two laid-out values have one text exactly when they keep the same. */
  lemma TextExactly(ns: Numbers, a: Laid, b: Laid)
    requires Distinguishes(ns) && WithNumbers(ns, a) && WithNumbers(ns, b)
    ensures TextOf(ns, a) == TextOf(ns, b) <==> Kept(a) == Kept(b)
  {
    if TextOf(ns, a) == TextOf(ns, b) {
      ValueRead(ns, a, b, [], []);
    } else {
      KeptText(ns, a);
      KeptText(ns, b);
    }
  }

  // ---- what it says about the values ----

  /** The values of the members, as kept. */
  function PlainValues(fields: seq<Field>): (values: seq<Value>)
    requires forall i :: 0 <= i < |fields| ==> Distinct(fields[i].value)
    ensures |values| == |fields| && forall i :: 0 <= i < |fields| ==> values[i] == Plainly(ValueOf(fields[i].value))
  {
    seq(|fields|, i requires 0 <= i < |fields| => Plainly(ValueOf(fields[i].value)))
  }

  lemma MembersListed(a: Laid)
    requires Distinct(a) && a.LObj?
    ensures Plainly(ValueOf(a)).Obj? && Listed(Plainly(ValueOf(a)).members, Names(a.fields), PlainValues(a.fields))
  {
    var f := a.fields;
    var names := Names(f);
    var values := seq(|f|, i requires 0 <= i < |f| => ValueOf(f[i].value));
    FromListHolds(names, values);
    var m := FromList(names, values);
    assert ValueOf(a) == Obj(m);
    hide ValueOf, FromList, Names;
    PlainListed(m, names, values);
    hide Plainly;
    assert forall i :: 0 <= i < |f| ==> PlainValues(f)[i] == Plainly(values[i]);
  }

  lemma PlainListed(m: map<Text, Value>, names: seq<Text>, values: seq<Value>)
    requires Listed(m, names, values)
    ensures Plainly(Obj(m)).Obj?
    ensures forall i :: 0 <= i < |names| ==> names[i] in Plainly(Obj(m)).members && Plainly(Obj(m)).members[names[i]] == Plainly(values[i])
    ensures forall k :: k in Plainly(Obj(m)).members ==> k in names
  {}

  /** One value in one order: nothing else is kept. */
  lemma {:induction false} KeptExactly(a: Laid, b: Laid)
    requires Distinct(a) && Distinct(b)
    ensures Kept(a) == Kept(b) <==> Plainly(ValueOf(a)) == Plainly(ValueOf(b)) && SameOrder(a, b)
    decreases a
  {
    hide Kept, Plainly, ValueOf, SameOrder, Distinct;
    if a.LArr? && b.LArr? {
      ArraysKept(a, b);
    } else if a.LObj? && b.LObj? {
      ObjectsKept(a, b);
    } else {
      OthersKept(a, b);
    }
  }

  lemma OthersKept(a: Laid, b: Laid)
    requires Distinct(a) && Distinct(b) && !(a.LArr? && b.LArr?) && !(a.LObj? && b.LObj?)
    ensures Kept(a) == Kept(b) <==> Plainly(ValueOf(a)) == Plainly(ValueOf(b)) && SameOrder(a, b)
  {
    hide KeptItems, KeptFields, FromList, Distinct;
  }

  /** The parts of an array, in place: as kept, and as values. */
  lemma ArrayParts(a: Laid)
    requires a.LArr? && Distinct(a)
    ensures Kept(a).LArr? && Plainly(ValueOf(a)).Arr? && |Kept(a).items| == |a.items| == |Plainly(ValueOf(a)).items|
    ensures forall i :: 0 <= i < |a.items| ==> Kept(a).items[i] == Kept(a.items[i])
    ensures forall i :: 0 <= i < |a.items| ==> Plainly(ValueOf(a)).items[i] == Plainly(ValueOf(a.items[i]))
  {}

  lemma {:induction false} ArraysKept(a: Laid, b: Laid)
    requires a.LArr? && b.LArr? && Distinct(a) && Distinct(b)
    ensures Kept(a) == Kept(b) <==> Plainly(ValueOf(a)) == Plainly(ValueOf(b)) && SameOrder(a, b)
    decreases a, 0
  {
    ArrayParts(a);
    ArrayParts(b);
    hide Kept, Plainly, ValueOf, Distinct;
    if |a.items| == |b.items| {
      forall i | 0 <= i < |a.items|
        ensures Kept(a.items[i]) == Kept(b.items[i])
           <==> Plainly(ValueOf(a.items[i])) == Plainly(ValueOf(b.items[i])) && SameOrder(a.items[i], b.items[i])
      {
        KeptExactly(a.items[i], b.items[i]);
      }
      if Kept(a) == Kept(b) { assert Plainly(ValueOf(a)).items == Plainly(ValueOf(b)).items; }
      if Plainly(ValueOf(a)) == Plainly(ValueOf(b)) && SameOrder(a, b) { assert Kept(a).items == Kept(b).items; }
    }
  }

  lemma {:induction false} ObjectsKept(a: Laid, b: Laid)
    requires a.LObj? && b.LObj? && Distinct(a) && Distinct(b)
    ensures Kept(a) == Kept(b) <==> Plainly(ValueOf(a)) == Plainly(ValueOf(b)) && SameOrder(a, b)
    decreases a, 0
  {
    var f, g := a.fields, b.fields;
    if |f| == |g| && Names(f) == Names(g) {
      hide ValueOf, Plainly, Kept, SameOrder, Names;
      forall i | 0 <= i < |f|
        ensures Kept(f[i].value) == Kept(g[i].value)
           <==> Plainly(ValueOf(f[i].value)) == Plainly(ValueOf(g[i].value)) && SameOrder(f[i].value, g[i].value)
      {
        KeptExactly(f[i].value, g[i].value);
      }
      KeptObjects(a, b);
      PlainObjects(a, b);
      OrderOfFields(a, b);
    } else {
      NamesDiffer(a, b);
    }
  }

  lemma KeptObjects(a: Laid, b: Laid)
    requires a.LObj? && b.LObj? && |a.fields| == |b.fields| && Names(a.fields) == Names(b.fields)
    ensures Kept(a) == Kept(b) <==> forall i :: 0 <= i < |a.fields| ==> Kept(a.fields[i].value) == Kept(b.fields[i].value)
  {
    FieldsKept(a.fields, b.fields);
    hide KeptFields, Names;
  }

  lemma PlainObjects(a: Laid, b: Laid)
    requires a.LObj? && b.LObj? && |a.fields| == |b.fields| && Names(a.fields) == Names(b.fields) && Distinct(a) && Distinct(b)
    ensures Plainly(ValueOf(a)) == Plainly(ValueOf(b))
       <==> forall i :: 0 <= i < |a.fields| ==> Plainly(ValueOf(a.fields[i].value)) == Plainly(ValueOf(b.fields[i].value))
  {
    var f, g := a.fields, b.fields;
    MembersListed(a);
    MembersListed(b);
    PlainValuesSame(f, g);
    hide ValueOf, Plainly, PlainValues, Names, Listed;
    ListedExactly(Plainly(ValueOf(a)).members, Plainly(ValueOf(b)).members, Names(f), PlainValues(f), PlainValues(g));
  }

  lemma PlainValuesSame(f: seq<Field>, g: seq<Field>)
    requires |f| == |g| && (forall i :: 0 <= i < |f| ==> Distinct(f[i].value)) && forall i :: 0 <= i < |g| ==> Distinct(g[i].value)
    ensures PlainValues(f) == PlainValues(g) <==> forall i :: 0 <= i < |f| ==> Plainly(ValueOf(f[i].value)) == Plainly(ValueOf(g[i].value))
  {
    hide ValueOf, Plainly, Distinct;
    var u, w := PlainValues(f), PlainValues(g);
    if u == w {
      forall i | 0 <= i < |f| ensures Plainly(ValueOf(f[i].value)) == Plainly(ValueOf(g[i].value)) { assert u[i] == w[i]; }
    }
  }

  lemma OrderOfFields(a: Laid, b: Laid)
    requires a.LObj? && b.LObj? && |a.fields| == |b.fields| && Names(a.fields) == Names(b.fields)
    ensures SameOrder(a, b) <==> forall i :: 0 <= i < |a.fields| ==> SameOrder(a.fields[i].value, b.fields[i].value)
  {
    assert forall i :: 0 <= i < |a.fields| ==> Names(a.fields)[i] == a.fields[i].name && Names(b.fields)[i] == b.fields[i].name;
  }

  lemma NamesDiffer(a: Laid, b: Laid)
    requires a.LObj? && b.LObj? && (|a.fields| != |b.fields| || Names(a.fields) != Names(b.fields))
    ensures !SameOrder(a, b) && Kept(a) != Kept(b)
  {
    if |a.fields| == |b.fields| { FieldsKept(a.fields, b.fields); }
  }

  lemma FieldsKept(f: seq<Field>, g: seq<Field>)
    requires |f| == |g|
    ensures KeptFields(f) == KeptFields(g)
       <==> Names(f) == Names(g) && forall i :: 0 <= i < |f| ==> Kept(f[i].value) == Kept(g[i].value)
  {
    hide Kept;
    var k, l := KeptFields(f), KeptFields(g);
    assert forall i :: 0 <= i < |f| ==> k[i] == KeptField(f[i]) && l[i] == KeptField(g[i]);
    if k == l {
      assert forall i :: 0 <= i < |f| ==> k[i].name == f[i].name && l[i].name == g[i].name;
      assert forall i :: 0 <= i < |f| ==> k[i].value == Kept(f[i].value) && l[i].value == Kept(g[i].value);
      assert Names(f) == Names(g);
    }
    if Names(f) == Names(g) {
      assert forall i :: 0 <= i < |f| ==> Names(f)[i] == f[i].name && Names(g)[i] == g[i].name;
    }
  }

  /** Two values are written alike exactly when they are equal, apart from what
      the text does not keep, and list the members of their objects in one order. */
  lemma WrittenAlikeExactly(ns: Numbers, a: Laid, b: Laid)
    requires Distinguishes(ns) && WithNumbers(ns, a) && WithNumbers(ns, b) && Distinct(a) && Distinct(b)
    ensures TextOf(ns, a) == TextOf(ns, b) <==> Plainly(ValueOf(a)) == Plainly(ValueOf(b)) && SameOrder(a, b)
  {
    hide *;
    TextExactly(ns, a, b);
    KeptExactly(a, b);
  }

  /** One value in two orders has two texts. */
  lemma OrderTells(ns: Numbers)
    requires Distinguishes(ns)
    ensures var x, y := Field([0x78], LNull), Field([0x79], LNull);
            && Distinct(LObj([x, y])) && Distinct(LObj([y, x]))
            && ValueOf(LObj([x, y])) == ValueOf(LObj([y, x])) && TextOf(ns, LObj([x, y])) != TextOf(ns, LObj([y, x]))
  {
    var x, y := Field([0x78], LNull), Field([0x79], LNull);
    var a, b := LObj([x, y]), LObj([y, x]);
    LayTwo(x, y);
    LayTwo(y, x);
    assert ValueOf(a) == ValueOf(b);
    assert a.fields[0].name != b.fields[0].name;
    assert !SameOrder(a, b);
    hide TextOf, ValueOf, SameOrder;
    WrittenAlikeExactly(ns, a, b);
  }

  lemma LayTwo(x: Field, y: Field)
    requires x.value == LNull && y.value == LNull && x.name != y.name
    ensures Distinct(LObj([x, y])) && ValueOf(LObj([x, y])) == Obj(map[x.name := Null, y.name := Null])
  {
    var f := [x, y];
    var names, values := Names(f), seq(2, i requires 0 <= i < 2 => ValueOf(f[i].value));
    assert names == [x.name, y.name] && values == [Null, Null];
    assert names[..1] == [x.name] && values[..1] == [Null];
    assert [x.name][..0] == [] && [Null][..0] == [];
    assert FromList([x.name], [Null]) == map[x.name := Null];
  }
}
