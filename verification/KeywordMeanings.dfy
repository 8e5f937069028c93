/** What each keyword of the schema interpreter asks, in the words of JSON Schema. */
module KeywordMeanings {
  import opened CodeUnits
  import opened Json
  import opened LaidJson
  import opened SchemaValidation

  // ---- numbers ----

  /** Minus infinity, the reals and infinity, as a pair ordered first by the sign of
      the infinite. */
  function Side(n: Number): int { if n == Infinite(true) then -1 else if n == Infinite(false) then 1 else 0 }

  function Amount(n: Number): real { if n.Finite? then n.x else 0.0 }

  /** a < b, which NaN never is. */
  predicate Less(a: Number, b: Number) {
    !a.NaN? && !b.NaN? && (Side(a) < Side(b) || (Side(a) == Side(b) && Amount(a) < Amount(b)))
  }

  lemma BelowExactly(a: Number, b: Number)
    ensures Below(a, b) <==> Less(a, b)
  {}

  predicate HasNumberFor(m: Members, keyword: Text, n: Number) { keyword in m && m[keyword] == LNum(n) }

  /** A value is at least the minimum and at most the maximum, where those are numbers. */
  lemma BoundsExactly(m: Members, n: Number)
    ensures AtLeastMinimum(m, n) <==> forall least :: HasNumberFor(m, Lit("minimum"), least) ==> !Less(n, least)
    ensures AtMostMaximum(m, n) <==> forall most :: HasNumberFor(m, Lit("maximum"), most) ==> !Less(most, n)
  {
    assert MINIMUM == Lit("minimum") && MAXIMUM == Lit("maximum");
    hide MINIMUM, MAXIMUM, Below, Less;
    if MINIMUM in m && m[MINIMUM].LNum? {
      BelowExactly(n, m[MINIMUM].n);
      assert HasNumberFor(m, MINIMUM, m[MINIMUM].n);
    }
    if MAXIMUM in m && m[MAXIMUM].LNum? {
      BelowExactly(m[MAXIMUM].n, n);
      assert HasNumberFor(m, MAXIMUM, m[MAXIMUM].n);
    }
  }

  // ---- strings ----

  /** A string has at least minLength code units, where that is a number. */
  lemma LengthExactly(m: Members, s: Text)
    ensures LongEnough(m, s) <==> forall least :: HasNumberFor(m, Lit("minLength"), least) ==> !Less(Finite(|s| as real), least)
  {
    assert MIN_LENGTH == Lit("minLength");
    hide MIN_LENGTH, Below, Less;
    if MIN_LENGTH in m && m[MIN_LENGTH].LNum? {
      BelowExactly(Finite(|s| as real), m[MIN_LENGTH].n);
      assert HasNumberFor(m, MIN_LENGTH, m[MIN_LENGTH].n);
    }
  }

  predicate HasText(m: Members, keyword: Text, t: Text) { keyword in m && m[keyword] == LStr(t) }

  /** Where pattern is a string, it compiles and matches. */
  lemma PatternExactly(rt: Runtime, m: Members, s: Text)
    ensures Matches(rt, m, s) <==> forall pattern :: HasText(m, Lit("pattern"), pattern) ==> rt.test(pattern, s) == Some(true)
    ensures Compiles(rt, m, s) <==> forall pattern :: HasText(m, Lit("pattern"), pattern) ==> rt.test(pattern, s) != None
  {
    assert PATTERN == Lit("pattern");
    hide PATTERN;
    if PATTERN in m && m[PATTERN].LStr? { assert HasText(m, PATTERN, m[PATTERN].s); }
  }

  /** The formats date-time and uri ask for a date and a URI. */
  lemma FormatExactly(rt: Runtime, m: Members, s: Text)
    ensures DateHolds(rt, m, s) && UriHolds(rt, m, s) <==>
            && (HasText(m, Lit("format"), Lit("date-time")) ==> rt.isDate(s))
            && (HasText(m, Lit("format"), Lit("uri")) ==> rt.isUri(s))
  {
    assert FORMAT == Lit("format");
    hide FORMAT;
  }

  // ---- types ----

  lemma TypeExactly(m: Members)
    ensures Object(m) <==> HasText(m, Lit("type"), Lit("object"))
    ensures Array(m) <==> HasText(m, Lit("type"), Lit("array"))
    ensures String(m) <==> HasText(m, Lit("type"), Lit("string"))
    ensures Integer(m) <==> HasText(m, Lit("type"), Lit("integer"))
    ensures Numeric(m) <==> HasText(m, Lit("type"), Lit("integer")) || HasText(m, Lit("type"), Lit("number"))
    ensures Boolean(m) <==> HasText(m, Lit("type"), Lit("boolean"))
  {
    assert TYPE == Lit("type");
    hide TYPE;
  }

  // ---- objects ----

  /** The parts of a text as iterating it gives them: a pair of surrogates, or a unit. */
  predicate Part(p: Text) { |p| == 1 || (|p| == 2 && IsHigh(p[0]) && IsLow(p[1])) }

  /** No pair is left apart. */
  predicate Together(parts: seq<Text>) {
    forall i :: 0 <= i < |parts| - 1 ==> !Apart(parts[i], parts[i + 1])
  }

  predicate Apart(p: Text, q: Text) { |p| == 1 && q != [] && IsHigh(p[0]) && IsLow(q[0]) }

  function Joined(parts: seq<Text>): Text { if parts == [] then [] else parts[0] + Joined(parts[1..]) }

  lemma {:induction false} CodePointsExactly(t: Text)
    ensures Joined(CodePoints(t)) == t && Together(CodePoints(t)) && forall i :: 0 <= i < |CodePoints(t)| ==> Part(CodePoints(t)[i])
    ensures t != [] ==> CodePoints(t) != [] && CodePoints(t)[0] != [] && CodePoints(t)[0][0] == t[0]
    decreases |t|
  {
    if t != [] {
      var n := if IsHigh(t[0]) && |t| >= 2 && IsLow(t[1]) then 2 else 1;
      var rest := CodePoints(t[n..]);
      CodePointsExactly(t[n..]);
      assert CodePoints(t) == [t[..n]] + rest;
      assert t == t[..n] + t[n..];
      assert ([t[..n]] + rest)[1..] == rest;
      hide CodePoints;
      TogetherMore(t[..n], rest);
    }
  }

  lemma TogetherMore(first: Text, rest: seq<Text>)
    requires Together(rest) && (rest != [] ==> !Apart(first, rest[0]))
    ensures Together([first] + rest)
  {
    hide Apart;
    var all := [first] + rest;
    forall i | 0 <= i < |all| - 1 ensures !Apart(all[i], all[i + 1]) {
      if i > 0 { assert !Apart(rest[i - 1], rest[i]); }
    }
  }

  /** The names required: none when the keyword is absent or null, each item of an
      array as a property key, each character of a string; anything else throws. */
  lemma RequiredExactly(rt: Runtime, m: Members, names: seq<Text>)
    ensures RequiredNames(rt, m) == Some(names) <==>
            var required := Lit("required");
            || ((required !in m || m[required] == LNull) && names == [])
            || (required in m && m[required].LArr? && |names| == |m[required].items|
                && forall i :: 0 <= i < |names| ==> AsKey(rt, m[required].items[i], names[i]))
            || (required in m && m[required].LStr? && names == CodePoints(m[required].s))
  {
    assert REQUIRED == Lit("required");
    hide REQUIRED, CodePoints;
    if REQUIRED in m && m[REQUIRED].LArr? {
      var keys := KeysOf(rt, m[REQUIRED].items);
      if |names| == |keys| && forall i :: 0 <= i < |names| ==> AsKey(rt, m[REQUIRED].items[i], names[i]) { assert names == keys; }
    }
  }

  /** A string is its own property key. */
  predicate AsKey(rt: Runtime, v: Laid, key: Text) { key == match v case LStr(s) => s case _ => rt.propertyKey(v) }

  /** The schema a name is declared with: a member of the object properties. */
  lemma DeclaredExactly(m: Members, name: Text)
    ensures var properties := Lit("properties");
            name in Properties(m) <==> properties in m && m[properties].LObj? && name in MembersOf(m[properties])
    ensures name in Properties(m) ==> Properties(m)[name] == MembersOf(m[Lit("properties")])[name]
  {
    assert PROPERTIES == Lit("properties");
    hide PROPERTIES;
  }

  /** Other members are refused exactly by additionalProperties false. */
  lemma ClosedExactly(m: Members)
    ensures Closed(m) <==> var additional := Lit("additionalProperties"); additional in m && m[additional] == LBool(false)
  {}
}
