/** The interpreter of the retained export schemas, and what its keywords mean. */
module SchemaValidation {
  import opened CodeUnits
  import opened Json
  import opened LaidJson
  import opened Prototypes
  import opened SchemaReferences
  import JsonPointer
  import Stringify

  const CONST: Text := Lit("const")
  const ENUM: Text := Lit("enum")
  const TYPE: Text := Lit("type")
  const PROPERTIES: Text := Lit("properties")
  const REQUIRED: Text := Lit("required")
  const ADDITIONAL: Text := Lit("additionalProperties")
  const ITEMS: Text := Lit("items")
  const MIN_LENGTH: Text := Lit("minLength")
  const PATTERN: Text := Lit("pattern")
  const FORMAT: Text := Lit("format")
  const MINIMUM: Text := Lit("minimum")
  const MAXIMUM: Text := Lit("maximum")

  /** What the interpreter asks of the runtime: its Numbers and how it writes them,
      the property key of a value that is no string, a regular expression's verdict
      (None when it does not compile), Date.parse and the URL constructor. */
  datatype Runtime = Runtime(
    numbers: Stringify.Numbers,
    propertyKey: Laid -> Text,
    test: (Text, Text) -> Option<bool>,
    isDate: Text -> bool,
    isUri: Text -> bool)

  /** JSON.stringify */
  function Written(rt: Runtime, v: Laid): Text { Stringify.TextOf(rt.numbers, v) }

  datatype Step = Key(name: Text) | Index(i: nat)

  datatype Problem =
    | WrongConst | NotInEnum
    | ExpectedObject | MissingProperty(name: Text) | ExtraProperty(name: Text)
    | ExpectedArray
    | ExpectedString | TooShort | PatternMismatch | InvalidDate | InvalidUri
    | ExpectedNumber | BelowMinimum | AboveMaximum
    | ExpectedBoolean

  datatype Error = Error(path: seq<Step>, problem: Problem)

  datatype Outcome = Threw | Found(errors: seq<Error>)

  function Then(a: Outcome, b: Outcome): Outcome {
    if a.Threw? || b.Threw? then Threw else Found(a.errors + b.errors)
  }

  function If(fails: bool, path: seq<Step>, problem: Problem): seq<Error> {
    if fails then [Error(path, problem)] else []
  }

  // ---- single keywords ----

  type Members = map<Text, Laid>

  predicate Is(m: Members, keyword: Text, word: Text) { keyword in m && m[keyword] == LStr(word) }

  predicate Object(m: Members) { Is(m, TYPE, Lit("object")) }

  predicate Array(m: Members) { Is(m, TYPE, Lit("array")) }

  predicate String(m: Members) { Is(m, TYPE, Lit("string")) }

  predicate Integer(m: Members) { Is(m, TYPE, Lit("integer")) }

  predicate Numeric(m: Members) { Integer(m) || Is(m, TYPE, Lit("number")) }

  predicate Boolean(m: Members) { Is(m, TYPE, Lit("boolean")) }

  predicate ConstHolds(rt: Runtime, m: Members, v: Laid) {
    CONST in m ==> Written(rt, v) == Written(rt, m[CONST])
  }

  predicate EnumHolds(rt: Runtime, m: Members, v: Laid) {
    ENUM in m && m[ENUM].LArr? ==>
      exists i :: 0 <= i < |m[ENUM].items| && Written(rt, m[ENUM].items[i]) == Written(rt, v)
  }

  /** A string iterated: one text for each code point. */
  function CodePoints(t: Text): seq<Text>
    decreases |t|
  {
    if t == [] then []
    else if IsHigh(t[0]) && |t| >= 2 && IsLow(t[1]) then [t[..2]] + CodePoints(t[2..])
    else [t[..1]] + CodePoints(t[1..])
  }

  function KeyOf(rt: Runtime, v: Laid): Text { if v.LStr? then v.s else rt.propertyKey(v) }

  function KeysOf(rt: Runtime, items: seq<Laid>): (keys: seq<Text>)
    ensures |keys| == |items| && forall i :: 0 <= i < |items| ==> keys[i] == KeyOf(rt, items[i])
  {
    seq(|items|, i requires 0 <= i < |items| => KeyOf(rt, items[i]))
  }

  /** The names iterated by required; None when it cannot be iterated. */
  function RequiredNames(rt: Runtime, m: Members): Option<seq<Text>> {
    if REQUIRED !in m then Some([])
    else
      match m[REQUIRED]
      case LNull => Some([])
      case LArr(items) => Some(KeysOf(rt, items))
      case LStr(s) => Some(CodePoints(s))
      case _ => None
  }

  /** The schemas of the declared properties; an empty object when there are none. */
  function Declared(m: Members): (d: Laid)
    ensures d.LObj?
  {
    if PROPERTIES in m && m[PROPERTIES].LObj? then m[PROPERTIES] else LObj([])
  }

  function Properties(m: Members): Members { MembersOf(Declared(m)) }

  predicate Closed(m: Members) { ADDITIONAL in m && m[ADDITIONAL] == LBool(false) }

  predicate HasNumber(m: Members, keyword: Text) { keyword in m && m[keyword].LNum? }

  predicate LongEnough(m: Members, s: Text) {
    HasNumber(m, MIN_LENGTH) ==> !Below(Finite(|s| as real), m[MIN_LENGTH].n)
  }

  predicate Compiles(rt: Runtime, m: Members, s: Text) {
    PATTERN in m && m[PATTERN].LStr? ==> rt.test(m[PATTERN].s, s).Some?
  }

  predicate Matches(rt: Runtime, m: Members, s: Text) {
    PATTERN in m && m[PATTERN].LStr? ==> rt.test(m[PATTERN].s, s) == Some(true)
  }

  predicate DateHolds(rt: Runtime, m: Members, s: Text) { Is(m, FORMAT, Lit("date-time")) ==> rt.isDate(s) }

  predicate UriHolds(rt: Runtime, m: Members, s: Text) { Is(m, FORMAT, Lit("uri")) ==> rt.isUri(s) }

  predicate AtLeastMinimum(m: Members, n: Number) { HasNumber(m, MINIMUM) ==> !Below(n, m[MINIMUM].n) }

  predicate AtMostMaximum(m: Members, n: Number) { HasNumber(m, MAXIMUM) ==> !Below(m[MAXIMUM].n, n) }

  // ---- the interpreter, as a function ----

  function CheckString(rt: Runtime, m: Members, s: Text, path: seq<Step>): Outcome {
    if !Compiles(rt, m, s) then Threw
    else Found(
      If(!LongEnough(m, s), path, TooShort) + If(!Matches(rt, m, s), path, PatternMismatch)
      + If(!DateHolds(rt, m, s), path, InvalidDate) + If(!UriHolds(rt, m, s), path, InvalidUri))
  }

  function CheckNumber(m: Members, n: Number, path: seq<Step>): Outcome {
    if Integer(m) && !WholeNumber(n) then Found([Error(path, ExpectedNumber)])
    else Found(If(!AtLeastMinimum(m, n), path, BelowMinimum) + If(!AtMostMaximum(m, n), path, AboveMaximum))
  }

  function CheckRequired(names: seq<Text>, members: Members, path: seq<Step>): seq<Error> {
    if names == [] then []
    else If(!Has(members, names[0]), path, MissingProperty(names[0])) + CheckRequired(names[1..], members, path)
  }

  function CheckValue(rt: Runtime, root: Laid, schema: Node, value: Laid, path: seq<Step>): Outcome
    requires NoHopCycle(root)
    decreases value, Rank(root, schema) + 3
  {
    if Refers(schema) then
      match Hop(root, schema)
      case None => Threw
      case Some(target) =>
        RankFalls(root, schema);
        CheckValue(rt, root, target, value, path)
    else
      match schema
      case Data(v) =>
        if v.LObj? then CheckKeywords(rt, root, MembersOf(v), value, path) else if v.LArr? then Found([]) else Threw
      case _ => Found([])
  }

  function CheckKeywords(rt: Runtime, root: Laid, m: Members, value: Laid, path: seq<Step>): Outcome
    requires NoHopCycle(root)
    decreases value, 2
  {
    if !ConstHolds(rt, m, value) then Found([Error(path, WrongConst)])
    else if !EnumHolds(rt, m, value) then Found([Error(path, NotInEnum)])
    else if Object(m) then CheckObject(rt, root, m, value, path)
    else if Array(m) then CheckArray(rt, root, m, value, path)
    else if String(m) then
      if !value.LStr? then Found([Error(path, ExpectedString)]) else CheckString(rt, m, value.s, path)
    else if Numeric(m) then
      if !value.LNum? then Found([Error(path, ExpectedNumber)]) else CheckNumber(m, value.n, path)
    else Found(If(Boolean(m) && !value.LBool?, path, ExpectedBoolean))
  }

  function CheckObject(rt: Runtime, root: Laid, m: Members, value: Laid, path: seq<Step>): Outcome
    requires NoHopCycle(root)
    decreases value, 1
  {
    if !value.LObj? then Found([Error(path, ExpectedObject)])
    else
      match RequiredNames(rt, m)
      case None => Threw
      case Some(names) =>
        Then(Found(CheckRequired(names, MembersOf(value), path)), CheckMembers(rt, root, m, value, 0, path))
  }

  function CheckArray(rt: Runtime, root: Laid, m: Members, value: Laid, path: seq<Step>): Outcome
    requires NoHopCycle(root)
    decreases value, 1
  {
    if !value.LArr? then Found([Error(path, ExpectedArray)])
    else if ITEMS in m && m[ITEMS].LObj? then CheckItems(rt, root, m[ITEMS], value, 0, path)
    else Found([])
  }

  function CheckMember(rt: Runtime, root: Laid, m: Members, f: Field, path: seq<Step>): Outcome
    requires NoHopCycle(root)
    decreases f
  {
    if Has(Properties(m), f.name) then
      CheckValue(rt, root, Property(Data(Declared(m)), f.name).value, f.value, path + [Key(f.name)])
    else Found(If(Closed(m), path, ExtraProperty(f.name)))
  }

  /** The entries of an object, in their order. */
  function CheckMembers(rt: Runtime, root: Laid, m: Members, value: Laid, from: nat, path: seq<Step>): Outcome
    requires NoHopCycle(root) && value.LObj? && from <= |value.fields|
    decreases value, 0, |value.fields| - from
  {
    if from == |value.fields| then Found([])
    else Then(CheckMember(rt, root, m, value.fields[from], path), CheckMembers(rt, root, m, value, from + 1, path))
  }

  function CheckItems(rt: Runtime, root: Laid, schema: Laid, value: Laid, from: nat, path: seq<Step>): Outcome
    requires NoHopCycle(root) && value.LArr? && from <= |value.items|
    decreases value, 0, |value.items| - from
  {
    if from == |value.items| then Found([])
    else Then(CheckValue(rt, root, Data(schema), value.items[from], path + [Index(from)]),
              CheckItems(rt, root, schema, value, from + 1, path))
  }

  // ---- what the keywords mean ----

  /** Equal values, apart from what JSON text does not keep, that list their members
      in one order. */
  predicate SameListed(v: Laid, w: Laid) {
    Distinct(v) && Distinct(w) && Plainly(ValueOf(v)) == Plainly(ValueOf(w)) && SameOrder(v, w)
  }

  predicate ConstMeans(m: Members, v: Laid) { CONST in m ==> SameListed(v, m[CONST]) }

  predicate EnumMeans(m: Members, v: Laid) {
    ENUM in m && m[ENUM].LArr? ==> exists i :: 0 <= i < |m[ENUM].items| && SameListed(m[ENUM].items[i], v)
  }

  predicate StringHolds(rt: Runtime, m: Members, s: Text) {
    LongEnough(m, s) && Matches(rt, m, s) && DateHolds(rt, m, s) && UriHolds(rt, m, s)
  }

  predicate NumberHolds(m: Members, n: Number) {
    (Integer(m) ==> WholeNumber(n)) && AtLeastMinimum(m, n) && AtMostMaximum(m, n)
  }

  predicate RequiredHolds(rt: Runtime, m: Members, members: Members) {
    RequiredNames(rt, m).Some? && forall name :: name in RequiredNames(rt, m).value ==> Has(members, name)
  }

  /** The value has the meaning the schema gives it. A reference stands for its
      target alone; the other keywords are a conjunction over the value. */
  predicate Satisfies(rt: Runtime, root: Laid, schema: Node, value: Laid)
    requires NoHopCycle(root)
    decreases value, Rank(root, schema) + 4
  {
    if Refers(schema) then
      Hop(root, schema).Some? && (RankFalls(root, schema); Satisfies(rt, root, Hop(root, schema).value, value))
    else if schema.Data? && schema.v.LObj? then
      MeetsKeywords(rt, root, MembersOf(schema.v), value)
    else !schema.Data? || schema.v.LArr?
  }

  predicate MeetsKeywords(rt: Runtime, root: Laid, m: Members, value: Laid)
    requires NoHopCycle(root)
    decreases value, 3
  {
    && ConstMeans(m, value)
    && EnumMeans(m, value)
    && (Object(m) ==> ObjectHolds(rt, root, m, value))
    && (Array(m) ==> ArrayHolds(rt, root, m, value))
    && (String(m) ==> value.LStr? && StringHolds(rt, m, value.s))
    && (Numeric(m) ==> value.LNum? && NumberHolds(m, value.n))
    && (Boolean(m) ==> value.LBool?)
  }

  predicate ObjectHolds(rt: Runtime, root: Laid, m: Members, value: Laid)
    requires NoHopCycle(root)
    decreases value, 2
  {
    value.LObj? && RequiredHolds(rt, m, MembersOf(value)) && MembersHold(rt, root, m, value)
  }

  predicate ArrayHolds(rt: Runtime, root: Laid, m: Members, value: Laid)
    requires NoHopCycle(root)
    decreases value, 2
  {
    value.LArr? && (ITEMS in m && m[ITEMS].LObj? ==> ItemsHold(rt, root, m[ITEMS], value))
  }

  predicate MembersHold(rt: Runtime, root: Laid, m: Members, value: Laid)
    requires NoHopCycle(root) && value.LObj?
    decreases value, 1
  {
    forall i :: 0 <= i < |value.fields| ==> MemberHolds(rt, root, m, value.fields[i])
  }

  /** A declared property satisfies its schema; any other is allowed unless the
      object is closed, or its name is one that every object answers to. */
  predicate MemberHolds(rt: Runtime, root: Laid, m: Members, f: Field)
    requires NoHopCycle(root)
    decreases f
  {
    if f.name in Properties(m) then Satisfies(rt, root, Data(Properties(m)[f.name]), f.value)
    else Inherited(f.name) || !Closed(m)
  }

  predicate ItemsHold(rt: Runtime, root: Laid, schema: Laid, value: Laid)
    requires NoHopCycle(root) && value.LArr?
    decreases value, 0
  {
    forall i :: 0 <= i < |value.items| ==> Satisfies(rt, root, Data(schema), value.items[i])
  }

  // ---- the interpreter is exact ----

  /** What JSON.parse makes: no member twice, and Numbers for numbers. */
  predicate Proper(rt: Runtime, v: Laid) { Distinct(v) && Stringify.WithNumbers(rt.numbers, v) }

  predicate ProperNode(rt: Runtime, node: Node) { node.Data? ==> Proper(rt, node.v) }

  predicate ProperMembers(rt: Runtime, m: Members) { forall k :: k in m ==> Proper(rt, m[k]) }

  lemma MembersProper(rt: Runtime, a: Laid)
    requires a.LObj? && Proper(rt, a)
    ensures ProperMembers(rt, MembersOf(a))
  {
    forall k | k in MembersOf(a) ensures Proper(rt, MembersOf(a)[k]) { var i := FieldOf(a, k); }
  }

  lemma PropertyProper(rt: Runtime, m: Members, k: Text)
    requires ProperMembers(rt, m) && k in Properties(m)
    ensures Proper(rt, Properties(m)[k])
  {
    if Declared(m) == LObj([]) {
      FromListNames(Names([]), Values([]));
    } else {
      MembersProper(rt, m[PROPERTIES]);
    }
  }

  lemma {:induction false} WalkProper(rt: Runtime, node: Node, tokens: seq<Text>)
    requires ProperNode(rt, node) && Walk(node, tokens).Some?
    ensures ProperNode(rt, Walk(node, tokens).value)
    decreases |tokens|
  {
    if tokens != [] {
      if node.Data? { MembersProper(rt, node.v); }
      hide Inherited, Proper, MembersOf;
      WalkProper(rt, Property(node, tokens[0]).value, tokens[1..]);
    }
  }

  lemma HopProper(rt: Runtime, root: Laid, schema: Node)
    requires Proper(rt, root) && Hop(root, schema).Some?
    ensures ProperNode(rt, Hop(root, schema).value)
  {
    hide Walk, JsonPointer.Tokens, Proper, MembersOf;
    WalkProper(rt, Data(root), JsonPointer.Tokens(MembersOf(schema.v)[REF].s[2..]));
  }

  lemma WrittenExact(rt: Runtime, v: Laid, w: Laid)
    requires Stringify.Distinguishes(rt.numbers) && Proper(rt, v) && Proper(rt, w)
    ensures Written(rt, v) == Written(rt, w) <==> SameListed(v, w)
  {
    hide Stringify.Distinguishes, Stringify.WithNumbers, Distinct, SameOrder, Plainly, ValueOf, Stringify.TextOf;
    Stringify.WrittenAlikeExactly(rt.numbers, v, w);
  }

  lemma ConstExact(rt: Runtime, m: Members, v: Laid)
    requires Stringify.Distinguishes(rt.numbers) && ProperMembers(rt, m) && Proper(rt, v)
    ensures ConstHolds(rt, m, v) <==> ConstMeans(m, v)
    ensures EnumHolds(rt, m, v) <==> EnumMeans(m, v)
  {
    if CONST in m { WrittenExact(rt, v, m[CONST]); }
    if ENUM in m && m[ENUM].LArr? {
      forall i | 0 <= i < |m[ENUM].items| ensures Written(rt, m[ENUM].items[i]) == Written(rt, v) <==> SameListed(m[ENUM].items[i], v) {
        ItemProper(rt, m[ENUM], i);
        WrittenExact(rt, m[ENUM].items[i], v);
      }
    }
    hide Proper, Written, SameListed, Stringify.Distinguishes;
  }

  lemma ItemProper(rt: Runtime, a: Laid, i: int)
    requires a.LArr? && Proper(rt, a) && 0 <= i < |a.items|
    ensures Proper(rt, a.items[i])
  {}

  lemma FieldProper(rt: Runtime, a: Laid, i: int)
    requires a.LObj? && Proper(rt, a) && 0 <= i < |a.fields|
    ensures Proper(rt, a.fields[i].value)
  {}

  lemma {:induction false} RequiredExact(names: seq<Text>, members: Members, path: seq<Step>)
    ensures CheckRequired(names, members, path) == [] <==> forall i :: 0 <= i < |names| ==> Has(members, names[i])
  {
    hide Has;
    if names != [] { RequiredExact(names[1..], members, path); }
  }

  /** Validation neither throws nor adds an error exactly when the value means
      what the schema asks. */
  lemma {:induction false} ValidateExact(rt: Runtime, root: Laid, schema: Node, value: Laid, path: seq<Step>)
    requires NoHopCycle(root) && Stringify.Distinguishes(rt.numbers)
    requires Proper(rt, root) && ProperNode(rt, schema) && Proper(rt, value)
    ensures CheckValue(rt, root, schema, value, path) == Found([]) <==> Satisfies(rt, root, schema, value)
    decreases value, Rank(root, schema) + 3
  {
    hide CheckKeywords, MeetsKeywords, Resolved, Proper, Stringify.Distinguishes, MembersOf;
    if Refers(schema) {
      if Hop(root, schema).Some? {
        RankFalls(root, schema);
        HopProper(rt, root, schema);
        ValidateExact(rt, root, Hop(root, schema).value, value, path);
      }
    } else if schema.Data? && schema.v.LObj? {
      MembersProper(rt, schema.v);
      KeywordsExact(rt, root, MembersOf(schema.v), value, path);
    }
  }

  lemma TypesDiffer(m: Members)
    ensures Object(m) ==> !Array(m) && !String(m) && !Numeric(m) && !Boolean(m)
    ensures Array(m) ==> !String(m) && !Numeric(m) && !Boolean(m)
    ensures String(m) ==> !Numeric(m) && !Boolean(m)
    ensures Numeric(m) ==> !Boolean(m)
  {
    assert Lit("object")[0] == 'o' as int && Lit("array")[0] == 'a' as int;
    assert Lit("string")[0] == 's' as int && Lit("integer")[0] == 'i' as int;
    assert Lit("number")[0] == 'n' as int && Lit("boolean")[0] == 'b' as int;
  }

  lemma StringExact(rt: Runtime, m: Members, s: Text, path: seq<Step>)
    ensures CheckString(rt, m, s, path) == Found([]) <==> StringHolds(rt, m, s)
  {
    hide LongEnough, DateHolds, UriHolds;
  }

  lemma NumberExact(m: Members, n: Number, path: seq<Step>)
    ensures CheckNumber(m, n, path) == Found([]) <==> NumberHolds(m, n)
  {
    hide Integer, WholeNumber, AtLeastMinimum, AtMostMaximum;
  }

  lemma {:induction false} KeywordsExact(rt: Runtime, root: Laid, m: Members, value: Laid, path: seq<Step>)
    requires NoHopCycle(root) && Stringify.Distinguishes(rt.numbers)
    requires Proper(rt, root) && ProperMembers(rt, m) && Proper(rt, value)
    ensures CheckKeywords(rt, root, m, value, path) == Found([]) <==> MeetsKeywords(rt, root, m, value)
    decreases value, 2
  {
    TypesDiffer(m);
    ConstExact(rt, m, value);
    hide Proper, ProperMembers, Stringify.Distinguishes, ConstMeans, EnumMeans;
    hide Object, Array, String, Numeric, Boolean, ConstHolds, EnumHolds;
    hide CheckObject, CheckArray, CheckString, CheckNumber, ObjectHolds, ArrayHolds, StringHolds, NumberHolds;
    if Object(m) {
      ObjectExact(rt, root, m, value, path);
    } else if Array(m) {
      ArrayExact(rt, root, m, value, path);
    } else if String(m) && value.LStr? {
      StringExact(rt, m, value.s, path);
    } else if Numeric(m) && value.LNum? {
      NumberExact(m, value.n, path);
    }
  }

  lemma {:induction false} ObjectExact(rt: Runtime, root: Laid, m: Members, value: Laid, path: seq<Step>)
    requires NoHopCycle(root) && Stringify.Distinguishes(rt.numbers)
    requires Proper(rt, root) && ProperMembers(rt, m) && Proper(rt, value)
    ensures CheckObject(rt, root, m, value, path) == Found([]) <==> ObjectHolds(rt, root, m, value)
    decreases value, 1
  {
    hide MembersHold, MembersHoldFrom, CheckMembers, Has, MembersOf, Proper, ProperMembers, Stringify.Distinguishes;
    if value.LObj? && RequiredNames(rt, m).Some? {
      var names := RequiredNames(rt, m).value;
      hide RequiredNames;
      RequiredExact(names, MembersOf(value), path);
      hide CheckRequired;
      MembersExact(rt, root, m, value, 0, path);
      AllMembers(rt, root, m, value);
    }
  }

  lemma {:induction false} ArrayExact(rt: Runtime, root: Laid, m: Members, value: Laid, path: seq<Step>)
    requires NoHopCycle(root) && Stringify.Distinguishes(rt.numbers)
    requires Proper(rt, root) && ProperMembers(rt, m) && Proper(rt, value)
    ensures CheckArray(rt, root, m, value, path) == Found([]) <==> ArrayHolds(rt, root, m, value)
    decreases value, 1
  {
    hide ItemsHold, CheckItems, ItemsHoldFrom, Proper, Stringify.Distinguishes;
    if value.LArr? && ITEMS in m && m[ITEMS].LObj? {
      ItemsExact(rt, root, m[ITEMS], value, 0, path);
      AllItems(rt, root, m[ITEMS], value);
    }
  }

  predicate MembersHoldFrom(rt: Runtime, root: Laid, m: Members, value: Laid, from: nat)
    requires NoHopCycle(root) && value.LObj?
  {
    forall i :: from <= i < |value.fields| ==> MemberHolds(rt, root, m, value.fields[i])
  }

  lemma MembersHoldStep(rt: Runtime, root: Laid, m: Members, value: Laid, from: nat)
    requires NoHopCycle(root) && value.LObj? && from <= |value.fields|
    ensures MembersHoldFrom(rt, root, m, value, from) <==>
            from == |value.fields| || (MemberHolds(rt, root, m, value.fields[from]) && MembersHoldFrom(rt, root, m, value, from + 1))
  {
    hide MemberHolds;
  }

  lemma AllMembers(rt: Runtime, root: Laid, m: Members, value: Laid)
    requires NoHopCycle(root) && value.LObj?
    ensures MembersHold(rt, root, m, value) <==> MembersHoldFrom(rt, root, m, value, 0)
  {
    hide MemberHolds;
  }

  lemma {:induction false} MemberExact(rt: Runtime, root: Laid, m: Members, f: Field, path: seq<Step>)
    requires NoHopCycle(root) && Stringify.Distinguishes(rt.numbers)
    requires Proper(rt, root) && ProperMembers(rt, m) && Proper(rt, f.value)
    ensures CheckMember(rt, root, m, f, path) == Found([]) <==> MemberHolds(rt, root, m, f)
    decreases f
  {
    hide Satisfies, Inherited, Closed, MembersOf, Proper, ProperMembers, Stringify.Distinguishes;
    if f.name in Properties(m) {
      PropertyProper(rt, m, f.name);
      ValidateExact(rt, root, Data(Properties(m)[f.name]), f.value, path + [Key(f.name)]);
      hide CheckValue;
    }
  }

  lemma CheckMembersStep(rt: Runtime, root: Laid, m: Members, value: Laid, from: nat, path: seq<Step>)
    requires NoHopCycle(root) && value.LObj? && from <= |value.fields|
    ensures CheckMembers(rt, root, m, value, from, path) == Found([]) <==>
            from == |value.fields|
            || (&& CheckMember(rt, root, m, value.fields[from], path) == Found([])
                && CheckMembers(rt, root, m, value, from + 1, path) == Found([]))
  {
    hide CheckMember, NoHopCycle;
  }

  lemma {:induction false} MembersExact(rt: Runtime, root: Laid, m: Members, value: Laid, from: nat, path: seq<Step>)
    requires NoHopCycle(root) && value.LObj? && from <= |value.fields| && Stringify.Distinguishes(rt.numbers)
    requires Proper(rt, root) && ProperMembers(rt, m) && Proper(rt, value)
    ensures CheckMembers(rt, root, m, value, from, path) == Found([]) <==> MembersHoldFrom(rt, root, m, value, from)
    decreases value, 0, |value.fields| - from
  {
    hide *;
    MembersHoldStep(rt, root, m, value, from);
    CheckMembersStep(rt, root, m, value, from, path);
    if from < |value.fields| {
      FieldProper(rt, value, from);
      MemberExact(rt, root, m, value.fields[from], path);
      MembersExact(rt, root, m, value, from + 1, path);
    }
  }

  predicate ItemsHoldFrom(rt: Runtime, root: Laid, schema: Laid, value: Laid, from: nat)
    requires NoHopCycle(root) && value.LArr?
  {
    forall i :: from <= i < |value.items| ==> Satisfies(rt, root, Data(schema), value.items[i])
  }

  lemma ItemsHoldStep(rt: Runtime, root: Laid, schema: Laid, value: Laid, from: nat)
    requires NoHopCycle(root) && value.LArr? && from <= |value.items|
    ensures ItemsHoldFrom(rt, root, schema, value, from) <==>
            from == |value.items|
            || (Satisfies(rt, root, Data(schema), value.items[from]) && ItemsHoldFrom(rt, root, schema, value, from + 1))
  {
    hide Satisfies;
  }

  lemma AllItems(rt: Runtime, root: Laid, schema: Laid, value: Laid)
    requires NoHopCycle(root) && value.LArr?
    ensures ItemsHold(rt, root, schema, value) <==> ItemsHoldFrom(rt, root, schema, value, 0)
  {
    hide Satisfies;
  }

  lemma CheckItemsStep(rt: Runtime, root: Laid, schema: Laid, value: Laid, from: nat, path: seq<Step>)
    requires NoHopCycle(root) && value.LArr? && from <= |value.items|
    ensures CheckItems(rt, root, schema, value, from, path) == Found([]) <==>
            from == |value.items|
            || (&& CheckValue(rt, root, Data(schema), value.items[from], path + [Index(from)]) == Found([])
                && CheckItems(rt, root, schema, value, from + 1, path) == Found([]))
  {
    hide CheckValue, NoHopCycle;
  }

  lemma {:induction false} ItemsExact(rt: Runtime, root: Laid, schema: Laid, value: Laid, from: nat, path: seq<Step>)
    requires NoHopCycle(root) && value.LArr? && from <= |value.items| && Stringify.Distinguishes(rt.numbers)
    requires Proper(rt, root) && Proper(rt, schema) && Proper(rt, value)
    ensures CheckItems(rt, root, schema, value, from, path) == Found([]) <==> ItemsHoldFrom(rt, root, schema, value, from)
    decreases value, 0, |value.items| - from
  {
    assert ProperNode(rt, Data(schema));
    hide *;
    ItemsHoldStep(rt, root, schema, value, from);
    CheckItemsStep(rt, root, schema, value, from, path);
    if from < |value.items| {
      ItemProper(rt, value, from);
      ValidateExact(rt, root, Data(schema), value.items[from], path + [Index(from)]);
      ItemsExact(rt, root, schema, value, from + 1, path);
    }
  }

  // ---- where const is stricter than equality ----

  /** For a schema with a const alone: the code and JSON Schema, which asks for an
      equal value, agree on a value exactly unless it is an equal value with
      members in another order. */
  lemma ConstAgreesExactly(rt: Runtime, root: Laid, constant: Laid, value: Laid, path: seq<Step>)
    requires NoHopCycle(root) && Stringify.Distinguishes(rt.numbers) && Proper(rt, constant) && Proper(rt, value)
    ensures var m := map[CONST := constant];
            var equal := Plainly(ValueOf(value)) == Plainly(ValueOf(constant));
            (CheckKeywords(rt, root, m, value, path) == Found([]) <==> equal) <==> !(equal && !SameOrder(value, constant))
  {
    var m := map[CONST := constant];
    ConstExact(rt, m, value);
    hide Proper, Written, Stringify.Distinguishes, Plainly, ValueOf, SameOrder, Distinct;
    OtherKeywords(m);
    hide Object, Array, String, Numeric, Boolean;
  }

  lemma OtherKeywords(m: Members)
    requires m.Keys == {CONST}
    ensures ENUM !in m && TYPE !in m
    ensures !Object(m) && !Array(m) && !String(m) && !Numeric(m) && !Boolean(m)
  {
    assert |CONST| == 5 && |ENUM| == 4 && |TYPE| == 4;
  }

  /** Such a value: {y, x} against the constant {x, y}. */
  lemma OrderRejected(rt: Runtime, root: Laid, path: seq<Step>)
    requires NoHopCycle(root) && Stringify.Distinguishes(rt.numbers)
    ensures var x, y := Field([0x78], LNull), Field([0x79], LNull);
            && Distinct(LObj([x, y])) && Distinct(LObj([y, x])) && ValueOf(LObj([y, x])) == ValueOf(LObj([x, y]))
            && CheckKeywords(rt, root, map[CONST := LObj([x, y])], LObj([y, x]), path) == Found([Error(path, WrongConst)])
  {
    Stringify.OrderTells(rt.numbers);
    hide Stringify.TextOf, Distinct, ValueOf;
  }
}
