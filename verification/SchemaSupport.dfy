/** The vocabulary check that precedes validation. */
module SchemaSupport {
  import opened CodeUnits
  import opened Json
  import opened LaidJson
  import opened References
  import opened SchemaValidation
  import Canonical

  predicate Annotation(k: Text) {
    k == Lit("$id") || k == REF || k == Lit("$schema") || k == Lit("description") || k == Lit("title")
  }

  predicate Shape(k: Text) {
    k == ADDITIONAL || k == CONST || k == ENUM || k == ITEMS || k == PROPERTIES || k == REQUIRED || k == TYPE
  }

  predicate Bound(k: Text) { k == FORMAT || k == MAXIMUM || k == MIN_LENGTH || k == MINIMUM || k == PATTERN }

  predicate SupportedKeyword(k: Text) { Annotation(k) || Shape(k) || Bound(k) }

  predicate SupportedFormat(m: Members) {
    FORMAT in m && m[FORMAT].LStr? ==> m[FORMAT].s == Lit("date-time") || m[FORMAT].s == Lit("uri")
  }

  /** What is asked of one schema node, apart from the nodes below it. */
  predicate SupportedNode(v: Laid) {
    && v.LObj? && (forall k :: k in MembersOf(v) ==> SupportedKeyword(k)) && SupportedFormat(MembersOf(v))
    && (PROPERTIES in MembersOf(v) ==> MembersOf(v)[PROPERTIES].LObj?)
  }

  /** The walk, as a predicate. */
  predicate Supported(v: Laid)
    decreases v, 1
  {
    SupportedNode(v) && PropertiesSupported(v) && (ITEMS in MembersOf(v) ==> Supported(Member(v, ITEMS)))
  }

  predicate PropertiesSupported(v: Laid)
    requires v.LObj?
    decreases v, 0
  {
    PROPERTIES in MembersOf(v) && MembersOf(v)[PROPERTIES].LObj? ==>
      var properties := Member(v, PROPERTIES);
      forall name :: name in MembersOf(properties) ==> Supported(Member(properties, name))
  }

  /** assertSupportedSchema; false where it throws. */
  method AssertSupportedSchema(v: Laid) returns (ok: bool)
    ensures ok == Supported(v)
    decreases v, 1
  {
    hide SupportedKeyword, SupportedFormat, Canonical.SortedKeys;
    if !v.LObj? {
      return false;
    }
    var keys := Canonical.SortedKeys(MembersOf(v).Keys);
    var i := 0;
    while i < |keys|
      invariant 0 <= i <= |keys| && forall j :: 0 <= j < i ==> SupportedKeyword(keys[j])
    {
      if !SupportedKeyword(keys[i]) {
        assert keys[i] in keys;
        return false;
      }
      i := i + 1;
    }
    assert forall k :: k in MembersOf(v) ==> k in keys;
    if !SupportedFormat(MembersOf(v)) {
      return false;
    }
    if PROPERTIES in MembersOf(v) {
      if !MembersOf(v)[PROPERTIES].LObj? {
        return false;
      }
      ok := AssertProperties(v);
      if !ok {
        return;
      }
    }
    if ITEMS in MembersOf(v) {
      ok := AssertSupportedSchema(Member(v, ITEMS));
      return;
    }
    return true;
  }

  method AssertProperties(v: Laid) returns (ok: bool)
    requires v.LObj? && PROPERTIES in MembersOf(v) && MembersOf(v)[PROPERTIES].LObj?
    ensures ok == PropertiesSupported(v)
    decreases v, 0
  {
    hide Canonical.SortedKeys, SupportedNode;
    var properties := Member(v, PROPERTIES);
    var names := Canonical.SortedKeys(MembersOf(properties).Keys);
    var i := 0;
    assert forall j :: 0 <= j < |names| ==> names[j] in names;
    while i < |names|
      invariant 0 <= i <= |names| && forall j :: 0 <= j < i ==> Supported(Member(properties, names[j]))
    {
      ok := AssertSupportedSchema(Member(properties, names[i]));
      if !ok {
        return;
      }
      i := i + 1;
    }
    assert forall k :: k in MembersOf(properties) ==> k in names;
    return true;
  }

  // ---- what is checked ----

  datatype Position = Property(name: Text) | Item

  /** The schema found by going down through properties and items. */
  function SchemaAt(v: Laid, path: seq<Position>): Option<Laid>
    decreases |path|
  {
    if path == [] then Some(v)
    else if !v.LObj? then None
    else
      match path[0]
      case Item => if ITEMS in MembersOf(v) then SchemaAt(Member(v, ITEMS), path[1..]) else None
      case Property(name) =>
        if PROPERTIES in MembersOf(v) && MembersOf(v)[PROPERTIES].LObj? && name in MembersOf(Member(v, PROPERTIES)) then
          SchemaAt(Member(Member(v, PROPERTIES), name), path[1..])
        else None
  }

  /** The keywords and the formats there are. */
  const NOTES: set<Text> := {Lit("$id"), Lit("$ref"), Lit("$schema"), Lit("title"), Lit("description")}
  const SHAPES: set<Text> := {Lit("const"), Lit("enum"), Lit("type"), Lit("properties"), Lit("required")}
  const BOUNDS: set<Text> := {Lit("format"), Lit("pattern"), Lit("minLength"), Lit("minimum"), Lit("maximum")}
  const VOCABULARY: set<Text> := NOTES + SHAPES + {Lit("additionalProperties"), Lit("items")} + BOUNDS

  const FORMATS: set<Value> := {Str(Lit("date-time")), Str(Lit("uri"))}

  /** An object of those keywords, its format one of those if it is a string, and
      its properties an object if it has any. */
  predicate InVocabulary(v: Laid) {
    && v.LObj? && MembersOf(v).Keys <= VOCABULARY
    && (FORMAT in MembersOf(v) && MembersOf(v)[FORMAT].LStr? ==> Str(MembersOf(v)[FORMAT].s) in FORMATS)
    && (PROPERTIES in MembersOf(v) ==> MembersOf(v)[PROPERTIES].LObj?)
  }

  lemma KeywordExactly(k: Text)
    ensures SupportedKeyword(k) <==> k in VOCABULARY
  {}

  lemma NodeExactly(v: Laid)
    ensures SupportedNode(v) <==> InVocabulary(v)
  {
    hide SupportedKeyword, VOCABULARY;
    forall k ensures SupportedKeyword(k) <==> k in VOCABULARY { KeywordExactly(k); }
  }

  ghost predicate EverywhereSupported(v: Laid) {
    forall path :: SchemaAt(v, path).Some? ==> InVocabulary(SchemaAt(v, path).value)
  }

  lemma EverywhereBelow(v: Laid, step: Position, w: Laid)
    requires EverywhereSupported(v) && SchemaAt(v, [step]) == Some(w)
    ensures EverywhereSupported(w)
  {
    hide InVocabulary;
    forall path | SchemaAt(w, path).Some? ensures InVocabulary(SchemaAt(w, path).value) {
      assert ([step] + path)[1..] == path;
      assert [step][1..] == [];
      assert SchemaAt(v, [step] + path) == SchemaAt(w, path);
    }
  }

  lemma {:induction false} SupportedAt(v: Laid, path: seq<Position>)
    requires Supported(v) && SchemaAt(v, path).Some?
    ensures SupportedNode(SchemaAt(v, path).value)
    decreases |path|
  {
    if path != [] {
      match path[0]
      case Item => SupportedAt(Member(v, ITEMS), path[1..]);
      case Property(name) => SupportedAt(Member(Member(v, PROPERTIES), name), path[1..]);
    }
  }

  lemma {:induction false} EverywhereIsSupported(v: Laid)
    requires EverywhereSupported(v)
    ensures Supported(v)
    decreases v
  {
    assert SchemaAt(v, []) == Some(v);
    NodeExactly(v);
    hide SupportedNode, InVocabulary;
    NodeIsObject(v);
    if ITEMS in MembersOf(v) {
      assert [Item][1..] == [];
      EverywhereBelow(v, Item, Member(v, ITEMS));
      EverywhereIsSupported(Member(v, ITEMS));
    }
    if PROPERTIES in MembersOf(v) {
      var properties := Member(v, PROPERTIES);
      forall name | name in MembersOf(properties) ensures Supported(Member(properties, name)) {
        assert [Property(name)][1..] == [];
        EverywhereBelow(v, Property(name), Member(properties, name));
        EverywhereIsSupported(Member(properties, name));
      }
    }
  }

  lemma NodeIsObject(v: Laid)
    requires SupportedNode(v)
    ensures v.LObj? && (PROPERTIES in MembersOf(v) ==> MembersOf(v)[PROPERTIES].LObj?)
  {}

  /** A schema passes exactly when every schema position in it, however deep, is
      an object of supported keywords and formats. */
  lemma SupportedExactly(v: Laid)
    ensures Supported(v) <==> EverywhereSupported(v)
  {
    hide Supported, SupportedNode, InVocabulary;
    if Supported(v) {
      forall path | SchemaAt(v, path).Some? ensures InVocabulary(SchemaAt(v, path).value) {
        SupportedAt(v, path);
        NodeExactly(SchemaAt(v, path).value);
      }
    }
    if EverywhereSupported(v) { EverywhereIsSupported(v); }
  }
}
