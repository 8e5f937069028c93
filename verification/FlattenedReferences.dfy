/** Which references flattening accepts and what it makes of them, told from their text. */
module FlattenedReferences {
  import opened CodeUnits
  import opened Json
  import opened JsonPointer
  import opened References
  import opened SpecNormalization
  import opened Flattening
  import FlatteningMeaning

  predicate Segment(t: Text) { t != [] && '/' as int !in t }

  /** Into the schema of a key. */
  function ToSchema(key: Text): Text { Lit("#/") + (Lit("x-anvilkit-resolved-schemas") + (Lit("/") + key)) }

  /** Into a definition of that schema. */
  function ToDefinition(key: Text, name: Text): Text { ToSchema(key) + (Lit("/$defs/") + name) }

  /** Into a definition of the bundle. */
  function InBundle(name: Text): Text { Lit("#/$defs/") + name }

  lemma {:induction false} JoinSplit(t: Text)
    ensures Join(Split(t)) == t
    decreases |t|
  {
    var p := FirstPart(t);
    if |p| < |t| {
      JoinSplit(t[|p| + 1..]);
      SlashAfter(t);
      var rest := Split(t[|p| + 1..]);
      assert ([p] + rest)[1..] == rest;
      assert t == p + ([SLASH] + t[|p| + 1..]);
    }
  }

  lemma {:induction false} SlashAfter(t: Text)
    ensures FirstPart(t) <= t && (|FirstPart(t)| < |t| ==> t[|FirstPart(t)|] == SLASH)
    decreases |t|
  {
    if t != [] && t[0] != SLASH { SlashAfter(t[1..]); }
  }

  lemma PrefixIs(rest: Text)
    ensures ToSchema(rest) == RESOLVED_PREFIX + rest
  {
    assert Lit("#/") == [HASH, SLASH] && Lit("/") == [SLASH] && RESOLVED == Lit("x-anvilkit-resolved-schemas");
    hide RESOLVED;
    assert RESOLVED_PREFIX == [HASH, SLASH] + (RESOLVED + [SLASH]);
  }

  lemma AfterPrefix(rest: Text)
    ensures StartsWith(RESOLVED_PREFIX + rest, RESOLVED_PREFIX) && (RESOLVED_PREFIX + rest)[|RESOLVED_PREFIX|..] == rest
  {
    hide RESOLVED_PREFIX;
  }

  lemma OneSegment(rest: Text)
    ensures Split(rest) == [rest] <==> SLASH !in rest
  {
    if SLASH !in rest { SplitLast(rest); }
    if SLASH in rest {
      SplitsAtSlash(rest);
      assert |[rest]| == 1;
    }
  }

  /** Three parts with $defs in the middle. */
  lemma ThreeSegments(key: Text, name: Text)
    requires SLASH !in key && SLASH !in name
    ensures Split(key + (Lit("/$defs/") + name)) == [key, DEFS, name]
  {
    hide Split;
    assert Lit("/$defs/") == [SLASH] + (DEFS + [SLASH]);
    Regrouped(key, name);
    assert SLASH !in DEFS by { assert DEFS[0] == 0x24 && DEFS[1] == 0x64 && DEFS[2] == 0x65 && DEFS[3] == 0x66 && DEFS[4] == 0x73; }
    SplitStep(key, DEFS + ([SLASH] + name));
    SplitStep(DEFS, name);
    SplitLast(name);
  }

  lemma Regrouped(key: Text, name: Text)
    ensures key + (([SLASH] + (DEFS + [SLASH])) + name) == key + ([SLASH] + (DEFS + ([SLASH] + name)))
  {
    hide DEFS;
  }

  lemma InBundleIs(name: Text)
    ensures InBundle(name) == DefinitionReference(name)
  {
    assert Lit("#/$defs/") == [HASH, SLASH] + (DEFS + [SLASH]);
    hide DEFS;
  }

  lemma SchemaText(sources: Sources, i: nat, key: Text)
    requires FromFiles(sources) && i < |sources| && sources[i].key == key && SLASH !in key
    ensures FlattenReference(sources, ToSchema(key)) == Some(InBundle(sources[i].logicalId))
  {
    PinnedLookup(sources, i);
    PrefixIs(key);
    AfterPrefix(key);
    OneSegment(key);
    InBundleIs(sources[i].logicalId);
    assert sources[i].logicalId + [] == sources[i].logicalId;
    hide Split, RESOLVED_PREFIX, DefinitionReference, InBundle, ToSchema, StartsWith, Lookup, DEFS;
  }

  lemma DefinitionText(sources: Sources, i: nat, key: Text, name: Text)
    requires FromFiles(sources) && i < |sources| && sources[i].key == key && SLASH !in key && Segment(name)
    ensures FlattenReference(sources, ToDefinition(key, name)) == Some(InBundle(sources[i].logicalId + name))
  {
    assert SLASH !in name;
    FromFilesKey(sources, i);
    ThreeFlatten(key, name);
    hide *;
    PinnedLookup(sources, i);
    InBundleIs(sources[i].logicalId + name);
    DefinitionSplits(key, name);
    FlattenedParts(sources, ToDefinition(key, name), [key, DEFS, name], sources[i]);
  }

  lemma ThreeFlatten(key: Text, name: Text)
    requires key != [] && Segment(name)
    ensures Flattens([key, DEFS, name])
  {
    assert DEFS != [];
  }

  lemma DefinitionSplits(key: Text, name: Text)
    requires SLASH !in key && SLASH !in name
    ensures var ref := ToDefinition(key, name);
            StartsWith(ref, RESOLVED_PREFIX) && Split(ref[|RESOLVED_PREFIX|..]) == [key, DEFS, name]
  {
    hide *;
    var rest := key + (Lit("/$defs/") + name);
    Appended(key, Lit("/$defs/") + name);
    DefinitionIs(key, name);
    AfterPrefix(rest);
    ThreeSegments(key, name);
  }

  lemma DefinitionIs(key: Text, name: Text)
    ensures ToDefinition(key, name) == RESOLVED_PREFIX + (key + (Lit("/$defs/") + name))
  {
    hide ToSchema, RESOLVED_PREFIX;
    Appended(key, Lit("/$defs/") + name);
  }

  lemma FromFilesKey(sources: Sources, i: nat)
    requires FromFiles(sources) && i < |sources|
    ensures sources[i].key != []
  {}

  lemma FlattenedParts(sources: Sources, ref: Text, parts: seq<Text>, source: Source)
    requires StartsWith(ref, RESOLVED_PREFIX) && Split(ref[|RESOLVED_PREFIX|..]) == parts && Flattens(parts)
    requires Lookup(sources, parts[0]) == Some(source) && |parts| == 3
    ensures FlattenReference(sources, ref) == Some(DefinitionReference(source.logicalId + parts[2]))
  {
    hide Split, RESOLVED_PREFIX, DefinitionReference, StartsWith, Lookup, DEFS;
  }

  /** A reference to a schema becomes one to the definition named by its logical id, a
      reference to a definition one to the definition named by the two together. */
  lemma FlattenedText(sources: Sources, i: nat, key: Text, name: Text)
    requires FromFiles(sources) && i < |sources| && sources[i].key == key && SLASH !in key && Segment(name)
    ensures FlattenReference(sources, ToSchema(key)) == Some(InBundle(sources[i].logicalId))
    ensures FlattenReference(sources, ToDefinition(key, name)) == Some(InBundle(sources[i].logicalId + name))
  {
    hide *;
    SchemaText(sources, i, key);
    DefinitionText(sources, i, key, name);
  }

  lemma Appended(key: Text, more: Text)
    ensures ToSchema(key) + more == RESOLVED_PREFIX + (key + more)
  {
    PrefixIs(key);
    hide ToSchema, RESOLVED_PREFIX;
  }

  lemma {:induction false} PinnedLookup(sources: Sources, i: nat)
    requires KeysDistinct(sources) && i < |sources|
    ensures Lookup(sources, sources[i].key) == Some(sources[i])
    decreases |sources|
  {
    if i > 0 {
      assert sources[0].key != sources[i].key;
      assert forall j, k :: 0 <= j < k < |sources[1..]| ==> sources[1..][j] == sources[j + 1] && sources[1..][k] == sources[k + 1];
      PinnedLookup(sources[1..], i - 1);
    }
  }

  /** The reference is one into a schema or a definition of a source. */
  ghost predicate Names(sources: Sources, ref: Text, i: nat) {
    i < |sources| && Segment(sources[i].key) &&
    (ref == ToSchema(sources[i].key) || exists name :: Segment(name) && ref == ToDefinition(sources[i].key, name))
  }

  /** Any other reference is left as it is, and accepted exactly when it does not start
      like these. */
  lemma FlattenedExactly(sources: Sources, ref: Text)
    requires FromFiles(sources)
    ensures !StartsWith(ref, RESOLVED_PREFIX) ==> FlattenReference(sources, ref) == Some(ref)
    ensures StartsWith(ref, RESOLVED_PREFIX) ==>
              (FlattenReference(sources, ref).Some? <==> exists i :: 0 <= i < |sources| && Names(sources, ref, i))
  {
    if StartsWith(ref, RESOLVED_PREFIX) {
      FlatteningMeaning.FlattensExactly(sources, ref);
      hide FlattenReference;
      var rest := ref[|RESOLVED_PREFIX|..];
      if FlattenReference(sources, ref).Some? {
        var parts := Split(rest);
        LookupFinds(sources, parts[0]);
        var i :| 0 <= i < |sources| && sources[i] == Lookup(sources, parts[0]).value;
        NamedBy(sources, ref, i);
      }
      if i :| 0 <= i < |sources| && Names(sources, ref, i) {
        AcceptsNamed(sources, ref, i);
      }
    }
  }

  lemma AcceptsNamed(sources: Sources, ref: Text, i: nat)
    requires FromFiles(sources) && Names(sources, ref, i)
    ensures FlattenReference(sources, ref).Some?
  {
    var key := sources[i].key;
    if ref == ToSchema(key) {
      assert Segment([0x61]);
      FlattenedText(sources, i, key, [0x61]);
    } else {
      var name :| Segment(name) && ref == ToDefinition(key, name);
      FlattenedText(sources, i, key, name);
    }
  }

  lemma NamedBy(sources: Sources, ref: Text, i: nat)
    requires StartsWith(ref, RESOLVED_PREFIX) && i < |sources|
    requires var parts := Split(ref[|RESOLVED_PREFIX|..]); Flattens(parts) && sources[i].key == parts[0]
    ensures Names(sources, ref, i)
  {
    var rest := ref[|RESOLVED_PREFIX|..];
    var parts := Split(rest);
    assert ref == RESOLVED_PREFIX + rest;
    JoinSplit(rest);
    FlatteningMeaning.PartsHaveNoSlash(rest);
    assert SLASH !in parts[0];
    hide Split, RESOLVED_PREFIX, StartsWith;
    if |parts| == 1 {
      PrefixIs(parts[0]);
    } else {
      assert SLASH !in parts[2];
      JoinThree(parts);
      assert Lit("/$defs/") == [SLASH] + (DEFS + [SLASH]);
      Regrouped(parts[0], parts[2]);
      Appended(parts[0], Lit("/$defs/") + parts[2]);
      assert ref == ToDefinition(parts[0], parts[2]);
    }
  }

  lemma JoinThree(parts: seq<Text>)
    requires |parts| == 3
    ensures Join(parts) == parts[0] + ([SLASH] + (parts[1] + ([SLASH] + parts[2])))
  {
    var last := [parts[2]];
    assert parts[1..][1..] == last && parts[1..][0] == parts[1];
    assert Join(last) == parts[2];
    assert Join(parts[1..]) == parts[1] + ([SLASH] + Join(last));
  }

  // ---- the bundle around the definitions ----

  const CLOSED: map<Text, Value> := map[Lit("type") := Str(Lit("object")), Lit("additionalProperties") := Bool(false)]
  const TITLED: map<Text, Value> :=
    map[Lit("title") := Str(Lit("AnvilKitContracts")), Lit("$schema") := Str(Lit("https://json-schema.org/draft/2020-12/schema"))]

  /** A closed object schema of that title, in the 2020-12 dialect. */
  lemma HeaderExactly()
    ensures FlatteningMeaning.HeaderOf() == CLOSED + TITLED
  {
    assert |Lit("type")| == 4 && |Lit("additionalProperties")| == 20 && |Lit("title")| == 5 && |Lit("$schema")| == 7;
  }

  /** The bundle is such a schema with properties and the definitions. */
  lemma BundleAround(sources: Sources)
    requires FromFiles(sources) && Definitions(sources).Some?
    ensures FlatteningMeaning.Bundle(sources) ==
            Some(Obj(FlatteningMeaning.HeaderOf()[Lit("properties") := Obj(FlatteningMeaning.BundleProperties(sources))]
                                                 [Lit("$defs") := Obj(Definitions(sources).value)]))
  {
    hide Definitions, FlatteningMeaning.BundleProperties, FlatteningMeaning.HeaderOf;
  }

  /** There is one property for each source, which refers to the definition of its
      logical id. */
  lemma PropertiesExactly(sources: Sources, id: Text)
    ensures var properties := FlatteningMeaning.BundleProperties(sources);
            && (id in properties <==> exists i :: 0 <= i < |sources| && sources[i].logicalId == id)
            && (id in properties ==> properties[id] == Obj(map[Lit("$ref") := Str(InBundle(id))]))
  {
    InBundleIs(id);
    assert REF == Lit("$ref");
    hide DefinitionReference, InBundle, REF;
  }
}
