/** Flattening preserves meaning: what the references of the bundle resolve to. */
module FlatteningMeaning {
  import opened CodeUnits
  import opened Json
  import opened JsonPointer
  import opened ReferenceRewriting
  import opened References
  import opened SpecNormalization
  import opened Flattening
  import Canonical

  // ---- the bundle ----

  const PROPERTIES: Text := Lit("properties")
  const DIALECT: Text := Lit("https://json-schema.org/draft/2020-12/schema")
  const TITLE: Text := Lit("AnvilKitContracts")

  function PropertyFor(id: Text): Value { Obj(map[REF := Str(DefinitionReference(id))]) }

  /** One property for each source, referring to its definition. */
  function BundleProperties(sources: Sources): map<Text, Value> {
    map i | 0 <= i < |sources| :: sources[i].logicalId := PropertyFor(sources[i].logicalId)
  }

  function HeaderOf(): map<Text, Value> {
    map[Lit("$schema") := Str(DIALECT), Lit("title") := Str(TITLE), Lit("type") := Str(Lit("object")),
        Lit("additionalProperties") := Bool(false)]
  }

  function BundleOf(sources: Sources, definitions: map<Text, Value>): Value {
    Obj(HeaderOf()[PROPERTIES := Obj(BundleProperties(sources))][DEFS := Obj(definitions)])
  }

  /** contractSchemaBundleForGeneration */
  method ContractSchemaBundle(sources: Sources) returns (bundle: Option<Value>)
    requires FromFiles(sources)
    ensures bundle == Bundle(sources)
  {
    hide Definitions;
    var properties: map<Text, Value> := map[];
    var i := 0;
    while i < |sources|
      invariant 0 <= i <= |sources|
      invariant properties == BundleProperties(sources[..i])
    {
      properties := properties[sources[i].logicalId := PropertyFor(sources[i].logicalId)];
      i := i + 1;
      assert properties == BundleProperties(sources[..i]) by { PropertiesStep(sources, i - 1); }
    }
    assert sources[..i] == sources;
    var definitions := GenerationDefinitions(sources);
    if definitions.None? {
      return None;
    }
    return Some(BundleOf(sources, definitions.value));
  }

  lemma PropertiesStep(sources: Sources, i: nat)
    requires i < |sources|
    ensures BundleProperties(sources[..i + 1])
         == BundleProperties(sources[..i])[sources[i].logicalId := PropertyFor(sources[i].logicalId)]
  {
    var s := sources[..i + 1];
    assert s[..i] == sources[..i] && s[i] == sources[i];
    forall k ensures k in BundleProperties(s) <==> k in BundleProperties(sources[..i]) || k == sources[i].logicalId {
      if k in BundleProperties(s) {
        var j :| 0 <= j < |s| && s[j].logicalId == k;
        if j < i { assert sources[..i][j].logicalId == k; }
      }
      if k in BundleProperties(sources[..i]) {
        var j :| 0 <= j < i && sources[..i][j].logicalId == k;
        assert s[j].logicalId == k;
      }
      if k == sources[i].logicalId { assert s[i].logicalId == k; }
    }
  }

  function Bundle(sources: Sources): Option<Value>
    requires FromFiles(sources)
  {
    match Definitions(sources) case None => None case Some(definitions) => Some(BundleOf(sources, definitions))
  }

  // ---- references before and after ----

  predicate Plain(t: Text) { TILDE !in t && SLASH !in t }

  /** Keys are written in pointers as they are, and logical ids are read from them
      as they are. */
  ghost predicate Flattenable(sources: Sources)
    requires FromFiles(sources)
  {
    forall i :: 0 <= i < |sources| ==> Plain(sources[i].key) && Stands(sources[i].logicalId)
  }

  lemma DefsIsPlain()
    ensures Plain(DEFS) && Unescape(DEFS) == DEFS
  {
    assert DEFS[0] == 0x24 && DEFS[1] == 0x64 && DEFS[2] == 0x65 && DEFS[3] == 0x66 && DEFS[4] == 0x73;
    UnescapePlain(DEFS);
  }

  /** A flattened reference is read as $defs and one name. */
  lemma DefinitionReferenceTokens(id: Text, definition: Text)
    requires Stands(id) && SLASH !in definition
    ensures FragmentTokens(DefinitionReference(id + definition)[1..]) == [DEFS, id + Unescape(definition)]
  {
    hide Unescape, Split, UnescapeAll, HasPair;
    DefsIsPlain();
    var name := id + definition;
    assert DefinitionReference(name)[1..][1..] == DEFS + ([SLASH] + name);
    SplitStep(DEFS, name);
    SplitLast(name);
    UnescapeAllCons(DEFS, [name]);
    assert [name] == [name] + [];
    UnescapeAllCons(name, []);
    assert UnescapeAll([]) == [] by { NoTokens(); }
    UnescapeAfterStanding(id, definition);
  }

  /** A projected reference is read as the resolved map and its parts. */
  lemma ResolvedReferenceTokens(ref: Text)
    requires StartsWith(ref, RESOLVED_PREFIX)
    ensures FragmentTokens(ref[1..]) == [RESOLVED] + UnescapeAll(Split(ref[|RESOLVED_PREFIX|..]))
  {
    hide Unescape, Split, UnescapeAll;
    ResolvedIsPlain();
    var rest := ref[|RESOLVED_PREFIX|..];
    assert ref == ref[..|RESOLVED_PREFIX|] + rest;
    assert ref[0..|RESOLVED_PREFIX|] == ref[..|RESOLVED_PREFIX|];
    assert ref == RESOLVED_PREFIX + rest;
    assert ref[1..][1..] == RESOLVED + ([SLASH] + rest);
    SplitStep(RESOLVED, rest);
    UnescapeAllCons(RESOLVED, Split(rest));
  }

  lemma {:induction false} PartsHaveNoSlash(t: Text)
    ensures forall i :: 0 <= i < |Split(t)| ==> SLASH !in Split(t)[i]
    decreases |t|
  {
    var p := FirstPart(t);
    if |p| < |t| {
      PartsHaveNoSlash(t[|p| + 1..]);
    }
  }

  // ---- the parts of a source ----

  lemma {:induction false} NamedPartIn(all: Sources, id: Text, defs: map<Text, Value>, names: seq<Text>, j: nat)
    requires (forall i :: 0 <= i < |names| ==> names[i] in defs) && j < |names| && NamedParts(all, id, defs, names).Some?
    ensures Flat(all, defs[names[j]]).Some?
         && Part(id + names[j], Flat(all, defs[names[j]]).value) in NamedParts(all, id, defs, names).value
    decreases |names|
  {
    hide Flat;
    if j > 0 { NamedPartIn(all, id, defs, names[1..], j - 1); }
  }

  lemma {:induction false} SourcePartsIn(sources: Sources, all: Sources, i: nat)
    requires (forall k :: 0 <= k < |sources| ==> sources[k].schema.Obj?) && i < |sources| && AllParts(sources, all).Some?
    ensures SourceParts(all, sources[i]).Some?
         && forall p :: p in SourceParts(all, sources[i]).value ==> p in AllParts(sources, all).value
    decreases |sources|
  {
    hide SourceParts;
    if i > 0 { SourcePartsIn(sources[1..], all, i - 1); }
  }

  lemma ProjectionKnown(sources: Sources, i: nat)
    requires FromFiles(sources) && i < |sources| && Definitions(sources).Some?
    ensures Projection(sources, sources[i]).Some? && SourceParts(sources, sources[i]).Some?
  {
    hide AllParts, Projection, Flat, NamedParts;
    SourcePartsIn(sources, sources, i);
  }

  lemma AllKnown(sources: Sources)
    requires FromFiles(sources) && Definitions(sources).Some?
    ensures AllProjected(sources, sources)
  {
    hide Definitions;
    forall i | 0 <= i < |sources| ensures Projection(sources, sources[i]).Some? { ProjectionKnown(sources, i); }
  }

  /** The resolved schemas alone, as the projected references see them. */
  function ResolvedDocument(sources: Sources): Value
    requires FromFiles(sources) && Definitions(sources).Some?
  {
    AllKnown(sources);
    Obj(map[RESOLVED := Obj(ResolvedSchemas(sources, sources))])
  }

  /** No two parts claim a name for different definitions, and none the one that
      makes no member: every part is found under its name. */
  ghost predicate NamesAgree(sources: Sources)
    requires FromFiles(sources)
  {
    AllParts(sources, sources).Some? ==> Agree(AllParts(sources, sources).value) && NoneLost(AllParts(sources, sources).value)
  }

  lemma Found(sources: Sources, p: Part)
    requires FromFiles(sources) && Definitions(sources).Some? && NamesAgree(sources)
    requires p in AllParts(sources, sources).value
    ensures PartFound(Definitions(sources).value, p)
  {
    hide AllParts;
    var parts := AllParts(sources, sources).value;
    var i :| 0 <= i < |parts| && parts[i] == p;
    FillFinds(map[], parts, i);
  }

  lemma RootFound(sources: Sources, i: nat)
    requires FromFiles(sources) && Definitions(sources).Some? && NamesAgree(sources) && i < |sources|
    ensures DefinitionReference(sources[i].logicalId) != [] && Projection(sources, sources[i]).Some?
    ensures var root := Flat(sources, Root(Projection(sources, sources[i]).value));
            root.Some? && PartFound(Definitions(sources).value, Part(sources[i].logicalId, root.value))
  {
    hide AllParts, Projection, Flat, NamedParts, FillFrom, Agree;
    ProjectionKnown(sources, i);
    SourcePartsIn(sources, sources, i);
    var root := Flat(sources, Root(Projection(sources, sources[i]).value)).value;
    assert Part(sources[i].logicalId, root) == SourceParts(sources, sources[i]).value[0];
    Found(sources, Part(sources[i].logicalId, root));
  }

  lemma DefinitionFound(sources: Sources, i: nat, name: Text)
    requires FromFiles(sources) && Definitions(sources).Some? && NamesAgree(sources) && i < |sources|
    requires Projection(sources, sources[i]).Some? && name in LocalDefinitions(Projection(sources, sources[i]).value)
    ensures var definition := Flat(sources, LocalDefinitions(Projection(sources, sources[i]).value)[name]);
            definition.Some? && PartFound(Definitions(sources).value, Part(sources[i].logicalId + name, definition.value))
  {
    hide AllParts, Projection, Flat, NamedParts, FillFrom, Agree, LocalDefinitions;
    ProjectionKnown(sources, i);
    SourcePartsIn(sources, sources, i);
    var s := sources[i];
    var defs := LocalDefinitions(Projection(sources, s).value);
    var names := Canonical.SortedKeys(defs.Keys);
    var j :| 0 <= j < |names| && names[j] == name;
    NamedPartIn(sources, s.logicalId, defs, names, j);
    var p := Part(s.logicalId + name, Flat(sources, defs[name]).value);
    var rest := NamedParts(sources, s.logicalId, defs, names).value;
    assert SourceParts(sources, s).value[1..] == rest;
    assert p in SourceParts(sources, s).value;
    Found(sources, p);
  }

  // ---- flattening preserves meaning ----

  /** A reference of a projected schema is accepted exactly when it names a known
      schema or one of its definitions; anything deeper is refused. */
  lemma FlattensExactly(sources: Sources, ref: Text)
    requires FromFiles(sources) && StartsWith(ref, RESOLVED_PREFIX)
    ensures var parts := Split(ref[|RESOLVED_PREFIX|..]);
            FlattenReference(sources, ref).Some? <==> Flattens(parts) && Lookup(sources, parts[0]).Some?
  {
    hide Split;
    LookupFinds(sources, []);
  }

  /** The value a flattened reference must select, given what it selected before:
      a schema without its definitions, or a definition, with its own references
      flattened. */
  function FlatTarget(sources: Sources, ref: Text, target: Value): Option<Value>
    requires |ref| >= |RESOLVED_PREFIX|
  {
    if |Split(ref[|RESOLVED_PREFIX|..])| == 1 && target.Obj? then Flat(sources, Root(target)) else Flat(sources, target)
  }

  /** Before flattening: the reference selects a projected schema or one of its
      definitions. */
  lemma TargetBefore(sources: Sources, ref: Text, i: nat)
    requires FromFiles(sources) && Flattenable(sources) && Definitions(sources).Some? && i < |sources|
    requires StartsWith(ref, RESOLVED_PREFIX)
    requires var parts := Split(ref[|RESOLVED_PREFIX|..]); Flattens(parts) && parts[0] == sources[i].key
    ensures Projection(sources, sources[i]).Some?
    ensures var parts := Split(ref[|RESOLVED_PREFIX|..]);
            var p := Projection(sources, sources[i]).value;
            Follow(ResolvedDocument(sources), ref) ==
              if |parts| == 1 then Some(p) else Deref(p, [DEFS, Unescape(parts[2])])
  {
    hide Split, Unescape, UnescapeAll, Projection, Definitions, ResolvedDocument, Deref, FragmentTokens, Flattens, Stands;
    var parts := Split(ref[|RESOLVED_PREFIX|..]);
    var read := UnescapeAll(parts);
    ResolvedHolds(sources, i);
    ResolvedReferenceTokens(ref);
    PartsRead(parts);
    HeadAndTail(RESOLVED, read);
    SchemaMember(ResolvedDocument(sources), sources[i].key, read[1..]);
    DerefNothing(Projection(sources, sources[i]).value);
  }

  lemma HeadAndTail<T>(first: T, rest: seq<T>)
    requires rest != []
    ensures [first] + rest == [first, rest[0]] + rest[1..]
  {}

  lemma Two<T>(s: seq<T>)
    requires |s| == 3
    ensures s[1..] == [s[1], s[2]]
  {}

  lemma PartsRead(parts: seq<Text>)
    requires Flattens(parts) && Plain(parts[0])
    ensures |parts| == 1 || |parts| == 3
    ensures UnescapeAll(parts)[0] == parts[0]
    ensures |parts| == 1 ==> UnescapeAll(parts)[1..] == []
    ensures |parts| == 3 ==> UnescapeAll(parts)[1..] == [DEFS, Unescape(parts[2])]
  {
    UnescapePlain(parts[0]);
    DefsIsPlain();
    hide Unescape, UnescapeAll;
    if |parts| == 3 { Two(UnescapeAll(parts)); }
  }

  lemma DerefNothing(v: Value)
    ensures Deref(v, []) == Some(v)
  {}

  lemma ResolvedHolds(sources: Sources, i: nat)
    requires FromFiles(sources) && Definitions(sources).Some? && i < |sources|
    ensures Projection(sources, sources[i]).Some?
    ensures var d := ResolvedDocument(sources);
            && d.Obj? && RESOLVED in d.members && d.members[RESOLVED].Obj? && sources[i].key in d.members[RESOLVED].members
            && d.members[RESOLVED].members[sources[i].key] == Projection(sources, sources[i]).value
  {
    hide Definitions, Projected;
    AllKnown(sources);
    ResolvedAt(sources, sources, i);
  }

  lemma DefinitionMember(p: Value, name: Text)
    requires p.Obj? && (DEFS in p.members ==> !p.members[DEFS].Arr?)
    ensures Deref(p, [DEFS, name]) == if name in LocalDefinitions(p) then Some(LocalDefinitions(p)[name]) else None
  {
    assert [DEFS, name][1..] == [name];
    if DEFS in p.members {
      var defs := p.members[DEFS];
      assert Deref(defs, [name]) == if defs.Obj? && name in defs.members then Some(defs.members[name]) else None;
    }
  }

  lemma StaysNoArray(f: Action, drop: Dropped, key: Text, child: Value)
    requires !child.Arr? && AcceptsMember(f, drop, key, child)
    ensures !ApplyMember(f, drop, key, child).Arr?
  {}

  lemma DefinitionsStayNoArray(sources: Sources, i: nat)
    requires FromFiles(sources) && i < |sources| && Projection(sources, sources[i]).Some?
    requires DEFS in sources[i].schema.members ==> !sources[i].schema.members[DEFS].Arr?
    ensures var p := Projection(sources, sources[i]).value; DEFS in p.members ==> !p.members[DEFS].Arr?
  {
    var schema := sources[i].schema;
    var p := Projection(sources, sources[i]).value;
    if DEFS in p.members {
      StaysNoArray(ActionFor(sources, Some(sources[i].key)), DropFor(Some(sources[i].key)), DEFS, schema.members[DEFS]);
    }
  }

  lemma BundleMember(sources: Sources, name: Text)
    requires FromFiles(sources) && Definitions(sources).Some?
    ensures Deref(Bundle(sources).value, [DEFS, name]) ==
            if name in Definitions(sources).value then Some(Definitions(sources).value[name]) else None
  {
    hide Definitions, Deref, HeaderOf, BundleProperties;
    var b := Bundle(sources).value;
    assert DEFS in b.members && b.members[DEFS] == Obj(Definitions(sources).value);
    DefinitionMember(b, name);
  }

  /** The reference selects an item of $defs that are an array, by its index; such
      items are no definitions. */
  predicate SelectsItem(sources: Sources, ref: Text)
    requires FromFiles(sources) && |ref| >= |RESOLVED_PREFIX|
  {
    var parts := Split(ref[|RESOLVED_PREFIX|..]);
    |parts| == 3 && Lookup(sources, parts[0]).Some? &&
    var schema := Lookup(sources, parts[0]).value.schema;
    schema.Obj? && DEFS in schema.members && schema.members[DEFS].Arr?
  }

  /** What the bundle holds under the name such a reference is given: a part of some
      other schema, if one has that name. */
  function UnderItemName(sources: Sources, ref: Text): Option<Value>
    requires FromFiles(sources) && Definitions(sources).Some? && |ref| >= |RESOLVED_PREFIX| && SelectsItem(sources, ref)
  {
    var parts := Split(ref[|RESOLVED_PREFIX|..]);
    var name := Lookup(sources, parts[0]).value.logicalId + Unescape(parts[2]);
    if name in Definitions(sources).value then Some(Definitions(sources).value[name]) else None
  }

  /** Whatever a projected reference selected, the flattened one selects in the
      bundle its flattened image, as long as no name is claimed twice for
      different definitions, and unless it was an item of an array. */
  lemma FlatteningPreserves(sources: Sources, ref: Text)
    requires FromFiles(sources) && Flattenable(sources) && Definitions(sources).Some? && NamesAgree(sources)
    requires StartsWith(ref, RESOLVED_PREFIX) && FlattenReference(sources, ref).Some?
    requires Follow(ResolvedDocument(sources), ref).Some?
    ensures var r := FlattenReference(sources, ref).value;
            r != [] &&
            if SelectsItem(sources, ref) then Follow(Bundle(sources).value, r) == UnderItemName(sources, ref)
            else Follow(Bundle(sources).value, r).Some?
                 && Follow(Bundle(sources).value, r) == FlatTarget(sources, ref, Follow(ResolvedDocument(sources), ref).value)
  {
    hide Split, Unescape, Definitions, NamesAgree, Projection, Flat, FragmentTokens, Deref, LocalDefinitions, Bundle, ResolvedDocument;
    var parts := Split(ref[|RESOLVED_PREFIX|..]);
    FlattensExactly(sources, ref);
    LookupFinds(sources, parts[0]);
    var s := Lookup(sources, parts[0]).value;
    var i :| 0 <= i < |sources| && sources[i] == s;
    ProjectionKnown(sources, i);
    TargetBefore(sources, ref, i);
    if |parts| == 1 {
      assert s.logicalId + [] == s.logicalId;
      DefinitionReferenceTokens(s.logicalId, []);
      assert Unescape([]) == [] by { NothingToUnescape(); }
      BundleMember(sources, s.logicalId);
      RootFound(sources, i);
    } else {
      PartsHaveNoSlash(ref[|RESOLVED_PREFIX|..]);
      DefinitionReferenceTokens(s.logicalId, parts[2]);
      var name := Unescape(parts[2]);
      BundleMember(sources, s.logicalId + name);
      if !SelectsItem(sources, ref) {
        DefinitionsStayNoArray(sources, i);
        DefinitionMember(Projection(sources, s).value, name);
        DefinitionFound(sources, i, name);
      }
    }
  }

  /** A schema with an array for its $defs adds nothing but its root, so that no
      item of it is in the bundle. */
  lemma ItemsAreNoParts(sources: Sources, i: nat)
    requires FromFiles(sources) && i < |sources| && SourceParts(sources, sources[i]).Some?
    requires DEFS in sources[i].schema.members && sources[i].schema.members[DEFS].Arr?
    ensures |SourceParts(sources, sources[i]).value| == 1 && SourceParts(sources, sources[i]).value[0].name == sources[i].logicalId
  {
    var s := sources[i];
    var p := Projection(sources, s).value;
    if DEFS in p.members { ArrayStays(ActionFor(sources, Some(s.key)), DropFor(Some(s.key)), DEFS, s.schema.members[DEFS]); }
    hide Projection, Flat;
    assert LocalDefinitions(p) == map[];
    NoNames(sources, s.logicalId);
  }

  lemma ArrayStays(f: Action, drop: Dropped, key: Text, child: Value)
    requires child.Arr? && AcceptsMember(f, drop, key, child)
    ensures ApplyMember(f, drop, key, child).Arr?
  {}

  lemma NoNames(sources: Sources, id: Text)
    ensures var none: map<Text, Value> := map[];
            Canonical.SortedKeys(none.Keys) == [] && NamedParts(sources, id, none, Canonical.SortedKeys(none.Keys)) == Some([])
  {}

  // ---- every reference of the bundle ----

  /** No logical id is empty or starts like a keyword. */
  ghost predicate IdsAreNames(sources: Sources) {
    forall i :: 0 <= i < |sources| ==> sources[i].logicalId != [] && sources[i].logicalId[0] != REF[0]
  }

  lemma {:induction false} FillFromParts(m: map<Text, Value>, parts: seq<Part>, name: Text)
    requires name in FillFrom(m, parts)
    ensures (name in m && FillFrom(m, parts)[name] == m[name]) || exists i :: 0 <= i < |parts| && parts[i] == Part(name, FillFrom(m, parts)[name])
    decreases |parts|
  {
    if parts != [] {
      FillFromParts(Assigned(m, parts[0].name, parts[0].value), parts[1..], name);
      if i :| 0 <= i < |parts[1..]| && parts[1..][i] == Part(name, FillFrom(m, parts)[name]) {
        assert parts[i + 1] == parts[1..][i];
      }
    }
  }

  lemma {:induction false} PartFromSource(sources: Sources, all: Sources, p: Part)
    requires (forall k :: 0 <= k < |sources| ==> sources[k].schema.Obj?) && AllParts(sources, all).Some? && p in AllParts(sources, all).value
    ensures exists i :: 0 <= i < |sources| && SourceParts(all, sources[i]).Some? && p in SourceParts(all, sources[i]).value
    decreases |sources|
  {
    hide SourceParts;
    if sources != [] && p !in SourceParts(all, sources[0]).value {
      PartFromSource(sources[1..], all, p);
      var i :| 0 <= i < |sources[1..]| && SourceParts(all, sources[1..][i]).Some? && p in SourceParts(all, sources[1..][i]).value;
      assert sources[i + 1] == sources[1..][i];
    }
  }

  lemma {:induction false} PartFromName(all: Sources, id: Text, defs: map<Text, Value>, names: seq<Text>, p: Part)
    requires (forall i :: 0 <= i < |names| ==> names[i] in defs) && NamedParts(all, id, defs, names).Some?
    requires p in NamedParts(all, id, defs, names).value
    ensures exists j :: 0 <= j < |names| && p.name == id + names[j] && Flat(all, defs[names[j]]) == Some(p.value)
    decreases |names|
  {
    hide Flat;
    if names != [] && !(p.name == id + names[0] && Flat(all, defs[names[0]]) == Some(p.value)) {
      PartFromName(all, id, defs, names[1..], p);
      var j :| 0 <= j < |names[1..]| && p.name == id + names[1..][j] && Flat(all, defs[names[1..][j]]) == Some(p.value);
      assert names[j + 1] == names[1..][j];
    }
  }

  /** A projected schema holds the reference. */
  predicate HeldBySchema(sources: Sources, i: nat, s: Text)
    requires FromFiles(sources) && i < |sources|
  {
    Projection(sources, sources[i]).Some? && Holds(Nothing(), Projection(sources, sources[i]).value, s)
  }

  /** It holds it in its root or in one of its definitions, the two places that
      are flattened. */
  predicate HeldInPart(sources: Sources, i: nat, s: Text)
    requires FromFiles(sources) && i < |sources|
  {
    Projection(sources, sources[i]).Some? &&
    var p := Projection(sources, sources[i]).value;
    Holds(Nothing(), Root(p), s) || exists name :: name in LocalDefinitions(p) && Holds(Nothing(), LocalDefinitions(p)[name], s)
  }

  lemma HeldInSchema(sources: Sources, i: nat, s: Text)
    requires FromFiles(sources) && i < |sources| && HeldInPart(sources, i, s)
    ensures HeldBySchema(sources, i, s)
  {
    hide Projection, Holds, LocalDefinitions;
    var p := Projection(sources, sources[i]).value;
    if Holds(Nothing(), Root(p), s) {
      ReferencesOfRoot(p, s);
    } else {
      var name :| name in LocalDefinitions(p) && Holds(Nothing(), LocalDefinitions(p)[name], s);
      ReferencesOfDefinition(p, name, s);
    }
  }

  lemma ReferencesOfFlat(sources: Sources, v: Value, t: Text)
    requires Flat(sources, v).Some? && Holds(Nothing(), Flat(sources, v).value, t)
    ensures exists s :: Holds(Nothing(), v, s) && FlattenReference(sources, s) == Some(t)
  {
    hide FlattenReference;
    ReferencesOfCopy(FlattenAction(sources), DropFor(None), v, t);
    var s :| Holds(DropFor(None), v, s) && FlattenAction(sources)(s) == Some(t);
    HoldsMore(DropFor(None), v, s);
  }

  lemma ReferencesOfRoot(p: Value, s: Text)
    requires p.Obj? && Holds(Nothing(), Root(p), s)
    ensures Holds(Nothing(), p, s)
  {
    var k :| k in Root(p).members && HoldsMember(Nothing(), k, Root(p).members[k], s);
    assert k in p.members && HoldsMember(Nothing(), k, p.members[k], s);
  }

  lemma ReferencesOfDefinition(p: Value, name: Text, s: Text)
    requires p.Obj? && name in LocalDefinitions(p) && Holds(Nothing(), LocalDefinitions(p)[name], s)
    ensures Holds(Nothing(), p, s)
  {
    var defs := p.members[DEFS];
    assert HoldsMember(Nothing(), name, defs.members[name], s);
    assert Holds(Nothing(), defs, s);
    assert HoldsMember(Nothing(), DEFS, defs, s);
  }

  /** A reference inside a part is the flattening of one in its schema. */
  lemma ReferencesOfPart(sources: Sources, i: nat, p: Part, t: Text)
    requires FromFiles(sources) && i < |sources| && SourceParts(sources, sources[i]).Some? && p in SourceParts(sources, sources[i]).value
    requires Holds(Nothing(), p.value, t)
    ensures exists s {:trigger HeldInPart(sources, i, s)} :: HeldInPart(sources, i, s) && FlattenReference(sources, s) == Some(t)
  {
    hide Projection, Flat, NamedParts, LocalDefinitions, FlattenReference, Holds;
    var projection := Projection(sources, sources[i]).value;
    var defs := LocalDefinitions(projection);
    if Flat(sources, Root(projection)) == Some(p.value) {
      ReferencesOfFlat(sources, Root(projection), t);
      var s :| Holds(Nothing(), Root(projection), s) && FlattenReference(sources, s) == Some(t);
      assert HeldInPart(sources, i, s);
    } else {
      var names := Canonical.SortedKeys(defs.Keys);
      var rest := NamedParts(sources, sources[i].logicalId, defs, names).value;
      assert p in rest;
      PartFromName(sources, sources[i].logicalId, defs, names, p);
      var j :| 0 <= j < |names| && Flat(sources, defs[names[j]]) == Some(p.value);
      ReferencesOfFlat(sources, defs[names[j]], t);
      var s :| Holds(Nothing(), defs[names[j]], s) && FlattenReference(sources, s) == Some(t);
      assert HeldInPart(sources, i, s);
    }
  }

  lemma PartNamed(sources: Sources, i: nat, p: Part)
    requires FromFiles(sources) && i < |sources| && SourceParts(sources, sources[i]).Some? && p in SourceParts(sources, sources[i]).value
    requires IdsAreNames(sources)
    ensures p.name != REF
  {
    hide Projection, Flat, NamedParts, LocalDefinitions;
    var projection := Projection(sources, sources[i]).value;
    var id, defs := sources[i].logicalId, LocalDefinitions(projection);
    var names := Canonical.SortedKeys(defs.Keys);
    if p != SourceParts(sources, sources[i]).value[0] {
      assert p in NamedParts(sources, id, defs, names).value;
      PartFromName(sources, id, defs, names, p);
      var j :| 0 <= j < |names| && p.name == id + names[j] && Flat(sources, defs[names[j]]) == Some(p.value);
      assert p.name[0] == id[0];
    }
  }

  /** The reference of a property. */
  ghost predicate FromProperty(sources: Sources, t: Text) {
    exists i :: 0 <= i < |sources| && t == DefinitionReference(sources[i].logicalId)
  }

  /** The flattening of a reference in a root or a definition. */
  ghost predicate FromSchema(sources: Sources, t: Text)
    requires FromFiles(sources)
  {
    exists i, s :: 0 <= i < |sources| && HeldInPart(sources, i, s) && FlattenReference(sources, s) == Some(t)
  }

  lemma ReferencesOfDefinitions(sources: Sources, t: Text)
    requires FromFiles(sources) && IdsAreNames(sources) && Definitions(sources).Some?
    requires Holds(Nothing(), Obj(Definitions(sources).value), t)
    ensures FromSchema(sources, t)
  {
    hide AllParts, SourceParts, FlattenReference, HeldInPart;
    var definitions := Definitions(sources).value;
    var parts := AllParts(sources, sources).value;
    var name :| name in definitions && HoldsMember(Nothing(), name, definitions[name], t);
    FillFromParts(map[], parts, name);
    var j :| 0 <= j < |parts| && parts[j] == Part(name, definitions[name]);
    PartFromSource(sources, sources, parts[j]);
    var i :| 0 <= i < |sources| && SourceParts(sources, sources[i]).Some? && parts[j] in SourceParts(sources, sources[i]).value;
    PartNamed(sources, i, parts[j]);
    ReferencesOfPart(sources, i, parts[j], t);
  }

  lemma ReferencesOfProperties(sources: Sources, t: Text)
    requires Holds(Nothing(), Obj(BundleProperties(sources)), t)
    ensures FromProperty(sources, t)
  {
    var properties := BundleProperties(sources);
    var id :| id in properties && HoldsMember(Nothing(), id, properties[id], t);
    var i :| 0 <= i < |sources| && sources[i].logicalId == id;
    var property := PropertyFor(id);
    assert properties[id] == property;
    assert Holds(Nothing(), property, t);
    var k :| k in property.members && HoldsMember(Nothing(), k, property.members[k], t);
  }

  lemma HeaderHoldsNothing(k: Text, t: Text)
    requires k in HeaderOf()
    ensures !HoldsMember(Nothing(), k, HeaderOf()[k], t)
  {
    assert |Lit("$schema")| == 7 && |Lit("title")| == 5 && Lit("type")[0] != REF[0] && |Lit("additionalProperties")| == 20;
  }

  // The other way round: each of those does occur.

  lemma FlatOfReference(sources: Sources, v: Value, s: Text, t: Text)
    requires Flat(sources, v).Some? && Without(DropFor(None), v)
    requires Holds(Nothing(), v, s) && FlattenReference(sources, s) == Some(t)
    ensures Holds(Nothing(), Flat(sources, v).value, t)
  {
    hide FlattenReference;
    WithoutHolds(DropFor(None), v, s);
    ReferencesOfCopy(FlattenAction(sources), DropFor(None), v, t);
    assert FlattenAction(sources)(s) == Some(t);
  }

  lemma ProjectionIsWithout(sources: Sources, i: nat)
    requires FromFiles(sources) && i < |sources| && Projection(sources, sources[i]).Some?
    ensures var p := Projection(sources, sources[i]).value;
            && Without(DropFor(None), Root(p))
            && forall name :: name in LocalDefinitions(p) ==> Without(DropFor(None), LocalDefinitions(p)[name])
  {
    var local := Some(sources[i].key);
    CopyIsWithout(ActionFor(sources, local), DropFor(local), DropFor(None), sources[i].schema);
    var p := Projection(sources, sources[i]).value;
    hide Projection, Omitted;
    assert Without(DropFor(None), p);
    if DEFS in p.members { assert Without(DropFor(None), p.members[DEFS]); }
  }

  lemma DefinitionsHold(sources: Sources, p: Part, t: Text)
    requires FromFiles(sources) && Definitions(sources).Some? && PartFound(Definitions(sources).value, p)
    requires p.name != REF && Holds(Nothing(), p.value, t)
    ensures Holds(Nothing(), Obj(Definitions(sources).value), t)
  {
    hide Definitions;
    var definitions := Definitions(sources).value;
    assert HoldsMember(Nothing(), p.name, definitions[p.name], t);
  }

  lemma SchemaReferenceOccurs(sources: Sources, t: Text)
    requires FromFiles(sources) && IdsAreNames(sources) && Definitions(sources).Some? && NamesAgree(sources)
    requires FromSchema(sources, t)
    ensures Holds(Nothing(), Obj(Definitions(sources).value), t)
  {
    hide Definitions, NamesAgree, Projection, Flat, FlattenReference, Holds, LocalDefinitions, Without;
    var i, s :| 0 <= i < |sources| && HeldInPart(sources, i, s) && FlattenReference(sources, s) == Some(t);
    var p := Projection(sources, sources[i]).value;
    var id := sources[i].logicalId;
    ProjectionIsWithout(sources, i);
    if Holds(Nothing(), Root(p), s) {
      RootFound(sources, i);
      FlatOfReference(sources, Root(p), s, t);
      DefinitionsHold(sources, Part(id, Flat(sources, Root(p)).value), t);
    } else {
      var name :| name in LocalDefinitions(p) && Holds(Nothing(), LocalDefinitions(p)[name], s);
      var definition := LocalDefinitions(p)[name];
      DefinitionFound(sources, i, name);
      FlatOfReference(sources, definition, s, t);
      assert (id + name)[0] == id[0];
      DefinitionsHold(sources, Part(id + name, Flat(sources, definition).value), t);
    }
  }

  lemma PropertyReferenceOccurs(sources: Sources, t: Text)
    requires FromProperty(sources, t)
    ensures Holds(Nothing(), Obj(BundleProperties(sources)), t)
  {
    var i :| 0 <= i < |sources| && t == DefinitionReference(sources[i].logicalId);
    var id := sources[i].logicalId;
    var properties := BundleProperties(sources);
    var property := PropertyFor(id);
    assert HoldsMember(Nothing(), REF, property.members[REF], t);
    assert Holds(Nothing(), property, t);
    assert id in properties && properties[id] == property;
    assert HoldsMember(Nothing(), id, properties[id], t);
  }

  /** The references of the bundle are those of the properties and the flattened
      references of the roots and definitions; all of them, unless a name claimed
      for two definitions lost one. */
  lemma BundleReferences(sources: Sources, t: Text)
    requires FromFiles(sources) && IdsAreNames(sources) && Definitions(sources).Some?
    ensures Holds(Nothing(), Bundle(sources).value, t) ==> FromProperty(sources, t) || FromSchema(sources, t)
    ensures NamesAgree(sources) ==> (Holds(Nothing(), Bundle(sources).value, t) <==> FromProperty(sources, t) || FromSchema(sources, t))
  {
    hide Definitions, HeaderOf, BundleProperties, FromProperty, FromSchema, NamesAgree, IdsAreNames;
    var b := Bundle(sources).value;
    var properties, definitions := Obj(BundleProperties(sources)), Obj(Definitions(sources).value);
    assert b.members[DEFS] == definitions && b.members[PROPERTIES] == properties;
    if Holds(Nothing(), b, t) {
      var k :| k in b.members && HoldsMember(Nothing(), k, b.members[k], t);
      if k == DEFS {
        ReferencesOfDefinitions(sources, t);
      } else if k == PROPERTIES {
        ReferencesOfProperties(sources, t);
      } else {
        HeaderHoldsNothing(k, t);
      }
    }
    if NamesAgree(sources) && FromProperty(sources, t) {
      PropertyReferenceOccurs(sources, t);
      assert HoldsMember(Nothing(), PROPERTIES, properties, t);
    }
    if NamesAgree(sources) && FromSchema(sources, t) {
      SchemaReferenceOccurs(sources, t);
      assert HoldsMember(Nothing(), DEFS, definitions, t);
    }
  }

  /** Every reference a projected schema holds leads somewhere, other than to an
      item of an array for definitions. */
  ghost predicate NoneDangles(sources: Sources)
    requires FromFiles(sources) && Definitions(sources).Some?
  {
    forall i, s :: 0 <= i < |sources| && HeldBySchema(sources, i, s) && |s| >= |RESOLVED_PREFIX| ==>
      Follow(ResolvedDocument(sources), s).Some? && !SelectsItem(sources, s)
  }

  /** References held by a projected schema start with the resolved prefix. */
  lemma HeldIsResolved(sources: Sources, i: nat, s: Text)
    requires FromFiles(sources) && i < |sources| && HeldBySchema(sources, i, s)
    ensures StartsWith(s, RESOLVED_PREFIX)
  {
    hide RewriteReference, Apply;
    var local := Some(sources[i].key);
    ReferencesOfCopy(ActionFor(sources, local), DropFor(local), sources[i].schema, s);
    var o :| Holds(DropFor(local), sources[i].schema, o) && RewriteReference(sources, local, o) == Some(s);
    WrittenResolved(sources, local, o);
  }

  lemma HomeIsKnown(sources: Sources, local: Option<Text>, o: Text)
    requires local.Some? && RewriteReference(sources, local, o).Some?
    ensures Home(local, o).Some?
  {}

  /** When nothing dangles before, every reference of the bundle leads somewhere
      in it: the bundle is closed. */
  lemma BundleIsClosed(sources: Sources, t: Text)
    requires FromFiles(sources) && Flattenable(sources) && IdsAreNames(sources)
    requires Definitions(sources).Some? && NamesAgree(sources) && NoneDangles(sources)
    requires Holds(Nothing(), Bundle(sources).value, t)
    ensures t != [] && Follow(Bundle(sources).value, t).Some?
  {
    hide Definitions, NamesAgree, Flattenable, Bundle, ResolvedDocument, FlattenReference, HeldBySchema, HeldInPart;
    hide Follow, DefinitionReference, Projection, Flat;
    BundleReferences(sources, t);
    if FromSchema(sources, t) {
      var i, s :| 0 <= i < |sources| && HeldInPart(sources, i, s) && FlattenReference(sources, s) == Some(t);
      HeldInSchema(sources, i, s);
      HeldIsResolved(sources, i, s);
      FlatteningPreserves(sources, s);
    } else {
      var i :| 0 <= i < |sources| && t == DefinitionReference(sources[i].logicalId);
      PropertyResolves(sources, i);
    }
  }

  lemma PropertyResolves(sources: Sources, i: nat)
    requires FromFiles(sources) && Flattenable(sources) && Definitions(sources).Some? && NamesAgree(sources) && i < |sources|
    ensures DefinitionReference(sources[i].logicalId) != [] && Projection(sources, sources[i]).Some?
    ensures var root := Flat(sources, Root(Projection(sources, sources[i]).value));
            root.Some? && Follow(Bundle(sources).value, DefinitionReference(sources[i].logicalId)) == root
  {
    hide Definitions, NamesAgree, Projection, Flat, Unescape, Deref, Bundle, FragmentTokens;
    var id := sources[i].logicalId;
    RootFound(sources, i);
    assert id + [] == id;
    DefinitionReferenceTokens(id, []);
    NothingToUnescape();
    BundleMember(sources, id);
  }

  /** A definition whose name would be __proto__ is in no bundle: the reference to
      it, and the property of a source with that id, lead nowhere. */
  lemma LostNameDangles(sources: Sources)
    requires FromFiles(sources) && Definitions(sources).Some?
    ensures DefinitionReference(PROTO) != [] && Follow(Bundle(sources).value, DefinitionReference(PROTO)) == None
  {
    hide AllParts, FillFrom, Unescape, Deref, FragmentTokens, HasPair, Bundle;
    FillNeverHolds(map[], AllParts(sources, sources).value);
    assert |PROTO| == 9 && forall i :: 0 <= i < |PROTO| ==> PROTO[i] == 0x5F || 0x6F <= PROTO[i] <= 0x74;
    assert Stands(PROTO) by { PlainStands(PROTO); }
    assert PROTO + [] == PROTO;
    DefinitionReferenceTokens(PROTO, []);
    NothingToUnescape();
    BundleMember(sources, PROTO);
  }

  lemma PlainStands(t: Text)
    requires Plain(t)
    ensures Stands(t)
  {}

  // ---- from the original references to the bundle ----

  /** Keys and ids for which the above holds are all there are: a key is the first
      part of the references written for it exactly when it is plain, and a
      definition of an id is read under its name, whatever the name, exactly when
      the id stands in front of one. */
  lemma KeyWrittenExactly(key: Text, fragment: Text)
    requires IsPointer(fragment)
    ensures Split(Escape(key) + fragment)[0] == key <==> Plain(key)
  {
    hide Escape, Split;
    EscapeHasNoSlash(key);
    FirstPartOf(Escape(key), fragment);
    SplitStarts(Escape(key) + fragment);
    EscapeGrows(key);
  }

  /** In the bundle a flattened reference selects the flattened projection of what
      the reference it was written as denoted, schema and digest pinned, before
      anything was rewritten. */
  lemma OriginalMeaningKept(sources: Sources, i: nat, o: Text)
    requires FromFiles(sources) && Flattenable(sources) && Definitions(sources).Some? && NamesAgree(sources) && i < |sources|
    requires var local := Some(sources[i].key);
             RewriteReference(sources, local, o).Some? && !ToAnchor(o)
             && Denotes(sources, Obj(map[]), local, o).Some? && Passes(DropFor(Home(local, o)), FragmentTokens(Fragment(o)))
             && FlattenReference(sources, RewriteReference(sources, local, o).value).Some?
    requires var t := RewriteReference(sources, Some(sources[i].key), o).value; |t| >= |RESOLVED_PREFIX| ==> !SelectsItem(sources, t)
    ensures var local := Some(sources[i].key);
            var t := RewriteReference(sources, local, o).value;
            var image := Image(ActionFor(sources, Home(local, o)), DropFor(Home(local, o)), FragmentTokens(Fragment(o)),
                               Denotes(sources, Obj(map[]), local, o).value);
            && StartsWith(t, RESOLVED_PREFIX) && image.Some?
            && FlattenReference(sources, t).value != []
            && Follow(Bundle(sources).value, FlattenReference(sources, t).value).Some?
            && Follow(Bundle(sources).value, FlattenReference(sources, t).value) == FlatTarget(sources, t, image.value)
  {
    var local := Some(sources[i].key);
    var t := RewriteReference(sources, local, o).value;
    WrittenResolved(sources, local, o);
    OwnLookup(sources, i);
    EmptyNormalized(sources);
    hide RewriteReference, Definitions, Flattenable, NamesAgree, Bundle, FlattenReference, FlatTarget;
    hide Follow, Denotes, Image, Passes, FragmentTokens, ResolvedDocument, Normalized, ParsePinned;
    ProjectionCommutes(sources, Obj(map[]), local, o);
    FlatteningPreserves(sources, t);
  }

  lemma OwnLookup(sources: Sources, i: nat)
    requires i < |sources|
    ensures Lookup(sources, sources[i].key).Some?
  {
    LookupFinds(sources, sources[i].key);
  }

  /** Normalizing an empty description leaves the resolved schemas alone. */
  lemma EmptyNormalized(sources: Sources)
    requires FromFiles(sources) && Definitions(sources).Some?
    ensures Normalized(sources, Obj(map[])) == Some(ResolvedDocument(sources))
  {
    AllKnown(sources);
    hide Definitions, AllProjected;
    var copy := Projected(sources, None, Obj(map[]));
    assert copy.Some? && copy.value.members == map[];
  }

  lemma WrittenResolved(sources: Sources, local: Option<Text>, o: Text)
    requires local.Some? && RewriteReference(sources, local, o).Some?
    ensures StartsWith(RewriteReference(sources, local, o).value, RESOLVED_PREFIX) && Home(local, o).Some?
  {
    LocalStart(sources, local, o);
    HomeIsKnown(sources, local, o);
    var rest := Escape(Home(local, o).value) + Fragment(o);
    var t := RewriteReference(sources, local, o).value;
    hide RewriteReference, Escape, Fragment, Home;
    assert t == RESOLVED_PREFIX + rest;
    assert t[0..|RESOLVED_PREFIX|] == RESOLVED_PREFIX;
  }
}
