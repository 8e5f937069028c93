/** Flattening the projected schemas into one map of definitions for generators. */
module Flattening {
  import opened CodeUnits
  import opened Json
  import opened JsonPointer
  import opened ReferenceRewriting
  import opened References
  import opened SpecNormalization
  import Canonical

  const DEFS: Text := Lit("$defs")
  const RESOLVED_PREFIX: Text := [HASH, SLASH] + (RESOLVED + [SLASH])

  // ---- one reference ----

  /** The key and definition groups: one part, or a key, $defs and a name. */
  predicate Flattens(parts: seq<Text>) {
    (|parts| == 1 && parts[0] != []) || (|parts| == 3 && parts[0] != [] && parts[1] == DEFS && parts[2] != [])
  }

  function DefinitionReference(name: Text): Text { [HASH, SLASH] + (DEFS + ([SLASH] + name)) }

  function FlattenReference(sources: Sources, ref: Text): Option<Text> {
    if !StartsWith(ref, RESOLVED_PREFIX) then Some(ref)
    else
      var parts := Split(ref[|RESOLVED_PREFIX|..]);
      match Lookup(sources, if Flattens(parts) then parts[0] else [])
      case None => None
      case Some(source) =>
        Some(DefinitionReference(source.logicalId + if Flattens(parts) && |parts| == 3 then parts[2] else []))
  }

  function FlattenAction(sources: Sources): Action { (ref: Text) => FlattenReference(sources, ref) }

  /** rewriteSchemaReferences */
  function Flat(sources: Sources, v: Value): Option<Value> { Rewritten(FlattenAction(sources), DropFor(None), v) }

  method RewriteSchemaReferences(sources: Sources, v: Value) returns (copy: Option<Value>)
    ensures copy == Flat(sources, v)
  {
    copy := Rewrite(FlattenAction(sources), DropFor(None), v);
  }

  // ---- the definitions ----

  /** A definition as one iteration adds it. */
  datatype Part = Part(name: Text, value: Value)

  function FillFrom(m: map<Text, Value>, parts: seq<Part>): map<Text, Value>
    decreases |parts|
  {
    if parts == [] then m else FillFrom(Assigned(m, parts[0].name, parts[0].value), parts[1..])
  }

  function LocalDefinitions(projection: Value): map<Text, Value>
    requires projection.Obj?
  {
    if DEFS in projection.members && projection.members[DEFS].Obj? then projection.members[DEFS].members else map[]
  }

  function NamedParts(all: Sources, id: Text, defs: map<Text, Value>, names: seq<Text>): Option<seq<Part>>
    requires forall i :: 0 <= i < |names| ==> names[i] in defs
  {
    if names == [] then Some([])
    else
      match Flat(all, defs[names[0]])
      case None => None
      case Some(definition) =>
        match NamedParts(all, id, defs, names[1..])
        case None => None
        case Some(rest) => Some([Part(id + names[0], definition)] + rest)
  }

  function Root(projection: Value): Value
    requires projection.Obj?
  {
    Obj(projection.members - {DEFS})
  }

  function Projection(all: Sources, s: Source): (p: Option<Value>)
    requires s.schema.Obj?
    ensures p.Some? ==> p.value.Obj?
  {
    Projected(all, Some(s.key), s.schema)
  }

  /** What a source adds: itself without its definitions, and each of those. */
  function SourceParts(all: Sources, s: Source): Option<seq<Part>>
    requires s.schema.Obj?
  {
    match Projection(all, s)
    case None => None
    case Some(p) =>
      match Flat(all, Root(p))
      case None => None
      case Some(root) =>
        match NamedParts(all, s.logicalId, LocalDefinitions(p), Canonical.SortedKeys(LocalDefinitions(p).Keys))
        case None => None
        case Some(rest) => Some([Part(s.logicalId, root)] + rest)
  }

  function AllParts(sources: Sources, all: Sources): Option<seq<Part>>
    requires forall i :: 0 <= i < |sources| ==> sources[i].schema.Obj?
  {
    if sources == [] then Some([])
    else
      match SourceParts(all, sources[0])
      case None => None
      case Some(first) =>
        match AllParts(sources[1..], all)
        case None => None
        case Some(rest) => Some(first + rest)
  }

  function Definitions(sources: Sources): Option<map<Text, Value>>
    requires FromFiles(sources)
  {
    match AllParts(sources, sources) case None => None case Some(parts) => Some(FillFrom(map[], parts))
  }

  lemma {:induction false} FillConcat(m: map<Text, Value>, a: seq<Part>, b: seq<Part>)
    ensures FillFrom(m, a + b) == FillFrom(FillFrom(m, a), b)
    decreases |a|
  {
    if a == [] {
      assert a + b == b;
    } else {
      assert (a + b)[1..] == a[1..] + b;
      FillConcat(Assigned(m, a[0].name, a[0].value), a[1..], b);
    }
  }

  /** Adding parts that are still to come; None where the code throws. */
  function Filled(m: map<Text, Value>, parts: Option<seq<Part>>): Option<map<Text, Value>> {
    match parts case None => None case Some(ps) => Some(FillFrom(m, ps))
  }

  lemma NamedStep(m: map<Text, Value>, all: Sources, id: Text, defs: map<Text, Value>, names: seq<Text>, j: nat)
    requires (forall i :: 0 <= i < |names| ==> names[i] in defs) && j < |names|
    ensures Filled(m, NamedParts(all, id, defs, names[j..])) ==
            match Flat(all, defs[names[j]])
            case None => None
            case Some(d) => Filled(Assigned(m, id + names[j], d), NamedParts(all, id, defs, names[j + 1..]))
  {
    hide Flat;
    assert names[j..][1..] == names[j + 1..];
    var rest := NamedParts(all, id, defs, names[j + 1..]);
    if Flat(all, defs[names[j]]).Some? && rest.Some? {
      var first := Part(id + names[j], Flat(all, defs[names[j]]).value);
      assert ([first] + rest.value)[1..] == rest.value;
    }
  }

  method AddDefinitions(sources: Sources, id: Text, defs: map<Text, Value>, before: map<Text, Value>)
    returns (definitions: Option<map<Text, Value>>)
    ensures definitions == Filled(before, NamedParts(sources, id, defs, Canonical.SortedKeys(defs.Keys)))
  {
    hide Flat, Filled, NamedParts;
    var names := Canonical.SortedKeys(defs.Keys);
    var filled := before;
    var j := 0;
    assert names[0..] == names;
    while j < |names|
      invariant 0 <= j <= |names|
      invariant Filled(filled, NamedParts(sources, id, defs, names[j..])) == Filled(before, NamedParts(sources, id, defs, names))
    {
      NamedStep(filled, sources, id, defs, names, j);
      assert names[j] in names;
      var definition := RewriteSchemaReferences(sources, defs[names[j]]);
      if definition.None? {
        return None;
      }
      filled := Assigned(filled, id + names[j], definition.value);
      j := j + 1;
    }
    assert names[j..] == [];
    assert Filled(filled, NamedParts(sources, id, defs, [])) == Some(filled) by { NoneLeft(filled, sources, id, defs); }
    return Some(filled);
  }

  lemma NoneLeft(m: map<Text, Value>, all: Sources, id: Text, defs: map<Text, Value>)
    ensures Filled(m, NamedParts(all, id, defs, [])) == Some(m)
  {}

  lemma AllStep(m: map<Text, Value>, sources: Sources, all: Sources, i: nat)
    requires (forall k :: 0 <= k < |sources| ==> sources[k].schema.Obj?) && i < |sources|
    ensures Filled(m, AllParts(sources[i..], all)) ==
            match Filled(m, SourceParts(all, sources[i]))
            case None => None
            case Some(more) => Filled(more, AllParts(sources[i + 1..], all))
  {
    hide SourceParts;
    assert sources[i..][1..] == sources[i + 1..];
    var rest := AllParts(sources[i + 1..], all);
    if SourceParts(all, sources[i]).Some? && rest.Some? {
      FillConcat(m, SourceParts(all, sources[i]).value, rest.value);
    }
  }

  lemma AllDone(m: map<Text, Value>, all: Sources)
    ensures Filled(m, AllParts([], all)) == Some(m)
  {}

  lemma SourceStep(m: map<Text, Value>, all: Sources, s: Source)
    requires s.schema.Obj?
    ensures Filled(m, SourceParts(all, s)) ==
            match Projection(all, s)
            case None => None
            case Some(p) =>
              match Flat(all, Root(p))
              case None => None
              case Some(root) =>
                Filled(Assigned(m, s.logicalId, root),
                       NamedParts(all, s.logicalId, LocalDefinitions(p), Canonical.SortedKeys(LocalDefinitions(p).Keys)))
  {
    hide Flat, NamedParts, Projection;
    if Projection(all, s).Some? && Flat(all, Root(Projection(all, s).value)).Some? {
      var p := Projection(all, s).value;
      var rest := NamedParts(all, s.logicalId, LocalDefinitions(p), Canonical.SortedKeys(LocalDefinitions(p).Keys));
      if rest.Some? {
        var first := Part(s.logicalId, Flat(all, Root(p)).value);
        assert ([first] + rest.value)[1..] == rest.value;
      }
    }
  }

  method GenerationDefinitions(sources: Sources) returns (definitions: Option<map<Text, Value>>)
    requires FromFiles(sources)
    ensures definitions == Definitions(sources)
  {
    hide Flat, Filled, NamedParts, AllParts, SourceParts, Projected, FillFrom;
    var filled: map<Text, Value> := map[];
    var i := 0;
    assert sources[0..] == sources;
    assert Definitions(sources) == Filled(map[], AllParts(sources, sources)) by { DefinitionsFilled(sources); }
    while i < |sources|
      invariant 0 <= i <= |sources|
      invariant Filled(filled, AllParts(sources[i..], sources)) == Filled(map[], AllParts(sources, sources))
    {
      AllStep(filled, sources, sources, i);
      SourceStep(filled, sources, sources[i]);
      var projection := Project(sources, Some(sources[i].key), sources[i].schema);
      if projection.None? {
        return None;
      }
      var root := RewriteSchemaReferences(sources, Root(projection.value));
      if root.None? {
        return None;
      }
      filled := Assigned(filled, sources[i].logicalId, root.value);
      var more := AddDefinitions(sources, sources[i].logicalId, LocalDefinitions(projection.value), filled);
      if more.None? {
        return None;
      }
      filled := more.value;
      i := i + 1;
    }
    assert sources[i..] == [];
    AllDone(filled, sources);
    return Some(filled);
  }

  lemma DefinitionsFilled(sources: Sources)
    requires FromFiles(sources)
    ensures Definitions(sources) == Filled(map[], AllParts(sources, sources))
  {}

  // ---- names ----

  /** Parts of one name are one definition. */
  ghost predicate Agree(parts: seq<Part>) {
    forall i, j :: 0 <= i < |parts| && 0 <= j < |parts| && parts[i].name == parts[j].name ==> parts[i].value == parts[j].value
  }

  /** No part has the name that makes no member. */
  predicate NoneLost(parts: seq<Part>) { forall i :: 0 <= i < |parts| ==> parts[i].name != PROTO }

  ghost predicate NamesDistinct(parts: seq<Part>) {
    forall i, j :: 0 <= i < j < |parts| ==> parts[i].name != parts[j].name
  }

  ghost predicate EachUnderItsName(parts: seq<Part>) {
    forall i :: 0 <= i < |parts| ==> PartFound(FillFrom(map[], parts), parts[i])
  }

  predicate PartFound(m: map<Text, Value>, p: Part) { p.name in m && m[p.name] == p.value }

  lemma {:induction false} FillKeeps(m: map<Text, Value>, parts: seq<Part>, name: Text)
    requires name in m && forall i :: 0 <= i < |parts| ==> parts[i].name != name
    ensures name in FillFrom(m, parts) && FillFrom(m, parts)[name] == m[name]
    decreases |parts|
  {
    if parts != [] { FillKeeps(Assigned(m, parts[0].name, parts[0].value), parts[1..], name); }
  }

  lemma {:induction false} FillFinds(m: map<Text, Value>, parts: seq<Part>, i: nat)
    requires Agree(parts) && i < |parts| && parts[i].name != PROTO
    ensures PartFound(FillFrom(m, parts), parts[i])
    decreases |parts|
  {
    var more := Assigned(m, parts[0].name, parts[0].value);
    if i > 0 {
      FillFinds(more, parts[1..], i - 1);
    } else if j :| 0 < j < |parts| && parts[j].name == parts[0].name {
      FillFinds(more, parts[1..], j - 1);
    } else {
      FillKeeps(more, parts[1..], parts[0].name);
    }
  }

  lemma {:induction false} FillNeverHolds(m: map<Text, Value>, parts: seq<Part>)
    requires PROTO !in m
    ensures PROTO !in FillFrom(m, parts)
    decreases |parts|
  {
    if parts != [] { FillNeverHolds(Assigned(m, parts[0].name, parts[0].value), parts[1..]); }
  }

  /** Every part is found under its name exactly when no two parts claim a name
      for different definitions and none is named __proto__. */
  lemma PartsFoundExactly(parts: seq<Part>)
    ensures EachUnderItsName(parts) <==> Agree(parts) && NoneLost(parts)
    ensures NamesDistinct(parts) ==> Agree(parts)
  {
    if Agree(parts) && NoneLost(parts) {
      forall i | 0 <= i < |parts| ensures PartFound(FillFrom(map[], parts), parts[i]) { FillFinds(map[], parts, i); }
    }
    if EachUnderItsName(parts) {
      FillNeverHolds(map[], parts);
      forall i, j | 0 <= i < |parts| && 0 <= j < |parts| && parts[i].name == parts[j].name
        ensures parts[i].value == parts[j].value
      {
        assert PartFound(FillFrom(map[], parts), parts[i]) && PartFound(FillFrom(map[], parts), parts[j]);
      }
      forall i | 0 <= i < |parts| ensures parts[i].name != PROTO { assert PartFound(FillFrom(map[], parts), parts[i]); }
    }
  }
}
