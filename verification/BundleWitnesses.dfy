/** Two descriptions the emitter does not do justice: one it refuses for a name,
    and one it publishes with a reference that leads nowhere. */
module BundleWitnesses {
  import opened CodeUnits
  import opened Json
  import opened JsonPointer
  import opened References
  import opened ReferenceRewriting
  import opened BundleClosure
  import opened BundleNaming
  import opened BundleEmitter
  import Flattening
  import SpecNormalization
  import Widening

  const A: Text := Lit("a")
  const B: Text := Lit("b")
  const C: Text := Lit("c")
  const EMPTY: Value := Obj(map[])

  /** The reference to a definition of schema a, its name as it is written. */
  function ToDefinition(name: Text): Text { PREFIX + (A + (DEFS_SEPARATOR + name)) }

  /** A description whose one path refers to it. */
  function Referring(name: Text, definition: Value, key: Text): Description {
    Description(Obj(map[A := Obj(map[Flattening.DEFS := Obj(map[key := definition])])]), Obj(map[REF := Str(ToDefinition(name))]), map[], [])
  }

  lemma ToDefinitionStarts(name: Text)
    ensures StartsWith(ToDefinition(name), PREFIX) && ToDefinition(name)[|PREFIX|..] == A + (DEFS_SEPARATOR + name)
  {
    hide PREFIX, DEFS_SEPARATOR, A;
    assert ToDefinition(name)[0..|PREFIX|] == PREFIX;
  }

  lemma SeparatorParts()
    ensures DEFS_SEPARATOR == [SLASH] + (Flattening.DEFS + [SLASH])
    ensures |DEFS_SEPARATOR| == 7 && DEFS_SEPARATOR[0] == SLASH && |A| == 1 && A[0] != SLASH
    ensures SLASH !in Flattening.DEFS && TILDE !in Flattening.DEFS && SLASH !in A && TILDE !in A
  {
    var d := Flattening.DEFS;
    assert |d| == 5 && d[0] == 0x24 && d[1] == 0x64 && d[2] == 0x65 && d[3] == 0x66 && d[4] == 0x73;
    assert A[0] == 0x61;
  }

  /** Its definition name is the name as written, whatever slashes it holds. */
  lemma WrittenAsGiven(name: Text)
    requires |name| < 7 || SLASH !in name
    ensures StartsWith(ToDefinition(name), PREFIX)
    ensures DefinitionName(ToDefinition(name)) == Some(name) && SlugOf(ToDefinition(name)) == A
    ensures Resolved({ToDefinition(name)}) && NameFor(map[], {ToDefinition(name)}, ToDefinition(name)) == name
  {
    var ref := ToDefinition(name);
    ToDefinitionStarts(name);
    SeparatorParts();
    hide PREFIX, DEFS_SEPARATOR, A, ToDefinition;
    var path := A + (DEFS_SEPARATOR + name);
    assert path[0] == A[0];
    assert !At(path, 0, DEFS_SEPARATOR) by {
      if At(path, 0, DEFS_SEPARATOR) { AtFirst(path, 0, DEFS_SEPARATOR); }
    }
    forall i | 0 <= i <= |name| ensures !At(name, i, DEFS_SEPARATOR) {
      if At(name, i, DEFS_SEPARATOR) { AtFirst(name, i, DEFS_SEPARATOR); }
    }
    DefinitionNameExactly(ref, A, name);
    assert Claims({ref}, name) == {ref} by { hide DefinitionName; }
  }

  /** The tokens of its path. */
  lemma PathTokens(name: Text)
    ensures Tokens(A + (DEFS_SEPARATOR + name)) == [A, Flattening.DEFS] + Tokens(name)
  {
    SeparatorParts();
    UnescapePlain(A);
    UnescapePlain(Flattening.DEFS);
    hide Split, Unescape, UnescapeAll, DEFS_SEPARATOR, A, Flattening.DEFS;
    var rest := Flattening.DEFS + ([SLASH] + name);
    assert A + (DEFS_SEPARATOR + name) == A + ([SLASH] + rest);
    SplitStep(A, rest);
    SplitStep(Flattening.DEFS, name);
    UnescapeAllCons(A, Split(rest));
    UnescapeAllCons(Flattening.DEFS, Split(name));
    assert [A] + ([Flattening.DEFS] + UnescapeAll(Split(name))) == [A, Flattening.DEFS] + UnescapeAll(Split(name));
  }

  /** One reference to a schema without references closes the description. */
  lemma OneReference(d: Description, ref: Text)
    requires StartsWith(ref, PREFIX) && d.paths == Obj(map[REF := Str(ref)]) && d.declared == map[]
    requires Pointed(d.resolved, ref) == Some(EMPTY)
    ensures Seeds(d) == {ref} && LeastClosed(d.resolved, Seeds(d), {ref})
    ensures Holds(Widening.Drop(), d.paths, ref)
  {
    hide PREFIX;
    assert Collected(EMPTY) == {};
    assert IsResolved(REF, Str(ref));
    forall t ensures t in Collected(d.paths) <==> t == ref {
      assert CollectedMember(REF, Str(ref)) == {ref};
      assert REF in d.paths.members && d.paths.members[REF] == Str(ref);
    }
    assert Collected(d.paths) == {ref};
    ReferenceKept();
    assert HoldsMember(Widening.Drop(), REF, d.paths.members[REF], ref);
  }

  lemma ReferenceKept()
    ensures !Widening.Drop()(REF)
  {
    assert |REF| == 4 && |SpecNormalization.PROTO| == 9;
  }

  lemma WalkStep(v: Value, key: Text, rest: seq<Text>)
    requires v.Obj? && key in v.members
    ensures Walk(Data(v), [key] + rest)
         == Walk(Data(v.members[key]), rest)
  {
    assert ([key] + rest)[1..] == rest;
  }

  /** Tokens that lead through own members. */
  lemma PointedThrough(d: Description, name: Text, key: Text, rest: seq<Text>, definition: Value)
    requires d == Referring(name, definition, key) && Tokens(name) == [key] + rest
    requires Walk(Data(definition), rest) == Some(Data(EMPTY))
    ensures StartsWith(ToDefinition(name), PREFIX) && Pointed(d.resolved, ToDefinition(name)) == Some(EMPTY)
  {
    ToDefinitionStarts(name);
    PathTokens(name);
    hide PREFIX, DEFS_SEPARATOR, A, Flattening.DEFS, Tokens, ToDefinition, Walk;
    var v := d.resolved.members[A];
    WalkStep(d.resolved, A, [Flattening.DEFS] + ([key] + rest));
    WalkStep(v, Flattening.DEFS, [key] + rest);
    WalkStep(v.members[Flattening.DEFS], key, rest);
    assert [A, Flattening.DEFS] + ([key] + rest) == [A] + ([Flattening.DEFS] + ([key] + rest));
  }

  /** A reference to the definition named by the empty string is reached, collides
      with nothing, and gets no name: the emitter refuses the description. */
  lemma EmptyNameRefused()
    ensures var d := Referring([], EMPTY, []);
            var ref := ToDefinition([]);
            && Listed(d) && LeastClosed(d.resolved, Seeds(d), {ref}) && Resolved({ref})
            && !NamesCollide(map[], {ref}) && GetsNoName(map[], {ref}, ref) && MeetsNameless(d, {ref}) && Refused(d)
  {
    var d := Referring([], EMPTY, []);
    var ref := ToDefinition([]);
    EmptyNameReached();
    hide PREFIX, DEFS_SEPARATOR, A, Flattening.DEFS, ToDefinition, LeastClosed, Seeds, Live;
    WrittenAsGiven([]);
    NameEmptyExactly(map[], {ref}, ref);
    hide GetsNoName;
    assert DeclaredNames(d.declared, d.order) == map[];
  }

  lemma EmptyNameReached()
    ensures var d := Referring([], EMPTY, []);
            var ref := ToDefinition([]);
            && StartsWith(ref, PREFIX) && Listed(d) && LeastClosed(d.resolved, Seeds(d), {ref}) && Resolved({ref})
            && !NamesCollide(map[], {ref}) && Live(d, {ref}, ref)
  {
    var d := Referring([], EMPTY, []);
    var ref := ToDefinition([]);
    EmptyTokens();
    var none: Text := [];
    assert [none] == [none] + [];
    PointedThrough(d, [], [], [], EMPTY);
    hide PREFIX, DEFS_SEPARATOR, A, Flattening.DEFS, ToDefinition;
    OneReference(d, ref);
    hide LeastClosed, Pointed, Holds;
    assert Live(d, {ref}, ref);
  }

  lemma EmptyTokens()
    ensures Tokens([]) == [[]]
  {
    SplitLast([]);
    NothingToUnescape();
    assert UnescapeAll([[]])[0] == Unescape([]);
  }

  lemma SlashTokens()
    ensures Tokens(B + ([SLASH] + C)) == [B] + [C] && |B + ([SLASH] + C)| == 3 && SLASH in B + ([SLASH] + C)
  {
    assert |B| == 1 && B[0] == 0x62 && |C| == 1 && C[0] == 0x63;
    SplitStep(B, C);
    SplitLast(C);
    UnescapePlain(B);
    UnescapePlain(C);
    hide Split, Unescape, B, C;
    UnescapeAllCons(B, [C]);
    assert [C] == [C] + [];
    UnescapeAllCons(C, []);
    NoTokens();
    assert (B + ([SLASH] + C))[|B|] == SLASH;
  }

  /** The description with a reference below a definition. */
  function Below(): Description { Referring(B + ([SLASH] + C), Obj(map[C := EMPTY]), B) }

  lemma BelowPointed()
    ensures var ref := ToDefinition(B + ([SLASH] + C));
            StartsWith(ref, PREFIX) && Pointed(Below().resolved, ref) == Some(EMPTY)
  {
    var definition := Obj(map[C := EMPTY]);
    SlashTokens();
    assert Walk(Data(definition), [C]) == Some(Data(EMPTY)) by { assert [C][1..] == []; }
    hide Tokens, Pointed, Walk;
    PointedThrough(Below(), B + ([SLASH] + C), B, [C], definition);
  }

  lemma BelowReaches()
    ensures var ref := ToDefinition(B + ([SLASH] + C));
            && Listed(Below()) && DeclaredNames(Below().declared, Below().order) == map[] && Resolved({ref})
            && LeastClosed(Below().resolved, Seeds(Below()), {ref})
            && NameFor(map[], {ref}, ref) == B + ([SLASH] + C)
            && !GetsNoName(map[], {ref}, ref)
  {
    var name := B + ([SLASH] + C);
    SlashTokens();
    BelowPointed();
    hide PREFIX, DEFS_SEPARATOR, A, B, C, Flattening.DEFS, ToDefinition, Pointed, LeastClosed, Tokens;
    OneReference(Below(), ToDefinition(name));
    WrittenAsGiven(name);
    hide NameFor, GetsNoName;
    NameEmptyExactly(map[], {ToDefinition(name)}, ToDefinition(name));
  }

  lemma OneNamed(naming: map<Text, Text>, ref: Text, name: Text)
    requires Resolved(naming.Keys) && naming.Keys == {ref} && Named(map[], naming.Keys, naming)
    requires Resolved({ref}) && NameFor(map[], {ref}, ref) == name
    ensures naming == map[ref := name]
  {
    hide NameFor;
  }

  /** Nothing is wrong with it in the emitter's eyes. */
  lemma BelowNotRefused()
    ensures Listed(Below()) && !Refused(Below())
  {
    BelowReaches();
    var ref := ToDefinition(B + ([SLASH] + C));
    hide ToDefinition, LeastClosed, GetsNoName, NameFor, PREFIX, Live, StartsWith, DeclaredNames;
    forall s: set<Text> | LeastClosed(Below().resolved, Seeds(Below()), s) ensures s == {ref} {
      LeastUnique(Below().resolved, Seeds(Below()), s, {ref});
    }
    forall t | Live(Below(), {ref}, t) ensures t == ref { LiveReachable(Below(), {ref}, t); }
  }

  /** A reference below a definition is published under a name with a slash, and
      the published reference, read as a pointer, leads nowhere. */
  lemma SlashNameDangles(naming: map<Text, Text>, e: Emitted)
    requires LeastClosed(Below().resolved, Seeds(Below()), naming.Keys) && Resolved(naming.Keys)
    requires Named(map[], naming.Keys, naming) && Publishes(naming, Below(), e)
    ensures var name := B + ([SLASH] + C);
            && naming == map[ToDefinition(name) := name]
            && e.paths == Obj(map[REF := Str(ComponentReference(name))])
            && ComponentReference(name) != []
            && SpecNormalization.Follow(Document(e), ComponentReference(name)) == None
  {
    var name := B + ([SLASH] + C);
    var ref := ToDefinition(name);
    BelowReaches();
    LeastUnique(Below().resolved, Seeds(Below()), {ref}, naming.Keys);
    hide LeastClosed, NameFor, ToDefinition, PREFIX;
    OneNamed(naming, ref, name);
    assert ref in {ref} && StartsWith(ref, PREFIX);
    assert name != [] by { SlashTokens(); }
    hide B, C, Republished, Republishes;
    PathsPublished(naming, ref, name);
    SlashDangles(e, name);
  }

  lemma PathsPublished(naming: map<Text, Text>, ref: Text, name: Text)
    requires StartsWith(ref, PREFIX) && naming == map[ref := name] && name != []
    ensures Republished(naming, Obj(map[REF := Str(ref)])) == Some(Obj(map[REF := Str(ComponentReference(name))]))
  {
    var v := Obj(map[REF := Str(ref)]);
    ReferenceKept();
    hide PREFIX, ComponentReference;
    assert RewriteAction(naming)(ref) == Some(ComponentReference(name));
    assert AcceptsMember(RewriteAction(naming), Widening.Drop(), REF, v.members[REF]);
    assert ApplyMember(RewriteAction(naming), Widening.Drop(), REF, v.members[REF]) == Str(ComponentReference(name));
    var w := Apply(RewriteAction(naming), Widening.Drop(), v);
    assert w.members.Keys == {REF} && w.members[REF] == Str(ComponentReference(name));
    assert w.members == map[REF := Str(ComponentReference(name))];
    NotWidened(w.members);
    assert Widening.Copy(w) == w.members;
    hide Widening.Exceeds;
    assert Widening.Widen(w) == Obj(Widening.AddFormat(Widening.Copy(w)));
    assert Accepts(RewriteAction(naming), Widening.Drop(), v);
    assert Rewritten(RewriteAction(naming), Widening.Drop(), v) == Some(w);
  }

  lemma NotWidened(m: map<Text, Value>)
    requires m.Keys == {REF}
    ensures !Widening.Exceeds(m)
  {
    assert |REF| == 4 && REF[0] == 0x24 && Lit("type")[0] == 0x74;
  }

  lemma SlashDangles(e: Emitted, name: Text)
    requires name == B + ([SLASH] + C) && e.schemas.Keys <= {name}
    ensures ComponentReference(name) != [] && SpecNormalization.Follow(Document(e), ComponentReference(name)) == None
  {
    SlashTokens();
    assert |B| != |name| by { assert |B| == 1; }
    hide ComponentReference, Tokens, SpecNormalization.Follow, Document, B, C;
    UnpublishedDangles(e, name, B, [C]);
  }

  // ---- the name of the prototype ----

  /** A description with a reference to the prototype of the definitions, which the
      emitter follows like any other. */
  function Inherits(): Description { Referring(PROTO, EMPTY, B) }

  lemma ProtoTokens()
    ensures Tokens(PROTO) == [PROTO] && SLASH !in PROTO && NeedsNoEscape(PROTO) && PROTO != [] && PROTO != B
  {
    assert |PROTO| == 9 && forall i :: 0 <= i < |PROTO| ==> PROTO[i] == 0x5F || 0x6F <= PROTO[i] <= 0x74;
    assert |B| == 1;
    ReadAsItselfExactly(PROTO);
  }

  lemma WalkToPrototype(v: Value)
    requires v.Obj? && PROTO !in v.members
    ensures Walk(Data(v), [PROTO]) == Some(ObjectPrototype)
  {
    assert [PROTO][1..] == [];
  }

  lemma InheritsPointed()
    ensures StartsWith(ToDefinition(PROTO), PREFIX) && Pointed(Inherits().resolved, ToDefinition(PROTO)) == Some(EMPTY)
  {
    var d := Inherits();
    ProtoTokens();
    ToDefinitionStarts(PROTO);
    PathTokens(PROTO);
    var v := d.resolved.members[A];
    WalkToPrototype(v.members[Flattening.DEFS]);
    hide PREFIX, DEFS_SEPARATOR, A, B, PROTO, Flattening.DEFS, Tokens, ToDefinition, Walk;
    WalkStep(d.resolved, A, [Flattening.DEFS] + [PROTO]);
    WalkStep(v, Flattening.DEFS, [PROTO]);
    assert [A, Flattening.DEFS] + [PROTO] == [A] + ([Flattening.DEFS] + [PROTO]);
  }

  lemma InheritsReaches()
    ensures var ref := ToDefinition(PROTO);
            && Listed(Inherits()) && DeclaredNames(Inherits().declared, Inherits().order) == map[] && Resolved({ref})
            && LeastClosed(Inherits().resolved, Seeds(Inherits()), {ref})
            && NameFor(map[], {ref}, ref) == PROTO && !GetsNoName(map[], {ref}, ref)
  {
    var d := Inherits();
    var ref := ToDefinition(PROTO);
    ProtoTokens();
    InheritsPointed();
    hide PREFIX, DEFS_SEPARATOR, A, B, PROTO, Flattening.DEFS, Tokens, ToDefinition, Pointed, LeastClosed, NeedsNoEscape;
    OneReference(d, ref);
    WrittenAsGiven(PROTO);
    hide NameFor, GetsNoName;
    NameEmptyExactly(map[], {ref}, ref);
  }

  /** Nor is anything wrong with this one. */
  lemma InheritsNotRefused()
    ensures Listed(Inherits()) && !Refused(Inherits())
  {
    InheritsReaches();
    var ref := ToDefinition(PROTO);
    hide ToDefinition, LeastClosed, GetsNoName, NameFor, PREFIX, Live, StartsWith, DeclaredNames;
    forall s: set<Text> | LeastClosed(Inherits().resolved, Seeds(Inherits()), s) ensures s == {ref} {
      LeastUnique(Inherits().resolved, Seeds(Inherits()), s, {ref});
    }
    forall t | Live(Inherits(), {ref}, t) ensures t == ref { LiveReachable(Inherits(), {ref}, t); }
  }

  /** Its schema is published under the name __proto__, that is nowhere: no schema
      is emitted, and the emitted reference, which needs no escaping, dangles. */
  lemma ProtoNameDangles(naming: map<Text, Text>, e: Emitted)
    requires LeastClosed(Inherits().resolved, Seeds(Inherits()), naming.Keys) && Resolved(naming.Keys)
    requires Named(map[], naming.Keys, naming) && Publishes(naming, Inherits(), e)
    ensures && naming == map[ToDefinition(PROTO) := PROTO] && e.schemas == map[]
            && e.paths == Obj(map[REF := Str(ComponentReference(PROTO))])
            && NeedsNoEscape(PROTO) && ComponentReference(PROTO) != []
            && SpecNormalization.Follow(Document(e), ComponentReference(PROTO)) == None
  {
    var ref := ToDefinition(PROTO);
    InheritsReaches();
    ProtoTokens();
    LeastUnique(Inherits().resolved, Seeds(Inherits()), {ref}, naming.Keys);
    hide LeastClosed, NameFor, ToDefinition, PREFIX, PROTO, NeedsNoEscape;
    OneNamed(naming, ref, PROTO);
    assert ref in {ref} && StartsWith(ref, PREFIX);
    hide Publishes, Republished, ComponentReference, Document, SpecNormalization.Follow, Tokens;
    LostIsUnpublished(naming, Inherits(), e, ref);
    PathsPublished(naming, ref, PROTO);
    EmptyDangles(e, PROTO);
  }

  lemma LostIsUnpublished(naming: map<Text, Text>, d: Description, e: Emitted, ref: Text)
    requires Publishes(naming, d, e) && naming == map[ref := PROTO]
    ensures e.schemas == map[] && Republished(naming, d.paths) == Some(e.paths)
  {
    hide Republished, PROTO, Leads, Pointed;
    assert Republishes(naming, d.resolved, ref, e.schemas);
  }

  lemma EmptyDangles(e: Emitted, name: Text)
    requires e.schemas == map[] && Tokens(name) == [name]
    ensures ComponentReference(name) != [] && SpecNormalization.Follow(Document(e), ComponentReference(name)) == None
  {
    var none: seq<Text> := [];
    assert [name] == [name] + none;
    UnpublishedDangles(e, name, name, none);
  }

  lemma Regroup<T>(a: T, b: T, c: T, rest: seq<T>)
    ensures [a, b] + ([c] + rest) == [a] + ([b] + ([c] + rest))
  {}

  /** A component reference whose first token names no schema leads nowhere. */
  lemma UnpublishedDangles(e: Emitted, name: Text, first: Text, rest: seq<Text>)
    requires Tokens(name) == [first] + rest && first !in e.schemas
    ensures ComponentReference(name) != [] && SpecNormalization.Follow(Document(e), ComponentReference(name)) == None
  {
    ComponentTokens(name);
    NeverEmpty(name);
    DocumentMembers(e);
    Regroup(COMPONENTS, SCHEMAS, first, rest);
    hide ComponentReference, Tokens, SpecNormalization.FragmentTokens, COMPONENTS, SCHEMAS, Deref, Document;
    var components := Obj(map[SCHEMAS := Obj(e.schemas)]);
    DerefStep(Document(e), COMPONENTS, [SCHEMAS] + ([first] + rest));
    DerefStep(components, SCHEMAS, [first] + rest);
    DerefStep(Obj(e.schemas), first, rest);
  }

  lemma DocumentMembers(e: Emitted)
    ensures var d := Document(e);
            d.Obj? && COMPONENTS in d.members && d.members[COMPONENTS] == Obj(map[SCHEMAS := Obj(e.schemas)])
  {
    assert |COMPONENTS| == 10 && |Lit("paths")| == 5;
  }
}
