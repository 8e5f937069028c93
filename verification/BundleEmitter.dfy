/** Republishing the reachable schemas under component names. */
module BundleEmitter {
  import opened CodeUnits
  import opened Json
  import opened JsonPointer
  import opened References
  import opened ReferenceRewriting
  import opened BundleClosure
  import opened BundleNaming
  import opened Widening
  import SpecNormalization

  const COMPONENTS: Text := Lit("components")
  const SCHEMAS: Text := Lit("schemas")

  function ComponentReference(name: Text): Text { [HASH, SLASH] + (COMPONENTS + ([SLASH] + (SCHEMAS + ([SLASH] + name)))) }

  /** One $ref string; a name that is empty counts as no name. */
  function RewriteOne(naming: map<Text, Text>, ref: Text): Option<Text> {
    if !StartsWith(ref, PREFIX) then Some(ref)
    else if ref in naming && naming[ref] != [] then Some(ComponentReference(naming[ref]))
    else None
  }

  function RewriteAction(naming: map<Text, Text>): Action { (ref: Text) => RewriteOne(naming, ref) }

  /** widenIntegers(rewrite(value, naming)); None where rewrite throws. */
  function Republished(naming: map<Text, Text>, v: Value): Option<Value> {
    match Rewritten(RewriteAction(naming), Drop(), v) case None => None case Some(w) => Some(Widen(w))
  }

  method Republish(naming: map<Text, Text>, v: Value) returns (r: Option<Value>)
    ensures r == Republished(naming, v)
  {
    var w := Rewrite(RewriteAction(naming), Drop(), v);
    if w.None? {
      return None;
    }
    var widened := WidenIntegers(w.value);
    return Some(widened);
  }

  /** A resolved reference of the part that is copied, whose name is empty. */
  ghost predicate Nameless(naming: map<Text, Text>, v: Value) {
    exists t :: Holds(Drop(), v, t) && StartsWith(t, PREFIX) && t in naming && naming[t] == []
  }

  /** Rewriting never leaves the reachable closure: when every collected reference
      is named, it throws exactly on one whose name is empty. */
  lemma RewriteStaysInside(naming: map<Text, Text>, v: Value)
    requires Collected(v) <= naming.Keys
    ensures Republished(naming, v).None? <==> Nameless(naming, v)
  {
    AcceptsExactly(RewriteAction(naming), Drop(), v);
    hide Accepts, Holds, Collected;
    forall t | Holds(Drop(), v, t) && StartsWith(t, PREFIX) ensures t in naming {
      HoldsMore(Drop(), v, t);
      CollectsExactly(v, t);
    }
    if Republished(naming, v).None? {
      var t :| Holds(Drop(), v, t) && RewriteOne(naming, t).None?;
      assert naming[t] == [];
    }
    if Nameless(naming, v) {
      var t :| Holds(Drop(), v, t) && StartsWith(t, PREFIX) && t in naming && naming[t] == [];
      assert RewriteAction(naming)(t).None?;
    }
  }

  // ---- the bundle ----

  /** The parts of the bundle that hold schema references. */
  datatype Emitted = Emitted(paths: Value, schemas: map<Text, Value>)

  /** What the emitter reads: the resolved schemas, the paths, and the declared
      component schemas in the order of their entries. */
  datatype Description = Description(resolved: Value, paths: Value, declared: map<Text, Value>, order: seq<Text>)

  ghost predicate Listed(d: Description) {
    (forall i :: 0 <= i < |d.order| ==> d.order[i] in d.declared) && forall k :: k in d.declared ==> k in d.order
  }

  function Seeds(d: Description): set<Text> { Collected(d.paths) + Collected(Obj(d.declared)) }

  /** A reachable schema is rewritten, and found under its name unless the name is
      the one an assignment makes no member for. */
  predicate Republishes(naming: map<Text, Text>, resolved: Value, r: Text, schemas: map<Text, Value>)
    requires r in naming
  {
    && Leads(resolved, r) && Republished(naming, Pointed(resolved, r).value).Some?
    && if naming[r] == PROTO then PROTO !in schemas
       else naming[r] in schemas && Republished(naming, Pointed(resolved, r).value) == Some(schemas[naming[r]])
  }

  /** The paths, and each named schema under its name, and nothing else. */
  ghost predicate Publishes(naming: map<Text, Text>, d: Description, e: Emitted) {
    && Republished(naming, d.paths) == Some(e.paths)
    && (forall r :: r in naming ==> Republishes(naming, d.resolved, r, e.schemas))
    && forall n :: n in e.schemas ==> exists r :: r in naming && naming[r] == n
  }

  lemma SeedsResolved(d: Description)
    ensures Resolved(Seeds(d))
  {
    forall r | r in Seeds(d) ensures StartsWith(r, PREFIX) {
      CollectsExactly(d.paths, r);
      CollectsExactly(Obj(d.declared), r);
    }
  }

  /** A resolved reference the emitter rewrites: in the paths, or in a schema of
      the reachable set. */
  ghost predicate Live(d: Description, reachable: set<Text>, t: Text) {
    StartsWith(t, PREFIX)
    && (Holds(Drop(), d.paths, t)
        || exists r :: r in reachable && Leads(d.resolved, r) && Holds(Drop(), Pointed(d.resolved, r).value, t))
  }

  /** One of them gets no name. */
  ghost predicate MeetsNameless(d: Description, reachable: set<Text>)
    requires Listed(d) && Resolved(reachable)
  {
    exists t :: Live(d, reachable, t) && GetsNoName(DeclaredNames(d.declared, d.order), reachable, t)
  }

  /** The descriptions the emitter refuses: some reference reached leads nowhere,
      so that no set closed under references holds the seeds; or, in the least
      such set, two schemas claim one name, or a reference gets none. */
  ghost predicate Refused(d: Description)
    requires Listed(d)
  {
    || (forall s: set<Text> :: !LeastClosed(d.resolved, Seeds(d), s))
    || exists s: set<Text> ::
         LeastClosed(d.resolved, Seeds(d), s) && Resolved(s)
         && (NamesCollide(DeclaredNames(d.declared, d.order), s) || MeetsNameless(d, s))
  }

  lemma LeastUnique(schemas: Value, seeds: set<Text>, a: set<Text>, b: set<Text>)
    requires LeastClosed(schemas, seeds, a) && LeastClosed(schemas, seeds, b)
    ensures a == b
  {
    hide ClosedUnder;
  }

  lemma NamelessRefused(d: Description, naming: map<Text, Text>, v: Value)
    requires Listed(d) && LeastClosed(d.resolved, Seeds(d), naming.Keys) && Resolved(naming.Keys)
    requires Named(DeclaredNames(d.declared, d.order), naming.Keys, naming)
    requires v == d.paths || exists r :: r in naming && Leads(d.resolved, r) && v == Pointed(d.resolved, r).value
    requires Nameless(naming, v)
    ensures Refused(d)
  {
    hide LeastClosed, Leads, Pointed, Holds, GetsNoName, NameFor, DeclaredNames, NamesCollide;
    var t :| Holds(Drop(), v, t) && StartsWith(t, PREFIX) && t in naming && naming[t] == [];
    NameEmptyExactly(DeclaredNames(d.declared, d.order), naming.Keys, t);
    assert Live(d, naming.Keys, t);
    assert MeetsNameless(d, naming.Keys);
  }

  lemma LiveReachable(d: Description, reachable: set<Text>, t: Text)
    requires LeastClosed(d.resolved, Seeds(d), reachable) && Live(d, reachable, t)
    ensures t in reachable
  {
    hide Pointed, Holds, Collected, Needed;
    var v := if Holds(Drop(), d.paths, t) then d.paths else LiveIn(d, reachable, t);
    HoldsMore(Drop(), v, t);
    CollectsExactly(v, t);
    assert Collected(v) <= reachable;
  }

  lemma LiveNamed(d: Description, naming: map<Text, Text>, e: Emitted, t: Text)
    requires LeastClosed(d.resolved, Seeds(d), naming.Keys) && Publishes(naming, d, e)
    requires Live(d, naming.Keys, t)
    ensures t in naming && naming[t] != []
  {
    SeedsInside(d, naming);
    LiveReachable(d, naming.Keys, t);
    hide LeastClosed, Leads, Pointed, Holds, Republished, Collected;
    var v := if Holds(Drop(), d.paths, t) then d.paths else LiveIn(d, naming.Keys, t);
    RewriteStaysInside(naming, v);
    assert Republished(naming, v).Some?;
    assert !Nameless(naming, v);
  }

  lemma PublishedNotRefused(d: Description, naming: map<Text, Text>, e: Emitted)
    requires Listed(d) && LeastClosed(d.resolved, Seeds(d), naming.Keys) && Resolved(naming.Keys)
    requires Named(DeclaredNames(d.declared, d.order), naming.Keys, naming)
    requires !NamesCollide(DeclaredNames(d.declared, d.order), naming.Keys) && Publishes(naming, d, e)
    ensures !Refused(d)
  {
    hide LeastClosed, GetsNoName, NameFor, DeclaredNames, NamesCollide, Publishes, StartsWith, Pointed, Holds;
    forall s: set<Text> | LeastClosed(d.resolved, Seeds(d), s) ensures s == naming.Keys {
      LeastUnique(d.resolved, Seeds(d), s, naming.Keys);
    }
    forall t | Live(d, naming.Keys, t) ensures !GetsNoName(DeclaredNames(d.declared, d.order), naming.Keys, t) {
      LiveNamed(d, naming, e, t);
      NameEmptyExactly(DeclaredNames(d.declared, d.order), naming.Keys, t);
    }
  }

  ghost function LiveIn(d: Description, reachable: set<Text>, t: Text): (v: Value)
    requires Live(d, reachable, t) && !Holds(Drop(), d.paths, t)
    ensures Holds(Drop(), v, t) && exists r :: r in reachable && Leads(d.resolved, r) && v == Pointed(d.resolved, r).value
  {
    var r :| r in reachable && Leads(d.resolved, r) && Holds(Drop(), Pointed(d.resolved, r).value, t);
    Pointed(d.resolved, r).value
  }

  lemma UnclosedRefused(d: Description)
    requires Listed(d) && forall s: set<Text> :: Seeds(d) <= s ==> !ClosedUnder(d.resolved, s)
    ensures Refused(d)
  {
    hide ClosedUnder, Needed;
  }

  lemma CollisionRefused(d: Description, s: set<Text>)
    requires Listed(d) && LeastClosed(d.resolved, Seeds(d), s) && Resolved(s)
    requires NamesCollide(DeclaredNames(d.declared, d.order), s)
    ensures Refused(d)
  {
    hide LeastClosed, NamesCollide;
  }

  /** The whole emitter: it throws exactly on the descriptions refused, and
      publishes every reachable schema of the others. */
  method Emit(d: Description) returns (bundle: Option<Emitted>, naming: map<Text, Text>)
    requires Listed(d)
    ensures bundle.None? <==> Refused(d)
    ensures bundle.Some? ==>
              LeastClosed(d.resolved, Seeds(d), naming.Keys) && Resolved(naming.Keys)
              && Named(DeclaredNames(d.declared, d.order), naming.Keys, naming)
              && Injective(naming) && Publishes(naming, d, bundle.value)
  {
    hide LeastClosed, Named, NamesCollide, Injective, Publishes, DeclaredNames, ClosedUnder, Collected, Republished, Refused;
    hide Nameless, Leads, Pointed;
    naming := map[];
    SeedsResolved(d);
    var reachable := Reachable(d.resolved, Seeds(d));
    if reachable.None? {
      UnclosedRefused(d);
      return None, naming;
    }
    ReachableResolved(d.resolved, Seeds(d), reachable.value);
    var declared := NameDeclared(d.declared, d.order);
    var names := NameReachable(declared, reachable.value);
    if names.None? {
      CollisionRefused(d, reachable.value);
      return None, naming;
    }
    naming := names.value;
    assert naming.Keys == reachable.value by { NamedKeys(declared, reachable.value, naming); }
    SeedsInside(d, naming);
    var paths := Republish(naming, d.paths);
    if paths.None? {
      RewriteStaysInside(naming, d.paths);
      NamelessRefused(d, naming, d.paths);
      return None, naming;
    }
    var schemas, stopped := PublishSchemas(d, naming);
    if schemas.None? {
      NamelessRefused(d, naming, stopped);
      return None, naming;
    }
    bundle := Some(Emitted(paths.value, schemas.value));
    assert Publishes(naming, d, bundle.value) by { PublishesAll(naming, d, bundle.value); }
    PublishedNotRefused(d, naming, bundle.value);
  }

  lemma PublishesAll(naming: map<Text, Text>, d: Description, e: Emitted)
    requires Republished(naming, d.paths) == Some(e.paths) && PublishedSoFar(d, naming, {}, e.schemas)
    ensures Publishes(naming, d, e)
  {
    hide Republishes;
  }

  lemma ReachableResolved(schemas: Value, seeds: set<Text>, refs: set<Text>)
    requires LeastClosed(schemas, seeds, refs)
    ensures Resolved(refs)
  {
    forall r | r in refs ensures StartsWith(r, PREFIX) { assert Leads(schemas, r); }
  }

  lemma NamedKeys(declared: map<Text, Text>, reachable: set<Text>, naming: map<Text, Text>)
    requires Resolved(reachable) && Named(declared, reachable, naming)
    ensures naming.Keys == reachable
  {}

  lemma SeedsInside(d: Description, naming: map<Text, Text>)
    requires LeastClosed(d.resolved, Seeds(d), naming.Keys)
    ensures Collected(d.paths) <= naming.Keys
    ensures forall r :: r in naming ==> Leads(d.resolved, r) && Collected(Pointed(d.resolved, r).value) <= naming.Keys
  {}

  /** The schemas published so far; the rest are still to come. */
  ghost predicate PublishedSoFar(d: Description, naming: map<Text, Text>, remaining: set<Text>, schemas: map<Text, Value>) {
    && PROTO !in schemas
    && (forall r :: r in naming && r !in remaining ==> Republishes(naming, d.resolved, r, schemas))
    && forall n :: n in schemas ==> exists r :: r in naming && naming[r] == n && r !in remaining
  }

  lemma PublishOne(d: Description, naming: map<Text, Text>, remaining: set<Text>, schemas: map<Text, Value>, ref: Text, value: Value)
    requires PublishedSoFar(d, naming, remaining, schemas) && Injective(naming) && ref in remaining && ref in naming
    requires Leads(d.resolved, ref) && Republished(naming, Pointed(d.resolved, ref).value) == Some(value)
    ensures PublishedSoFar(d, naming, remaining - {ref}, SpecNormalization.Assigned(schemas, naming[ref], value))
  {
    hide Leads, Pointed, Republished;
    var more := SpecNormalization.Assigned(schemas, naming[ref], value);
    forall r | r in naming && r !in remaining - {ref} ensures Republishes(naming, d.resolved, r, more) {
      if r != ref { assert Republishes(naming, d.resolved, r, schemas) && naming[r] != naming[ref]; }
    }
    forall n | n in more ensures exists r :: r in naming && naming[r] == n && r !in remaining - {ref} {
      if n == naming[ref] {
        assert ref in naming && naming[ref] == n && ref !in remaining - {ref};
      } else {
        var r :| r in naming && naming[r] == n && r !in remaining;
      }
    }
  }

  /** The loop over the naming; where it stops short, it is at a schema that holds
      a nameless reference. */
  method PublishSchemas(d: Description, naming: map<Text, Text>) returns (schemas: Option<map<Text, Value>>, ghost stopped: Value)
    requires Injective(naming)
    requires forall r :: r in naming ==> Leads(d.resolved, r) && Collected(Pointed(d.resolved, r).value) <= naming.Keys
    ensures schemas.Some? ==> PublishedSoFar(d, naming, {}, schemas.value)
    ensures schemas.None? ==> Nameless(naming, stopped)
    ensures schemas.None? ==> exists r :: r in naming && Leads(d.resolved, r) && stopped == Pointed(d.resolved, r).value
  {
    hide Republished, Injective, PublishedSoFar, Collected, Pointed, Nameless;
    stopped := Null;
    var remaining := naming.Keys;
    var published: map<Text, Value> := map[];
    assert PublishedSoFar(d, naming, remaining, published) by { NothingPublished(d, naming); }
    while remaining != {}
      invariant remaining <= naming.Keys
      invariant PublishedSoFar(d, naming, remaining, published)
      decreases |remaining|
    {
      var ref :| ref in remaining;
      var schema := Republish(naming, Pointed(d.resolved, ref).value);
      if schema.None? {
        RewriteStaysInside(naming, Pointed(d.resolved, ref).value);
        return None, Pointed(d.resolved, ref).value;
      }
      PublishOne(d, naming, remaining, published, ref, schema.value);
      published := SpecNormalization.Assigned(published, naming[ref], schema.value);
      remaining := remaining - {ref};
    }
    return Some(published), stopped;
  }

  lemma NothingPublished(d: Description, naming: map<Text, Text>)
    ensures PublishedSoFar(d, naming, naming.Keys, map[])
  {}

  // ---- the emitted references ----

  /** A reference of a republished value is an untouched one, or names an emitted
      schema: the widened rewrite of what the original reference led to. */
  lemma EmittedReference(naming: map<Text, Text>, d: Description, e: Emitted, v: Value, t: Text)
    requires Publishes(naming, d, e) && Republished(naming, v).Some? && Holds(Nothing(), Republished(naming, v).value, t)
    ensures exists s :: Holds(Drop(), v, s) &&
              if StartsWith(s, PREFIX) then s in naming && t == ComponentReference(naming[s]) && Republishes(naming, d.resolved, s, e.schemas)
              else t == s
  {
    hide Accepts, Apply, Widen, Holds, Republishes;
    var w := Rewritten(RewriteAction(naming), Drop(), v).value;
    WidenKeepsReferences(w, t);
    HoldsMore(Drop(), w, t);
    ReferencesOfCopy(RewriteAction(naming), Drop(), v, t);
    var s :| Holds(Drop(), v, s) && RewriteAction(naming)(s) == Some(t);
    assert RewriteOne(naming, s) == Some(t);
  }

  function Document(e: Emitted): Value {
    Obj(map[Lit("paths") := e.paths, COMPONENTS := Obj(map[SCHEMAS := Obj(e.schemas)])])
  }

  /** The document: paths at /paths, and each schema at /components/schemas and its name. */
  lemma DocumentExactly(e: Emitted, name: Text)
    ensures Deref(Document(e), [Lit("paths")]) == Some(e.paths)
    ensures Deref(Document(e), [Lit("components"), Lit("schemas"), name])
         == if name in e.schemas then Some(e.schemas[name]) else None
  {
    assert COMPONENTS == Lit("components") && SCHEMAS == Lit("schemas");
    assert Lit("paths") != COMPONENTS by { assert |Lit("paths")| == 5 && |COMPONENTS| == 10; }
    hide COMPONENTS, SCHEMAS, Lit;
    var components, tokens := Obj(map[SCHEMAS := Obj(e.schemas)]), [COMPONENTS, SCHEMAS, name];
    assert Deref(Document(e), [Lit("paths")]) == Deref(e.paths, []) by { assert [Lit("paths")][1..] == []; }
    assert tokens[1..] == [SCHEMAS, name] && [SCHEMAS, name][1..] == [name] && [name][1..] == [];
    assert Deref(Document(e), tokens) == Deref(components, [SCHEMAS, name]);
    assert Deref(components, [SCHEMAS, name]) == Deref(Obj(e.schemas), [name]);
    assert Deref(Obj(e.schemas), [name]) == if name in e.schemas then Some(e.schemas[name]) else None by { assert [name][1..] == []; }
    assert tokens == [Lit("components"), Lit("schemas"), name];
  }

  lemma ComponentNamesPlain()
    ensures SLASH !in COMPONENTS && SLASH !in SCHEMAS && Unescape(COMPONENTS) == COMPONENTS && Unescape(SCHEMAS) == SCHEMAS
  {
    assert forall i :: 0 <= i < |COMPONENTS| ==> 0x61 <= COMPONENTS[i] <= 0x7A;
    assert forall i :: 0 <= i < |SCHEMAS| ==> 0x61 <= SCHEMAS[i] <= 0x7A;
    UnescapePlain(COMPONENTS);
    UnescapePlain(SCHEMAS);
  }

  lemma ComponentTokens(name: Text)
    ensures SpecNormalization.FragmentTokens(ComponentReference(name)[1..]) == [COMPONENTS, SCHEMAS] + Tokens(name)
  {
    hide Unescape, Split, UnescapeAll;
    ComponentNamesPlain();
    var rest := SCHEMAS + ([SLASH] + name);
    assert ComponentReference(name)[1..][1..] == COMPONENTS + ([SLASH] + rest);
    SplitStep(COMPONENTS, rest);
    SplitStep(SCHEMAS, name);
    UnescapeAllCons(COMPONENTS, Split(rest));
    UnescapeAllCons(SCHEMAS, Split(name));
    assert [COMPONENTS] + ([SCHEMAS] + UnescapeAll(Split(name))) == [COMPONENTS, SCHEMAS] + UnescapeAll(Split(name));
  }

  /** As a pointer, a component reference is read as its name exactly when the
      name needs no escaping, which the emitter does not do. */
  lemma PointsAtNameExactly(name: Text)
    ensures SpecNormalization.FragmentTokens(ComponentReference(name)[1..]) == [COMPONENTS, SCHEMAS, name] <==> NeedsNoEscape(name)
  {
    hide Unescape, Split, SpecNormalization.FragmentTokens, ComponentReference, NeedsNoEscape;
    ComponentTokens(name);
    ReadAsItselfExactly(name);
    assert ([COMPONENTS, SCHEMAS] + Tokens(name))[2..] == Tokens(name) && [COMPONENTS, SCHEMAS, name][2..] == [name];
    assert [COMPONENTS, SCHEMAS] + [name] == [COMPONENTS, SCHEMAS, name];
  }

  /** For a published name: exactly when the part of it taken over from the
      declaration or the reference needs none. */
  lemma PublishedNameReadsExactly(declared: map<Text, Text>, reachable: set<Text>, ref: Text)
    requires Resolved(reachable) && StartsWith(ref, PREFIX)
    ensures var name := NameFor(declared, reachable, ref);
            SpecNormalization.FragmentTokens(ComponentReference(name)[1..]) == [COMPONENTS, SCHEMAS, name]
            <==> NeedsNoEscape(WrittenName(declared, ref))
  {
    hide NeedsNoEscape, NameFor, WrittenName, SpecNormalization.FragmentTokens, ComponentReference;
    PointsAtNameExactly(NameFor(declared, reachable, ref));
    NameEscapesExactly(declared, reachable, ref);
  }

  /** So in the published document such a reference selects its schema. */
  lemma ComponentReferenceSelects(e: Emitted, name: Text)
    requires name in e.schemas && NeedsNoEscape(name)
    ensures SpecNormalization.Follow(Document(e), ComponentReference(name)) == Some(e.schemas[name])
  {
    hide Unescape, SpecNormalization.FragmentTokens, ComponentReference;
    PointsAtNameExactly(name);
    assert ComponentReference(name) != [] by { NeverEmpty(name); }
    var tokens := [COMPONENTS, SCHEMAS, name];
    var components := Obj(map[SCHEMAS := Obj(e.schemas)]);
    assert |COMPONENTS| == 10 && |Lit("paths")| == 5;
    assert Child(Document(e), COMPONENTS) == Some(components);
    assert tokens[0] == COMPONENTS && tokens[1..] == [SCHEMAS, name] && [SCHEMAS, name][1..] == [name];
    assert Child(components, SCHEMAS) == Some(Obj(e.schemas));
    assert Deref(Obj(e.schemas), [name]) == Some(e.schemas[name]) by { assert [name][1..] == []; }
    assert Deref(components, [SCHEMAS, name]) == Some(e.schemas[name]);
    assert Deref(Document(e), tokens) == Deref(components, tokens[1..]);
  }

  /** The reference emitted for a schema, read as a pointer, names its place and
      there is a schema there, exactly when the name needs no escaping and is not
      __proto__; it then selects the widened rewrite of what was referred to. */
  lemma SelectsItsSchemaExactly(d: Description, naming: map<Text, Text>, e: Emitted, r: Text)
    requires Publishes(naming, d, e) && r in naming
    ensures var name := naming[r];
            && (SpecNormalization.FragmentTokens(ComponentReference(name)[1..]) == [COMPONENTS, SCHEMAS, name] && name in e.schemas
                <==> NeedsNoEscape(name) && name != PROTO)
            && (NeedsNoEscape(name) && name != PROTO ==>
                  && Leads(d.resolved, r) && ComponentReference(name) != []
                  && SpecNormalization.Follow(Document(e), ComponentReference(name)) == Republished(naming, Pointed(d.resolved, r).value))
  {
    hide SpecNormalization.FragmentTokens, ComponentReference, NeedsNoEscape, Document, PROTO, Leads, Pointed, Republished;
    var name := naming[r];
    assert Republishes(naming, d.resolved, r, e.schemas);
    PointsAtNameExactly(name);
    NeverEmpty(name);
    if NeedsNoEscape(name) && name != PROTO { ComponentReferenceSelects(e, name); }
  }

  /** Said of the reference's text, the declarations and what is reached. */
  lemma EmittedSelectsExactly(d: Description, naming: map<Text, Text>, e: Emitted, r: Text)
    requires Listed(d) && Resolved(naming.Keys) && Named(DeclaredNames(d.declared, d.order), naming.Keys, naming)
    requires Publishes(naming, d, e) && r in naming
    ensures var declared := DeclaredNames(d.declared, d.order);
            SpecNormalization.FragmentTokens(ComponentReference(naming[r])[1..]) == [COMPONENTS, SCHEMAS, naming[r]] && naming[r] in e.schemas
            <==> NeedsNoEscape(WrittenName(declared, r)) && !GetsLostName(declared, naming.Keys, r)
  {
    hide SpecNormalization.FragmentTokens, ComponentReference, NeedsNoEscape, Publishes, NameFor, WrittenName, GetsLostName, DeclaredNames;
    var declared := DeclaredNames(d.declared, d.order);
    SelectsItsSchemaExactly(d, naming, e, r);
    NameEscapesExactly(declared, naming.Keys, r);
    NameLostExactly(declared, naming.Keys, r);
  }

  lemma NeverEmpty(name: Text)
    ensures ComponentReference(name) != []
  {}
}
