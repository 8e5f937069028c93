/** Projection of digest-pinned references to local pointers, for tooling that
    does not understand the anvilkit scheme. */
module SpecNormalization {
  import opened CodeUnits
  import opened Json
  import opened JsonPointer
  import opened ReferenceRewriting
  import opened References

  /** A schema file: its key in the resolved map, its logical id, the hexadecimal
      digest of its bytes and its parsed content. */
  datatype Source = Source(key: Text, logicalId: Text, digest: Text, schema: Value)

  /** The sources in the order the Map holds them. */
  type Sources = seq<Source>

  ghost predicate KeysDistinct(sources: Sources) {
    forall i, j :: 0 <= i < j < |sources| ==> sources[i].key != sources[j].key
  }

  /** Read from schema files: keys are their distinct names, never empty, and
      every schema is an object, which its contract metadata makes it. */
  ghost predicate FromFiles(sources: Sources) {
    KeysDistinct(sources) && forall i :: 0 <= i < |sources| ==> sources[i].key != [] && sources[i].schema.Obj?
  }

  function Lookup(sources: Sources, key: Text): Option<Source> {
    if sources == [] then None
    else if sources[0].key == key then Some(sources[0])
    else Lookup(sources[1..], key)
  }

  lemma {:induction false} LookupFinds(sources: Sources, key: Text)
    ensures Lookup(sources, key).Some? <==> exists i :: 0 <= i < |sources| && sources[i].key == key
    ensures Lookup(sources, key).Some? ==> Lookup(sources, key).value in sources && Lookup(sources, key).value.key == key
  {
    if sources != [] {
      LookupFinds(sources[1..], key);
      if i :| 0 <= i < |sources| && sources[i].key == key {
        if i > 0 { assert sources[1..][i - 1] == sources[i]; }
      }
    }
  }

  // ---- one reference ----

  const RESOLVED: Text := Lit("x-anvilkit-resolved-schemas")
  const DIGEST_PARAMETER: Text := Lit("?digest=sha256:")

  datatype Pinned = Pinned(key: Text, digest: Text, fragment: Text)

  function BeforeQuery(t: Text): (p: Text)
    ensures |p| <= |t| && t[..|p|] == p
  {
    if t == [] || t[0] == QUERY then [] else [t[0]] + BeforeQuery(t[1..])
  }

  /** (#\/.*)? to the end of the text */
  predicate OptionalPointer(t: Text) { t != [HASH] && PointerFragment(t) }

  /** The groups of the immutable reference expression, if it matches. */
  function ParsePinned(ref: Text): Option<Pinned> {
    if !StartsWith(ref, SCHEME) then None
    else
      var rest := ref[|SCHEME|..];
      var key := BeforeQuery(rest);
      var tail := rest[|key|..];
      if !LogicalName(key) || !StartsWith(tail, DIGEST_PARAMETER) || |tail| < |DIGEST_PARAMETER| + 64 then None
      else
        var digest := tail[|DIGEST_PARAMETER|..|DIGEST_PARAMETER| + 64];
        var fragment := tail[|DIGEST_PARAMETER| + 64..];
        if LowerHex(digest) && OptionalPointer(fragment) then Some(Pinned(key, digest, fragment)) else None
  }

  function LocalReference(key: Text, fragment: Text): Text {
    [HASH, SLASH] + (RESOLVED + ([SLASH] + (Escape(key) + fragment)))
  }

  /** rewriteReference: None where it throws; local is the key of the schema the
      reference stands in, None in the description. */
  function RewriteReference(sources: Sources, local: Option<Text>, ref: Text): Option<Text> {
    if StartsWith(ref, [HASH]) then
      Some(if local.Some? then LocalReference(local.value, ref[1..]) else ref)
    else
      match ParsePinned(ref)
      case None => None
      case Some(pinned) =>
        match Lookup(sources, pinned.key)
        case None => None
        case Some(source) =>
          if source.digest != pinned.digest then None
          else Some(LocalReference(pinned.key, if pinned.fragment == [] then [] else pinned.fragment[1..]))
  }

  // ---- projection ----

  const PROTO: Text := Lit("__proto__")

  /** output[key] = value on an object made by a literal: under the one name that
      sets the prototype no member comes to be. */
  function Assigned(m: map<Text, Value>, key: Text, value: Value): map<Text, Value> {
    if key == PROTO then m else m[key := value]
  }

  predicate ProfileKey(k: Text) { k == Lit("$schema") || k == Lit("$id") || k == Lit("x-anvilkit-contract") }

  /** Members that do not reach the output: the profile's own in a schema, and
      __proto__, whose assignment makes no member. */
  predicate Omitted(local: Option<Text>, k: Text) { k == PROTO || (local.Some? && ProfileKey(k)) }

  function DropFor(local: Option<Text>): Dropped { (k: Text) => Omitted(local, k) }

  function ActionFor(sources: Sources, local: Option<Text>): Action {
    (ref: Text) => RewriteReference(sources, local, ref)
  }

  function Projected(sources: Sources, local: Option<Text>, v: Value): Option<Value> {
    Rewritten(ActionFor(sources, local), DropFor(local), v)
  }

  method Project(sources: Sources, local: Option<Text>, v: Value) returns (copy: Option<Value>)
    ensures copy == Projected(sources, local, v)
  {
    copy := Rewrite(ActionFor(sources, local), DropFor(local), v);
  }

  predicate AllProjected(sources: Sources, all: Sources) {
    forall i :: 0 <= i < |sources| ==> Projected(all, Some(sources[i].key), sources[i].schema).Some?
  }

  function ResolvedSchemas(sources: Sources, all: Sources): map<Text, Value>
    requires AllProjected(sources, all)
  {
    if sources == [] then map[]
    else
      var last := sources[|sources| - 1];
      ResolvedSchemas(sources[..|sources| - 1], all)[last.key := Projected(all, Some(last.key), last.schema).value]
  }

  /** The description with its references made local and the schemas they lead to. */
  function Normalized(sources: Sources, description: Value): Option<Value>
    requires description.Obj?
  {
    match Projected(sources, None, description)
    case None => None
    case Some(copy) =>
      if AllProjected(sources, sources) then Some(Obj(copy.members[RESOLVED := Obj(ResolvedSchemas(sources, sources))])) else None
  }

  method NormalizeDescription(sources: Sources, description: Value) returns (normalized: Option<Value>)
    requires description.Obj?
    ensures normalized == Normalized(sources, description)
  {
    hide Projected;
    var copy := Project(sources, None, description);
    if copy.None? {
      return None;
    }
    var resolved: map<Text, Value> := map[];
    var i := 0;
    while i < |sources|
      invariant 0 <= i <= |sources|
      invariant AllProjected(sources[..i], sources) && resolved == ResolvedSchemas(sources[..i], sources)
    {
      var schema := Project(sources, Some(sources[i].key), sources[i].schema);
      if schema.None? {
        return None;
      }
      resolved := resolved[sources[i].key := schema.value];
      assert sources[..i + 1][..i] == sources[..i];
      i := i + 1;
    }
    assert sources[..i] == sources;
    assert copy.value.Obj? by { ProjectedObject(sources, None, description); }
    return Some(Obj(copy.value.members[RESOLVED := Obj(resolved)]));
  }

  lemma ProjectedObject(sources: Sources, local: Option<Text>, v: Value)
    requires v.Obj? && Projected(sources, local, v).Some?
    ensures Projected(sources, local, v).value.Obj?
  {}

  lemma {:induction false} ResolvedAt(sources: Sources, all: Sources, i: nat)
    requires AllProjected(sources, all) && KeysDistinct(sources) && i < |sources|
    ensures sources[i].key in ResolvedSchemas(sources, all)
         && ResolvedSchemas(sources, all)[sources[i].key] == Projected(all, Some(sources[i].key), sources[i].schema).value
    decreases |sources|
  {
    hide Projected;
    var front := sources[..|sources| - 1];
    if i < |sources| - 1 {
      ResolvedAt(front, all, i);
      assert sources[i].key != sources[|sources| - 1].key;
    }
  }

  // ---- what a reference denotes ----

  /** The tokens of a fragment without its #. */
  function FragmentTokens(fragment: Text): seq<Text> {
    if fragment == [] then [] else Tokens(fragment[1..])
  }

  /** A fragment is a pointer when it is empty or starts with a slash. */
  predicate IsPointer(fragment: Text) { fragment == [] || fragment[0] == SLASH }

  /** The document a reference leads into, None for the description, and the
      fragment followed there. */
  function Home(local: Option<Text>, ref: Text): Option<Text> {
    if StartsWith(ref, [HASH]) then local
    else match ParsePinned(ref) case None => None case Some(pinned) => Some(pinned.key)
  }

  function Fragment(ref: Text): Text {
    if StartsWith(ref, [HASH]) then ref[1..]
    else
      match ParsePinned(ref)
      case None => []
      case Some(pinned) => if pinned.fragment == [] then [] else pinned.fragment[1..]
  }

  function DocumentOf(sources: Sources, description: Value, home: Option<Text>): Option<Value> {
    match home
    case None => Some(description)
    case Some(key) => match Lookup(sources, key) case None => None case Some(source) => Some(source.schema)
  }

  /** What the reference selects in the documents as they were written. */
  ghost function Denotes(sources: Sources, description: Value, local: Option<Text>, ref: Text): Option<Value> {
    match DocumentOf(sources, description, Home(local, ref))
    case None => None
    case Some(document) => Deref(document, FragmentTokens(Fragment(ref)))
  }

  /** What a local pointer reference selects in a document. */
  ghost function Follow(document: Value, ref: Text): Option<Value>
    requires ref != []
  {
    Deref(document, FragmentTokens(ref[1..]))
  }

  lemma PinnedFragment(ref: Text)
    requires ParsePinned(ref).Some?
    ensures IsPointer(Fragment(ref))
  {
    var pinned := ParsePinned(ref).value;
    assert OptionalPointer(pinned.fragment);
    assert SCHEME[0] != HASH && ref[0..1] == SCHEME[0..1];
  }

  lemma ResolvedIsPlain()
    ensures TILDE !in RESOLVED && SLASH !in RESOLVED && Unescape(RESOLVED) == RESOLVED
  {
    assert forall i :: 0 <= i < |RESOLVED| ==> RESOLVED[i] == MINUS || 0x61 <= RESOLVED[i] <= 0x7A;
    UnescapePlain(RESOLVED);
  }

  /** A rewritten reference is read as the resolved map, the key, and the tokens
      of the fragment it carried. */
  lemma LocalReferenceTokens(key: Text, fragment: Text)
    requires IsPointer(fragment)
    ensures FragmentTokens(LocalReference(key, fragment)[1..]) == [RESOLVED, key] + FragmentTokens(fragment)
  {
    hide Unescape, Escape, Split, UnescapeAll;
    ResolvedIsPlain();
    UnescapeEscape(key);
    EscapeHasNoSlash(key);
    var tail := Escape(key) + fragment;
    var r := LocalReference(key, fragment);
    assert r[1..][1..] == RESOLVED + ([SLASH] + tail);
    SplitStep(RESOLVED, tail);
    UnescapeAllCons(RESOLVED, Split(tail));
    if fragment == [] {
      assert tail == Escape(key);
      SplitLast(Escape(key));
      assert [Escape(key)] == [Escape(key)] + [];
      UnescapeAllCons(Escape(key), []);
      assert UnescapeAll([]) == [];
    } else {
      assert fragment == [SLASH] + fragment[1..];
      SplitStep(Escape(key), fragment[1..]);
      UnescapeAllCons(Escape(key), Split(fragment[1..]));
    }
  }

  /** A rewritten reference leads into the schema of its key exactly when its
      fragment is a pointer: an anchor is glued to the key. */
  lemma OwnSchemaExactly(key: Text, fragment: Text)
    ensures var tokens := FragmentTokens(LocalReference(key, fragment)[1..]);
            (|tokens| >= 2 && tokens[0] == RESOLVED && tokens[1] == key) <==> IsPointer(fragment)
  {
    hide Unescape, Escape, Split, UnescapeAll;
    if IsPointer(fragment) {
      LocalReferenceTokens(key, fragment);
    } else {
      ResolvedIsPlain();
      EscapeHasNoSlash(key);
      var tail := Escape(key) + fragment;
      assert LocalReference(key, fragment)[1..][1..] == RESOLVED + ([SLASH] + tail);
      SplitStep(RESOLVED, tail);
      assert FragmentTokens(LocalReference(key, fragment)[1..])[1] == Unescape(Split(tail)[0]);
      FirstPartAfter(Escape(key), fragment);
      SplitStarts(tail);
      UnescapeAfterEscape(key, FirstPart(fragment));
      UnescapeSomething(FirstPart(fragment));
    }
  }

  /** An anchor is read glued to the key in front of it. */
  lemma AnchorTokens(key: Text, anchor: Text)
    requires !IsPointer(anchor)
    ensures FragmentTokens(LocalReference(key, anchor)[1..]) == [RESOLVED, key + Tokens(anchor)[0]] + Tokens(anchor)[1..]
    ensures key + Tokens(anchor)[0] != key
  {
    hide Unescape, Escape, Split, UnescapeAll;
    ResolvedIsPlain();
    EscapeHasNoSlash(key);
    var tail := Escape(key) + anchor;
    var first, rest := Split(anchor)[0], Split(anchor)[1..];
    assert LocalReference(key, anchor)[1..][1..] == RESOLVED + ([SLASH] + tail);
    SplitStep(RESOLVED, tail);
    UnescapeAllCons(RESOLVED, Split(tail));
    SplitGlued(Escape(key), anchor);
    UnescapeAllCons(Escape(key) + first, rest);
    UnescapeAfterEscape(key, first);
    assert Split(anchor) == [first] + rest;
    UnescapeAllCons(first, rest);
    SplitStarts(anchor);
    assert first != [] by { assert FirstPart(anchor) != []; }
    UnescapeSomething(first);
    assert Tokens(anchor) == [Unescape(first)] + UnescapeAll(rest);
    assert UnescapeAll(Split(tail)) == [key + Unescape(first)] + UnescapeAll(rest);
    assert [RESOLVED] + ([key + Unescape(first)] + UnescapeAll(rest)) == [RESOLVED, key + Unescape(first)] + UnescapeAll(rest);
  }

  // ---- the projection preserves what references denote ----

  lemma OmittedAreNoIndices(local: Option<Text>)
    ensures KeepsIndices(DropFor(local))
  {
    forall i: nat ensures !DropFor(local)(IndexText(i)) {
      NamesAreNoIndices(i);
      var d := IndexText(i)[0];
      assert PROTO[0] != d && Lit("$schema")[0] != d && Lit("$id")[0] != d && Lit("x-anvilkit-contract")[0] != d;
    }
  }

  /** Following a rewritten pointer in the normalized document goes on from the
      projected schema. */
  lemma FollowInSchema(sources: Sources, description: Value, key: Text, fragment: Text)
    requires description.Obj? && KeysDistinct(sources) && Normalized(sources, description).Some?
    requires Lookup(sources, key).Some? && IsPointer(fragment)
    ensures var schema := Lookup(sources, key).value.schema;
            Projected(sources, Some(key), schema).Some?
            && Follow(Normalized(sources, description).value, LocalReference(key, fragment))
               == Deref(Projected(sources, Some(key), schema).value, FragmentTokens(fragment))
  {
    hide Projected, FragmentTokens, LocalReference, Child;
    LookupFinds(sources, key);
    var source := Lookup(sources, key).value;
    var i :| 0 <= i < |sources| && sources[i] == source;
    ResolvedAt(sources, sources, i);
    LocalReferenceTokens(key, fragment);
    SchemaMember(Normalized(sources, description).value, key, FragmentTokens(fragment));
  }

  lemma SchemaMember(document: Value, key: Text, rest: seq<Text>)
    requires document.Obj? && RESOLVED in document.members
    requires document.members[RESOLVED].Obj? && key in document.members[RESOLVED].members
    ensures Deref(document, [RESOLVED, key] + rest) == Deref(document.members[RESOLVED].members[key], rest)
  {
    var tokens := [RESOLVED, key] + rest;
    assert tokens[1..][1..] == rest;
    assert tokens[1..][0] == key;
  }

  /** A pointer into the description itself keeps off the schemas added to it. */
  lemma FollowInDescription(sources: Sources, description: Value, tokens: seq<Text>)
    requires description.Obj? && Normalized(sources, description).Some?
    requires tokens != [] && tokens[0] != RESOLVED
    ensures Deref(Normalized(sources, description).value, tokens) == Deref(Projected(sources, None, description).value, tokens)
  {}

  /** What a pointer into the description selects once the schemas are added: the
      whole document for the empty pointer, and the added schemas for one that
      starts with the name they are added under. */
  predicate Overlaid(home: Option<Text>, tokens: seq<Text>) { home.None? && (tokens == [] || tokens[0] == RESOLVED) }

  ghost function Overlay(normalized: Value, sources: Sources, tokens: seq<Text>): Option<Value>
    requires AllProjected(sources, sources)
  {
    if tokens == [] then Some(normalized) else Deref(Obj(ResolvedSchemas(sources, sources)), tokens[1..])
  }

  lemma FollowOverlay(sources: Sources, description: Value, tokens: seq<Text>)
    requires description.Obj? && Normalized(sources, description).Some? && Overlaid(None, tokens)
    ensures Deref(Normalized(sources, description).value, tokens) == Overlay(Normalized(sources, description).value, sources, tokens)
  {}

  /** A reference to an anchor of its own document. */
  predicate ToAnchor(ref: Text) { StartsWith(ref, [HASH]) && !IsPointer(ref[1..]) }

  /** What an anchor of a schema is made to lead to: the schema whose key goes on
      with the anchor, if there is one, and never its own. */
  ghost function Elsewhere(sources: Sources, key: Text, anchor: Text): Option<Value>
    requires AllProjected(sources, sources)
  {
    var other := key + Tokens(anchor)[0];
    if other in ResolvedSchemas(sources, sources) then Deref(ResolvedSchemas(sources, sources)[other], Tokens(anchor)[1..]) else None
  }

  lemma ResolvedMember(sources: Sources, description: Value)
    requires description.Obj? && Normalized(sources, description).Some?
    ensures var n := Normalized(sources, description).value;
            n.Obj? && RESOLVED in n.members && AllProjected(sources, sources) && n.members[RESOLVED] == Obj(ResolvedSchemas(sources, sources))
  {
    hide Projected, ResolvedSchemas;
  }

  lemma TwoAndRest<T>(a: T, b: T, rest: seq<T>)
    ensures [a, b] + rest == [a] + ([b] + rest)
  {}

  lemma FollowAnchor(sources: Sources, description: Value, key: Text, anchor: Text)
    requires description.Obj? && Normalized(sources, description).Some? && !IsPointer(anchor)
    ensures key + Tokens(anchor)[0] != key
    ensures Follow(Normalized(sources, description).value, LocalReference(key, anchor)) == Elsewhere(sources, key, anchor)
  {
    AnchorTokens(key, anchor);
    ResolvedMember(sources, description);
    hide Tokens, FragmentTokens, ResolvedSchemas, Normalized, Deref, AllProjected, LocalReference, IsPointer;
    NeverEmptyReference(key, anchor);
    var n := Normalized(sources, description).value;
    var other, rest := key + Tokens(anchor)[0], Tokens(anchor)[1..];
    TwoAndRest(RESOLVED, other, rest);
    DerefStep(n, RESOLVED, [other] + rest);
    DerefStep(Obj(ResolvedSchemas(sources, sources)), other, rest);
  }

  lemma NeverEmptyReference(key: Text, fragment: Text)
    ensures LocalReference(key, fragment) != []
  {}

  /** Dereferencing and projecting commute: the rewritten reference selects, in
      the normalized document, the projection of what the reference denoted,
      exactly when the pointer passes no omitted member. A pointer of the
      description that the added schemas overlay selects them. An anchor is kept in
      the description, and in a schema made to lead elsewhere. */
  lemma ProjectionCommutes(sources: Sources, description: Value, local: Option<Text>, ref: Text)
    requires description.Obj? && KeysDistinct(sources) && Normalized(sources, description).Some?
    requires local.Some? ==> Lookup(sources, local.value).Some?
    requires RewriteReference(sources, local, ref).Some?
    requires ToAnchor(ref) || Denotes(sources, description, local, ref).Some?
    ensures RewriteReference(sources, local, ref).value != [] && RewriteReference(sources, local, ref).value[0] == HASH
    ensures var n := Normalized(sources, description).value;
            var r := RewriteReference(sources, local, ref).value;
            if ToAnchor(ref) then
              if local.None? then r == ref else Follow(n, r) == Elsewhere(sources, local.value, ref[1..])
            else
              var home, tokens := Home(local, ref), FragmentTokens(Fragment(ref));
              var image := Image(ActionFor(sources, home), DropFor(home), tokens, Denotes(sources, description, local, ref).value);
              if Overlaid(home, tokens) then Follow(n, r) == Overlay(n, sources, tokens)
              else Follow(n, r).Some? && Follow(n, r) == image <==> Passes(DropFor(home), tokens)
  {
    LocalStart(sources, local, ref);
    if ToAnchor(ref) {
      if local.Some? { FollowAnchor(sources, description, local.value, ref[1..]); }
    } else {
      PointerCommutes(sources, description, local, ref);
    }
  }

  lemma PointerCommutes(sources: Sources, description: Value, local: Option<Text>, ref: Text)
    requires description.Obj? && KeysDistinct(sources) && Normalized(sources, description).Some?
    requires local.Some? ==> Lookup(sources, local.value).Some?
    requires RewriteReference(sources, local, ref).Some? && !ToAnchor(ref)
    requires Denotes(sources, description, local, ref).Some?
    ensures var n := Normalized(sources, description).value;
            var r := RewriteReference(sources, local, ref).value;
            r != [] &&
            var home, tokens := Home(local, ref), FragmentTokens(Fragment(ref));
            var image := Image(ActionFor(sources, home), DropFor(home), tokens, Denotes(sources, description, local, ref).value);
            if Overlaid(home, tokens) then Follow(n, r) == Overlay(n, sources, tokens)
            else Follow(n, r).Some? && Follow(n, r) == image <==> Passes(DropFor(home), tokens)
  {
    if ParsePinned(ref).Some? && !StartsWith(ref, [HASH]) { PinnedFragment(ref); }
    hide Image, Passes, FragmentTokens, LocalReference, ParsePinned, Deref, Overlay;
    var home, tokens := Home(local, ref), FragmentTokens(Fragment(ref));
    var document := DocumentOf(sources, description, home).value;
    OmittedAreNoIndices(home);
    if StartsWith(ref, [HASH]) { assert ref[0..1][0] == ref[0]; }
    LocalStart(sources, local, ref);
    if home.None? {
      if Overlaid(home, tokens) {
        FollowOverlay(sources, description, tokens);
      } else {
        FollowInDescription(sources, description, tokens);
      }
    } else {
      FollowInSchema(sources, description, home.value, Fragment(ref));
      LookupFinds(sources, home.value);
    }
    DerefExactly(ActionFor(sources, home), DropFor(home), document, tokens);
  }

  /** Every accepted reference is rewritten to start with #. */
  lemma LocalStart(sources: Sources, local: Option<Text>, ref: Text)
    requires RewriteReference(sources, local, ref).Some?
    ensures var r := RewriteReference(sources, local, ref).value;
            r != [] && r[0] == HASH
            && (Home(local, ref).Some? ==> r == LocalReference(Home(local, ref).value, Fragment(ref)))
            && (Home(local, ref).None? ==> r == ref && Fragment(ref) == r[1..])
  {
    hide Escape;
    if StartsWith(ref, [HASH]) { assert ref[0..1][0] == ref[0]; }
  }

  // ---- nothing else is left ----

  lemma {:induction false} ResolvedFrom(sources: Sources, all: Sources, key: Text)
    requires AllProjected(sources, all) && key in ResolvedSchemas(sources, all)
    ensures exists i :: 0 <= i < |sources| && sources[i].key == key
              && ResolvedSchemas(sources, all)[key] == Projected(all, Some(key), sources[i].schema).value
    decreases |sources|
  {
    hide Projected;
    if sources[|sources| - 1].key != key {
      ResolvedFrom(sources[..|sources| - 1], all, key);
    }
  }

  lemma SameStart(t: Text, p: Text)
    requires t != [] && p != []
    ensures StartsWith(t, p) ==> t[0] == p[0]
  {
    if StartsWith(t, p) { AtFirst(t, 0, p); }
  }

  lemma ProjectedReference(sources: Sources, local: Option<Text>, v: Value, t: Text)
    requires Projected(sources, local, v).Some? && Holds(Nothing(), Projected(sources, local, v).value, t)
    ensures t != [] && t[0] == HASH
  {
    ReferencesOfCopy(ActionFor(sources, local), DropFor(local), v, t);
    var s :| Holds(DropFor(local), v, s) && RewriteReference(sources, local, s) == Some(t);
    LocalStart(sources, local, s);
  }

  /** No reference of the normalized document leaves it: none keeps the anvilkit
      scheme or any other. */
  lemma NoReferenceLeaves(sources: Sources, description: Value, t: Text)
    requires description.Obj? && FromFiles(sources) && Normalized(sources, description).Some?
    requires Holds(Nothing(), Normalized(sources, description).value, t)
    ensures t != [] && t[0] == HASH && !StartsWith(t, SCHEME)
  {
    hide Projected;
    var n := Normalized(sources, description).value;
    var copy := Projected(sources, None, description).value;
    var k :| k in n.members && HoldsMember(Nothing(), k, n.members[k], t);
    if k == RESOLVED {
      var resolved := ResolvedSchemas(sources, sources);
      assert Holds(Nothing(), Obj(resolved), t);
      var key :| key in resolved && HoldsMember(Nothing(), key, resolved[key], t);
      ResolvedFrom(sources, sources, key);
      var i :| 0 <= i < |sources| && sources[i].key == key && resolved[key] == Projected(sources, Some(key), sources[i].schema).value;
      ProjectedObject(sources, Some(key), sources[i].schema);
      ProjectedReference(sources, Some(key), sources[i].schema, t);
    } else {
      ProjectedObject(sources, None, description);
      assert k in copy.members && HoldsMember(Nothing(), k, copy.members[k], t);
      ProjectedReference(sources, None, description, t);
    }
    assert SCHEME[0] != HASH;
    SameStart(t, SCHEME);
  }
}
