/** Digest-pinned references: their syntax, and where a schema holds them. */
module References {
  import opened CodeUnits
  import opened Json
  import opened Canonical

  const QUERY: Unit := 0x3F
  const AMPERSAND: Unit := 0x26
  const AT_SIGN: Unit := 0x40
  const REF: Text := Lit("$ref")
  const SCHEME: Text := Lit("anvilkit://schema/")
  const DIGEST_IS: Text := Lit("digest=sha256:")

  datatype Code = Ref001 | Ref002 | Ref003 | Ref004 | Ref005 | Ref006 | Ref007 | Ref008 | Ref009

  predicate StartsWith(t: Text, p: Text) { At(t, 0, p) }

  predicate LowerHex(t: Text) { forall i :: 0 <= i < |t| ==> IsDigit(t[i]) || 0x61 <= t[i] <= 0x66 }

  /** digest=sha256: and 64 lower-case hexadecimal digits at index i, after ? or &. */
  predicate DigestAt(t: Text, i: nat) {
    && i < |t| && (t[i] == QUERY || t[i] == AMPERSAND)
    && At(t, i + 1, DIGEST_IS) && i + 1 + |DIGEST_IS| + 64 <= |t|
    && LowerHex(t[i + 1 + |DIGEST_IS|..i + 1 + |DIGEST_IS| + 64])
  }

  /** The first digest parameter, in its sha256: wire form. */
  function DigestFrom(t: Text, i: nat): Option<Text>
    decreases |t| - i
  {
    if i >= |t| then None
    else if DigestAt(t, i) then Some(t[i + 8..i + 1 + |DIGEST_IS| + 64])
    else DigestFrom(t, i + 1)
  }

  function DeclaredDigest(t: Text): Option<Text> { DigestFrom(t, 0) }

  /** The text before the first #. */
  function WithoutFragment(t: Text): Text {
    if t == [] || t[0] == HASH then [] else [t[0]] + WithoutFragment(t[1..])
  }

  predicate Delimits(u: int) { u == QUERY || u == AMPERSAND || u == HASH || u == SLASH }

  /** A selector word standing between delimiters or the ends of the text. */
  predicate SelectorAt(t: Text, i: nat, word: Text) {
    && At(t, i, word) && (i == 0 || Delimits(Peek(t, i - 1)))
    && (i + |word| == |t| || Delimits(Peek(t, i + |word|)))
  }

  predicate MutableSelector(t: Text) {
    exists i :: 0 <= i < |t| &&
      (SelectorAt(t, i, Lit("latest")) || SelectorAt(t, i, Lit("main")) || SelectorAt(t, i, Lit("stable")) || SelectorAt(t, i, Lit("current")))
  }

  predicate PinsDigest(t: Text) {
    exists i :: 0 <= i < |t| && DigestAt(t, i) &&
      var end := i + 1 + |DIGEST_IS| + 64;
      end == |t| || t[end] == HASH || t[end] == AMPERSAND
  }

  predicate NameUnit(u: int) { 0x61 <= u <= 0x7A || IsDigit(u) }

  /** [a-z0-9]+(?:[.-][a-z0-9]+)* */
  predicate LogicalName(t: Text) {
    && t != [] && NameUnit(t[0]) && NameUnit(t[|t| - 1])
    && forall i :: 0 <= i < |t| ==>
         NameUnit(t[i]) || ((t[i] == DOT || t[i] == MINUS) && i + 1 < |t| && NameUnit(t[i + 1]))
  }

  predicate LineTerminator(u: int) { u == 0x0A || u == 0x0D || u == 0x2028 || u == 0x2029 }

  /** (?:#(?:\/.*)?)? to the end of the text */
  predicate PointerFragment(t: Text) {
    t == [] || t == [HASH] ||
    (|t| >= 2 && t[0] == HASH && t[1] == SLASH && forall i :: 2 <= i < |t| ==> !LineTerminator(t[i]))
  }

  predicate Immutable(t: Text) {
    exists n :: 0 <= n <= |t| &&
      |SCHEME| <= n && StartsWith(t, SCHEME) && LogicalName(t[|SCHEME|..n])
      && DigestAt(t, n) && t[n] == QUERY && PointerFragment(t[n + 1 + |DIGEST_IS| + 64..])
  }

  /** referenceSyntaxFinding: the code of the finding, if there is one. */
  function SyntaxFinding(ref: Text): Option<Code> {
    if StartsWith(ref, [HASH]) then None
    else if StartsWith(ref, Lit("./")) || StartsWith(ref, Lit("../")) || StartsWith(ref, [SLASH]) then Some(Ref008)
    else if StartsWith(ref, Lit("http://")) || StartsWith(ref, Lit("https://")) || StartsWith(ref, Lit("file:")) || StartsWith(ref, Lit("data:")) then
      Some(Ref001)
    else if !StartsWith(ref, SCHEME) then Some(Ref001)
    else if AT_SIGN in ref || MutableSelector(ref) then Some(Ref002)
    else if !PinsDigest(ref) then Some(Ref003)
    else if !Immutable(ref) then Some(Ref002)
    else None
  }

  // ---- the references of a schema ----

  /** The object's own external reference, if it has one. */
  function OwnRef(v: Value): seq<Text> {
    if v.Obj? && REF in v.members && v.members[REF].Str? && !StartsWith(v.members[REF].s, [HASH]) then [v.members[REF].s] else []
  }

  /** Every external reference in a schema, in the order of the walk. */
  function ExternalRefs(v: Value): seq<Text>
    decreases v, 2
  {
    match v
    case Arr(items) => RefsOfItems(items)
    case Obj(members) => OwnRef(v) + RefsOfFields(v, SortedKeys(members.Keys))
    case _ => []
  }

  function RefsOfItems(items: seq<Value>): seq<Text>
    decreases items, 1
  {
    if items == [] then [] else ExternalRefs(items[0]) + RefsOfItems(items[1..])
  }

  function RefsOfFields(v: Value, keys: seq<Text>): seq<Text>
    requires v.Obj? && forall k :: 0 <= k < |keys| ==> keys[k] in v.members
    decreases v, 1, |keys|
  {
    if keys == [] then [] else ExternalRefs(v.members[keys[0]]) + RefsOfFields(v, keys[1..])
  }

  /** The walk, pushing to one list. */
  method FindExternalRefs(v: Value, before: seq<Text>) returns (refs: seq<Text>)
    ensures refs == before + ExternalRefs(v)
    decreases v, 1
  {
    hide SortedKeys, StartsWith, RefsOfItems, RefsOfFields;
    match v
    case Arr(items) =>
      refs := FindInItems(v, before);
    case Obj(members) =>
      refs := before;
      if REF in members && members[REF].Str? && !StartsWith(members[REF].s, [HASH]) {
        refs := refs + [members[REF].s];
      }
      refs := FindInFields(v, refs);
    case _ =>
      refs := before;
  }

  method FindInItems(v: Value, before: seq<Text>) returns (refs: seq<Text>)
    requires v.Arr?
    ensures refs == before + RefsOfItems(v.items)
    decreases v, 0
  {
    refs := before;
    var i := 0;
    assert v.items[0..] == v.items;
    while i < |v.items|
      invariant 0 <= i <= |v.items|
      invariant refs + RefsOfItems(v.items[i..]) == before + RefsOfItems(v.items)
    {
      assert v.items[i..][1..] == v.items[i + 1..];
      refs := FindExternalRefs(v.items[i], refs);
      i := i + 1;
    }
    assert v.items[i..] == [];
  }

  method FindInFields(v: Value, before: seq<Text>) returns (refs: seq<Text>)
    requires v.Obj?
    ensures refs == before + RefsOfFields(v, SortedKeys(v.members.Keys))
    decreases v, 0
  {
    hide SortedKeys, ExternalRefs;
    var keys := SortedKeys(v.members.Keys);
    refs := before;
    var i := 0;
    assert forall j :: 0 <= j < |keys| ==> keys[j] in keys;
    assert keys[0..] == keys;
    while i < |keys|
      invariant 0 <= i <= |keys|
      invariant refs + RefsOfFields(v, keys[i..]) == before + RefsOfFields(v, keys)
    {
      assert keys[i..][1..] == keys[i + 1..];
      refs := FindExternalRefs(v.members[keys[i]], refs);
      i := i + 1;
    }
    assert keys[i..] == [];
  }

  /** Somewhere inside the value an object holds the reference. */
  predicate Refers(v: Value, ref: Text) {
    match v
    case Arr(items) => exists k :: 0 <= k < |items| && Refers(items[k], ref)
    case Obj(members) => ref in OwnRef(v) || exists k :: k in members && Refers(members[k], ref)
    case _ => false
  }

  /** The walk finds exactly the references inside the value. */
  lemma {:induction false} ExternalRefsExact(v: Value, ref: Text)
    ensures ref in ExternalRefs(v) <==> Refers(v, ref)
    decreases v, 2
  {
    match v
    case Arr(items) => RefsOfItemsExact(items, ref);
    case Obj(members) =>
      var keys := SortedKeys(members.Keys);
      RefsOfFieldsExact(v, keys, ref);
      if k :| k in members && Refers(members[k], ref) { assert k in keys; }
    case _ =>
  }

  lemma {:induction false} RefsOfItemsExact(items: seq<Value>, ref: Text)
    ensures ref in RefsOfItems(items) <==> exists k :: 0 <= k < |items| && Refers(items[k], ref)
    decreases items, 1
  {
    if items != [] {
      ExternalRefsExact(items[0], ref);
      RefsOfItemsExact(items[1..], ref);
      if k :| 0 <= k < |items| && Refers(items[k], ref) {
        if k > 0 { assert Refers(items[1..][k - 1], ref); }
      }
      if k :| 0 <= k < |items[1..]| && Refers(items[1..][k], ref) { assert Refers(items[k + 1], ref); }
    }
  }

  lemma {:induction false} RefsOfFieldsExact(v: Value, keys: seq<Text>, ref: Text)
    requires v.Obj? && forall k :: 0 <= k < |keys| ==> keys[k] in v.members
    ensures ref in RefsOfFields(v, keys) <==> exists k :: k in keys && Refers(v.members[k], ref)
    decreases v, 1, |keys|
  {
    if keys != [] {
      ExternalRefsExact(v.members[keys[0]], ref);
      RefsOfFieldsExact(v, keys[1..], ref);
      if k :| k in keys && Refers(v.members[k], ref) {
        if k != keys[0] { assert k in keys[1..]; }
      }
      if k :| k in keys[1..] && Refers(v.members[k], ref) { assert k in keys; }
    }
  }

  // ---- sets ----

  lemma SmallerSet<T>(a: set<T>, b: set<T>)
    requires a < b
    ensures |a| < |b|
  {
    assert b == a + (b - a);
    assert |b| == |a| + |b - a|;
    assert b - a != {};
  }
}
