/** The identity adapter: hash pre-images of components and contract BOMs. */
module Identity {
  import opened CodeUnits
  import opened Json
  import opened Canonical
  import opened CanonicalTrees
  import opened Admission

  const COMPONENT_PREFIX: Bytes := Lit("anvilkit.component.identity.v1") + [0]
  const BOM_PREFIX: Bytes := Lit("anvilkit.contract-bom.identity.v1") + [0]
  const BOM_MEDIA_TYPE: Bytes := Lit("application/vnd.anvilkit.contract-bom+json")
  const CONTRACT_BOM: Text := Lit("contract-bom")
  const DIGEST: Text := Lit("digest")
  const SHA256: Text := Lit("sha256:")

  datatype Rejection =
    | PurposeInvalid | PurposeReserved | PurposeUnknown | MediaTypeInvalid
    | NotCanonical(fault: Fault) | BomShapeInvalid | BomDigestMissing

  datatype Outcome<+T> = Fine(value: T) | Thrown(rejection: Rejection)

  /** /^[\x21-\x7e]+$/ */
  predicate Graphic(t: Text) { t != [] && forall i :: 0 <= i < |t| ==> 0x21 <= t[i] <= 0x7E }

  predicate LowerOrDigit(u: int) { 0x61 <= u <= 0x7A || IsDigit(u) }

  /** [a-z0-9][a-z0-9.+-]* */
  predicate MediaPart(t: Text) {
    t != [] && LowerOrDigit(t[0]) &&
    forall i :: 0 <= i < |t| ==> LowerOrDigit(t[i]) || t[i] == DOT || t[i] == PLUS || t[i] == MINUS
  }

  predicate MediaType(t: Text) {
    exists i :: 0 <= i < |t| && t[i] == 0x2F && MediaPart(t[..i]) && MediaPart(t[i + 1..])
  }

  function PurposeRejection(purpose: Text, allowed: set<Text>): Option<Rejection> {
    if !Graphic(purpose) then Some(PurposeInvalid)
    else if purpose == CONTRACT_BOM then Some(PurposeReserved)
    else if purpose !in allowed then Some(PurposeUnknown)
    else None
  }

  /** The chunks componentIdentity hashes, in order. */
  function ComponentPreimage(rt: Runtime, v: Value, purpose: Text, mediaType: Text): Bytes
    requires Printable(rt, v) && Graphic(purpose) && MediaType(mediaType)
  {
    COMPONENT_PREFIX + (AsciiBytes(purpose) + ([0] + (AsciiBytes(mediaType) + ([0] + CanonicalBytes(rt, v)))))
  }

  /** Buffer.from(t, "ascii") */
  function AsciiBytes(t: Text): (b: Bytes)
    ensures |b| == |t|
  {
    seq(|t|, i requires 0 <= i < |t| => t[i] % 0x100)
  }

  function ComponentIdentity(rt: Runtime, sha: Bytes -> Text, v: Value, purpose: Text, mediaType: Text, allowed: set<Text>): Outcome<Text>
    requires NumbersKnown(rt, v)
  {
    match PurposeRejection(purpose, allowed)
    case Some(rejection) => Thrown(rejection)
    case None =>
      if !MediaType(mediaType) then Thrown(MediaTypeInvalid)
      else
        match Serialize(rt, v)
        case Refused(fault) => Thrown(NotCanonical(fault))
        case Output(_) =>
          SerializeExact(rt, v);
          Fine(sha(ComponentPreimage(rt, v, purpose, mediaType)))
  }

  // ---- the component pre-image determines its parts ----

  lemma GraphicBytes(t: Text)
    requires Graphic(t)
    ensures 0 !in AsciiBytes(t) && AsciiBytes(t) == t
  {}

  lemma MediaTypeGraphic(t: Text)
    requires MediaType(t)
    ensures Graphic(t)
  {
    var i :| 0 <= i < |t| && t[i] == 0x2F && MediaPart(t[..i]) && MediaPart(t[i + 1..]);
    forall j | 0 <= j < |t| ensures 0x21 <= t[j] <= 0x7E {
      if j < i { assert t[j] == t[..i][j]; }
      else if j > i { assert t[j] == t[i + 1..][j - i - 1]; }
    }
  }

  /** Equal component pre-images come from equal purposes, media types and values. */
  lemma ComponentPreimageInjective(rt: Runtime, v: Value, purpose: Text, mediaType: Text, w: Value, purpose': Text, mediaType': Text)
    requires Printable(rt, v) && Printable(rt, w) && Graphic(purpose) && Graphic(purpose') && MediaType(mediaType) && MediaType(mediaType')
    requires ComponentPreimage(rt, v, purpose, mediaType) == ComponentPreimage(rt, w, purpose', mediaType')
    ensures purpose == purpose' && mediaType == mediaType' && v == w
  {
    hide CanonicalBytes, Printable, MediaType, Graphic, AsciiBytes;
    MediaTypeGraphic(mediaType);
    MediaTypeGraphic(mediaType');
    GraphicBytes(purpose);
    GraphicBytes(purpose');
    GraphicBytes(mediaType);
    GraphicBytes(mediaType');
    var r := AsciiBytes(mediaType) + ([0] + CanonicalBytes(rt, v));
    var r' := AsciiBytes(mediaType') + ([0] + CanonicalBytes(rt, w));
    DropPrefix(COMPONENT_PREFIX, AsciiBytes(purpose) + ([0] + r), AsciiBytes(purpose') + ([0] + r'));
    SplitAtSeparator(0, AsciiBytes(purpose), r, AsciiBytes(purpose'), r');
    SplitAtSeparator(0, AsciiBytes(mediaType), CanonicalBytes(rt, v), AsciiBytes(mediaType'), CanonicalBytes(rt, w));
    CanonicalBytesInjective(rt, v, w);
  }

  /** What componentIdentity asks of its arguments. */
  predicate Identifiable(rt: Runtime, v: Value, purpose: Text, mediaType: Text, allowed: set<Text>) {
    Graphic(purpose) && purpose != CONTRACT_BOM && purpose in allowed && MediaType(mediaType) && Printable(rt, v)
  }

  /** A component has an identity exactly when purpose, media type and value are in
      order, and it is then the hash of the pre-image. */
  lemma ComponentIdentityExactly(rt: Runtime, sha: Bytes -> Text, v: Value, purpose: Text, mediaType: Text, allowed: set<Text>)
    requires NumbersKnown(rt, v)
    ensures var one := ComponentIdentity(rt, sha, v, purpose, mediaType, allowed);
            && (one.Fine? <==> Identifiable(rt, v, purpose, mediaType, allowed))
            && (one.Fine? ==> one.value == sha(ComponentPreimage(rt, v, purpose, mediaType)))
  {
    SerializeExact(rt, v);
    hide Serialize, Printable, Graphic, MediaType, ComponentPreimage;
  }

  /** Two components with one identity are one component, or a collision of the
      hash on what was hashed. */
  lemma ComponentIdentityPins(rt: Runtime, sha: Bytes -> Text, v: Value, purpose: Text, mediaType: Text,
                              w: Value, purpose': Text, mediaType': Text, allowed: set<Text>)
    requires NumbersKnown(rt, v) && NumbersKnown(rt, w)
    requires Identifiable(rt, v, purpose, mediaType, allowed) && Identifiable(rt, w, purpose', mediaType', allowed)
    requires ComponentIdentity(rt, sha, v, purpose, mediaType, allowed) == ComponentIdentity(rt, sha, w, purpose', mediaType', allowed)
    ensures (purpose == purpose' && mediaType == mediaType' && v == w)
         || (ComponentPreimage(rt, v, purpose, mediaType) != ComponentPreimage(rt, w, purpose', mediaType')
             && sha(ComponentPreimage(rt, v, purpose, mediaType)) == sha(ComponentPreimage(rt, w, purpose', mediaType')))
  {
    ComponentIdentityExactly(rt, sha, v, purpose, mediaType, allowed);
    ComponentIdentityExactly(rt, sha, w, purpose', mediaType', allowed);
    hide ComponentIdentity, Printable, Graphic, MediaType, ComponentPreimage, NumbersKnown;
    if ComponentPreimage(rt, v, purpose, mediaType) == ComponentPreimage(rt, w, purpose', mediaType') {
      ComponentPreimageInjective(rt, v, purpose, mediaType, w, purpose', mediaType');
    }
  }

  // ---- contract BOMs ----

  /** The loop that copies every entry but the digest; keys in any order. */
  method BomWithoutDigest(value: Value) returns (r: Outcome<Value>)
    ensures !value.Obj? ==> r == Thrown(BomShapeInvalid)
    ensures value.Obj? && DIGEST !in value.members ==> r == Thrown(BomDigestMissing)
    ensures value.Obj? && DIGEST in value.members ==> r == Fine(Obj(value.members - {DIGEST}))
  {
    if !value.Obj? {
      return Thrown(BomShapeInvalid);
    }
    if DIGEST !in value.members {
      return Thrown(BomDigestMissing);
    }
    var result: map<Text, Value> := map[];
    var remaining := value.members.Keys;
    while remaining != {}
      invariant remaining <= value.members.Keys
      invariant result == map k | k in value.members.Keys - remaining && k != DIGEST :: value.members[k]
      decreases |remaining|
    {
      var key :| key in remaining;
      remaining := remaining - {key};
      if key != DIGEST {
        result := result[key := value.members[key]];
      }
    }
    assert result == value.members - {DIGEST};
    return Fine(Obj(result));
  }

  function BomPreimage(rt: Runtime, members: map<Text, Value>): Bytes
    requires Printable(rt, Obj(members - {DIGEST}))
  {
    BOM_PREFIX + (BOM_MEDIA_TYPE + ([0] + CanonicalBytes(rt, Obj(members - {DIGEST}))))
  }

  lemma KnownWithoutDigest(rt: Runtime, members: map<Text, Value>)
    requires NumbersKnown(rt, Obj(members))
    ensures NumbersKnown(rt, Obj(members - {DIGEST}))
  {}

  function ContractBomIdentity(rt: Runtime, sha: Bytes -> Text, value: Value): Outcome<Text>
    requires NumbersKnown(rt, value)
  {
    if !value.Obj? then Thrown(BomShapeInvalid)
    else if DIGEST !in value.members then Thrown(BomDigestMissing)
    else
      KnownWithoutDigest(rt, value.members);
      var rest := Obj(value.members - {DIGEST});
      match Serialize(rt, rest)
      case Refused(fault) => Thrown(NotCanonical(fault))
      case Output(_) =>
        SerializeExact(rt, rest);
        Fine(sha(BomPreimage(rt, value.members)))
  }

  /** /^sha256:[0-9a-f]{64}$/ */
  predicate IsDigest(t: Text) {
    |t| == 71 && t[..7] == SHA256 && forall i :: 7 <= i < 71 ==> IsDigit(t[i]) || 0x61 <= t[i] <= 0x66
  }

  /** verifyContractBomIdentity; comparing equally long ASCII buffers is equality. */
  function VerifyBom(rt: Runtime, sha: Bytes -> Text, value: Value): Outcome<bool>
    requires NumbersKnown(rt, value)
  {
    if !value.Obj? then Fine(false)
    else if DIGEST !in value.members || !value.members[DIGEST].Str? || !IsDigest(value.members[DIGEST].s) then Fine(false)
    else
      match ContractBomIdentity(rt, sha, value)
      case Thrown(rejection) => Thrown(rejection)
      case Fine(calculated) => Fine(value.members[DIGEST].s == calculated)
  }

  /** No component pre-image is a BOM pre-image: they differ at their twelfth byte. */
  lemma DomainsSeparated(rt: Runtime, v: Value, purpose: Text, mediaType: Text, members: map<Text, Value>)
    requires Printable(rt, v) && Graphic(purpose) && MediaType(mediaType) && Printable(rt, Obj(members - {DIGEST}))
    ensures ComponentPreimage(rt, v, purpose, mediaType) != BomPreimage(rt, members)
  {
    hide CanonicalBytes, Printable, MediaType, Graphic, AsciiBytes;
    assert COMPONENT_PREFIX[11] == 'm' as int && BOM_PREFIX[11] == 'n' as int;
    assert ComponentPreimage(rt, v, purpose, mediaType)[11] == COMPONENT_PREFIX[11];
    assert BomPreimage(rt, members)[11] == BOM_PREFIX[11];
  }

  /** BOM pre-images agree exactly when the documents agree outside their digests. */
  lemma BomPreimageExact(rt: Runtime, members: map<Text, Value>, members': map<Text, Value>)
    requires Printable(rt, Obj(members - {DIGEST})) && Printable(rt, Obj(members' - {DIGEST}))
    ensures BomPreimage(rt, members) == BomPreimage(rt, members') <==> members - {DIGEST} == members' - {DIGEST}
  {
    hide CanonicalBytes, Printable;
    var a, b := Obj(members - {DIGEST}), Obj(members' - {DIGEST});
    if BomPreimage(rt, members) == BomPreimage(rt, members') {
      DropPrefix(BOM_PREFIX, BOM_MEDIA_TYPE + ([0] + CanonicalBytes(rt, a)), BOM_MEDIA_TYPE + ([0] + CanonicalBytes(rt, b)));
      DropPrefix(BOM_MEDIA_TYPE, [0] + CanonicalBytes(rt, a), [0] + CanonicalBytes(rt, b));
      DropPrefix([0], CanonicalBytes(rt, a), CanonicalBytes(rt, b));
      CanonicalBytesInjective(rt, a, b);
    }
  }

  /** Writing a declared digest into a BOM changes no identity, and the document
      then verifies exactly when what was written is the identity of the rest. */
  lemma BomVerifies(rt: Runtime, sha: Bytes -> Text, members: map<Text, Value>, declared: Text)
    requires Printable(rt, Obj(members - {DIGEST}))
    requires forall b: Bytes :: IsDigest(sha(b))
    ensures var sealed := Obj(members[DIGEST := Str(declared)]);
            && NumbersKnown(rt, sealed)
            && ContractBomIdentity(rt, sha, sealed) == Fine(sha(BomPreimage(rt, members)))
            && VerifyBom(rt, sha, sealed) == Fine(declared == sha(BomPreimage(rt, members)))
  {
    SealedIdentity(rt, sha, members, declared);
    hide ContractBomIdentity, BomPreimage, IsDigest, Printable, NumbersKnown;
  }

  lemma SealedIdentity(rt: Runtime, sha: Bytes -> Text, members: map<Text, Value>, declared: Text)
    requires Printable(rt, Obj(members - {DIGEST}))
    ensures var sealed := Obj(members[DIGEST := Str(declared)]);
            NumbersKnown(rt, sealed) && ContractBomIdentity(rt, sha, sealed) == Fine(sha(BomPreimage(rt, members)))
  {
    var sealed := Obj(members[DIGEST := Str(declared)]);
    var rest := Obj(members - {DIGEST});
    SealedKnown(rt, members, declared);
    PrintableKnown(rt, rest);
    SerializeExact(rt, rest);
    hide CanonicalBytes, Printable, Serialize, NumbersKnown, BomPreimage;
    WithoutAdded(members, DIGEST, Str(declared));
  }

  lemma WithoutAdded(members: map<Text, Value>, key: Text, v: Value)
    ensures members[key := v] - {key} == members - {key}
  {}

  lemma SealedKnown(rt: Runtime, members: map<Text, Value>, declared: Text)
    requires Printable(rt, Obj(members - {DIGEST}))
    ensures NumbersKnown(rt, Obj(members[DIGEST := Str(declared)]))
  {
    var rest := Obj(members - {DIGEST});
    PrintableKnown(rt, rest);
    var sealed := members[DIGEST := Str(declared)];
    forall k | k in sealed ensures NumbersKnown(rt, sealed[k]) {
      if k != DIGEST { assert k in rest.members; }
    }
  }

  lemma {:induction false} PrintableKnown(rt: Runtime, v: Value)
    requires Printable(rt, v)
    ensures NumbersKnown(rt, v)
  {
    match v
    case Arr(items) => forall k | 0 <= k < |items| ensures NumbersKnown(rt, items[k]) { PrintableKnown(rt, items[k]); }
    case Obj(members) => forall k | k in members ensures NumbersKnown(rt, members[k]) { PrintableKnown(rt, members[k]); }
    case _ =>
  }
}
