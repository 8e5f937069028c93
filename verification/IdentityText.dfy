/** Identities, told from the characters of a purpose and a media type and from the
    bytes that are hashed. */
module IdentityText {
  import opened CodeUnits
  import opened Json
  import opened Canonical
  import opened CanonicalTrees
  import opened Admission
  import opened Identity
  import Spelling

  // ---- purposes and media types ----

  /** Visible ASCII characters, at least one. */
  predicate Visible(t: Text) { t != [] && forall i :: 0 <= i < |t| ==> Spelling.Between(t[i], '!', '~') }

  predicate MediaWord(t: Text) {
    && t != [] && Spelling.LowerOrDigit(t[0])
    && forall i :: 0 <= i < |t| ==> Spelling.LowerOrDigit(t[i]) || t[i] in {'.' as int, '+' as int, '-' as int}
  }

  /** Two such words and a slash between them. */
  ghost predicate MediaText(t: Text) { exists a: Text, b: Text :: t == a + (Lit("/") + b) && MediaWord(a) && MediaWord(b) }

  lemma VisibleExactly(t: Text)
    ensures Graphic(t) <==> Visible(t)
  {}

  lemma WordExactly(t: Text)
    ensures MediaPart(t) <==> MediaWord(t)
  {}

  lemma MediaExactly(t: Text)
    ensures MediaType(t) <==> MediaText(t)
  {
    hide MediaPart, MediaWord;
    if i :| 0 <= i < |t| && t[i] == 0x2F && MediaPart(t[..i]) && MediaPart(t[i + 1..]) {
      WordExactly(t[..i]);
      WordExactly(t[i + 1..]);
      assert t == t[..i] + (Lit("/") + t[i + 1..]);
    }
    if a: Text, b: Text :| t == a + (Lit("/") + b) && MediaWord(a) && MediaWord(b) {
      WordExactly(a);
      WordExactly(b);
      assert t[..|a|] == a && t[|a|] == 0x2F && t[|a| + 1..] == b;
    }
  }

  // ---- what is hashed ----

  function Separated(domain: Bytes, a: Bytes, b: Bytes, body: Bytes): Bytes {
    domain + ([0] + (a + ([0] + (b + ([0] + body)))))
  }

  /** After the domain come, between zero bytes and in this order, the purpose, the
      media type and the canonical bytes of the value: read back, they are found there. */
  lemma PreimageExactly(rt: Runtime, v: Value, purpose: Text, mediaType: Text, a: Bytes, b: Bytes, body: Bytes)
    requires Printable(rt, v) && Graphic(purpose) && MediaType(mediaType) && 0 !in a && 0 !in b
    ensures ComponentPreimage(rt, v, purpose, mediaType) == Separated(Lit("anvilkit.component.identity.v1"), a, b, body)
       <==> a == AsciiBytes(purpose) && b == AsciiBytes(mediaType) && body == CanonicalBytes(rt, v)
    ensures AsciiBytes(purpose) == purpose && AsciiBytes(mediaType) == mediaType
  {
    hide *;
    PreimageIs(rt, v, purpose, mediaType);
    MediaTypeGraphic(mediaType);
    GraphicBytes(purpose);
    GraphicBytes(mediaType);
    ReadBack(Lit("anvilkit.component.identity.v1"), AsciiBytes(purpose), AsciiBytes(mediaType), CanonicalBytes(rt, v), a, b, body);
  }

  lemma PreimageIs(rt: Runtime, v: Value, purpose: Text, mediaType: Text)
    requires Printable(rt, v) && Graphic(purpose) && MediaType(mediaType)
    ensures ComponentPreimage(rt, v, purpose, mediaType) ==
            Separated(Lit("anvilkit.component.identity.v1"), AsciiBytes(purpose), AsciiBytes(mediaType), CanonicalBytes(rt, v))
  {
    var domain := Lit("anvilkit.component.identity.v1");
    assert COMPONENT_PREFIX == domain + [0];
    hide Graphic, MediaType, Printable, CanonicalBytes, AsciiBytes, COMPONENT_PREFIX;
    Regroup(domain, AsciiBytes(purpose) + ([0] + (AsciiBytes(mediaType) + ([0] + CanonicalBytes(rt, v)))));
  }

  lemma Regroup(domain: Bytes, rest: Bytes)
    ensures (domain + [0]) + rest == domain + ([0] + rest)
  {}

  lemma ReadBack(domain: Bytes, p: Bytes, m: Bytes, c: Bytes, a: Bytes, b: Bytes, body: Bytes)
    requires 0 !in p && 0 !in m && 0 !in a && 0 !in b
    ensures Separated(domain, p, m, c) == Separated(domain, a, b, body) <==> a == p && b == m && body == c
  {
    if Separated(domain, p, m, c) == Separated(domain, a, b, body) {
      DropPrefix(domain, [0] + (p + ([0] + (m + ([0] + c)))), [0] + (a + ([0] + (b + ([0] + body)))));
      DropPrefix([0], p + ([0] + (m + ([0] + c))), a + ([0] + (b + ([0] + body))));
      SplitAtSeparator(0, p, m + ([0] + c), a, b + ([0] + body));
      SplitAtSeparator(0, m, c, b, body);
    }
  }

  const BOM_DOMAIN: Bytes := Lit("anvilkit.contract-bom.identity.v1")
  const BOM_MEDIA: Bytes := Lit("application/vnd.anvilkit.contract-bom+json")

  lemma BomNames()
    ensures BOM_PREFIX == BOM_DOMAIN + [0] && BOM_MEDIA_TYPE == BOM_MEDIA && DIGEST == Lit("digest")
  {}

  /** A BOM is hashed as its media type and the canonical bytes of all but its digest. */
  lemma BomPreimageText(rt: Runtime, members: map<Text, Value>)
    requires Printable(rt, Obj(members - {DIGEST}))
    ensures BomPreimage(rt, members) == BOM_DOMAIN + ([0] + (BOM_MEDIA + ([0] + CanonicalBytes(rt, Obj(members - {DIGEST})))))
  {
    BomNames();
    hide CanonicalBytes, Printable, BOM_PREFIX, BOM_MEDIA_TYPE, BOM_DOMAIN, BOM_MEDIA, DIGEST;
    Regroup(BOM_DOMAIN, BOM_MEDIA + ([0] + CanonicalBytes(rt, Obj(members - {DIGEST}))));
  }

  // ---- what is wrong first ----

  /** The first thing wrong with a component, told from its text. */
  ghost function ComponentFault(rt: Runtime, v: Value, purpose: Text, mediaType: Text, allowed: set<Text>): Option<Rejection> {
    if !Visible(purpose) then Some(PurposeInvalid)
    else if purpose == Lit("contract-bom") then Some(PurposeReserved)
    else if purpose !in allowed then Some(PurposeUnknown)
    else if !MediaText(mediaType) then Some(MediaTypeInvalid)
    else match Serialize(rt, v) case Refused(fault) => Some(NotCanonical(fault)) case Output(_) => None
  }

  lemma PurposeExactly(purpose: Text, allowed: set<Text>)
    ensures PurposeRejection(purpose, allowed) ==
            if !Visible(purpose) then Some(PurposeInvalid)
            else if purpose == Lit("contract-bom") then Some(PurposeReserved)
            else if purpose !in allowed then Some(PurposeUnknown) else None
    ensures PurposeRejection(purpose, allowed).None? ==> Graphic(purpose)
  {
    VisibleExactly(purpose);
    hide Graphic, Visible;
  }

  lemma IdentityExactly(rt: Runtime, sha: Bytes -> Text, v: Value, purpose: Text, mediaType: Text, allowed: set<Text>)
    requires NumbersKnown(rt, v)
    ensures match ComponentFault(rt, v, purpose, mediaType, allowed)
            case Some(rejection) => ComponentIdentity(rt, sha, v, purpose, mediaType, allowed) == Thrown(rejection)
            case None =>
              Printable(rt, v) && Graphic(purpose) && MediaType(mediaType) &&
              ComponentIdentity(rt, sha, v, purpose, mediaType, allowed) == Fine(sha(ComponentPreimage(rt, v, purpose, mediaType)))
  {
    PurposeExactly(purpose, allowed);
    MediaExactly(mediaType);
    SerializeExact(rt, v);
    hide PurposeRejection, Graphic, Visible, MediaType, MediaText, Serialize, Printable, ComponentPreimage;
  }

  /** The identity of a BOM: refused for what is no object, for one without a digest,
      and for what cannot be printed; else the hash of all but the digest. */
  lemma BomIdentityExactly(rt: Runtime, sha: Bytes -> Text, value: Value)
    requires NumbersKnown(rt, value)
    ensures !value.Obj? ==> ContractBomIdentity(rt, sha, value) == Thrown(BomShapeInvalid)
    ensures value.Obj? && DIGEST !in value.members ==> ContractBomIdentity(rt, sha, value) == Thrown(BomDigestMissing)
    ensures value.Obj? && DIGEST in value.members ==>
              var rest := Obj(value.members - {DIGEST});
              if Printable(rt, rest) then ContractBomIdentity(rt, sha, value) == Fine(sha(BomPreimage(rt, value.members)))
              else Serialize(rt, rest).Refused? && ContractBomIdentity(rt, sha, value) == Thrown(NotCanonical(Serialize(rt, rest).fault))
  {
    if value.Obj? {
      KnownWithoutDigest(rt, value.members);
      SerializeExact(rt, Obj(value.members - {DIGEST}));
    }
    hide Serialize, Printable, BomPreimage, NumbersKnown, DIGEST;
  }

  lemma DigestExactly(t: Text)
    ensures IsDigest(t) <==> Spelling.Sha256(t)
  {
    Spelling.Sha256Parts(t);
    assert SHA256 == Lit("sha256:");
    hide SHA256;
    if |t| == 71 {
      assert forall i :: 0 <= i < 64 ==> t[7..][i] == t[i + 7];
      if Spelling.Hex64(t[7..]) {
        forall i | 7 <= i < 71 ensures IsDigit(t[i]) || 0x61 <= t[i] <= 0x66 { assert t[i] == t[7..][i - 7]; }
      }
    }
  }

  /** A document verifies exactly when its digest member is a digest in wire form and
      the identity of the rest; with no such member it fails, and with a rest that
      cannot be printed it throws. */
  lemma VerifyExactly(rt: Runtime, sha: Bytes -> Text, value: Value)
    requires NumbersKnown(rt, value)
    ensures var declares := value.Obj? && DIGEST in value.members && value.members[DIGEST].Str? && Spelling.Sha256(value.members[DIGEST].s);
            if !declares then VerifyBom(rt, sha, value) == Fine(false)
            else if Printable(rt, Obj(value.members - {DIGEST})) then
              VerifyBom(rt, sha, value) == Fine(value.members[DIGEST].s == sha(BomPreimage(rt, value.members)))
            else VerifyBom(rt, sha, value).Thrown?
  {
    BomIdentityExactly(rt, sha, value);
    if value.Obj? && DIGEST in value.members && value.members[DIGEST].Str? { DigestExactly(value.members[DIGEST].s); }
    hide ContractBomIdentity, IsDigest, Spelling.Sha256, Printable, BomPreimage, Serialize, NumbersKnown, DIGEST;
  }
}
