/** DSSE envelopes: exactly which ones are accepted for an expected statement. */
module SignedStatements {
  import opened CodeUnits
  import opened Json
  import opened Canonical
  import opened CanonicalTrees
  import opened CanonicalForm
  import opened Admission
  import opened References
  import opened SecurityProfile
  import Spelling
  import Base64Url
  import Dsse

  const TYPE_TREE: Text := Lit("application/vnd.anvilkit.")
  const TYPE_SUBTREE: Text := Lit("contract-signature-")
  const TYPE_LEAF: Text := Lit("statement+json")
  const PAYLOAD_TYPE: Text := TYPE_TREE + (TYPE_SUBTREE + TYPE_LEAF)
  const KIND: Text := Lit("kind")
  const SUBJECT: Text := Lit("subject")
  const BOM_DIGEST: Text := Lit("contractBomDigest")
  const ISSUER: Text := Lit("issuer")
  const AUDIENCE: Text := Lit("audience")
  const KEY_ID: Text := Lit("keyId")
  const ISSUED_AT: Text := Lit("issuedAt")
  const NOT_BEFORE: Text := Lit("notBefore")
  const EXPIRES_AT: Text := Lit("expiresAt")
  const ALGORITHM: Text := Lit("algorithm")
  const DIGEST: Text := Lit("digest")
  const SIZE: Text := Lit("size")
  const PURPOSE: Text := Lit("purpose")
  const MEDIA_TYPE: Text := Lit("mediaType")

  datatype Signature = Signature(keyid: Text, sig: Text)

  datatype Envelope = Envelope(payloadType: Text, payload: Text, signatures: seq<Signature>)

  /** sha256: and 64 lower-case hexadecimal digits */
  predicate DigestForm(v: Value) {
    v.Str? && |v.s| == 71 && StartsWith(v.s, Lit("sha256:")) && LowerHex(v.s[7..])
  }

  predicate KeyUnit(u: int) { 0x61 <= u <= 0x7A || IsDigit(u) }

  /** urn:anvilkit:key: and 15 to 256 units of a-z, 0-9, colon and hyphen, the
      first a letter or digit */
  predicate KeyIdForm(v: Value) {
    && v.Str? && StartsWith(v.s, Lit("urn:anvilkit:key:")) && 32 <= |v.s| <= 273
    && KeyUnit(v.s[17]) && forall i :: 18 <= i < |v.s| ==> KeyUnit(v.s[i]) || v.s[i] == COLON || v.s[i] == MINUS
  }

  predicate HasStatementKeys(v: Value) {
    v.Obj? && v.members.Keys == {KIND, SUBJECT, BOM_DIGEST, ISSUER, AUDIENCE} + {KEY_ID, ISSUED_AT, NOT_BEFORE, EXPIRES_AT, ALGORITHM}
  }

  predicate HasSubjectKeys(v: Value) { v.Obj? && v.members.Keys == {DIGEST, SIZE, PURPOSE, MEDIA_TYPE} }

  /** statementFromBytes after admission: the first check that fails. */
  function StatementFault(v: Value): (f: Option<Denial>)
    ensures f.None? ==> HasStatementKeys(v) && v.members[KEY_ID].Str?
  {
    if !HasStatementKeys(v) then Some(PayloadShapeInvalid)
    else
      var subject := v.members[SUBJECT];
      if !HasSubjectKeys(subject) then Some(PayloadShapeInvalid)
      else if v.members[KIND] != Str(Lit("ContractSignatureStatement")) || v.members[ALGORITHM] != Str(Lit("dsse-ed25519-v1")) then
        Some(SignatureProfileInvalid)
      else if !DigestForm(subject.members[DIGEST]) || !DigestForm(v.members[BOM_DIGEST]) then Some(DigestInvalid)
      else if !SizeForm(subject.members[SIZE]) then Some(SizeInvalid)
      else if !KeyIdForm(v.members[KEY_ID]) then Some(KeyIdInvalid)
      else None
  }

  /** A safe integer, not negative */
  predicate SizeForm(v: Value) { v.Num? && SafeInteger(v.n) && (v.n.Finite? ==> v.n.x >= 0.0) }

  // ---- what a statement looks like ----

  ghost predicate DigestText(v: Value) { v.Str? && Spelling.Sha256(v.s) }

  /** urn:anvilkit:key: and the name */
  ghost predicate KeyIdText(v: Value) { v.Str? && exists name: Text :: v.s == Lit("urn:anvilkit:key:") + name && KeyName(name) }

  /** 15 to 256 lower-case letters, digits, colons and hyphens, a letter or digit first. */
  predicate KeyName(t: Text) {
    && 15 <= |t| <= 256 && Spelling.LowerOrDigit(t[0])
    && forall i :: 0 <= i < |t| ==> Spelling.LowerOrDigit(t[i]) || t[i] in {':' as int, '-' as int}
  }

  /** A natural number JavaScript counts with. */
  ghost predicate SizeNumber(v: Value) { v.Num? && exists n: nat :: n <= 0x1F_FFFF_FFFF_FFFF && IsWhole(v.n, n) }

  predicate StatementNames(v: Value) {
    v.Obj? && v.members.Keys ==
      {Lit("kind"), Lit("subject"), Lit("contractBomDigest"), Lit("issuer"), Lit("audience")}
      + {Lit("keyId"), Lit("issuedAt"), Lit("notBefore"), Lit("expiresAt"), Lit("algorithm")}
  }

  predicate SubjectNames(v: Value) { v.Obj? && v.members.Keys == {Lit("digest"), Lit("size"), Lit("purpose"), Lit("mediaType")} }

  /** The first thing wrong with the form of a statement. */
  ghost function FormFault(v: Value): (f: Option<Denial>)
    ensures f.None? ==> HasStatementKeys(v) && v.members[KEY_ID].Str?
  {
    if !StatementNames(v) || !SubjectNames(v.members[SUBJECT]) then Some(PayloadShapeInvalid)
    else if v.members[KIND] != Str(Lit("ContractSignatureStatement")) || v.members[ALGORITHM] != Str(Lit("dsse-ed25519-v1")) then
      Some(SignatureProfileInvalid)
    else if !DigestText(v.members[SUBJECT].members[DIGEST]) || !DigestText(v.members[BOM_DIGEST]) then Some(DigestInvalid)
    else if !SizeNumber(v.members[SUBJECT].members[SIZE]) then Some(SizeInvalid)
    else if !KeyIdText(v.members[KEY_ID]) then Some(KeyIdInvalid)
    else None
  }

  lemma DigestExactly(v: Value)
    ensures DigestForm(v) <==> DigestText(v)
  {
    if v.Str? {
      Spelling.Sha256Parts(v.s);
      assert |Lit("sha256:")| == 7;
    }
  }

  lemma KeyIdExactly(v: Value)
    ensures KeyIdForm(v) <==> KeyIdText(v)
  {
    if KeyIdForm(v) { KeyIdHasText(v); }
    if KeyIdText(v) { KeyTextHasForm(v); }
  }

  lemma KeyIdHasText(v: Value)
    requires KeyIdForm(v)
    ensures KeyIdText(v)
  {
    var name := v.s[17..];
    assert v.s == Lit("urn:anvilkit:key:") + name;
    assert forall i :: 0 <= i < |name| ==> name[i] == v.s[i + 17];
    assert KeyName(name);
  }

  lemma KeyTextHasForm(v: Value)
    requires KeyIdText(v)
    ensures KeyIdForm(v)
  {
    var start := Lit("urn:anvilkit:key:");
    var name: Text :| v.s == start + name && KeyName(name);
    assert |start| == 17 && v.s[..17] == start;
    assert forall i :: 0 <= i < |name| ==> v.s[i + 17] == name[i];
    forall i | 18 <= i < |v.s| ensures KeyUnit(v.s[i]) || v.s[i] == COLON || v.s[i] == MINUS { assert v.s[i] == name[i - 17]; }
  }

  lemma SizeExactly(v: Value)
    ensures SizeForm(v) <==> SizeNumber(v)
  {
    if SizeForm(v) {
      var n: nat := RealOf(v.n).Floor;
      assert IsWhole(v.n, n);
    }
    if v.Num? {
      if n: nat :| n <= 0x1F_FFFF_FFFF_FFFF && IsWhole(v.n, n) { assert (n as real).Floor == n; }
    }
  }

  lemma NamesExactly(v: Value)
    ensures HasStatementKeys(v) <==> StatementNames(v)
    ensures HasSubjectKeys(v) <==> SubjectNames(v)
  {}

  /** The checks on a statement's form, and their order. */
  lemma FormExactly(v: Value)
    ensures StatementFault(v) == FormFault(v)
  {
    NamesExactly(v);
    if StatementNames(v) {
      StatementMembers(v);
      var subject := v.members[SUBJECT];
      NamesExactly(subject);
      DigestExactly(v.members[BOM_DIGEST]);
      KeyIdExactly(v.members[KEY_ID]);
      if SubjectNames(subject) {
        SubjectMembers(subject);
        DigestExactly(subject.members[DIGEST]);
        SizeExactly(subject.members[SIZE]);
      }
    }
    hide DigestForm, DigestText, KeyIdForm, KeyIdText, SizeForm, SizeNumber, HasStatementKeys, StatementNames, HasSubjectKeys, SubjectNames,
      KIND, SUBJECT, BOM_DIGEST, KEY_ID, ALGORITHM, DIGEST, SIZE;
  }

  lemma StatementMembers(v: Value)
    requires StatementNames(v)
    ensures v.Obj? && SUBJECT in v.members && KIND in v.members && ALGORITHM in v.members && BOM_DIGEST in v.members && KEY_ID in v.members
  {}

  lemma SubjectMembers(v: Value)
    requires SubjectNames(v)
    ensures v.Obj? && DIGEST in v.members && SIZE in v.members
  {}

  ghost function StatementFromBytes(platform: Platform, bytes: Bytes): Result<Value> {
    match Admit(platform.profile, bytes)
    case Denied(reason) => Rejected(PayloadNotAdmitted(reason))
    case Accepted(v) => match StatementFault(v) case Some(f) => Rejected(f) case None => Good(v)
  }

  /** Buffer.from(canonicalizeJcs(v)), which throws exactly on the values that are
      not printable. */
  function CanonicalOf(rt: Runtime, v: Value): Option<Bytes> {
    if Printable(rt, v) then Some(CanonicalBytes(rt, v)) else None
  }

  /** The last two comparisons and the signature. */
  function CheckSignature(platform: Platform, envelope: Envelope, payload: Bytes, statement: Value, expected: Value, key: TrustedKey): Result<Value>
    requires |envelope.signatures| == 1
  {
    match CanonicalOf(platform.rt, statement)
    case None => Rejected(NotPrintable)
    case Some(actual) =>
      if actual != payload then Rejected(NonCanonicalPayload)
      else
        match CanonicalOf(platform.rt, expected)
        case None => Rejected(NotPrintable)
        case Some(expectedBytes) =>
          if expectedBytes != payload then Rejected(SubjectContextMismatch)
          else
            match Base64Url.DecodeCanonical(envelope.signatures[0].sig)
            case None => Rejected(Base64UrlInvalid)
            case Some(signature) =>
              if platform.verify(SignedBytes(payload), key.publicKey, signature) then Good(statement) else Rejected(SignatureInvalid)
  }

  function SignedBytes(payload: Bytes): Bytes {
    Dsse.TypeScriptEncoding(PAYLOAD_TYPE, payload)
  }

  /** verifyDsseEnvelope */
  ghost function VerifyEnvelope(platform: Platform, envelope: Envelope, expected: Value, c: Context): Result<Value> {
    if envelope.payloadType != PAYLOAD_TYPE then Rejected(PayloadTypeInvalid)
    else if |envelope.signatures| != 1 then Rejected(MultiplicityInvalid)
    else
      match Base64Url.DecodeCanonical(envelope.payload)
      case None => Rejected(Base64UrlInvalid)
      case Some(payload) =>
        match StatementFromBytes(platform, payload)
        case Rejected(f) => Rejected(f)
        case Good(statement) =>
          var m := statement.members;
          if envelope.signatures[0].keyid != m[KEY_ID].s then Rejected(KeyIdMismatch)
          else if m[ISSUER] != Str(c.issuer) || m[AUDIENCE] != Str(c.audience) then Rejected(SignatureContextMismatch)
          else
            match TimeWindowFault(platform, m[NOT_BEFORE], m[EXPIRES_AT], c)
            case Some(f) => Rejected(f)
            case None =>
              match FindTrustedKey(platform, m[KEY_ID].s, DsseEd25519V1, c)
              case Rejected(f) => Rejected(f)
              case Good(key) => CheckSignature(platform, envelope, payload, statement, expected, key)
  }

  lemma KeysThere(v: Value)
    requires HasStatementKeys(v)
    ensures v.Obj? && KEY_ID in v.members && ISSUER in v.members && AUDIENCE in v.members && NOT_BEFORE in v.members && EXPIRES_AT in v.members
  {}

  // ---- what acceptance means ----

  /** The statement is meant for this verifier, now. */
  predicate InContext(platform: Platform, statement: Value, c: Context)
    requires HasStatementKeys(statement)
  {
    var m := statement.members;
    && m[ISSUER] == Str(c.issuer) && m[AUDIENCE] == Str(c.audience)
    && SnapshotsCurrent(platform, c)
    && var now, skew := platform.instant(c.now).value, Skew(c).value;
       AtOrBefore(platform, m[NOT_BEFORE], now + skew) && After(platform, m[EXPIRES_AT], now - skew)
  }

  /** The payload type, as the bytes that are signed hold it. */
  const TYPE_BYTES: Bytes := Lit("application/vnd.anvilkit.") + (Lit("contract-signature-") + Lit("statement+json"))

  /** The key found under that id signed the payload: the signature verifies over
      the pre-authentication encoding of the type and the payload. */
  ghost predicate SignedBy(platform: Platform, keyId: Text, sig: Text, payload: Bytes, c: Context, key: TrustedKey, signature: Bytes) {
    && Recognized(platform, keyId, DsseEd25519V1, c, key)
    && signature != [] && sig == Base64Url.Encode(signature)
    && exists m :: Dsse.PreAuth(m, TYPE_BYTES, payload) && platform.verify(m, key.publicKey, signature)
  }

  lemma TypeIsAscii()
    ensures Dsse.Ascii(PAYLOAD_TYPE) && TYPE_BYTES == PAYLOAD_TYPE
  {}

  /** What is verified is the encoding of the type and the payload. */
  lemma SignedBytesExactly(m: Bytes, payload: Bytes)
    ensures m == SignedBytes(payload) <==> Dsse.PreAuth(m, TYPE_BYTES, payload)
  {
    TypeIsAscii();
    hide PAYLOAD_TYPE, TYPE_BYTES, Dsse.Ascii, Dsse.PreAuth, Dsse.TypeScriptEncoding;
    Dsse.TypeScriptExactly(m, PAYLOAD_TYPE, TYPE_BYTES, payload);
  }

  lemma VerifiedOver(platform: Platform, payload: Bytes, key: TrustedKey, signature: Bytes)
    ensures platform.verify(SignedBytes(payload), key.publicKey, signature)
       <==> exists m :: Dsse.PreAuth(m, TYPE_BYTES, payload) && platform.verify(m, key.publicKey, signature)
  {
    hide SignedBytes, TYPE_BYTES, Dsse.PreAuth;
    SignedBytesExactly(SignedBytes(payload), payload);
    forall m ensures Dsse.PreAuth(m, TYPE_BYTES, payload) <==> m == SignedBytes(payload) { SignedBytesExactly(m, payload); }
  }

  /** The envelope carries, in the one canonical way, the expected statement,
      which the parser admits, meant for here and now, signed by the key found. */
  ghost predicate Acceptable(platform: Platform, envelope: Envelope, expected: Value, c: Context) {
    && Printable(platform.rt, expected)
    && FitsAll(platform.profile, expected)
    && var bytes := CanonicalBytes(platform.rt, expected);
    && |bytes| <= platform.profile.limits.maxBytes
    && envelope.payloadType == PAYLOAD_TYPE && |envelope.signatures| == 1
    && envelope.payload == Base64Url.Encode(bytes)
    && FormFault(expected).None? && InContext(platform, expected, c)
    && envelope.signatures[0].keyid == expected.members[KEY_ID].s
    && exists key, signature :: SignedBy(platform, envelope.signatures[0].keyid, envelope.signatures[0].sig, bytes, c, key, signature)
  }

  lemma CanonicalNonEmpty(rt: Runtime, v: Value)
    requires Printable(rt, v)
    ensures CanonicalBytes(rt, v) != []
  {
    SerializedStart(rt, v);
    hide Serialize, Printable;
    Utf8NonEmpty(Serialize(rt, v).text);
  }

  /** Admission and both comparisons together pin the payload and the statement. */
  lemma PayloadPinned(platform: Platform, payload: Bytes, statement: Value, expected: Value)
    requires platform.profile.toNumber == platform.rt.toNumber
    ensures Admit(platform.profile, payload) == Accepted(statement)
            && CanonicalOf(platform.rt, statement) == Some(payload) && CanonicalOf(platform.rt, expected) == Some(payload)
            <==> statement == expected && Printable(platform.rt, expected) && payload == CanonicalBytes(platform.rt, expected)
                 && |payload| <= platform.profile.limits.maxBytes && FitsAll(platform.profile, expected)
  {
    hide Printable, Serialize, FitsAll, Admit, CanonicalBytes;
    if Printable(platform.rt, expected) { AdmitCanonical(platform.profile, platform.rt, expected); }
    if CanonicalOf(platform.rt, statement) == Some(payload) && CanonicalOf(platform.rt, expected) == Some(payload) {
      CanonicalBytesInjective(platform.rt, statement, expected);
    }
  }

  lemma SignatureExactly(platform: Platform, sig: Text, payload: Bytes, key: TrustedKey, signature: Bytes)
    ensures Base64Url.DecodeCanonical(sig) == Some(signature) <==> signature != [] && sig == Base64Url.Encode(signature)
  {
    Base64Url.DecodesExactly(sig, signature);
  }

  /** An accepted envelope is acceptable, and the statement returned is the
      expected one. */
  lemma AcceptedIsAcceptable(platform: Platform, envelope: Envelope, expected: Value, c: Context)
    requires platform.profile.toNumber == platform.rt.toNumber
    requires VerifyEnvelope(platform, envelope, expected, c).Good?
    ensures VerifyEnvelope(platform, envelope, expected, c) == Good(expected) && Acceptable(platform, envelope, expected, c)
  {
    hide Printable, FitsAll, CanonicalBytes, StatementFault, FormFault, HasStatementKeys, Admit, FindTrustedKey, Recognized, TimeWindowFault, SnapshotsCurrent;
    hide Base64Url.DecodeCanonical, Base64Url.Encode, SignedBytes, TYPE_BYTES, PAYLOAD_TYPE, Dsse.PreAuth, Skew, After, AtOrBefore, CanonicalOf;
    var payload := Base64Url.DecodeCanonical(envelope.payload).value;
    var statement := StatementFromBytes(platform, payload).value;
    KeysThere(statement);
    FormExactly(statement);
    PayloadPinned(platform, payload, statement, expected);
    Base64Url.DecodesExactly(envelope.payload, payload);
    var keyId := statement.members[KEY_ID].s;
    var key := FindTrustedKey(platform, keyId, DsseEd25519V1, c).value;
    FoundExactly(platform, keyId, DsseEd25519V1, c, key);
    RecognizedNow(platform, keyId, DsseEd25519V1, c, key);
    WindowExactly(platform, statement.members[NOT_BEFORE], statement.members[EXPIRES_AT], c);
    var signature := Base64Url.DecodeCanonical(envelope.signatures[0].sig).value;
    SignatureExactly(platform, envelope.signatures[0].sig, payload, key, signature);
    VerifiedOver(platform, payload, key, signature);
    assert SignedBy(platform, keyId, envelope.signatures[0].sig, payload, c, key, signature);
  }

  lemma RecognizedNow(platform: Platform, keyId: Text, algorithm: Algorithm, c: Context, key: TrustedKey)
    requires Recognized(platform, keyId, algorithm, c, key)
    ensures SnapshotsCurrent(platform, c) && Skew(c).Some? && platform.instant(c.now).Some?
  {}

  lemma AcceptableIsAccepted(platform: Platform, envelope: Envelope, expected: Value, c: Context)
    requires platform.profile.toNumber == platform.rt.toNumber
    requires Acceptable(platform, envelope, expected, c)
    ensures VerifyEnvelope(platform, envelope, expected, c) == Good(expected)
  {
    hide Printable, FitsAll, CanonicalBytes, StatementFault, FormFault, HasStatementKeys, Admit, FindTrustedKey, Recognized, TimeWindowFault, SnapshotsCurrent;
    hide Base64Url.DecodeCanonical, Base64Url.Encode, SignedBytes, TYPE_BYTES, PAYLOAD_TYPE, Dsse.PreAuth, Skew, After, AtOrBefore, CanonicalOf;
    var payload := CanonicalBytes(platform.rt, expected);
    FormExactly(expected);
    KeysThere(expected);
    CanonicalNonEmpty(platform.rt, expected);
    PayloadPinned(platform, payload, expected, expected);
    Base64Url.DecodesExactly(envelope.payload, payload);
    var keyId, sig := envelope.signatures[0].keyid, envelope.signatures[0].sig;
    var key, signature :| SignedBy(platform, keyId, sig, payload, c, key, signature);
    FoundExactly(platform, keyId, DsseEd25519V1, c, key);
    RecognizedNow(platform, keyId, DsseEd25519V1, c, key);
    WindowExactly(platform, expected.members[NOT_BEFORE], expected.members[EXPIRES_AT], c);
    SignatureExactly(platform, sig, payload, key, signature);
    VerifiedOver(platform, payload, key, signature);
  }

  /** An envelope is accepted for an expected statement exactly when acceptable;
      nothing but that statement is ever returned. */
  lemma VerifiesExactly(platform: Platform, envelope: Envelope, expected: Value, c: Context)
    requires platform.profile.toNumber == platform.rt.toNumber
    ensures VerifyEnvelope(platform, envelope, expected, c).Good? <==> Acceptable(platform, envelope, expected, c)
    ensures VerifyEnvelope(platform, envelope, expected, c).Good? ==> VerifyEnvelope(platform, envelope, expected, c) == Good(expected)
  {
    hide VerifyEnvelope, Acceptable;
    if VerifyEnvelope(platform, envelope, expected, c).Good? { AcceptedIsAcceptable(platform, envelope, expected, c); }
    if Acceptable(platform, envelope, expected, c) { AcceptableIsAccepted(platform, envelope, expected, c); }
  }

  /** Acceptable, and the key that signed is not revoked. */
  ghost predicate Genuine(platform: Platform, envelope: Envelope, expected: Value, c: Context) {
    Acceptable(platform, envelope, expected, c) && NotRevoked(platform, c, envelope.signatures[0].keyid)
  }

  /** Every genuine envelope is accepted. Acceptance means being genuine, for an
      envelope, exactly unless it is acceptable under a key with a revocation in
      effect that the snapshot lists behind one still to come. */
  lemma VerifiesGenuineExactly(platform: Platform, envelope: Envelope, expected: Value, c: Context)
    requires platform.profile.toNumber == platform.rt.toNumber
    ensures Genuine(platform, envelope, expected, c) ==> VerifyEnvelope(platform, envelope, expected, c).Good?
    ensures (VerifyEnvelope(platform, envelope, expected, c).Good? <==> Genuine(platform, envelope, expected, c))
            <==> !(Acceptable(platform, envelope, expected, c) && RevocationHidden(platform, c, envelope.signatures[0].keyid))
  {
    VerifiesExactly(platform, envelope, expected, c);
    hide VerifyEnvelope, Printable, FitsAll, CanonicalBytes, StatementFault, FormFault, HasStatementKeys, InContext, PAYLOAD_TYPE, Base64Url.Encode;
    if Acceptable(platform, envelope, expected, c) {
      var keyId := envelope.signatures[0].keyid;
      NotRevokedExactly(platform, c, keyId);
      var key, signature :| SignedBy(platform, keyId, envelope.signatures[0].sig, CanonicalBytes(platform.rt, expected), c, key, signature);
      assert FirstPending(platform, c, keyId);
    }
  }

  /** One payload is not accepted for two different statements. */
  lemma PayloadPinsStatement(platform: Platform, a: Envelope, v: Value, b: Envelope, w: Value, c: Context, d: Context)
    requires platform.profile.toNumber == platform.rt.toNumber
    requires VerifyEnvelope(platform, a, v, c).Good? && VerifyEnvelope(platform, b, w, d).Good?
    requires a.payload == b.payload
    ensures v == w
  {
    hide Printable, FitsAll, CanonicalBytes, StatementFault, FormFault, VerifyEnvelope, InContext, PAYLOAD_TYPE, Base64Url.Encode, SignedBy;
    AcceptedIsAcceptable(platform, a, v, c);
    AcceptedIsAcceptable(platform, b, w, d);
    Base64Url.DecodeEncode(CanonicalBytes(platform.rt, v));
    Base64Url.DecodeEncode(CanonicalBytes(platform.rt, w));
    CanonicalBytesInjective(platform.rt, v, w);
  }

  /** Nor do two statements share the bytes that are signed. */
  lemma SignedBytesPinStatement(rt: Runtime, v: Value, w: Value)
    requires Printable(rt, v) && Printable(rt, w)
    requires SignedBytes(CanonicalBytes(rt, v)) == SignedBytes(CanonicalBytes(rt, w))
    ensures v == w
  {
    hide Printable, CanonicalBytes, PAYLOAD_TYPE;
    Dsse.TypeScriptInjective(PAYLOAD_TYPE, CanonicalBytes(rt, v), PAYLOAD_TYPE, CanonicalBytes(rt, w));
    CanonicalBytesInjective(rt, v, w);
  }

  // ---- what is wrong first ----

  ghost predicate Encoded(text: Text, bytes: Bytes) { bytes != [] && text == Base64Url.Encode(bytes) }

  /** The first thing wrong with an envelope, before its payload is looked at. */
  ghost function OuterFault(envelope: Envelope): Option<Denial> {
    if envelope.payloadType != PAYLOAD_TYPE then Some(PayloadTypeInvalid)
    else if |envelope.signatures| != 1 then Some(MultiplicityInvalid)
    else if !exists bytes :: Encoded(envelope.payload, bytes) then Some(Base64UrlInvalid)
    else None
  }

  /** The first thing wrong with the payload as a statement, here and now. */
  ghost function StatementDenied(platform: Platform, keyid: Text, payload: Bytes, c: Context): Option<Denial> {
    match Admit(platform.profile, payload)
    case Denied(reason) => Some(PayloadNotAdmitted(reason))
    case Accepted(v) =>
      if FormFault(v).Some? then FormFault(v)
      else if v.members[KEY_ID] != Str(keyid) then Some(KeyIdMismatch)
      else if v.members[ISSUER] != Str(c.issuer) || v.members[AUDIENCE] != Str(c.audience) then Some(SignatureContextMismatch)
      else
        match TimeWindowFault(platform, v.members[NOT_BEFORE], v.members[EXPIRES_AT], c)
        case Some(f) => Some(f)
        case None => match FindTrustedKey(platform, keyid, DsseEd25519V1, c) case Rejected(f) => Some(f) case Good(_) => None
  }

  /** The signature the text stands for is one by the key, over the pre-authentication
      encoding of the type and the payload. */
  ghost predicate Verifies(platform: Platform, sig: Text, payload: Bytes, key: TrustedKey) {
    exists signature :: Encoded(sig, signature) && VerifiesAs(platform, payload, key, signature)
  }

  ghost predicate VerifiesAs(platform: Platform, payload: Bytes, key: TrustedKey, signature: Bytes) {
    exists m :: Dsse.PreAuth(m, TYPE_BYTES, payload) && platform.verify(m, key.publicKey, signature)
  }

  lemma VerifiesWhen(platform: Platform, sig: Text, payload: Bytes, key: TrustedKey)
    ensures var decoded := Base64Url.DecodeCanonical(sig);
            Verifies(platform, sig, payload, key) <==> decoded.Some? && platform.verify(SignedBytes(payload), key.publicKey, decoded.value)
  {
    DecodesWhen(sig);
    hide Base64Url.DecodeCanonical, Encoded, SignedBytes, Dsse.PreAuth, TYPE_BYTES;
    if Base64Url.DecodeCanonical(sig).Some? {
      var signature := Base64Url.DecodeCanonical(sig).value;
      VerifiedOver(platform, payload, key, signature);
      assert VerifiesAs(platform, payload, key, signature) <==> platform.verify(SignedBytes(payload), key.publicKey, signature);
      hide VerifiesAs;
      OneSignature(sig, signature);
    }
  }

  /** The first thing wrong with the comparisons and the signature. */
  ghost function SignatureFault(platform: Platform, sig: Text, payload: Bytes, statement: Value, expected: Value, key: TrustedKey): Option<Denial> {
    if !Printable(platform.rt, statement) then Some(NotPrintable)
    else if CanonicalBytes(platform.rt, statement) != payload then Some(NonCanonicalPayload)
    else if !Printable(platform.rt, expected) then Some(NotPrintable)
    else if CanonicalBytes(platform.rt, expected) != payload then Some(SubjectContextMismatch)
    else if !exists signature :: Encoded(sig, signature) then Some(Base64UrlInvalid)
    else if !Verifies(platform, sig, payload, key) then Some(SignatureInvalid)
    else None
  }

  lemma DecodesWhen(text: Text)
    ensures Base64Url.DecodeCanonical(text).Some? <==> exists bytes :: Encoded(text, bytes)
    ensures forall bytes :: Encoded(text, bytes) ==> Base64Url.DecodeCanonical(text) == Some(bytes)
  {
    forall bytes ensures Base64Url.DecodeCanonical(text) == Some(bytes) <==> Encoded(text, bytes) { Base64Url.DecodesExactly(text, bytes); }
    hide Base64Url.DecodeCanonical, Encoded;
    if Base64Url.DecodeCanonical(text).Some? { assert Encoded(text, Base64Url.DecodeCanonical(text).value); }
  }

  lemma SignatureDenied(platform: Platform, envelope: Envelope, payload: Bytes, statement: Value, expected: Value, key: TrustedKey, sig: Text)
    requires |envelope.signatures| == 1 && envelope.signatures[0].sig == sig
    ensures var checked := CheckSignature(platform, envelope, payload, statement, expected, key);
            match SignatureFault(platform, sig, payload, statement, expected, key)
            case Some(f) => checked == Rejected(f)
            case None => checked.Good?
  {
    DecodesWhen(sig);
    VerifiesWhen(platform, sig, payload, key);
    hide Printable, CanonicalBytes, Base64Url.DecodeCanonical, Encoded, SignedBytes, Verifies;
  }

  lemma OneSignature(sig: Text, signature: Bytes)
    requires Base64Url.DecodeCanonical(sig) == Some(signature)
    ensures forall s :: Encoded(sig, s) <==> s == signature
  {
    DecodesWhen(sig);
    hide Base64Url.DecodeCanonical, Encoded;
  }

  /** An envelope is refused for the first thing wrong: in the envelope, in the
      statement it carries, or in the comparisons and the signature. */
  lemma DeniedInOrder(platform: Platform, envelope: Envelope, expected: Value, c: Context, payload: Bytes)
    ensures OuterFault(envelope).Some? ==> VerifyEnvelope(platform, envelope, expected, c) == Rejected(OuterFault(envelope).value)
    ensures OuterFault(envelope).None? && Encoded(envelope.payload, payload) ==>
              var keyid := envelope.signatures[0].keyid;
              match StatementDenied(platform, keyid, payload, c)
              case Some(f) => VerifyEnvelope(platform, envelope, expected, c) == Rejected(f)
              case None =>
                var key := FindTrustedKey(platform, keyid, DsseEd25519V1, c).value;
                match SignatureFault(platform, envelope.signatures[0].sig, payload, Admit(platform.profile, payload).value, expected, key)
                case Some(f) => VerifyEnvelope(platform, envelope, expected, c) == Rejected(f)
                case None => VerifyEnvelope(platform, envelope, expected, c).Good?
  {
    DecodesWhen(envelope.payload);
    hide Base64Url.DecodeCanonical, Encoded, PAYLOAD_TYPE, CheckSignature, SignatureFault, FormFault, StatementFault, Admit, TimeWindowFault,
      FindTrustedKey, KEY_ID, ISSUER, AUDIENCE, NOT_BEFORE, EXPIRES_AT;
    if OuterFault(envelope).None? && Encoded(envelope.payload, payload) && Admit(platform.profile, payload).Accepted? {
      var v := Admit(platform.profile, payload).value;
      FormExactly(v);
      if FormFault(v).None? { KeysThere(v); }
      hide HasStatementKeys;
      if StatementDenied(platform, envelope.signatures[0].keyid, payload, c).None? {
        SignatureDenied(platform, envelope, payload, v, expected, FindTrustedKey(platform, envelope.signatures[0].keyid, DsseEd25519V1, c).value,
                        envelope.signatures[0].sig);
      }
    }
  }
}
