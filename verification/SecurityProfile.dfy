/** Verification of signed statements against pinned trust snapshots. */
module SecurityProfile {
  import opened CodeUnits
  import opened Json
  import opened StrictJson
  import opened Canonical

  datatype Denial =
    | TimeFormatInvalid | TrustPolicyInvalid | TrustSnapshotStale | RevocationSnapshotStale
    | KeyNotTrusted | KeyContextMismatch | KeyRevoked | KeyStatusDenied | KeyTimeDenied
    | NotYetValid | Expired
    | Base64UrlInvalid | PayloadNotAdmitted(reason: Reason) | PayloadShapeInvalid | SignatureProfileInvalid | DigestInvalid
    | SizeInvalid | KeyIdInvalid
    | PayloadTypeInvalid | MultiplicityInvalid | KeyIdMismatch | SignatureContextMismatch
    | NonCanonicalPayload | SubjectContextMismatch | NotPrintable | SignatureInvalid

  datatype Result<+T> = Good(value: T) | Rejected(fault: Denial)

  datatype Algorithm = DsseEd25519V1 | JwsEdDsaV1

  datatype Status = Active | Overlap | Retired | Revoked

  datatype TrustedKey = TrustedKey(
    keyId: Text, issuer: Text, audiences: seq<Text>, algorithms: seq<Algorithm>, publicKey: Text,
    status: Status, notBefore: Value, notAfter: Value)

  datatype Revocation = Revocation(keyId: Text, effectiveAt: Value)

  datatype Context = Context(
    issuer: Text, audience: Text, now: Value,
    trustNextUpdate: Value, maximumClockSkewSeconds: Number, keys: seq<TrustedKey>,
    revocationsNextUpdate: Value, revokedKeys: seq<Revocation>)

  /** What the runtime provides: the strict parser's profile, number printing, the
      instant of a timestamp in milliseconds (None when it is not one), and the
      verdict of Ed25519 on a message, a public key and a signature. */
  datatype Platform = Platform(
    profile: Profile,
    rt: Runtime,
    instant: Value -> Option<int>,
    verify: (Bytes, Text, Bytes) -> bool)

  // ---- time ----

  function ParseInstant(platform: Platform, v: Value): Result<int> {
    match platform.instant(v) case None => Rejected(TimeFormatInvalid) case Some(t) => Good(t)
  }

  /** The clock skew in milliseconds, for a whole number of 0 to 300 seconds. */
  function Skew(c: Context): Option<int> {
    var n := c.maximumClockSkewSeconds;
    if !WholeNumber(n) then None
    else
      var skew := RealOf(n).Floor * 1000;
      if skew < 0 || skew > 300000 then None else Some(skew)
  }

  function ValidateTrustSnapshots(platform: Platform, c: Context): Result<int> {
    match ParseInstant(platform, c.now)
    case Rejected(f) => Rejected(f)
    case Good(now) =>
      match Skew(c)
      case None => Rejected(TrustPolicyInvalid)
      case Some(skew) =>
        match ParseInstant(platform, c.trustNextUpdate)
        case Rejected(f) => Rejected(f)
        case Good(trustUpdate) =>
          if now > trustUpdate + skew then Rejected(TrustSnapshotStale)
          else
            match ParseInstant(platform, c.revocationsNextUpdate)
            case Rejected(f) => Rejected(f)
            case Good(revocationUpdate) => if now > revocationUpdate + skew then Rejected(RevocationSnapshotStale) else Good(now)
  }

  // ---- the key ----

  /** keys.filter(candidate => candidate.keyId === keyId) */
  function Candidates(keys: seq<TrustedKey>, keyId: Text): (matching: seq<TrustedKey>)
    ensures forall k :: k in matching <==> k in keys && k.keyId == keyId
  {
    if keys == [] then []
    else (if keys[0].keyId == keyId then [keys[0]] else []) + Candidates(keys[1..], keyId)
  }

  /** revokedKeys.find(entry => entry.keyId === keyId) */
  function FirstRevocation(entries: seq<Revocation>, keyId: Text): Option<Revocation> {
    if entries == [] then None
    else if entries[0].keyId == keyId then Some(entries[0])
    else FirstRevocation(entries[1..], keyId)
  }

  function CheckKeyTime(platform: Platform, c: Context, key: TrustedKey, now: int, skew: int): Result<TrustedKey> {
    match ParseInstant(platform, key.notBefore)
    case Rejected(f) => Rejected(f)
    case Good(notBefore) =>
      if now + skew < notBefore then Rejected(KeyTimeDenied)
      else
        match ParseInstant(platform, key.notAfter)
        case Rejected(f) => Rejected(f)
        case Good(notAfter) => if now - skew >= notAfter then Rejected(KeyTimeDenied) else CheckRevocation(platform, c, key, now)
  }

  function CheckRevocation(platform: Platform, c: Context, key: TrustedKey, now: int): Result<TrustedKey> {
    match FirstRevocation(c.revokedKeys, key.keyId)
    case None => Good(key)
    case Some(entry) =>
      match ParseInstant(platform, entry.effectiveAt)
      case Rejected(f) => Rejected(f)
      case Good(effectiveAt) => if now >= effectiveAt then Rejected(KeyRevoked) else Good(key)
  }

  function FindTrustedKey(platform: Platform, keyId: Text, algorithm: Algorithm, c: Context): Result<TrustedKey> {
    match ValidateTrustSnapshots(platform, c)
    case Rejected(f) => Rejected(f)
    case Good(now) =>
      var keys := Candidates(c.keys, keyId);
      if |keys| != 1 then Rejected(KeyNotTrusted)
      else
        var key := keys[0];
        if key.issuer != c.issuer || c.audience !in key.audiences || algorithm !in key.algorithms then Rejected(KeyContextMismatch)
        else if key.status == Revoked then Rejected(KeyRevoked)
        else if key.status != Active && key.status != Overlap then Rejected(KeyStatusDenied)
        else CheckKeyTime(platform, c, key, now, Skew(c).value)
  }

  /** The instant of a value lies before, at or after a bound, when it is one. */
  predicate After(platform: Platform, v: Value, t: int) { platform.instant(v).Some? && t < platform.instant(v).value }

  predicate AtOrBefore(platform: Platform, v: Value, t: int) { platform.instant(v).Some? && platform.instant(v).value <= t }

  predicate SnapshotsCurrent(platform: Platform, c: Context) {
    && platform.instant(c.now).Some? && Skew(c).Some?
    && var now, skew := platform.instant(c.now).value, Skew(c).value;
       After(platform, c.trustNextUpdate, now - skew - 1) && After(platform, c.revocationsNextUpdate, now - skew - 1)
  }

  predicate OnlyAt(keys: seq<TrustedKey>, keyId: Text, i: int) {
    && 0 <= i < |keys| && keys[i].keyId == keyId
    && forall j :: 0 <= j < |keys| && j != i ==> keys[j].keyId != keyId
  }

  /** The one key of its id. */
  ghost predicate OnlyKey(keys: seq<TrustedKey>, keyId: Text, key: TrustedKey) {
    exists i :: OnlyAt(keys, keyId, i) && keys[i] == key
  }

  /** Meant for this issuer, audience and algorithm, and not revoked or retired. */
  predicate Usable(algorithm: Algorithm, c: Context, key: TrustedKey) {
    && key.issuer == c.issuer && c.audience in key.audiences && algorithm in key.algorithms
    && (key.status == Active || key.status == Overlap)
  }

  /** The key is the only one of its id, meant for this use and in force now. */
  ghost predicate InForce(platform: Platform, keyId: Text, algorithm: Algorithm, c: Context, key: TrustedKey) {
    && SnapshotsCurrent(platform, c)
    && OnlyKey(c.keys, keyId, key)
    && Usable(algorithm, c, key)
    && var now, skew := platform.instant(c.now).value, Skew(c).value;
       AtOrBefore(platform, key.notBefore, now + skew) && After(platform, key.notAfter, now - skew)
  }

  // ---- revocation ----

  /** A revocation that takes effect only after now. */
  predicate Pending(platform: Platform, c: Context, entry: Revocation) {
    platform.instant(c.now).Some? && After(platform, entry.effectiveAt, platform.instant(c.now).value)
  }

  /** No revocation of the key in the snapshot is in effect. */
  predicate NotRevoked(platform: Platform, c: Context, keyId: Text) {
    forall i :: 0 <= i < |c.revokedKeys| && c.revokedKeys[i].keyId == keyId ==> Pending(platform, c, c.revokedKeys[i])
  }

  /** What the code looks at: the first revocation listed for the key. */
  predicate FirstPending(platform: Platform, c: Context, keyId: Text) {
    match FirstRevocation(c.revokedKeys, keyId) case None => true case Some(entry) => Pending(platform, c, entry)
  }

  predicate FirstAt(entries: seq<Revocation>, keyId: Text, i: int) {
    0 <= i < |entries| && entries[i].keyId == keyId && forall k :: 0 <= k < i ==> entries[k].keyId != keyId
  }

  predicate HiddenAt(platform: Platform, c: Context, keyId: Text, i: int, j: int) {
    && FirstAt(c.revokedKeys, keyId, i) && i < j < |c.revokedKeys| && c.revokedKeys[j].keyId == keyId
    && Pending(platform, c, c.revokedKeys[i]) && !Pending(platform, c, c.revokedKeys[j])
  }

  /** A revocation of the key in effect is listed behind one still to come. */
  predicate RevocationHidden(platform: Platform, c: Context, keyId: Text) {
    exists i, j :: 0 <= i < j < |c.revokedKeys| && HiddenAt(platform, c, keyId, i, j)
  }

  lemma {:induction false} FirstIs(entries: seq<Revocation>, keyId: Text) returns (i: int)
    ensures FirstRevocation(entries, keyId).Some? ==> FirstAt(entries, keyId, i) && FirstRevocation(entries, keyId) == Some(entries[i])
    ensures FirstRevocation(entries, keyId).None? ==> forall k :: 0 <= k < |entries| ==> entries[k].keyId != keyId
  {
    i := 0;
    if entries != [] && entries[0].keyId != keyId {
      i := FirstIs(entries[1..], keyId);
      i := i + 1;
      assert forall k :: 0 < k < |entries| ==> entries[k] == entries[1..][k - 1];
    }
  }

  /** A key is not revoked exactly when the first entry listed for it is pending
      and hides no entry in effect. */
  lemma NotRevokedExactly(platform: Platform, c: Context, keyId: Text)
    ensures NotRevoked(platform, c, keyId) <==> FirstPending(platform, c, keyId) && !RevocationHidden(platform, c, keyId)
    ensures RevocationHidden(platform, c, keyId) ==> FirstPending(platform, c, keyId)
  {
    hide Pending, FirstRevocation;
    var i := FirstIs(c.revokedKeys, keyId);
    if FirstPending(platform, c, keyId) && !RevocationHidden(platform, c, keyId) {
      forall j | 0 <= j < |c.revokedKeys| && c.revokedKeys[j].keyId == keyId ensures Pending(platform, c, c.revokedKeys[j]) {
        assert !HiddenAt(platform, c, keyId, i, j);
      }
    }
  }

  /** The key the code finds: in force, and its first revocation pending. */
  ghost predicate Recognized(platform: Platform, keyId: Text, algorithm: Algorithm, c: Context, key: TrustedKey) {
    InForce(platform, keyId, algorithm, c, key) && FirstPending(platform, c, keyId)
  }

  /** A key to trust: in force, and not revoked. */
  ghost predicate Trusted(platform: Platform, keyId: Text, algorithm: Algorithm, c: Context, key: TrustedKey) {
    InForce(platform, keyId, algorithm, c, key) && NotRevoked(platform, c, keyId)
  }

  lemma {:induction false} OneCandidate(keys: seq<TrustedKey>, keyId: Text, key: TrustedKey)
    ensures Candidates(keys, keyId) == [key] <==> OnlyKey(keys, keyId, key)
  {
    if keys != [] {
      var rest := keys[1..];
      NoCandidate(rest, keyId);
      if keys[0].keyId == keyId {
        OnlyHere(keys, keyId, key);
        assert Candidates(keys, keyId)[1..] == Candidates(rest, keyId);
      } else {
        OneCandidate(rest, keyId, key);
        OnlyLater(keys, keyId, key);
      }
    }
  }

  lemma OnlyHere(keys: seq<TrustedKey>, keyId: Text, key: TrustedKey)
    requires keys != [] && keys[0].keyId == keyId
    ensures OnlyKey(keys, keyId, key) <==> keys[0] == key && forall j :: 0 <= j < |keys[1..]| ==> keys[1..][j].keyId != keyId
  {
    if OnlyKey(keys, keyId, key) {
      var i :| OnlyAt(keys, keyId, i) && keys[i] == key;
      assert i == 0;
    }
    if keys[0] == key && forall j :: 0 <= j < |keys[1..]| ==> keys[1..][j].keyId != keyId {
      forall j | 0 < j < |keys| ensures keys[j].keyId != keyId { assert keys[j] == keys[1..][j - 1]; }
      assert OnlyAt(keys, keyId, 0);
    }
  }

  lemma OnlyLater(keys: seq<TrustedKey>, keyId: Text, key: TrustedKey)
    requires keys != [] && keys[0].keyId != keyId
    ensures OnlyKey(keys, keyId, key) <==> OnlyKey(keys[1..], keyId, key)
  {
    var rest := keys[1..];
    assert forall j :: 0 <= j < |rest| ==> rest[j] == keys[j + 1];
    if OnlyKey(keys, keyId, key) {
      var i :| OnlyAt(keys, keyId, i) && keys[i] == key;
      assert OnlyAt(rest, keyId, i - 1);
    }
    if OnlyKey(rest, keyId, key) {
      var i :| OnlyAt(rest, keyId, i) && rest[i] == key;
      forall j | 0 <= j < |keys| && j != i + 1 ensures keys[j].keyId != keyId {
        if j > 0 { assert keys[j] == rest[j - 1]; }
      }
      assert OnlyAt(keys, keyId, i + 1);
    }
  }

  lemma {:induction false} NoCandidate(keys: seq<TrustedKey>, keyId: Text)
    ensures Candidates(keys, keyId) == [] <==> forall j :: 0 <= j < |keys| ==> keys[j].keyId != keyId
  {
    if keys != [] {
      NoCandidate(keys[1..], keyId);
      assert forall j :: 0 <= j < |keys[1..]| ==> keys[1..][j] == keys[j + 1];
    }
  }

  lemma SnapshotsExactly(platform: Platform, c: Context)
    ensures ValidateTrustSnapshots(platform, c).Good? <==> SnapshotsCurrent(platform, c)
    ensures SnapshotsCurrent(platform, c) ==> ValidateTrustSnapshots(platform, c) == Good(platform.instant(c.now).value)
  {
    hide Skew;
  }

  lemma KeyTimeExactly(platform: Platform, c: Context, key: TrustedKey, now: int, skew: int)
    ensures CheckKeyTime(platform, c, key, now, skew).Good? ==> CheckKeyTime(platform, c, key, now, skew) == Good(key)
    ensures CheckKeyTime(platform, c, key, now, skew).Good? <==>
            && AtOrBefore(platform, key.notBefore, now + skew) && After(platform, key.notAfter, now - skew)
            && (FirstRevocation(c.revokedKeys, key.keyId).Some? ==>
                  After(platform, FirstRevocation(c.revokedKeys, key.keyId).value.effectiveAt, now))
  {
    hide FirstRevocation;
  }

  lemma OneFound(platform: Platform, keyId: Text, algorithm: Algorithm, c: Context, key: TrustedKey)
    requires SnapshotsCurrent(platform, c)
    ensures var now, skew := platform.instant(c.now).value, Skew(c).value;
            FindTrustedKey(platform, keyId, algorithm, c) == Good(key) <==>
            Candidates(c.keys, keyId) == [key] && Usable(algorithm, c, key) && CheckKeyTime(platform, c, key, now, skew).Good?
  {
    SnapshotsExactly(platform, c);
    var keys := Candidates(c.keys, keyId);
    var now, skew := platform.instant(c.now).value, Skew(c).value;
    hide ValidateTrustSnapshots, SnapshotsCurrent, CheckKeyTime, Candidates, Skew;
    if |keys| == 1 {
      KeyTimeExactly(platform, c, keys[0], now, skew);
      assert keys == [keys[0]];
    }
  }

  lemma FoundExactly(platform: Platform, keyId: Text, algorithm: Algorithm, c: Context, key: TrustedKey)
    ensures FindTrustedKey(platform, keyId, algorithm, c) == Good(key) <==> Recognized(platform, keyId, algorithm, c, key)
  {
    SnapshotsExactly(platform, c);
    if SnapshotsCurrent(platform, c) {
      OneFound(platform, keyId, algorithm, c, key);
      OneCandidate(c.keys, keyId, key);
      KeyTimeExactly(platform, c, key, platform.instant(c.now).value, Skew(c).value);
      hide FindTrustedKey, ValidateTrustSnapshots, Candidates, CheckKeyTime, After, AtOrBefore, OnlyAt, Skew, FirstRevocation;
    }
  }

  predicate IsWhole(n: Number, k: nat) { n == Finite(k as real) || (k == 0 && n == NegativeZero) }

  /** The skew is a whole number of seconds, 0 to 300, in milliseconds. */
  lemma SkewExactly(c: Context, ms: int)
    ensures Skew(c) == Some(ms) <==> exists k: nat :: k <= 300 && ms == 1000 * k && IsWhole(c.maximumClockSkewSeconds, k)
  {
    var n := c.maximumClockSkewSeconds;
    if Skew(c) == Some(ms) {
      var k: nat := RealOf(n).Floor;
      assert IsWhole(n, k);
    }
    if k: nat :| k <= 300 && ms == 1000 * k && IsWhole(n, k) { assert (k as real).Floor == k; }
  }

  // ---- what is wrong first ----

  predicate IsInstant(platform: Platform, v: Value) { platform.instant(v).Some? }

  /** The first thing wrong with the snapshots. */
  function SnapshotFault(platform: Platform, c: Context): Option<Denial> {
    if !IsInstant(platform, c.now) then Some(TimeFormatInvalid)
    else if Skew(c).None? then Some(TrustPolicyInvalid)
    else
      var since := platform.instant(c.now).value - Skew(c).value;
      if !IsInstant(platform, c.trustNextUpdate) then Some(TimeFormatInvalid)
      else if platform.instant(c.trustNextUpdate).value < since then Some(TrustSnapshotStale)
      else if !IsInstant(platform, c.revocationsNextUpdate) then Some(TimeFormatInvalid)
      else if platform.instant(c.revocationsNextUpdate).value < since then Some(RevocationSnapshotStale)
      else None
  }

  /** The first thing wrong with a key, the snapshots being current. */
  function KeyFault(platform: Platform, algorithm: Algorithm, c: Context, key: TrustedKey): Option<Denial>
    requires SnapshotsCurrent(platform, c)
  {
    var now, skew := platform.instant(c.now).value, Skew(c).value;
    var revocation := FirstRevocation(c.revokedKeys, key.keyId);
    if !(key.issuer == c.issuer && c.audience in key.audiences && algorithm in key.algorithms) then Some(KeyContextMismatch)
    else if key.status == Revoked then Some(KeyRevoked)
    else if key.status == Retired then Some(KeyStatusDenied)
    else if !IsInstant(platform, key.notBefore) then Some(TimeFormatInvalid)
    else if !AtOrBefore(platform, key.notBefore, now + skew) then Some(KeyTimeDenied)
    else if !IsInstant(platform, key.notAfter) then Some(TimeFormatInvalid)
    else if !After(platform, key.notAfter, now - skew) then Some(KeyTimeDenied)
    else if revocation.Some? && !IsInstant(platform, revocation.value.effectiveAt) then Some(TimeFormatInvalid)
    else if revocation.Some? && !Pending(platform, c, revocation.value) then Some(KeyRevoked)
    else None
  }

  lemma SnapshotFaultExactly(platform: Platform, c: Context)
    ensures SnapshotFault(platform, c).None? <==> SnapshotsCurrent(platform, c)
    ensures forall f :: ValidateTrustSnapshots(platform, c) == Rejected(f) <==> SnapshotFault(platform, c) == Some(f)
  {
    hide Skew;
  }

  lemma KeyTimeFault(platform: Platform, algorithm: Algorithm, c: Context, key: TrustedKey)
    requires SnapshotsCurrent(platform, c) && Usable(algorithm, c, key)
    ensures var checked := CheckKeyTime(platform, c, key, platform.instant(c.now).value, Skew(c).value);
            forall f :: checked == Rejected(f) <==> KeyFault(platform, algorithm, c, key) == Some(f)
  {
    hide Skew, FirstRevocation;
  }

  /** The first fault, in the order the code looks for them: of the snapshots, of the
      number of keys with that id, and of the key. */
  lemma DeniedExactly(platform: Platform, keyId: Text, algorithm: Algorithm, c: Context, f: Denial)
    ensures SnapshotFault(platform, c).Some? ==>
              (FindTrustedKey(platform, keyId, algorithm, c) == Rejected(f) <==> SnapshotFault(platform, c) == Some(f))
    ensures SnapshotsCurrent(platform, c) && !(exists key :: OnlyKey(c.keys, keyId, key)) ==>
              (FindTrustedKey(platform, keyId, algorithm, c) == Rejected(f) <==> f == KeyNotTrusted)
    ensures SnapshotsCurrent(platform, c) ==>
              forall key :: OnlyKey(c.keys, keyId, key) ==>
                (FindTrustedKey(platform, keyId, algorithm, c) == Rejected(f) <==> KeyFault(platform, algorithm, c, key) == Some(f))
  {
    SnapshotFaultExactly(platform, c);
    SnapshotsExactly(platform, c);
    hide SnapshotFault, ValidateTrustSnapshots, OnlyKey, SnapshotsCurrent;
    if SnapshotsCurrent(platform, c) {
      var keys := Candidates(c.keys, keyId);
      if |keys| == 1 { assert keys == [keys[0]]; }
      forall key ensures keys == [key] <==> OnlyKey(c.keys, keyId, key) { OneCandidate(c.keys, keyId, key); }
      hide Candidates, CheckKeyTime;
      forall key | OnlyKey(c.keys, keyId, key)
        ensures FindTrustedKey(platform, keyId, algorithm, c) == Rejected(f) <==> KeyFault(platform, algorithm, c, key) == Some(f)
      {
        OneDenied(platform, keyId, algorithm, c, key, f);
      }
    }
  }

  lemma OneDenied(platform: Platform, keyId: Text, algorithm: Algorithm, c: Context, key: TrustedKey, f: Denial)
    requires SnapshotsCurrent(platform, c) && Candidates(c.keys, keyId) == [key]
    ensures FindTrustedKey(platform, keyId, algorithm, c) == Rejected(f) <==> KeyFault(platform, algorithm, c, key) == Some(f)
  {
    SnapshotsExactly(platform, c);
    if Usable(algorithm, c, key) { KeyTimeFault(platform, algorithm, c, key); }
    hide ValidateTrustSnapshots, CheckKeyTime, Candidates, Skew, FirstRevocation, Pending, After, AtOrBefore, IsInstant;
  }

  /** A trusted key is found. A found key is trusted exactly when the snapshot does
      not list a revocation of it in effect behind one still to come: for every
      key, being found means being trusted if and only if it is not such a key in
      force. */
  lemma TrustedExactly(platform: Platform, keyId: Text, algorithm: Algorithm, c: Context, key: TrustedKey)
    ensures Trusted(platform, keyId, algorithm, c, key) ==> FindTrustedKey(platform, keyId, algorithm, c) == Good(key)
    ensures (FindTrustedKey(platform, keyId, algorithm, c) == Good(key) <==> Trusted(platform, keyId, algorithm, c, key))
            <==> !(InForce(platform, keyId, algorithm, c, key) && RevocationHidden(platform, c, keyId))
  {
    FoundExactly(platform, keyId, algorithm, c, key);
    NotRevokedExactly(platform, c, keyId);
    hide InForce, FindTrustedKey, FirstPending, NotRevoked, RevocationHidden;
  }

  /** Instants given as whole numbers, for an example. */
  function Instants(v: Value): Option<int> { if v.Num? && v.n.Finite? then Some(v.n.x.Floor) else None }

  function At(t: int): Value { Num(Finite(t as real)) }

  /** At time 5, a key whose revocations take effect at 9 and, listed behind it, at 1. */
  function RevokedBehind(keyId: Text): Context {
    Context([], [], At(5), At(5), Finite(0.0), [TrustedKey(keyId, [], [[]], [DsseEd25519V1], [], Active, At(0), At(6))],
            At(5), [Revocation(keyId, At(9)), Revocation(keyId, At(1))])
  }

  /** Such a key is found, although a revocation of it has been in effect since 1. */
  lemma RevocationOverlooked(platform: Platform, keyId: Text)
    requires forall v :: platform.instant(v) == Instants(v)
    ensures var c := RevokedBehind(keyId);
            && FindTrustedKey(platform, keyId, DsseEd25519V1, c) == Good(c.keys[0])
            && !NotRevoked(platform, c, keyId) && RevocationHidden(platform, c, keyId)
  {
    var c := RevokedBehind(keyId);
    var key := c.keys[0];
    assert OnlyAt(c.keys, keyId, 0);
    assert platform.instant(At(9)) == Some(9) && platform.instant(At(1)) == Some(1) && platform.instant(At(5)) == Some(5);
    assert HiddenAt(platform, c, keyId, 0, 1);
    assert Skew(c) == Some(0);
    NotRevokedExactly(platform, c, keyId);
    assert InForce(platform, keyId, DsseEd25519V1, c, key) by {
      assert [] in key.audiences && DsseEd25519V1 in key.algorithms;
    }
    FoundExactly(platform, keyId, DsseEd25519V1, c, key);
  }

  // ---- the time window ----

  /** now + skew < from, for whatever number the policy holds */
  predicate TooEarly(now: int, skewSeconds: Number, from: int) {
    match skewSeconds
    case NaN => false
    case Infinite(negative) => negative
    case _ => now as real + RealOf(skewSeconds) * 1000.0 < from as real
  }

  /** now - skew >= until */
  predicate TooLate(now: int, skewSeconds: Number, until: int) {
    match skewSeconds
    case NaN => false
    case Infinite(negative) => negative
    case _ => now as real - RealOf(skewSeconds) * 1000.0 >= until as real
  }

  /** verifyTimeWindow: None when it does not throw. It does not look at whether
      the policy's skew is a valid one. */
  function TimeWindowFault(platform: Platform, notBefore: Value, expiresAt: Value, c: Context): Option<Denial> {
    match platform.instant(c.now)
    case None => Some(TimeFormatInvalid)
    case Some(now) =>
      match platform.instant(notBefore)
      case None => Some(TimeFormatInvalid)
      case Some(from) =>
        if TooEarly(now, c.maximumClockSkewSeconds, from) then Some(NotYetValid)
        else
          match platform.instant(expiresAt)
          case None => Some(TimeFormatInvalid)
          case Some(until) => if TooLate(now, c.maximumClockSkewSeconds, until) then Some(Expired) else None
  }

  /** Under a valid policy the window is the half-open interval, widened by the
      skew; a time before it is not yet valid, one after it is expired, and a text
      that is no time is neither. */
  lemma WindowExactly(platform: Platform, notBefore: Value, expiresAt: Value, c: Context)
    requires Skew(c).Some? && platform.instant(c.now).Some?
    ensures var now, skew := platform.instant(c.now).value, Skew(c).value;
            var fault := TimeWindowFault(platform, notBefore, expiresAt, c);
            && (fault == None <==> AtOrBefore(platform, notBefore, now + skew) && After(platform, expiresAt, now - skew))
            && (fault == Some(NotYetValid) <==> platform.instant(notBefore).Some? && !AtOrBefore(platform, notBefore, now + skew))
            && (fault == Some(Expired) <==>
                AtOrBefore(platform, notBefore, now + skew) && platform.instant(expiresAt).Some? && !After(platform, expiresAt, now - skew))
            && (fault.Some? ==> fault.value in {NotYetValid, Expired, TimeFormatInvalid})
  {
    var n := c.maximumClockSkewSeconds;
    assert RealOf(n) * 1000.0 == Skew(c).value as real;
  }
}
