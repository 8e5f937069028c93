/** The text of digest-pinned references, put together from its parts, and what
    the two readers of such text make of it. */
module PinnedReferences {
  import opened CodeUnits
  import opened Json
  import opened References
  import opened Spelling
  import opened SpecNormalization
  import opened JsonPointer
  import ReferenceRewriting

  // ---- the parts ----

  predicate Word(t: Text) { t != [] && AllLowerOrDigit(t) }

  /** Words joined by single dots and hyphens. */
  ghost predicate Name(t: Text)
    decreases |t|
  {
    Word(t) || exists n :: 0 <= n < |t| && Joint(t, n) && Name(t[n + 1..])
  }

  predicate Joint(t: Text, n: nat) { n < |t| && Word(t[..n]) && (t[n] == '.' as int || t[n] == '-' as int) }

  /** Nothing, or a number sign, a slash and the rest of one line. */
  predicate OnePointer(f: Text) {
    f == [] || (|f| >= 2 && f[0] == '#' as int && f[1] == '/' as int && OneLine(f))
  }

  predicate OneLine(f: Text) { forall i :: 0 <= i < |f| ==> f[i] !in {0x0A, 0x0D, 0x2028, 0x2029} }

  function PinnedText(key: Text, digest: Text, fragment: Text): Text {
    Lit("anvilkit://schema/") + (key + (Lit("?digest=sha256:") + (digest + fragment)))
  }

  /** The reference is the text of that key, digest and fragment. */
  ghost predicate PinnedAs(ref: Text, key: Text, digest: Text, fragment: Text) {
    ref == PinnedText(key, digest, fragment) && Name(key) && Hex64(digest)
  }

  // ---- names ----

  lemma {:induction false} FirstNoUnit(t: Text) returns (n: nat)
    ensures n <= |t| && (n < |t| ==> !NameUnit(t[n])) && forall i :: 0 <= i < n ==> NameUnit(t[i])
  {
    n := 0;
    while n < |t| && NameUnit(t[n])
      invariant n <= |t| && forall i :: 0 <= i < n ==> NameUnit(t[i])
    {
      n := n + 1;
    }
  }

  lemma UnitsAgree(u: int)
    ensures NameUnit(u) <==> LowerOrDigit(u)
  {}

  lemma {:induction false} NameExactly(t: Text)
    ensures LogicalName(t) <==> Name(t)
    decreases |t|
  {
    if t != [] {
      var n := FirstNoUnit(t);
      if n < |t| {
        NameExactly(t[n + 1..]);
        JointOnly(t, n);
        NameSplits(t, n);
      }
    }
  }

  /** Only the first unit that is no letter or digit can join. */
  lemma JointOnly(t: Text, n: nat)
    requires n < |t| && !NameUnit(t[n]) && forall i :: 0 <= i < n ==> NameUnit(t[i])
    ensures !Word(t) && forall m :: 0 <= m < |t| && Joint(t, m) ==> m == n
  {
    UnitsAgree(t[n]);
    forall m | 0 <= m < |t| && Joint(t, m) ensures m == n {
      assert !NameUnit(t[m]);
      forall i | 0 <= i < m ensures NameUnit(t[i]) { assert LowerOrDigit(t[..m][i]); }
    }
  }

  lemma NameSplits(t: Text, n: nat)
    requires n < |t| && !NameUnit(t[n]) && forall i :: 0 <= i < n ==> NameUnit(t[i])
    ensures LogicalName(t) <==> Joint(t, n) && LogicalName(t[n + 1..])
  {
    var rest := t[n + 1..];
    if LogicalName(t) {
      NameGoesOn(t, n);
      forall i | 0 <= i < |t[..n]| ensures LowerOrDigit(t[..n][i]) { assert NameUnit(t[i]); }
    }
    if Joint(t, n) && LogicalName(rest) {
      forall i | 0 <= i < n ensures NameUnit(t[i]) { assert LowerOrDigit(t[..n][i]); }
      forall i | n < i < |t| ensures NameUnit(t[i]) || ((t[i] == DOT || t[i] == MINUS) && i + 1 < |t| && NameUnit(t[i + 1])) {
        var k := i - n - 1;
        assert rest[k] == t[i];
        UnitOfName(rest, k);
        if k + 1 < |rest| { assert rest[k + 1] == t[i + 1]; }
      }
      assert rest[0] == t[n + 1];
      assert t[0] == t[..n][0] && t[|t| - 1] == rest[|rest| - 1];
    }
  }

  lemma UnitOfName(t: Text, i: nat)
    requires LogicalName(t) && i < |t|
    ensures NameUnit(t[i]) || ((t[i] == DOT || t[i] == MINUS) && i + 1 < |t| && NameUnit(t[i + 1]))
  {}

  lemma NameGoesOn(t: Text, n: nat)
    requires LogicalName(t) && n < |t| && !NameUnit(t[n])
    ensures n > 0 && (t[n] == DOT || t[n] == MINUS) && LogicalName(t[n + 1..])
  {
    var rest := t[n + 1..];
    UnitOfName(t, n);
    forall i | 0 <= i < |rest| ensures NameUnit(rest[i]) || ((rest[i] == DOT || rest[i] == MINUS) && i + 1 < |rest| && NameUnit(rest[i + 1])) {
      UnitOfName(t, i + n + 1);
    }
  }

  lemma NameHasNoQuery(t: Text)
    requires Name(t)
    ensures t != [] && forall i :: 0 <= i < |t| ==> t[i] !in {QUERY, HASH, SLASH, TILDE, AMPERSAND, AT_SIGN}
  {
    NameExactly(t);
  }

  lemma HexExactly(d: Text)
    ensures |d| == 64 && LowerHex(d) <==> Hex64(d)
  {}

  lemma PointerExactly(f: Text)
    ensures OptionalPointer(f) <==> OnePointer(f)
  {
    if OptionalPointer(f) { assert forall i :: 2 <= i < |f| ==> !LineTerminator(f[i]); }
    if OnePointer(f) { assert forall i :: 2 <= i < |f| ==> f[i] !in {0x0A, 0x0D, 0x2028, 0x2029}; }
  }

  // ---- reading a pinned reference ----

  lemma {:induction false} BeforeQueryIs(a: Text, rest: Text)
    requires QUERY !in a && rest != [] && rest[0] == QUERY
    ensures BeforeQuery(a + rest) == a
    decreases |a|
  {
    if a == [] {
      assert a + rest == rest;
    } else {
      BeforeQueryIs(a[1..], rest);
      assert (a + rest)[1..] == a[1..] + rest;
    }
  }

  lemma {:induction false} QueryNotBefore(t: Text)
    ensures QUERY !in BeforeQuery(t)
    decreases |t|
  {
    if t != [] { QueryNotBefore(t[1..]); }
  }

  lemma PartsOf(key: Text, digest: Text, fragment: Text)
    requires QUERY !in key && |digest| == 64
    ensures var ref := PinnedText(key, digest, fragment);
            var rest := ref[18..];
            var tail := rest[|key|..];
            && StartsWith(ref, SCHEME) && |SCHEME| == 18 && BeforeQuery(rest) == key && StartsWith(tail, DIGEST_PARAMETER)
            && |DIGEST_PARAMETER| == 15 && |tail| >= 79 && tail[15..79] == digest && tail[79..] == fragment
  {
    var start, middle := Lit("anvilkit://schema/"), Lit("?digest=sha256:");
    var tail := middle + (digest + fragment);
    Halves(start, key + tail);
    Halves(key, tail);
    Halves(middle, digest + fragment);
    Halves(digest, fragment);
    BeforeQueryIs(key, tail);
    assert SCHEME == start && DIGEST_PARAMETER == middle;
    hide SCHEME, DIGEST_PARAMETER, BeforeQuery;
    assert tail[15..79] == tail[15..][..64] && tail[79..] == tail[15..][64..];
  }

  lemma Halves(a: Text, b: Text)
    ensures (a + b)[..|a|] == a && (a + b)[|a|..] == b
  {}

  lemma PartsJoin(ref: Text, key: Text)
    requires StartsWith(ref, SCHEME) && |key| <= |ref| - 18 && ref[18..][..|key|] == key
    requires var tail := ref[18 + |key|..]; StartsWith(tail, DIGEST_PARAMETER) && |tail| >= 79
    ensures var tail := ref[18 + |key|..]; ref == PinnedText(key, tail[15..79], tail[79..])
  {
    var tail := ref[18 + |key|..];
    assert |SCHEME| == 18 && |DIGEST_PARAMETER| == 15;
    assert SCHEME == Lit("anvilkit://schema/") && DIGEST_PARAMETER == Lit("?digest=sha256:");
    assert ref == ref[..18] + (ref[18..][..|key|] + tail);
    assert tail == tail[..15] + (tail[15..79] + tail[79..]);
  }

  /** What the projection reads off a reference is exactly what it was put together
      from. */
  lemma ParsePinnedExactly(ref: Text, key: Text, digest: Text, fragment: Text)
    ensures ParsePinned(ref) == Some(Pinned(key, digest, fragment)) <==> PinnedAs(ref, key, digest, fragment) && OnePointer(fragment)
  {
    NameExactly(key);
    HexExactly(digest);
    PointerExactly(fragment);
    assert |SCHEME| == 18 && |DIGEST_PARAMETER| == 15;
    hide LogicalName, Name, LowerHex, Hex64, OptionalPointer, OnePointer, SCHEME, DIGEST_PARAMETER, PinnedText;
    if ParsePinned(ref) == Some(Pinned(key, digest, fragment)) {
      assert ref[18..][|key|..] == ref[18 + |key|..];
      PartsJoin(ref, key);
    }
    if PinnedAs(ref, key, digest, fragment) && OnePointer(fragment) {
      NameHasNoQuery(key);
      assert |digest| == 64;
      PartsOf(key, digest, fragment);
    }
  }

  // ---- which references the projection accepts ----

  /** A reference within the document, or the text of a source's key and digest. */
  ghost predicate Acceptable(sources: Sources, ref: Text) {
    (ref != [] && ref[0] == '#' as int) || exists i, f :: 0 <= i < |sources| && PinsSource(sources[i], ref, f)
  }

  ghost predicate PinsSource(source: Source, ref: Text, fragment: Text) {
    PinnedAs(ref, source.key, source.digest, fragment) && OnePointer(fragment)
  }

  lemma {:induction false} LookupIs(sources: Sources, i: nat)
    requires KeysDistinct(sources) && i < |sources|
    ensures Lookup(sources, sources[i].key) == Some(sources[i])
    decreases |sources|
  {
    if i > 0 {
      assert sources[0].key != sources[i].key;
      assert forall j, k :: 0 <= j < k < |sources[1..]| ==> sources[1..][j] == sources[j + 1] && sources[1..][k] == sources[k + 1];
      LookupIs(sources[1..], i - 1);
    }
  }

  lemma HashFirst(ref: Text)
    ensures StartsWith(ref, [HASH]) <==> ref != [] && ref[0] == '#' as int
  {
    if ref != [] { assert ref[..1] == [ref[0]]; }
  }

  /** A reference is rewritten exactly when it is acceptable: the digest it names is
      that of the source of its key. */
  lemma RewrittenExactly(sources: Sources, local: Option<Text>, ref: Text)
    requires KeysDistinct(sources)
    ensures RewriteReference(sources, local, ref).Some? <==> Acceptable(sources, ref)
  {
    HashFirst(ref);
    hide StartsWith, ParsePinned, LocalReference, KeysDistinct, PinnedAs, OnePointer;
    if !StartsWith(ref, [HASH]) {
      if RewriteReference(sources, local, ref).Some? {
        var pinned := ParsePinned(ref).value;
        ParsePinnedExactly(ref, pinned.key, pinned.digest, pinned.fragment);
        LookupFinds(sources, pinned.key);
        var i :| 0 <= i < |sources| && sources[i] == Lookup(sources, pinned.key).value;
        assert PinsSource(sources[i], ref, pinned.fragment);
      }
      if i, f :| 0 <= i < |sources| && PinsSource(sources[i], ref, f) {
        ParsePinnedExactly(ref, sources[i].key, sources[i].digest, f);
        LookupIs(sources, i);
      }
    }
  }

  /** And it becomes the pointer into the source's schema with the same fragment. */
  lemma RewrittenText(sources: Sources, local: Option<Text>, i: nat, ref: Text, fragment: Text)
    requires KeysDistinct(sources) && i < |sources| && PinsSource(sources[i], ref, fragment)
    ensures RewriteReference(sources, local, ref) ==
            Some(Lit("#/") + (Lit("x-anvilkit-resolved-schemas") + (Lit("/") + (sources[i].key + if fragment == [] then [] else fragment[1..]))))
  {
    var key, digest := sources[i].key, sources[i].digest;
    ParsePinnedExactly(ref, key, digest, fragment);
    LookupIs(sources, i);
    PinnedStarts(ref, key, digest, fragment);
    NameHasNoQuery(key);
    PlainEscapes(key);
    hide *;
    RewrittenFound(sources, local, ref, sources[i], Pinned(key, digest, fragment));
    LocalText(key, if fragment == [] then [] else fragment[1..]);
  }

  lemma RewrittenFound(sources: Sources, local: Option<Text>, ref: Text, source: Source, pinned: Pinned)
    requires !StartsWith(ref, [HASH]) && ParsePinned(ref) == Some(pinned)
    requires Lookup(sources, pinned.key) == Some(source) && source.digest == pinned.digest
    ensures RewriteReference(sources, local, ref) ==
            Some(LocalReference(pinned.key, if pinned.fragment == [] then [] else pinned.fragment[1..]))
  {
    hide StartsWith, ParsePinned, Lookup, LocalReference;
  }

  lemma PinnedStarts(ref: Text, key: Text, digest: Text, fragment: Text)
    requires ref == PinnedText(key, digest, fragment)
    ensures !StartsWith(ref, [HASH])
  {
    HashFirst(ref);
    assert ref[0] == Lit("anvilkit://schema/")[0];
  }

  lemma LocalText(key: Text, fragment: Text)
    requires Escape(key) == key
    ensures LocalReference(key, fragment) == Lit("#/") + (Lit("x-anvilkit-resolved-schemas") + (Lit("/") + (key + fragment)))
  {
    hide Escape;
    assert RESOLVED == Lit("x-anvilkit-resolved-schemas") && Lit("#/") == [HASH, SLASH] && Lit("/") == [SLASH];
  }

  lemma {:induction false} PlainEscapes(t: Text)
    requires TILDE !in t && SLASH !in t
    ensures Escape(t) == t
    decreases |t|
  {
    if t != [] {
      PlainEscapes(t[1..]);
      EscapeStep(t);
      assert t == [t[0]] + t[1..];
    }
  }

  /** A description is normalized exactly when every reference held by what is copied
      of it and of each source is acceptable. */
  lemma NormalizedExactly(sources: Sources, description: Value)
    requires description.Obj? && KeysDistinct(sources)
    ensures Normalized(sources, description).Some? <==>
            && (forall t :: ReferenceRewriting.Holds(DropFor(None), description, t) ==> Acceptable(sources, t))
            && forall i, t :: 0 <= i < |sources| && ReferenceRewriting.Holds(DropFor(Some(sources[i].key)), sources[i].schema, t) ==>
                 Acceptable(sources, t)
  {
    hide ReferenceRewriting.Accepts, ReferenceRewriting.Holds, Acceptable, RewriteReference, ReferenceRewriting.Apply, KeysDistinct, DropFor;
    ProjectedExactly(sources, None, description);
    forall i | 0 <= i < |sources|
      ensures Projected(sources, Some(sources[i].key), sources[i].schema).Some? <==>
              forall t :: ReferenceRewriting.Holds(DropFor(Some(sources[i].key)), sources[i].schema, t) ==> Acceptable(sources, t)
    {
      ProjectedExactly(sources, Some(sources[i].key), sources[i].schema);
    }
    hide Projected, ResolvedSchemas;
  }

  lemma ProjectedExactly(sources: Sources, local: Option<Text>, v: Value)
    requires KeysDistinct(sources)
    ensures Projected(sources, local, v).Some? <==>
            forall t :: ReferenceRewriting.Holds(DropFor(local), v, t) ==> Acceptable(sources, t)
  {
    hide ReferenceRewriting.Accepts, ReferenceRewriting.Holds, Acceptable, RewriteReference, ReferenceRewriting.Apply, KeysDistinct, DropFor;
    ReferenceRewriting.AcceptsExactly(ActionFor(sources, local), DropFor(local), v);
    forall t ensures ActionFor(sources, local)(t).Some? <==> Acceptable(sources, t) { RewrittenExactly(sources, local, t); }
  }
}
