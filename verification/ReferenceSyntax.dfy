/** What the lint finds wrong with a reference, told from the text of the reference. */
module ReferenceSyntax {
  import opened CodeUnits
  import opened Json
  import opened References
  import opened Spelling
  import opened PinnedReferences
  import opened ClosedReferences

  // ---- the forms ----

  ghost predicate Begins(t: Text, p: Text) { exists rest :: t == p + rest }

  ghost predicate Relative(t: Text) { Begins(t, Lit("./")) || Begins(t, Lit("../")) || Begins(t, Lit("/")) }

  /** A pinned reference to a document, or to a pointer in it. */
  ghost predicate Pinned(t: Text) { exists key, digest, fragment :: PinnedAs(t, key, digest, fragment) && Pointer(fragment) }

  predicate Pointer(f: Text) { f == ['#' as int] || OnePointer(f) }

  /** Where a version word may begin or end. */
  predicate Boundary(u: int) { u in {'?' as int, '&' as int, '#' as int, '/' as int} }

  ghost predicate VersionIn(t: Text, a: Text, word: Text, b: Text) {
    t == a + (word + b) && (a == [] || Boundary(a[|a| - 1])) && (b == [] || Boundary(b[0]))
  }

  ghost predicate NamesVersion(t: Text) {
    exists a, word, b :: word in {Lit("latest"), Lit("main"), Lit("stable"), Lit("current")} && VersionIn(t, a, word, b)
  }

  ghost predicate DigestIn(t: Text, a: Text, separator: Unit, digest: Text, b: Text) {
    && t == a + ([separator] + (Lit("digest=sha256:") + (digest + b)))
    && separator in {'?' as int, '&' as int} && Hex64(digest) && (b == [] || b[0] in {'#' as int, '&' as int})
  }

  ghost predicate Digested(t: Text) { exists a, separator, digest, b :: DigestIn(t, a, separator, digest, b) }

  // ---- the code's tests of them ----

  lemma BeginsExactly(t: Text, p: Text)
    ensures StartsWith(t, p) <==> Begins(t, p)
  {
    if StartsWith(t, p) { assert t == p + t[|p|..]; }
    if Begins(t, p) {
      var rest :| t == p + rest;
      assert t[..|p|] == p;
    }
  }

  lemma VersionAt(t: Text, a: Text, word: Text, b: Text)
    requires VersionIn(t, a, word, b) && word != []
    ensures |a| < |t| && SelectorAt(t, |a|, word)
  {
    assert t[|a|..|a| + |word|] == word;
    if a != [] { assert t[|a| - 1] == a[|a| - 1]; }
    if b != [] { assert t[|a| + |word|] == b[0]; }
  }

  lemma SelectorSplits(t: Text, i: nat, word: Text)
    requires i < |t| && SelectorAt(t, i, word)
    ensures VersionIn(t, t[..i], word, t[i + |word|..])
  {
    assert t == t[..i] + (t[i..i + |word|] + t[i + |word|..]);
  }

  lemma VersionExactly(t: Text)
    ensures MutableSelector(t) <==> NamesVersion(t)
  {
    hide SelectorAt, VersionIn;
    var latest, main, stable, current := Lit("latest"), Lit("main"), Lit("stable"), Lit("current");
    if i :| 0 <= i < |t| && (SelectorAt(t, i, latest) || SelectorAt(t, i, main) || SelectorAt(t, i, stable) || SelectorAt(t, i, current)) {
      var word := if SelectorAt(t, i, latest) then latest else if SelectorAt(t, i, main) then main
                  else if SelectorAt(t, i, stable) then stable else current;
      SelectorSplits(t, i, word);
    }
    if a, word, b :| word in {latest, main, stable, current} && VersionIn(t, a, word, b) {
      VersionAt(t, a, word, b);
    }
  }

  lemma DigestAtSplits(t: Text, i: nat)
    requires DigestAt(t, i)
    ensures i + 79 <= |t| && Hex64(t[i + 15..i + 79])
    ensures t == t[..i] + ([t[i]] + (Lit("digest=sha256:") + (t[i + 15..i + 79] + t[i + 79..])))
  {
    assert |DIGEST_IS| == 14 && DIGEST_IS == Lit("digest=sha256:");
    assert t == t[..i] + (t[i..i + 1] + (t[i + 1..i + 15] + (t[i + 15..i + 79] + t[i + 79..])));
    assert t[i..i + 1] == [t[i]];
  }

  lemma DigestSplitsAt(t: Text, a: Text, separator: Unit, digest: Text, b: Text)
    requires t == a + ([separator] + (Lit("digest=sha256:") + (digest + b))) && separator in {QUERY, AMPERSAND} && Hex64(digest)
    ensures DigestAt(t, |a|) && t[|a|] == separator && |t| == |a| + 79 + |b|
    ensures t[|a| + 79..] == b && t[|a| + 15..|a| + 79] == digest && t[|a| + 8..|a| + 15] == Lit("sha256:")
  {
    var middle := Lit("digest=sha256:");
    Halves(a, [separator] + (middle + (digest + b)));
    Halves([separator], middle + (digest + b));
    Halves(middle, digest + b);
    Halves(digest, b);
    assert DIGEST_IS == middle && |middle| == 14;
    assert t[|a|] == t[|a|..][0];
    assert t[|a| + 1..|a| + 15] == t[|a|..][1..][..14];
    assert t[|a| + 15..|a| + 79] == t[|a|..][1..][14..][..64] && t[|a| + 79..] == t[|a|..][1..][14..][64..];
    assert t[|a| + 8..|a| + 15] == t[|a| + 1..|a| + 15][7..] == middle[7..] == Lit("sha256:");
  }

  lemma DigestedExactly(t: Text)
    ensures PinsDigest(t) <==> Digested(t)
  {
    assert |DIGEST_IS| == 14;
    hide DigestAt, Hex64;
    if i :| 0 <= i < |t| && DigestAt(t, i) && (i + 79 == |t| || t[i + 79] == HASH || t[i + 79] == AMPERSAND) {
      DigestAtSplits(t, i);
      SeparatorAt(t, i);
      assert DigestIn(t, t[..i], t[i], t[i + 15..i + 79], t[i + 79..]);
    }
    if a, separator, digest, b :| DigestIn(t, a, separator, digest, b) {
      DigestSplitsAt(t, a, separator, digest, b);
      if b != [] { assert t[|a| + 79] == t[|a| + 79..][0]; }
    }
  }

  lemma SeparatorAt(t: Text, i: nat)
    requires DigestAt(t, i)
    ensures i < |t| && t[i] in {'?' as int, '&' as int}
  {}

  lemma PointerForm(f: Text)
    ensures PointerFragment(f) <==> Pointer(f)
  {
    if |f| >= 2 && f[0] == HASH && f[1] == SLASH {
      if PointerFragment(f) { assert forall i :: 2 <= i < |f| ==> !LineTerminator(f[i]); }
      if Pointer(f) { assert forall i :: 2 <= i < |f| ==> f[i] !in {0x0A, 0x0D, 0x2028, 0x2029}; }
    }
  }

  /** Where the key of a pinned reference ends. */
  lemma PinnedQuery(key: Text, digest: Text, fragment: Text)
    requires Hex64(digest)
    ensures var t := PinnedText(key, digest, fragment);
            var n := 18 + |key|;
            && StartsWith(t, SCHEME) && |SCHEME| == 18 && n < |t| && t[18..n] == key && t[n] == QUERY && DigestAt(t, n)
            && t[n + 79..] == fragment && t[n + 15..n + 79] == digest && t[n + 8..n + 15] == Lit("sha256:")
            && t[..n] == Lit("anvilkit://schema/") + key
  {
    var start := Lit("anvilkit://schema/");
    var tail := Lit("?digest=sha256:") + (digest + fragment);
    var t := PinnedText(key, digest, fragment);
    Halves(start, key + tail);
    Halves(key, tail);
    assert t == (start + key) + tail;
    Halves(start + key, tail);
    assert SCHEME == start;
    QuerySplit(digest + fragment);
    assert t == (start + key) + ([QUERY] + (Lit("digest=sha256:") + (digest + fragment)));
    hide Hex64, DigestAt;
    DigestSplitsAt(t, start + key, QUERY, digest, fragment);
    assert t[18..18 + |key|] == t[18..][..|key|];
  }

  lemma QuerySplit(rest: Text)
    ensures Lit("?digest=sha256:") + rest == [QUERY] + (Lit("digest=sha256:") + rest)
  {
    assert Lit("?digest=sha256:") == [QUERY] + Lit("digest=sha256:");
  }

  lemma ImmutableParts(t: Text) returns (n: nat)
    requires Immutable(t)
    ensures 18 <= n && n + 79 <= |t| && StartsWith(t, SCHEME) && LogicalName(t[18..n]) && DigestAt(t, n) && t[n] == QUERY
    ensures PointerFragment(t[n + 79..])
  {
    assert |SCHEME| == 18 && |DIGEST_IS| == 14;
    n :| 0 <= n <= |t| && |SCHEME| <= n && StartsWith(t, SCHEME) && LogicalName(t[|SCHEME|..n]) && DigestAt(t, n) && t[n] == QUERY
         && PointerFragment(t[n + 1 + |DIGEST_IS| + 64..]);
    DigestAtSplits(t, n);
    hide LogicalName, PointerFragment;
  }

  lemma ImmutableIsPinned(t: Text)
    requires Immutable(t)
    ensures Pinned(t)
  {
    var n := ImmutableParts(t);
    var digest, fragment := t[n + 15..n + 79], t[n + 79..];
    hide *;
    NameExactly(t[18..n]);
    PointerForm(fragment);
    DigestAtSplits(t, n);
    Assembled(t, n);
    PinnedBy(t, t[18..n], digest, fragment);
  }

  lemma PinnedBy(t: Text, key: Text, digest: Text, fragment: Text)
    requires t == PinnedText(key, digest, fragment) && Name(key) && Hex64(digest) && Pointer(fragment)
    ensures Pinned(t)
  {
    assert PinnedAs(t, key, digest, fragment);
  }

  lemma Assembled(t: Text, n: nat)
    requires StartsWith(t, SCHEME) && 18 <= n && DigestAt(t, n) && t[n] == QUERY && n + 79 <= |t|
    ensures t == PinnedText(t[18..n], t[n + 15..n + 79], t[n + 79..])
  {
    DigestAtSplits(t, n);
    var rest := t[n + 15..n + 79] + t[n + 79..];
    QuerySplit(rest);
    assert |SCHEME| == 18 && t[..18] == Lit("anvilkit://schema/");
    assert t[..n] == t[..18] + t[18..n];
    hide DigestAt, StartsWith, SCHEME;
    Regroup(t[..18], t[18..n], Lit("?digest=sha256:") + rest);
  }

  lemma Regroup(a: Text, b: Text, c: Text)
    ensures (a + b) + c == a + (b + c)
  {}

  lemma PinnedIsImmutable(t: Text)
    requires Pinned(t)
    ensures Immutable(t)
  {
    hide LogicalName, Name, Hex64, DigestAt, PointerFragment, PinnedText, OnePointer;
    var key, digest, fragment :| PinnedAs(t, key, digest, fragment) && Pointer(fragment);
    NameExactly(key);
    PointerForm(fragment);
    PinnedQuery(key, digest, fragment);
    assert |DIGEST_IS| == 14;
    assert LogicalName(t[18..18 + |key|]);
  }

  /** The finding on a reference, told from its text. */
  lemma SyntaxFindingExactly(ref: Text)
    ensures SyntaxFinding(ref) ==
            if Begins(ref, Lit("#")) then None
            else if Relative(ref) then Some(Ref008)
            else if !Begins(ref, Lit("anvilkit://schema/")) then Some(Ref001)
            else if '@' as int in ref || NamesVersion(ref) then Some(Ref002)
            else if !Digested(ref) then Some(Ref003)
            else if !Pinned(ref) then Some(Ref002)
            else None
  {
    BeginsExactly(ref, Lit("#"));
    BeginsExactly(ref, Lit("./"));
    BeginsExactly(ref, Lit("../"));
    BeginsExactly(ref, Lit("/"));
    BeginsExactly(ref, Lit("anvilkit://schema/"));
    VersionExactly(ref);
    DigestedExactly(ref);
    if Immutable(ref) { ImmutableIsPinned(ref); }
    if Pinned(ref) { PinnedIsImmutable(ref); }
    OtherSchemes(ref);
    assert Lit("#") == [HASH] && Lit("/") == [SLASH] && SCHEME == Lit("anvilkit://schema/");
    hide StartsWith, Begins, MutableSelector, NamesVersion, PinsDigest, Digested, Immutable, Pinned, SCHEME;
  }

  lemma OtherSchemes(ref: Text)
    ensures StartsWith(ref, SCHEME) ==>
              !StartsWith(ref, Lit("http://")) && !StartsWith(ref, Lit("https://")) && !StartsWith(ref, Lit("file:"))
              && !StartsWith(ref, Lit("data:"))
  {
    if StartsWith(ref, SCHEME) {
      FirstUnit(ref, SCHEME);
      forall p | p in {Lit("http://"), Lit("https://"), Lit("file:"), Lit("data:")} ensures !StartsWith(ref, p) {
        DifferentStart(ref, p);
      }
    }
  }

  lemma FirstUnit(t: Text, p: Text)
    requires p != [] && StartsWith(t, p)
    ensures t != [] && t[0] == p[0]
  {
    assert t[..|p|][0] == t[0];
  }

  lemma DifferentStart(t: Text, p: Text)
    requires p != [] && t != [] && t[0] != p[0]
    ensures !StartsWith(t, p)
  {
    if |p| <= |t| { assert t[..|p|][0] == t[0]; }
  }

  // ---- the digest a reference declares ----

  lemma {:induction false} DigestFromSkips(t: Text, i: nat, n: nat)
    requires i <= n && DigestAt(t, n) && forall k :: i <= k < n ==> t[k] != QUERY && t[k] != AMPERSAND
    ensures DigestFrom(t, i) == Some(t[n + 8..n + 79])
    decreases n - i
  {
    assert |DIGEST_IS| == 14;
    hide DIGEST_IS;
    if i < n { DigestFromSkips(t, i + 1, n); }
  }

  /** Of a pinned reference it is the digest it was put together with. */
  lemma DeclaredIs(key: Text, digest: Text, fragment: Text)
    requires Name(key) && Hex64(digest)
    ensures DeclaredDigest(PinnedText(key, digest, fragment)) == Some(Lit("sha256:") + digest)
  {
    var t := PinnedText(key, digest, fragment);
    var n := 18 + |key|;
    var start := Lit("anvilkit://schema/");
    PinnedQuery(key, digest, fragment);
    NameHasNoQuery(key);
    hide DigestAt, Hex64, Name, PinnedText, StartsWith;
    forall k | 0 <= k < n ensures t[k] != QUERY && t[k] != AMPERSAND {
      assert t[k] == (start + key)[k];
      if k < 18 { assert t[k] == start[k]; } else { assert t[k] == key[k - 18]; }
    }
    DigestFromSkips(t, 0, n);
    assert t[n + 8..n + 79] == t[n + 8..n + 15] + t[n + 15..n + 79];
  }

  lemma {:induction false} FragmentOff(a: Text, f: Text)
    requires HASH !in a && (f == [] || f[0] == HASH)
    ensures WithoutFragment(a + f) == a
    decreases |a|
  {
    if a == [] {
      assert a + f == f;
    } else {
      FragmentOff(a[1..], f);
      assert (a + f)[1..] == a[1..] + f;
    }
  }

  /** The URI of a pinned reference is the reference without its fragment. */
  lemma UriIs(key: Text, digest: Text, fragment: Text)
    requires Name(key) && Hex64(digest) && Pointer(fragment)
    ensures WithoutFragment(PinnedText(key, digest, fragment)) == PinnedText(key, digest, [])
  {
    NameHasNoQuery(key);
    var uri := PinnedText(key, digest, []);
    var start, middle := Lit("anvilkit://schema/"), Lit("?digest=sha256:");
    assert digest + [] == digest;
    assert HASH !in start && HASH !in middle && HASH !in digest && HASH !in key;
    assert PinnedText(key, digest, fragment) == uri + fragment by { FragmentLast(start, key, middle, digest, fragment); }
    FragmentOff(uri, fragment);
  }

  lemma FragmentLast(a: Text, b: Text, c: Text, d: Text, f: Text)
    ensures a + (b + (c + (d + f))) == (a + (b + (c + d))) + f
  {}

  /** What is wrong with a reference to another document before it is followed: its
      syntax, or there is no document of its URI, or its bytes have another digest
      than the one it names. */
  lemma ReferenceFaultExactly(g: Graph, ref: Text, key: Text, digest: Text, fragment: Text)
    ensures SyntaxFinding(ref).Some? ==> ReferenceFault(g, ref) == [Finding(SyntaxFinding(ref).value, ref)]
    ensures SyntaxFinding(ref).None? && PinnedAs(ref, key, digest, fragment) && Pointer(fragment) ==>
              var uri := PinnedText(key, digest, []);
              ReferenceFault(g, ref) ==
              if uri !in g.byUri then [Finding(Ref005, ref)]
              else if g.sha(g.byUri[uri].bytes) != Lit("sha256:") + digest then [Finding(Ref004, ref)]
              else []
  {
    if SyntaxFinding(ref).None? && PinnedAs(ref, key, digest, fragment) && Pointer(fragment) {
      UriIs(key, digest, fragment);
      DeclaredIs(key, digest, []);
    }
    hide SyntaxFinding, WithoutFragment, DeclaredDigest, PinnedText, Name, Hex64, Pointer;
  }
}
