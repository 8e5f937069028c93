/** JSON pointers (RFC 6901) as the code writes and reads them: escaping by
    string replacement, joining and splitting at slashes. */
module JsonPointer {
  import opened CodeUnits
  import opened Json

  const TILDE: Unit := 0x7E
  const ZERO_UNIT: Unit := 0x30
  const ONE_UNIT: Unit := 0x31

  /** value.replaceAll(from, to) for one unit. */
  function ReplaceUnit(t: Text, from: Unit, to: Text): Text {
    if t == [] then [] else (if t[0] == from then to else [t[0]]) + ReplaceUnit(t[1..], from, to)
  }

  /** value.replaceAll([first, second], [to]), scanning from the left. */
  function ReplacePair(t: Text, first: Unit, second: Unit, to: Unit): Text
    decreases |t|
  {
    if |t| < 2 then t
    else if t[0] == first && t[1] == second then [to] + ReplacePair(t[2..], first, second, to)
    else [t[0]] + ReplacePair(t[1..], first, second, to)
  }

  /** value.replaceAll("~", "~0").replaceAll("/", "~1") */
  function Escape(t: Text): Text {
    ReplaceUnit(ReplaceUnit(t, TILDE, [TILDE, ZERO_UNIT]), SLASH, [TILDE, ONE_UNIT])
  }

  /** part.replaceAll("~1", "/").replaceAll("~0", "~") */
  function Unescape(t: Text): Text {
    ReplacePair(ReplacePair(t, TILDE, ONE_UNIT, SLASH), TILDE, ZERO_UNIT, TILDE)
  }

  /** Both passes of Escape at once, unit by unit. */
  function EscapedUnit(u: Unit): Text {
    if u == TILDE then [TILDE, ZERO_UNIT] else if u == SLASH then [TILDE, ONE_UNIT] else [u]
  }

  lemma {:induction false} ReplaceUnitConcat(a: Text, b: Text, from: Unit, to: Text)
    ensures ReplaceUnit(a + b, from, to) == ReplaceUnit(a, from, to) + ReplaceUnit(b, from, to)
    decreases |a|
  {
    if a == [] {
      assert a + b == b;
    } else {
      assert (a + b)[1..] == a[1..] + b;
      ReplaceUnitConcat(a[1..], b, from, to);
    }
  }

  lemma EscapeStep(t: Text)
    requires t != []
    ensures Escape(t) == EscapedUnit(t[0]) + Escape(t[1..])
  {
    var head: Text := if t[0] == TILDE then [TILDE, ZERO_UNIT] else [t[0]];
    var tail := ReplaceUnit(t[1..], TILDE, [TILDE, ZERO_UNIT]);
    ReplaceUnitConcat(head, tail, SLASH, [TILDE, ONE_UNIT]);
    if t[0] == TILDE {
      assert ReplaceUnit(head, SLASH, [TILDE, ONE_UNIT]) == [TILDE] + ReplaceUnit([ZERO_UNIT], SLASH, [TILDE, ONE_UNIT]) by {
        assert head[1..] == [ZERO_UNIT];
      }
      assert ReplaceUnit([ZERO_UNIT], SLASH, [TILDE, ONE_UNIT]) == [ZERO_UNIT];
    }
  }

  /** The first pass of Unescape turns the escaped slashes back and nothing else. */
  lemma {:induction false} UnescapeFirstPass(t: Text)
    ensures ReplacePair(Escape(t), TILDE, ONE_UNIT, SLASH) == ReplaceUnit(t, TILDE, [TILDE, ZERO_UNIT])
    decreases |t|
  {
    if t != [] {
      EscapeStep(t);
      UnescapeFirstPass(t[1..]);
      var rest := Escape(t[1..]);
      var e := EscapedUnit(t[0]) + rest;
      if t[0] == TILDE {
        assert e[1..] == [ZERO_UNIT] + rest;
        LoneUnit(ZERO_UNIT, rest);
      } else if t[0] == SLASH {
        assert e[2..] == rest;
      } else {
        LoneUnit(t[0], rest);
      }
    }
  }

  lemma LoneUnit(u: Unit, rest: Text)
    requires u != TILDE
    ensures forall second: Unit, to: Unit :: ReplacePair([u] + rest, TILDE, second, to) == [u] + ReplacePair(rest, TILDE, second, to)
  {
    assert ([u] + rest)[1..] == rest;
  }

  lemma {:induction false} UnescapeSecondPass(t: Text)
    ensures ReplacePair(ReplaceUnit(t, TILDE, [TILDE, ZERO_UNIT]), TILDE, ZERO_UNIT, TILDE) == t
    decreases |t|
  {
    if t != [] {
      UnescapeSecondPass(t[1..]);
      var rest := ReplaceUnit(t[1..], TILDE, [TILDE, ZERO_UNIT]);
      if t[0] == TILDE {
        assert ([TILDE, ZERO_UNIT] + rest)[2..] == rest;
      } else {
        LoneUnit(t[0], rest);
      }
    }
  }

  /** Unescaping an escaped token gives the token back (RFC 6901, sections 3 and 4). */
  lemma UnescapeEscape(t: Text)
    ensures Unescape(Escape(t)) == t
  {
    UnescapeFirstPass(t);
    UnescapeSecondPass(t);
  }

  lemma {:induction false} EscapeHasNoSlash(t: Text)
    ensures SLASH !in Escape(t)
    decreases |t|
  {
    if t != [] {
      EscapeStep(t);
      EscapeHasNoSlash(t[1..]);
    }
  }

  lemma UnescapePlain(t: Text)
    requires TILDE !in t
    ensures Unescape(t) == t
  {
    PairAbsent(t, ONE_UNIT, SLASH);
    PairAbsent(t, ZERO_UNIT, TILDE);
  }

  lemma {:induction false} PairAbsent(t: Text, second: Unit, to: Unit)
    requires TILDE !in t
    ensures ReplacePair(t, TILDE, second, to) == t
    decreases |t|
  {
    if |t| >= 2 {
      PairAbsent(t[1..], second, to);
      assert t[0] in t;
    }
  }

  lemma {:induction false} PairConcat(a: Text, b: Text, second: Unit, to: Unit)
    requires a == [] || a[|a| - 1] != TILDE
    ensures ReplacePair(a + b, TILDE, second, to) == ReplacePair(a, TILDE, second, to) + ReplacePair(b, TILDE, second, to)
    decreases |a|
  {
    if a == [] {
      assert a + b == b;
    } else if |a| == 1 {
      assert (a + b)[1..] == b;
    } else if a[0] == TILDE && a[1] == second {
      assert (a + b)[2..] == a[2..] + b;
      PairConcat(a[2..], b, second, to);
    } else {
      assert (a + b)[1..] == a[1..] + b;
      PairConcat(a[1..], b, second, to);
    }
  }

  lemma NothingToUnescape()
    ensures Unescape([]) == []
  {}

  lemma {:induction false} EscapeEnd(t: Text)
    requires t != []
    ensures Escape(t) != [] && Escape(t)[|Escape(t)| - 1] != TILDE
    ensures var first := ReplaceUnit(t, TILDE, [TILDE, ZERO_UNIT]); first != [] && first[|first| - 1] != TILDE
    decreases |t|
  {
    EscapeStep(t);
    if |t| > 1 { EscapeEnd(t[1..]); }
  }

  /** What follows an escaped token is unescaped on its own. */
  lemma UnescapeAfterEscape(t: Text, b: Text)
    ensures Unescape(Escape(t) + b) == t + Unescape(b)
  {
    var once := ReplaceUnit(t, TILDE, [TILDE, ZERO_UNIT]);
    if t == [] {
      assert Escape(t) + b == b;
    } else {
      EscapeEnd(t);
      PairConcat(Escape(t), b, ONE_UNIT, SLASH);
      UnescapeFirstPass(t);
      PairConcat(once, ReplacePair(b, TILDE, ONE_UNIT, SLASH), ZERO_UNIT, TILDE);
      UnescapeSecondPass(t);
    }
  }

  lemma UnescapeSomething(t: Text)
    requires t != []
    ensures Unescape(t) != []
  {}

  // ---- joining and splitting ----

  function Join(parts: seq<Text>): Text
    requires parts != []
  {
    if |parts| == 1 then parts[0] else parts[0] + ([SLASH] + Join(parts[1..]))
  }

  /** The text before the first slash. */
  function FirstPart(t: Text): (p: Text)
    ensures |p| <= |t| && p == t[..|p|] && SLASH !in p && (|p| < |t| ==> t[|p|] == SLASH)
  {
    if t == [] || t[0] == SLASH then [] else [t[0]] + FirstPart(t[1..])
  }

  /** t.split("/") */
  function Split(t: Text): (parts: seq<Text>)
    ensures parts != []
    decreases |t|
  {
    var p := FirstPart(t);
    if |p| == |t| then [p] else [p] + Split(t[|p| + 1..])
  }

  lemma {:induction false} FirstPartAfter(a: Text, rest: Text)
    requires SLASH !in a
    ensures FirstPart(a + rest) == a + FirstPart(rest)
    decreases |a|
  {
    if a == [] {
      assert a + rest == rest;
    } else {
      assert (a + rest)[1..] == a[1..] + rest;
      FirstPartAfter(a[1..], rest);
    }
  }

  lemma FirstPartOf(a: Text, rest: Text)
    requires SLASH !in a && (rest == [] || rest[0] == SLASH)
    ensures FirstPart(a + rest) == a
  {
    FirstPartAfter(a, rest);
  }

  lemma SplitStarts(t: Text)
    ensures Split(t)[0] == FirstPart(t)
  {}

  /** Splitting takes off the part before the first slash. */
  lemma SplitStep(a: Text, rest: Text)
    requires SLASH !in a
    ensures Split(a + ([SLASH] + rest)) == [a] + Split(rest)
  {
    var t := a + ([SLASH] + rest);
    FirstPartOf(a, [SLASH] + rest);
    hide FirstPart;
    assert t[|a| + 1..] == rest;
  }

  lemma SplitLast(a: Text)
    requires SLASH !in a
    ensures Split(a) == [a]
  {
    FirstPartOf(a, []);
    assert a + [] == a;
  }

  lemma FirstAndRest<T>(x: T, rest: seq<T>)
    ensures ([x] + rest)[0] == x && ([x] + rest)[1..] == rest
  {}

  lemma GluedAtSlash(a: Text, p: Text, r: Text)
    requires SLASH !in a && SLASH !in p
    ensures Split(p + ([SLASH] + r)) == [p] + Split(r)
    ensures Split(a + (p + ([SLASH] + r))) == [a + p] + Split(r)
  {
    hide Split;
    SplitStep(p, r);
    SplitStep(a + p, r);
    assert a + (p + ([SLASH] + r)) == (a + p) + ([SLASH] + r);
  }

  lemma GluedWhole(a: Text, p: Text)
    requires SLASH !in a && SLASH !in p
    ensures Split(p) == [p] && Split(a + p) == [a + p]
  {
    SplitLast(p);
    SplitLast(a + p);
  }

  lemma AtFirstSlash(t: Text) returns (p: Text, r: Text)
    ensures SLASH !in p && (t == p || t == p + ([SLASH] + r))
  {
    p := FirstPart(t);
    r := if |p| < |t| then t[|p| + 1..] else [];
  }

  /** A prefix without a slash is glued to the first part. */
  lemma SplitGlued(a: Text, rest: Text)
    requires SLASH !in a
    ensures Split(a + rest) == [a + Split(rest)[0]] + Split(rest)[1..]
  {
    hide Split;
    var p, r := AtFirstSlash(rest);
    if rest == p {
      GluedWhole(a, p);
    } else {
      GluedAtSlash(a, p, r);
      FirstAndRest(p, Split(r));
    }
  }

  lemma {:induction false} SplitJoin(parts: seq<Text>)
    requires parts != [] && forall i :: 0 <= i < |parts| ==> SLASH !in parts[i]
    ensures Split(Join(parts)) == parts
    decreases |parts|
  {
    hide Split;
    if |parts| == 1 {
      SplitLast(parts[0]);
    } else {
      SplitStep(parts[0], Join(parts[1..]));
      SplitJoin(parts[1..]);
    }
  }

  // ---- pointers ----

  function EscapeAll(tokens: seq<Text>): (parts: seq<Text>)
    ensures |parts| == |tokens| && forall i :: 0 <= i < |tokens| ==> parts[i] == Escape(tokens[i])
  {
    if tokens == [] then [] else [Escape(tokens[0])] + EscapeAll(tokens[1..])
  }

  function UnescapeAll(parts: seq<Text>): (tokens: seq<Text>)
    ensures |tokens| == |parts| && forall i :: 0 <= i < |parts| ==> tokens[i] == Unescape(parts[i])
  {
    if parts == [] then [] else [Unescape(parts[0])] + UnescapeAll(parts[1..])
  }

  lemma UnescapeAllCons(first: Text, rest: seq<Text>)
    ensures UnescapeAll([first] + rest) == [Unescape(first)] + UnescapeAll(rest)
  {
    assert ([first] + rest)[1..] == rest;
  }

  lemma NoTokens()
    ensures UnescapeAll([]) == []
  {}

  /** The pointer text, after its #/, of a list of tokens. */
  function PointerText(tokens: seq<Text>): Text
    requires tokens != []
  {
    Join(EscapeAll(tokens))
  }

  /** The tokens a pointer text is read as. */
  function Tokens(t: Text): (tokens: seq<Text>)
    ensures tokens != []
  {
    UnescapeAll(Split(t))
  }

  /** Written and read back, a pointer has exactly its tokens. */
  lemma TokensOfPointer(tokens: seq<Text>)
    requires tokens != []
    ensures Tokens(PointerText(tokens)) == tokens
  {
    var parts := EscapeAll(tokens);
    forall i | 0 <= i < |parts| ensures SLASH !in parts[i] && Unescape(parts[i]) == tokens[i] {
      EscapeHasNoSlash(tokens[i]);
      UnescapeEscape(tokens[i]);
    }
    SplitJoin(parts);
  }

  // ---- names that stand in a pointer as they are ----

  predicate HasPair(t: Text, first: Unit, second: Unit) { exists i :: 0 <= i < |t| - 1 && t[i] == first && t[i + 1] == second }

  predicate NeedsNoEscape(t: Text) {
    SLASH !in t && !HasPair(t, TILDE, ONE_UNIT) && !HasPair(t, TILDE, ZERO_UNIT)
  }

  lemma {:induction false} PairUnchanged(t: Text, first: Unit, second: Unit, to: Unit)
    ensures |ReplacePair(t, first, second, to)| <= |t|
    ensures HasPair(t, first, second) <==> |ReplacePair(t, first, second, to)| < |t|
    ensures !HasPair(t, first, second) ==> ReplacePair(t, first, second, to) == t
    decreases |t|
  {
    if |t| >= 2 {
      if t[0] == first && t[1] == second {
        PairUnchanged(t[2..], first, second, to);
      } else {
        PairUnchanged(t[1..], first, second, to);
        if HasPair(t, first, second) {
          var i :| 0 <= i < |t| - 1 && t[i] == first && t[i + 1] == second;
          assert t[1..][i - 1] == first && t[1..][i] == second;
        }
        if HasPair(t[1..], first, second) {
          var i :| 0 <= i < |t[1..]| - 1 && t[1..][i] == first && t[1..][i + 1] == second;
          assert t[i + 1] == first && t[i + 2] == second;
        }
      }
    }
  }

  /** Unescaping leaves a text alone exactly when neither escape occurs in it. */
  lemma UnescapeUnchanged(t: Text)
    ensures Unescape(t) == t <==> !HasPair(t, TILDE, ONE_UNIT) && !HasPair(t, TILDE, ZERO_UNIT)
  {
    var once := ReplacePair(t, TILDE, ONE_UNIT, SLASH);
    PairUnchanged(t, TILDE, ONE_UNIT, SLASH);
    PairUnchanged(once, TILDE, ZERO_UNIT, TILDE);
    hide ReplacePair, HasPair;
  }

  lemma SplitsAtSlash(t: Text)
    requires SLASH in t
    ensures |Split(t)| > 1
  {
    assert t == t[..|t|];
  }

  /** As a pointer's last token a text is read as itself exactly when it needs no
      escaping. */
  lemma ReadAsItselfExactly(t: Text)
    ensures Tokens(t) == [t] <==> NeedsNoEscape(t)
  {
    UnescapeUnchanged(t);
    hide Unescape, Split, HasPair;
    if SLASH !in t {
      SplitLast(t);
      assert Tokens(t)[0] == Unescape(t) && |Tokens(t)| == 1;
    } else {
      SplitsAtSlash(t);
    }
  }

  /** Putting units that are neither tilde nor slash in front changes nothing. */
  lemma PrefixNeedsNothing(p: Text, t: Text)
    requires TILDE !in p && SLASH !in p
    ensures NeedsNoEscape(p + t) <==> NeedsNoEscape(t)
  {
    PairAfter(p, t, ONE_UNIT);
    PairAfter(p, t, ZERO_UNIT);
  }

  lemma PairAfter(p: Text, t: Text, second: Unit)
    requires TILDE !in p
    ensures HasPair(p + t, TILDE, second) <==> HasPair(t, TILDE, second)
  {
    var u := p + t;
    assert forall i :: 0 <= i < |p| ==> u[i] in p;
    if HasPair(u, TILDE, second) {
      var i :| 0 <= i < |u| - 1 && u[i] == TILDE && u[i + 1] == second;
      assert t[i - |p|] == TILDE && t[i - |p| + 1] == second;
    }
    if HasPair(t, TILDE, second) {
      var i :| 0 <= i < |t| - 1 && t[i] == TILDE && t[i + 1] == second;
      assert u[|p| + i] == TILDE && u[|p| + i + 1] == second;
    }
  }

  /** A text without escapes that does not end in a tilde can go in front of one
      that is still to be unescaped. */
  predicate Stands(a: Text) { NeedsNoEscape(a) && (a == [] || a[|a| - 1] != TILDE) }

  lemma UnescapeAfterStanding(a: Text, b: Text)
    requires Stands(a)
    ensures Unescape(a + b) == a + Unescape(b)
  {
    PairConcat(a, b, ONE_UNIT, SLASH);
    PairUnchanged(a, TILDE, ONE_UNIT, SLASH);
    PairConcat(a, ReplacePair(b, TILDE, ONE_UNIT, SLASH), ZERO_UNIT, TILDE);
    PairUnchanged(a, TILDE, ZERO_UNIT, TILDE);
  }

  /** And no other text can, whatever follows. */
  lemma StandsExactly(a: Text)
    ensures Stands(a) <==> SLASH !in a && forall b: Text :: Unescape(a + b) == a + Unescape(b)
  {
    hide Unescape, HasPair;
    if Stands(a) {
      forall b: Text ensures Unescape(a + b) == a + Unescape(b) { UnescapeAfterStanding(a, b); }
    } else if SLASH !in a {
      if NeedsNoEscape(a) {
        TildeMerges(a);
      } else {
        UnescapeUnchanged(a);
        NothingToUnescape();
        assert a + [] == a;
        assert Unescape(a + []) != a + Unescape([]);
      }
    }
  }

  lemma TildeMerges(a: Text)
    requires a != [] && a[|a| - 1] == TILDE
    ensures Unescape(a + [ZERO_UNIT]) != a + Unescape([ZERO_UNIT])
  {
    var t := a + [ZERO_UNIT];
    assert t[|a| - 1] == TILDE && t[|a|] == ZERO_UNIT;
    UnescapeUnchanged(t);
    UnescapePlain([ZERO_UNIT]);
  }

  lemma {:induction false} EscapeGrows(t: Text)
    ensures |Escape(t)| >= |t| && (|Escape(t)| == |t| <==> TILDE !in t && SLASH !in t)
    ensures TILDE !in t && SLASH !in t ==> Escape(t) == t
    decreases |t|
  {
    if t != [] {
      EscapeStep(t);
      hide Escape;
      EscapeGrows(t[1..]);
      assert t == [t[0]] + t[1..];
    }
  }
}
