/** The canonical text told from the grammar: of all the renderings of a value, the
    one with no gaps, keys in code-unit order, every string as short as it can be
    written and hexadecimal digits in lower case. */
module ShortestText {
  import opened CodeUnits
  import opened Json
  import opened StrictJson
  import opened JsonGrammar
  import opened Canonical
  import opened CanonicalTrees
  import CanonicalForm
  import Spelling

  // ---- escapes ----

  predicate LowerHex(u: Unit) { Spelling.Between(u, 'a', 'f') || Spelling.Between(u, '0', '9') }

  predicate LowerPiece(c: Piece) {
    match c
    case Hex(h) => forall k :: 0 <= k < |h| ==> LowerHex(h[k])
    case HexPair(h1, h2) => forall k :: 0 <= k < |h1 + h2| ==> LowerHex((h1 + h2)[k])
    case _ => true
  }

  predicate LowerPieces(cs: seq<Piece>) { forall k :: 0 <= k < |cs| ==> LowerPiece(cs[k]) }

  // ---- the shortest string ----

  /** No rendering of the same string is shorter, and its digits are lower case. */
  ghost predicate Shortest(cs: seq<Piece>)
    requires GoodPieces(cs)
  {
    && LowerPieces(cs)
    && forall ds :: GoodPieces(ds) && Decode(ds) == Decode(cs) ==> |RenderPieces(cs)| <= |RenderPieces(ds)|
  }

  lemma SameDigits(a: int, b: int, c: int, d: int, x: int, y: int, z: int, w: int)
    requires 0 <= a < 16 && 0 <= b < 16 && 0 <= c < 16 && 0 <= d < 16
    requires 0 <= x < 16 && 0 <= y < 16 && 0 <= z < 16 && 0 <= w < 16
    requires a * 0x1000 + b * 0x100 + c * 0x10 + d == x * 0x1000 + y * 0x100 + z * 0x10 + w
    ensures a == x && b == y && c == z && d == w
  {}

  lemma LowerDetermined(u: Unit, w: Unit)
    requires LowerHex(u) && LowerHex(w) && HexDigit(u) == HexDigit(w)
    ensures u == w
  {}

  lemma HexDetermined(h: Text, g: Text)
    requires IsHex4(h) && IsHex4(g) && HexValue(h) == HexValue(g)
    requires forall k :: 0 <= k < 4 ==> LowerHex(h[k]) && LowerHex(g[k])
    ensures h == g
  {
    SameDigits(HexDigit(h[0]), HexDigit(h[1]), HexDigit(h[2]), HexDigit(h[3]),
               HexDigit(g[0]), HexDigit(g[1]), HexDigit(g[2]), HexDigit(g[3]));
    hide HexValue, HexDigit;
    LowerDetermined(h[0], g[0]);
    LowerDetermined(h[1], g[1]);
    LowerDetermined(h[2], g[2]);
    LowerDetermined(h[3], g[3]);
  }

  lemma ControlPiece(c: Piece, u: Unit)
    requires GoodPiece(c) && DecodePiece(c) == [u] && u < 0x20 && EscapeLetter(u) < 0
    ensures c.Hex? && (LowerPiece(c) ==> c.h == [ZERO, ZERO, HexLetter(u / 16), HexLetter(u % 16)])
  {
    assert c.Hex?;
    if LowerPiece(c) {
      PieceOf(u);
      HexDetermined(c.h, [ZERO, ZERO, HexLetter(u / 16), HexLetter(u % 16)]);
    }
  }

  lemma FirstPieceShortest(c: Piece, s: Text)
    requires GoodPiece(c) && s != [] && Scalar(s) && DecodePiece(c) == s[..Width(s)]
    ensures LowerPiece(FirstPiece(s))
    ensures |RenderPiece(FirstPiece(s))| <= |RenderPiece(c)|
    ensures LowerPiece(c) && |RenderPiece(FirstPiece(s))| == |RenderPiece(c)| ==> c == FirstPiece(s)
  {
    var u := s[0];
    if !IsHigh(u) && u < 0x20 && EscapeLetter(u) < 0 { ControlPiece(c, u); }
  }

  lemma FirstPieceWidth(c: Piece, rest: Text)
    requires GoodPiece(c) && Scalar(DecodePiece(c) + rest)
    ensures DecodePiece(c) == (DecodePiece(c) + rest)[..Width(DecodePiece(c) + rest)]
    ensures rest == (DecodePiece(c) + rest)[Width(DecodePiece(c) + rest)..]
  {}

  lemma LowerCons(c: Piece, rest: seq<Piece>)
    ensures LowerPieces([c] + rest) <==> LowerPiece(c) && LowerPieces(rest)
  {
    var cs := [c] + rest;
    assert cs[0] == c && forall k :: 0 <= k < |rest| ==> cs[k + 1] == rest[k];
    hide LowerPiece;
  }

  /** The canonical pieces of a string are its shortest, and the only ones so short
      whose digits are lower case. */
  lemma {:induction false} CanonPiecesShortest(cs: seq<Piece>)
    requires GoodPieces(cs) && Scalar(Decode(cs))
    ensures LowerPieces(CanonPieces(Decode(cs)))
    ensures |Escaped(Decode(cs))| <= |RenderPieces(cs)|
    ensures LowerPieces(cs) && |Escaped(Decode(cs))| == |RenderPieces(cs)| ==> cs == CanonPieces(Decode(cs))
  {
    if cs != [] {
      var c, rest, s := cs[0], Decode(cs[1..]), Decode(cs);
      FirstPieceWidth(c, rest);
      FirstPieceMeans(s);
      FirstPieceShortest(c, s);
      hide DecodePiece, GoodPiece, RenderPiece, LowerPiece, FirstPiece, CanonPieces, Escaped, LowerPieces;
      CanonPiecesShortest(cs[1..]);
      LowerCons(FirstPiece(s), CanonPieces(rest));
      LowerCons(c, cs[1..]);
      assert cs == [c] + cs[1..];
    }
  }

  /** Pieces are the canonical ones of their string exactly when they are shortest. */
  lemma ShortestExactly(cs: seq<Piece>)
    requires GoodPieces(cs)
    ensures Scalar(Decode(cs)) && (Shortest(cs) <==> cs == CanonPieces(Decode(cs)))
  {
    CanonicalForm.DecodeScalar(cs);
    var s := Decode(cs);
    CanonPiecesMean(s);
    CanonPiecesShortest(cs);
    forall ds | GoodPieces(ds) && Decode(ds) == s ensures |Escaped(s)| <= |RenderPieces(ds)| {
      CanonPiecesShortest(ds);
    }
    hide Escaped, CanonPieces, Decode, RenderPieces;
  }

  // ---- the order of keys ----

  /** At the first unit where they differ the first text has the smaller, or ends. */
  predicate Precedes(a: Text, b: Text) {
    exists k :: 0 <= k <= |a| && k < |b| && a[..k] == b[..k] && (k < |a| ==> a[k] < b[k])
  }

  lemma PrecedesAfter(a: Text, b: Text)
    requires a != [] && b != [] && Precedes(a, b)
    ensures a[0] < b[0] || (a[0] == b[0] && Precedes(a[1..], b[1..]))
  {
    var k :| 0 <= k <= |a| && k < |b| && a[..k] == b[..k] && (k < |a| ==> a[k] < b[k]);
    if k > 0 {
      assert a[..k][0] == a[0] && b[..k][0] == b[0];
      assert a[1..][..k - 1] == a[..k][1..] && b[1..][..k - 1] == b[..k][1..];
    }
  }

  lemma {:induction false} LessExactly(a: Text, b: Text)
    ensures Less(a, b) <==> Precedes(a, b)
    decreases |a|
  {
    if a == [] {
      if b != [] { assert a[..0] == b[..0]; }
    } else if b != [] {
      LessExactly(a[1..], b[1..]);
      if Less(a, b) {
        if a[0] < b[0] {
          assert a[..0] == b[..0];
        } else {
          var k :| 0 <= k <= |a| - 1 && k < |b| - 1 && a[1..][..k] == b[1..][..k] && (k < |a| - 1 ==> a[1..][k] < b[1..][k]);
          assert a[..k + 1] == [a[0]] + a[1..][..k] && b[..k + 1] == [b[0]] + b[1..][..k];
        }
      } else if Precedes(a, b) {
        PrecedesAfter(a, b);
      }
    }
  }

  // ---- the normal form of a tree ----

  /** A number is written as ECMAScript shows the number it reads as. */
  predicate ShownNumber(rt: Runtime, token: NumberToken) {
    var n := rt.toNumber(RenderToken(token));
    n.Finite? && token == rt.show(n.x)
  }

  ghost predicate BareMember(m: Member) {
    m.before == [] && m.mid == [] && m.pad == [] && m.after == [] && GoodPieces(m.key) && Shortest(m.key)
  }

  predicate KeysAscend(members: seq<Member>)
    requires GoodMembers(members)
  {
    forall i, j :: 0 <= i < j < |members| ==> Precedes(Decode(members[i].key), Decode(members[j].key))
  }

  ghost predicate Normal(rt: Runtime, t: Tree)
    requires Grammatical(t)
  {
    match t
    case TNumber(token) => ShownNumber(rt, token)
    case TString(pieces) => Shortest(pieces)
    case TArray(gap, items) =>
      gap == [] && forall k :: 0 <= k < |items| ==> items[k].before == [] && items[k].after == [] && Normal(rt, items[k].value)
    case TObject(gap, members) =>
      gap == [] && KeysAscend(members) &&
      forall k :: 0 <= k < |members| ==> BareMember(members[k]) && Normal(rt, members[k].value)
    case _ => true
  }

  // ---- a normal tree is the canonical tree of its value ----

  lemma {:induction false} DenoteItemsAt(p: Profile, items: seq<Item>, k: nat)
    requires GoodItems(items) && k < |items|
    ensures DenoteItems(p, items)[k] == Denote(p, items[k].value)
  {
    if k > 0 { DenoteItemsAt(p, items[1..], k - 1); }
  }

  lemma {:induction false} CanonItemsAt(rt: Runtime, items: seq<Value>, k: nat)
    requires (forall k :: 0 <= k < |items| ==> Printable(rt, items[k])) && k < |items|
    ensures CanonItems(rt, items)[k] == Item([], CanonTree(rt, items[k]), [])
  {
    if k > 0 { CanonItemsAt(rt, items[1..], k - 1); }
  }

  function KeysIn(members: seq<Member>): (ks: seq<Text>)
    requires GoodMembers(members)
    ensures |ks| == |members|
  {
    seq(|members|, k requires 0 <= k < |members| => Decode(members[k].key))
  }

  lemma {:induction false} DenotedKeys(p: Profile, members: seq<Member>, base: map<Text, Value>, x: Text)
    requires GoodMembers(members)
    ensures x in DenoteMembers(p, members, base) <==> x in base || x in KeysIn(members)
    ensures x in base && x !in KeysIn(members) ==> DenoteMembers(p, members, base)[x] == base[x]
  {
    if members != [] {
      hide Denote, Decode;
      DenotedKeys(p, members[1..], base[Decode(members[0].key) := Denote(p, members[0].value)], x);
      KeysInCons(members);
    }
  }

  /** Distinct keys each hold the value of their member. */
  lemma {:induction false} DenoteMembersAt(p: Profile, members: seq<Member>, base: map<Text, Value>, k: nat)
    requires GoodMembers(members) && DistinctKeys(members) && k < |members|
    ensures var r, key := DenoteMembers(p, members, base), Decode(members[k].key);
            key in r && r[key] == Denote(p, members[k].value)
  {
    var key, tail := Decode(members[0].key), members[1..];
    var next := base[key := Denote(p, members[0].value)];
    DistinctTail(members);
    if k == 0 {
      hide Denote, Decode;
      DenotedKeys(p, tail, next, key);
    } else {
      hide Denote, Decode, DistinctKeys;
      DenoteMembersAt(p, tail, next, k - 1);
    }
  }

  lemma KeysInCons(members: seq<Member>)
    requires GoodMembers(members) && members != []
    ensures KeysIn(members) == [Decode(members[0].key)] + KeysIn(members[1..])
  {
    hide Decode, Grammatical;
  }

  lemma DistinctTail(members: seq<Member>)
    requires GoodMembers(members) && DistinctKeys(members) && members != []
    ensures DistinctKeys(members[1..]) && Decode(members[0].key) !in KeysIn(members[1..])
  {
    hide Decode, Grammatical;
  }

  lemma KeysSorted(p: Profile, members: seq<Member>)
    requires GoodMembers(members) && KeysAscend(members)
    ensures DistinctKeys(members)
    ensures KeysIn(members) == SortedKeys(DenoteMembers(p, members, map[]).Keys)
  {
    var ks := KeysIn(members);
    forall i, j | 0 <= i < j < |members| ensures Less(ks[i], ks[j]) && ks[i] != ks[j] {
      LessExactly(ks[i], ks[j]);
      LessIrreflexive(ks[i]);
    }
    hide Decode, Denote;
    forall x ensures x in DenoteMembers(p, members, map[]) <==> x in ks { DenotedKeys(p, members, map[], x); }
    SortedUnique(ks, DenoteMembers(p, members, map[]).Keys);
  }

  lemma {:induction false} NormalIsCanonical(p: Profile, rt: Runtime, t: Tree)
    requires Grammatical(t) && Normal(rt, t) && p.toNumber == rt.toNumber && Printable(rt, Denote(p, t))
    ensures t == CanonTree(rt, Denote(p, t))
    decreases t
  {
    match t
    case TString(pieces) => ShortestExactly(pieces);
    case TArray(gap, items) => NormalItems(p, rt, t);
    case TObject(gap, members) => NormalMembers(p, rt, t);
    case _ =>
  }

  lemma {:induction false} NormalItems(p: Profile, rt: Runtime, t: Tree)
    requires t.TArray? && Grammatical(t) && Normal(rt, t) && p.toNumber == rt.toNumber && Printable(rt, Denote(p, t))
    ensures t == CanonTree(rt, Denote(p, t))
    decreases t, 0
  {
    var vs := DenoteItems(p, t.items);
    assert Denote(p, t) == Arr(vs);
    forall k | 0 <= k < |t.items| ensures CanonItems(rt, vs)[k] == t.items[k] {
      DenoteItemsAt(p, t.items, k);
      NormalIsCanonical(p, rt, t.items[k].value);
      CanonItemsAt(rt, vs, k);
    }
    assert CanonItems(rt, vs) == t.items;
  }

  lemma {:induction false} NormalMembers(p: Profile, rt: Runtime, t: Tree)
    requires t.TObject? && Grammatical(t) && Normal(rt, t) && p.toNumber == rt.toNumber && Printable(rt, Denote(p, t))
    ensures t == CanonTree(rt, Denote(p, t))
    decreases t, 0
  {
    var v, ms := Denote(p, t), t.members;
    var keys := KeysIn(ms);
    KeysSorted(p, ms);
    assert v == Obj(DenoteMembers(p, ms, map[]));
    assert KeysOf(v, keys);
    forall k | 0 <= k < |ms| ensures CanonMembers(rt, v, keys)[k] == ms[k] {
      DenoteMembersAt(p, ms, map[], k);
      NormalIsCanonical(p, rt, ms[k].value);
      ShortestExactly(ms[k].key);
      assert BareMember(ms[k]);
    }
    assert CanonMembers(rt, v, keys) == ms;
  }

  // ---- and the canonical tree is normal ----

  lemma {:induction false} CanonicalIsNormal(rt: Runtime, v: Value)
    requires Printable(rt, v)
    ensures Grammatical(CanonTree(rt, v)) && Normal(rt, CanonTree(rt, v))
    decreases v, 1
  {
    CanonGrammatical(rt, v);
    match v
    case Str(s) =>
      CanonPiecesMean(s);
      ShortestExactly(CanonPieces(s));
    case Arr(items) =>
      forall k | 0 <= k < |items|
        ensures CanonItems(rt, items)[k] == Item([], CanonTree(rt, items[k]), []) && Grammatical(CanonTree(rt, items[k])) && Normal(rt, CanonTree(rt, items[k]))
      {
        CanonItemsAt(rt, items, k);
        CanonicalIsNormal(rt, items[k]);
      }
    case Obj(members) => CanonicalObjectNormal(rt, v);
    case _ =>
  }

  lemma {:induction false} CanonicalObjectNormal(rt: Runtime, v: Value)
    requires v.Obj? && Printable(rt, v)
    ensures Grammatical(CanonTree(rt, v)) && Normal(rt, CanonTree(rt, v))
    decreases v, 0
  {
    CanonGrammatical(rt, v);
    var keys := SortedKeys(v.members.Keys);
    assert KeysOf(v, keys);
    var ms := CanonMembers(rt, v, keys);
    forall k | 0 <= k < |keys| ensures BareMember(ms[k]) && Normal(rt, ms[k].value) && Decode(ms[k].key) == keys[k] {
      CanonPiecesMean(keys[k]);
      ShortestExactly(CanonPieces(keys[k]));
      CanonicalIsNormal(rt, v.members[keys[k]]);
    }
    SortedAscending(v.members.Keys);
    forall i, j | 0 <= i < j < |keys| ensures Precedes(Decode(ms[i].key), Decode(ms[j].key)) {
      LessExactly(keys[i], keys[j]);
    }
  }

  // ---- the text ----

  /** A grammatical tree is the canonical one of its value exactly when it is normal. */
  lemma NormalExactly(p: Profile, rt: Runtime, t: Tree)
    requires Grammatical(t) && p.toNumber == rt.toNumber && Printable(rt, Denote(p, t))
    ensures Normal(rt, t) <==> t == CanonTree(rt, Denote(p, t))
  {
    CanonicalIsNormal(rt, Denote(p, t));
    if Normal(rt, t) { NormalIsCanonical(p, rt, t); }
  }

  /** What canonicalization prints is the one normal rendering of the value. */
  lemma SerializeExactly(p: Profile, rt: Runtime, v: Value, text: Text)
    requires Printable(rt, v) && p.toNumber == rt.toNumber
    ensures Serialize(rt, v) == Output(text) <==>
            exists t :: Grammatical(t) && Denote(p, t) == v && Normal(rt, t) && text == Render(t)
  {
    SerializeRenders(rt, v);
    CanonDenotes(p, rt, v);
    NormalExactly(p, rt, CanonTree(rt, v));
    hide Serialize, Grammatical, Denote, Normal, Render, CanonTree, Printable;
    if t :| Grammatical(t) && Denote(p, t) == v && Normal(rt, t) && text == Render(t) {
      NormalExactly(p, rt, t);
    }
  }
}
