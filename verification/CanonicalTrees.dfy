/** Canonical text as a rendering: the tree it renders and what that tree denotes. */
module CanonicalTrees {
  import opened CodeUnits
  import opened Json
  import opened StrictJson
  import opened JsonGrammar
  import JsonLexical
  import opened Canonical

  // ---- what is assumed of ECMAScript numbers ----

  const PLAIN_LIMIT: real := 1000000000000000000000.0

  /** JSON.stringify(x) is a number token that reads back as x, and is written
      without fraction or exponent exactly when x is an integer below 10^21. */
  predicate Shown(rt: Runtime, x: real) {
    && GoodToken(rt.show(x))
    && rt.toNumber(RenderToken(rt.show(x))) == Finite(x)
    && (IsIntegerToken(RenderToken(rt.show(x))) <==> IsInteger(x) && -PLAIN_LIMIT < x < PLAIN_LIMIT)
    && (x == 0.0 ==> !NonZeroSignificand(RenderToken(rt.show(x))))
  }

  /** Every finite number the runtime reads is printed faithfully. */
  ghost predicate Ecma(rt: Runtime) {
    forall t: Text :: rt.toNumber(t).Finite? ==> Shown(rt, rt.toNumber(t).x)
  }

  /** The values canonicalization accepts: scalar strings and keys, finite numbers. */
  predicate Printable(rt: Runtime, v: Value) {
    match v
    case Str(s) => Scalar(s)
    case Num(n) => n.Finite? && Shown(rt, n.x)
    case Arr(items) => forall k :: 0 <= k < |items| ==> Printable(rt, items[k])
    case Obj(members) => forall k :: k in members ==> Scalar(k) && Printable(rt, members[k])
    case _ => true
  }

  // ---- the canonical tree ----

  function CanonPieces(s: Text): (cs: seq<Piece>)
    requires Scalar(s)
    decreases |s|
  {
    if s == [] then []
    else if IsHigh(s[0]) then [Pair(s[0], s[1])] + CanonPieces(s[2..])
    else
      var u := s[0];
      (if EscapeLetter(u) >= 0 then [Short(EscapeLetter(u))]
       else if u < 0x20 then [Hex([ZERO, ZERO, HexLetter(u / 16), HexLetter(u % 16)])]
       else [Plain(u)]) + CanonPieces(s[1..])
  }

  function CanonTree(rt: Runtime, v: Value): Tree
    requires Printable(rt, v)
    decreases v, 2
  {
    match v
    case Null => TNull
    case Bool(b) => if b then TTrue else TFalse
    case Str(s) => TString(CanonPieces(s))
    case Num(n) => TNumber(rt.show(n.x))
    case Arr(items) => TArray([], CanonItems(rt, items))
    case Obj(members) => TObject([], CanonMembers(rt, v, SortedKeys(members.Keys)))
  }

  function CanonItems(rt: Runtime, items: seq<Value>): (ts: seq<Item>)
    requires forall k :: 0 <= k < |items| ==> Printable(rt, items[k])
    ensures |ts| == |items|
    decreases items, 1
  {
    if items == [] then [] else [Item([], CanonTree(rt, items[0]), [])] + CanonItems(rt, items[1..])
  }

  function CanonMember(rt: Runtime, v: Value, key: Text): Member
    requires v.Obj? && key in v.members && Scalar(key) && Printable(rt, v.members[key])
    decreases v, 0
  {
    Member([], CanonPieces(key), [], [], CanonTree(rt, v.members[key]), [])
  }

  predicate KeysOf(v: Value, keys: seq<Text>) {
    v.Obj? && forall k :: 0 <= k < |keys| ==> keys[k] in v.members
  }

  function CanonMembers(rt: Runtime, v: Value, keys: seq<Text>): (ms: seq<Member>)
    requires Printable(rt, v) && KeysOf(v, keys)
    ensures |ms| == |keys|
    ensures forall k :: 0 <= k < |keys| ==> ms[k] == CanonMember(rt, v, keys[k])
    decreases v, 1, |keys|
  {
    if keys == [] then [] else [CanonMember(rt, v, keys[0])] + CanonMembers(rt, v, keys[1..])
  }

  // ---- it renders to the canonical text ----

  lemma PieceOf(u: Unit)
    requires u < 0x20 && EscapeLetter(u) < 0
    ensures var h := [ZERO, ZERO, HexLetter(u / 16), HexLetter(u % 16)];
            IsHex4(h) && HexValue(h) == u
  {
    assert HexDigit(ZERO) == 0;
  }

  function FirstPiece(s: Text): Piece
    requires s != [] && Scalar(s)
  {
    var u := s[0];
    if IsHigh(u) then Pair(u, s[1])
    else if EscapeLetter(u) >= 0 then Short(EscapeLetter(u))
    else if u < 0x20 then Hex([ZERO, ZERO, HexLetter(u / 16), HexLetter(u % 16)])
    else Plain(u)
  }

  lemma FirstPieceMeans(s: Text)
    requires s != [] && Scalar(s)
    ensures GoodPiece(FirstPiece(s)) && DecodePiece(FirstPiece(s)) == s[..Width(s)]
    ensures Escaped(s) == RenderPiece(FirstPiece(s)) + Escaped(s[Width(s)..])
    ensures CanonPieces(s) == [FirstPiece(s)] + CanonPieces(s[Width(s)..])
  {
    if s[0] < 0x20 && EscapeLetter(s[0]) < 0 { PieceOf(s[0]); }
  }

  lemma {:induction false} CanonPiecesMean(s: Text)
    requires Scalar(s)
    ensures GoodPieces(CanonPieces(s)) && RenderPieces(CanonPieces(s)) == Escaped(s) && Decode(CanonPieces(s)) == s
    decreases |s|
  {
    if s != [] {
      FirstPieceMeans(s);
      hide FirstPiece, GoodPiece, DecodePiece, RenderPiece, Escaped, CanonPieces;
      var tail := s[Width(s)..];
      CanonPiecesMean(tail);
      JsonLexical.DecodeCons(FirstPiece(s), CanonPieces(tail));
      assert s == s[..Width(s)] + tail;
    }
  }

  lemma {:induction false} CanonGrammatical(rt: Runtime, v: Value)
    requires Printable(rt, v)
    ensures Grammatical(CanonTree(rt, v))
    decreases v, 2
  {
    match v
    case Str(s) => CanonPiecesMean(s);
    case Arr(items) => CanonItemsGood(rt, items);
    case Obj(members) => CanonMembersGood(rt, v, SortedKeys(members.Keys));
    case _ =>
  }

  lemma {:induction false} CanonItemsGood(rt: Runtime, items: seq<Value>)
    requires forall k :: 0 <= k < |items| ==> Printable(rt, items[k])
    ensures GoodItems(CanonItems(rt, items))
    decreases items, 1
  {
    if items != [] {
      CanonGrammatical(rt, items[0]);
      CanonItemsGood(rt, items[1..]);
    }
  }

  lemma {:induction false} CanonMembersGood(rt: Runtime, v: Value, keys: seq<Text>)
    requires Printable(rt, v) && KeysOf(v, keys)
    ensures GoodMembers(CanonMembers(rt, v, keys))
    decreases v, 1, |keys|
  {
    forall k | 0 <= k < |keys|
      ensures var m := CanonMembers(rt, v, keys)[k]; SpacedMember(m) && Grammatical(m.value)
    {
      CanonPiecesMean(keys[k]);
      CanonGrammatical(rt, v.members[keys[k]]);
    }
  }

  /** Serialization succeeds and is the rendering of the canonical tree. */
  lemma {:induction false} SerializeRenders(rt: Runtime, v: Value)
    requires Printable(rt, v)
    ensures Serialize(rt, v) == Output(Render(CanonTree(rt, v)))
    decreases v, 2
  {
    hide SerializeItems, SerializeFields, RenderItems, RenderMembers, CanonItems, CanonMembers, CanonPieces, Escaped, RenderPieces;
    match v
    case Str(s) => CanonPiecesMean(s);
    case Arr(items) =>
      if items == [] {
        EmptyJoins(rt, v);
      } else {
        SerializeItemsRenders(rt, items);
        Bracketed(LBRACKET, SerializeItems(rt, items).text, RBRACKET);
      }
    case Obj(members) =>
      var keys := SortedKeys(members.Keys);
      if keys == [] {
        EmptyJoins(rt, v);
      } else {
        SerializeFieldsRenders(rt, v, keys);
        Bracketed(LBRACE, SerializeFields(rt, v, keys).text, RBRACE);
      }
    case _ =>
  }

  lemma Bracketed(open: Unit, text: Text, close: Unit)
    ensures [open] + text + [close] == [open] + (text + [close])
  {}

  lemma EmptyJoins(rt: Runtime, v: Value)
    requires Printable(rt, v)
    ensures SerializeItems(rt, []) == Output([])
    ensures v.Obj? ==> SerializeFields(rt, v, []) == Output([])
  {}

  lemma RenderBareItems(t: Tree, ts: seq<Item>)
    requires ts != [] && ts[0] == Item([], t, [])
    ensures RenderItems(ts) == Render(t) + if |ts| == 1 then [RBRACKET] else [COMMA] + RenderItems(ts[1..])
  {
    hide Render;
  }

  lemma RenderBareMembers(key: seq<Piece>, t: Tree, ms: seq<Member>)
    requires ms != [] && ms[0] == Member([], key, [], [], t, [])
    ensures RenderMembers(ms) == (([QUOTE] + RenderPieces(key) + [QUOTE]) + ([COLON] + Render(t)))
                                 + if |ms| == 1 then [RBRACE] else [COMMA] + RenderMembers(ms[1..])
  {
    hide Render, RenderPieces;
  }

  lemma JoinAssociates(first: Text, rest: Text, close: Text)
    ensures (first + ([COMMA] + rest)) + close == first + ([COMMA] + (rest + close))
  {}

  lemma {:induction false} SerializeItemsRenders(rt: Runtime, items: seq<Value>)
    requires items != [] && forall k :: 0 <= k < |items| ==> Printable(rt, items[k])
    ensures var r := SerializeItems(rt, items);
            r.Output? && r.text + [RBRACKET] == RenderItems(CanonItems(rt, items))
    decreases items, 1
  {
    hide Render, RenderItems, Serialize, CanonTree;
    SerializeRenders(rt, items[0]);
    var t := CanonTree(rt, items[0]);
    var ts := CanonItems(rt, items);
    assert ts[1..] == CanonItems(rt, items[1..]);
    RenderBareItems(t, ts);
    if |items| > 1 {
      SerializeItemsRenders(rt, items[1..]);
      JoinAssociates(Render(t), SerializeItems(rt, items[1..]).text, [RBRACKET]);
    }
  }

  lemma {:induction false} SerializeFieldsRenders(rt: Runtime, v: Value, keys: seq<Text>)
    requires Printable(rt, v) && KeysOf(v, keys) && keys != []
    ensures var r := SerializeFields(rt, v, keys);
            r.Output? && r.text + [RBRACE] == RenderMembers(CanonMembers(rt, v, keys))
    decreases v, 1, |keys|
  {
    SerializeRenders(rt, v.members[keys[0]]);
    CanonPiecesMean(keys[0]);
    hide Render, RenderMembers, RenderPieces, Serialize, CanonTree, CanonPieces, Escaped;
    var t := CanonTree(rt, v.members[keys[0]]);
    var ms := CanonMembers(rt, v, keys);
    assert ms[1..] == CanonMembers(rt, v, keys[1..]);
    RenderBareMembers(CanonPieces(keys[0]), t, ms);
    if |keys| > 1 {
      SerializeFieldsRenders(rt, v, keys[1..]);
      JoinAssociates(Quoted(keys[0]) + ([COLON] + Render(t)), SerializeFields(rt, v, keys[1..]).text, [RBRACE]);
    }
  }

  // ---- and denotes the value it came from ----

  lemma {:induction false} CanonDenotes(p: Profile, rt: Runtime, v: Value)
    requires Printable(rt, v) && p.toNumber == rt.toNumber
    ensures Grammatical(CanonTree(rt, v)) && Denote(p, CanonTree(rt, v)) == v
    decreases v, 2
  {
    CanonGrammatical(rt, v);
    hide Grammatical, DenoteItems, DenoteMembers, CanonItems, CanonMembers, CanonPieces, Decode;
    match v
    case Str(s) => CanonPiecesMean(s);
    case Arr(items) => CanonItemsDenote(p, rt, items);
    case Obj(members) => CanonObjectDenotes(p, rt, v);
    case _ =>
  }

  lemma {:induction false} CanonObjectDenotes(p: Profile, rt: Runtime, v: Value)
    requires v.Obj? && Printable(rt, v) && p.toNumber == rt.toNumber
    ensures var ms := CanonMembers(rt, v, SortedKeys(v.members.Keys));
            GoodMembers(ms) && DenoteMembers(p, ms, map[]) == v.members
    decreases v, 1
  {
    var keys := SortedKeys(v.members.Keys);
    var none: map<Text, Value> := map[];
    assert KeysOf(v, keys);
    hide DenoteMembers, CanonMembers, GoodMembers, Printable, SortedKeys, KeysOf;
    CanonMembersDenote(p, rt, v, keys, none);
    SameMap(DenoteMembers(p, CanonMembers(rt, v, keys), none), v.members, keys);
  }

  lemma SameMap(a: map<Text, Value>, b: map<Text, Value>, keys: seq<Text>)
    requires forall k :: k in a <==> k in keys
    requires forall k :: k in keys <==> k in b
    requires forall k :: k in a ==> k in b && a[k] == b[k]
    ensures a == b
  {}

  lemma {:induction false} CanonItemsDenote(p: Profile, rt: Runtime, items: seq<Value>)
    requires forall k :: 0 <= k < |items| ==> Printable(rt, items[k])
    requires p.toNumber == rt.toNumber
    ensures GoodItems(CanonItems(rt, items)) && DenoteItems(p, CanonItems(rt, items)) == items
    decreases items, 1
  {
    CanonItemsGood(rt, items);
    if items != [] {
      CanonDenotes(p, rt, items[0]);
      CanonItemsDenote(p, rt, items[1..]);
      assert CanonItems(rt, items)[1..] == CanonItems(rt, items[1..]);
      assert items == [items[0]] + items[1..];
    }
  }

  predicate Distinct(keys: seq<Text>) {
    forall i, j :: 0 <= i < j < |keys| ==> keys[i] != keys[j]
  }

  lemma SortedDistinct(keys: set<Text>)
    ensures Distinct(SortedKeys(keys))
  {
    SortedAscending(keys);
    var ks := SortedKeys(keys);
    forall i, j | 0 <= i < j < |ks| ensures ks[i] != ks[j] { LessIrreflexive(ks[i]); }
  }

  lemma {:induction false} CanonMembersDenote(p: Profile, rt: Runtime, v: Value, keys: seq<Text>, base: map<Text, Value>)
    requires Printable(rt, v) && KeysOf(v, keys) && p.toNumber == rt.toNumber
    requires forall k :: k in base ==> k in v.members && base[k] == v.members[k]
    ensures GoodMembers(CanonMembers(rt, v, keys))
    ensures var r := DenoteMembers(p, CanonMembers(rt, v, keys), base);
            && (forall k :: k in r <==> k in base || k in keys)
            && (forall k :: k in r ==> k in v.members && r[k] == v.members[k])
    decreases v, 0, |keys|
  {
    CanonMembersGood(rt, v, keys);
    if keys != [] {
      var key := keys[0];
      var ms := CanonMembers(rt, v, keys);
      CanonPiecesMean(key);
      CanonDenotes(p, rt, v.members[key]);
      assert ms[1..] == CanonMembers(rt, v, keys[1..]);
      var next := base[key := v.members[key]];
      CanonMembersDenote(p, rt, v, keys[1..], next);
      assert forall k :: k in keys <==> k == key || k in keys[1..];
    }
  }
}
