/** Strict admission accepts exactly the texts of the profile. */
module JsonAcceptance {
  import opened CodeUnits
  import opened Json
  import opened StrictJson
  import opened JsonGrammar
  import opened JsonLexical

  // ---- taking renderings apart ----

  lemma AtUnit(text: Text, i: nat, u: Unit, rest: Text)
    ensures At(text, i, [u] + rest) <==> Peek(text, i) == u && At(text, i + 1, rest)
  {
    AtConcat(text, i, [u], rest);
    if i < |text| { assert text[i..i + 1] == [text[i]]; }
  }

  lemma AtLast(text: Text, i: nat, u: Unit)
    ensures At(text, i, [u]) <==> Peek(text, i) == u
  {
    if i < |text| { assert text[i..i + 1] == [text[i]]; }
  }

  /** A value starts with none of the units that end an empty container. */
  lemma FirstUnit(t: Tree)
    requires Grammatical(t)
    ensures Render(t) != [] && !IsSpace(Render(t)[0]) && Render(t)[0] != RBRACKET && Render(t)[0] != RBRACE
  {}

  function ItemsEnd(items: seq<Item>): Text
    requires items != []
  {
    if |items| == 1 then [RBRACKET] else [COMMA] + RenderItems(items[1..])
  }

  lemma ItemsEndAt(text: Text, q: nat, items: seq<Item>)
    requires items != []
    ensures At(text, q, ItemsEnd(items)) <==>
            && Peek(text, q) == (if |items| == 1 then RBRACKET else COMMA)
            && (|items| > 1 ==> At(text, q + 1, RenderItems(items[1..])))
    ensures |ItemsEnd(items)| == 1 + if |items| == 1 then 0 else |RenderItems(items[1..])|
  {
    if |items| == 1 {
      AtLast(text, q, RBRACKET);
    } else {
      AtUnit(text, q, COMMA, RenderItems(items[1..]));
    }
  }

  lemma ItemsAt(text: Text, i: nat, items: seq<Item>)
    requires items != []
    ensures var m := items[0];
            var k := i + |m.before| + |Render(m.value)|;
            && |RenderItems(items)| == |m.before| + |Render(m.value)| + |m.after| + |ItemsEnd(items)|
            && (At(text, i, RenderItems(items)) <==>
                && At(text, i, m.before) && At(text, i + |m.before|, Render(m.value)) && At(text, k, m.after)
                && At(text, k + |m.after|, ItemsEnd(items)))
  {
    hide At, Render;
    var m := items[0];
    var end := ItemsEnd(items);
    AtConcat(text, i, m.before, Render(m.value) + (m.after + end));
    AtConcat(text, i + |m.before|, Render(m.value), m.after + end);
    AtConcat(text, i + |m.before| + |Render(m.value)|, m.after, end);
    assert RenderItems(items) == m.before + (Render(m.value) + (m.after + end));
  }

  function KeyText(key: seq<Piece>): Text { [QUOTE] + RenderPieces(key) + [QUOTE] }

  /** The tail of a rendered member from the colon on. */
  function ValueText(m: Member, end: Text): Text { [COLON] + (m.pad + (Render(m.value) + (m.after + end))) }

  function MembersEnd(members: seq<Member>): Text
    requires members != []
  {
    if |members| == 1 then [RBRACE] else [COMMA] + RenderMembers(members[1..])
  }

  lemma ValueAt(text: Text, b: nat, m: Member, end: Text)
    ensures At(text, b, ValueText(m, end)) <==>
            && Peek(text, b) == COLON && At(text, b + 1, m.pad) && At(text, b + 1 + |m.pad|, Render(m.value))
            && At(text, b + 1 + |m.pad| + |Render(m.value)|, m.after)
            && At(text, b + 1 + |m.pad| + |Render(m.value)| + |m.after|, end)
    ensures |ValueText(m, end)| == 1 + |m.pad| + |Render(m.value)| + |m.after| + |end|
  {
    AtUnit(text, b, COLON, m.pad + (Render(m.value) + (m.after + end)));
    AtConcat(text, b + 1, m.pad, Render(m.value) + (m.after + end));
    AtConcat(text, b + 1 + |m.pad|, Render(m.value), m.after + end);
    AtConcat(text, b + 1 + |m.pad| + |Render(m.value)|, m.after, end);
  }

  lemma MembersEndAt(text: Text, q: nat, members: seq<Member>)
    requires members != []
    ensures At(text, q, MembersEnd(members)) <==>
            && Peek(text, q) == (if |members| == 1 then RBRACE else COMMA)
            && (|members| > 1 ==> At(text, q + 1, RenderMembers(members[1..])))
    ensures |MembersEnd(members)| == 1 + if |members| == 1 then 0 else |RenderMembers(members[1..])|
  {
    if |members| == 1 {
      AtLast(text, q, RBRACE);
    } else {
      AtUnit(text, q, COMMA, RenderMembers(members[1..]));
    }
  }

  lemma MembersAt(text: Text, i: nat, members: seq<Member>)
    requires members != []
    ensures var m := members[0];
            var a := i + |m.before| + |KeyText(m.key)|;
            && |RenderMembers(members)| == |m.before| + |KeyText(m.key)| + |m.mid| + |ValueText(m, MembersEnd(members))|
            && (At(text, i, RenderMembers(members)) <==>
                && At(text, i, m.before) && At(text, i + |m.before|, KeyText(m.key))
                && At(text, a, m.mid) && At(text, a + |m.mid|, ValueText(m, MembersEnd(members))))
  {
    hide At, Render;
    var m := members[0];
    var value := ValueText(m, MembersEnd(members));
    AtConcat(text, i, m.before, KeyText(m.key) + (m.mid + value));
    AtConcat(text, i + |m.before|, KeyText(m.key), m.mid + value);
    AtConcat(text, i + |m.before| + |KeyText(m.key)|, m.mid, value);
    assert RenderMembers(members) == m.before + (KeyText(m.key) + (m.mid + value));
  }

  lemma KeyAt(text: Text, i: nat, key: seq<Piece>)
    ensures At(text, i, KeyText(key)) <==> Peek(text, i) == QUOTE && At(text, i + 1, RenderPieces(key) + [QUOTE])
  {
    assert KeyText(key) == [QUOTE] + (RenderPieces(key) + [QUOTE]);
    AtUnit(text, i, QUOTE, RenderPieces(key) + [QUOTE]);
  }

  // ---- rendered trees are parsed as the profile says ----

  /** r is the acceptance of v when ok holds within the total value limit, else a refusal. */
  predicate Verdict(p: Profile, r: Parsed, ok: bool, v: Value, next: nat, total: nat) {
    if ok && total <= p.limits.maxTotal then r == Done(v, next, total) else r.Fail?
  }

  predicate ItemsFit(p: Profile, items: seq<Item>, depth: nat, before: nat)
    requires GoodItems(items)
  {
    before + |items| <= p.limits.maxItems && forall k :: 0 <= k < |items| ==> Fits(p, items[k].value, depth + 1)
  }

  lemma ItemsFitStep(p: Profile, items: seq<Item>, depth: nat, before: nat)
    requires GoodItems(items) && items != []
    ensures ItemsFit(p, items, depth, before) <==>
            before + 1 <= p.limits.maxItems && Fits(p, items[0].value, depth + 1) && (|items| > 1 ==> ItemsFit(p, items[1..], depth, before + 1))
  {
    if Fits(p, items[0].value, depth + 1) && (|items| > 1 ==> ItemsFit(p, items[1..], depth, before + 1)) {
      forall k | 0 <= k < |items| ensures Fits(p, items[k].value, depth + 1) {
        if k > 0 { assert items[k] == items[1..][k - 1]; }
      }
    }
  }

  predicate MembersFit(p: Profile, members: seq<Member>, depth: nat, keys: set<Text>)
    requires GoodMembers(members)
  {
    && |keys| + |members| <= p.limits.maxItems
    && DistinctKeys(members)
    && (forall k :: 0 <= k < |members| ==> Decode(members[k].key) !in keys)
    && forall k :: 0 <= k < |members| ==> FitsString(p, members[k].key) && Fits(p, members[k].value, depth + 1)
  }

  lemma MembersFitStep(p: Profile, members: seq<Member>, depth: nat, keys: set<Text>)
    requires GoodMembers(members) && members != []
    ensures var key := Decode(members[0].key);
            MembersFit(p, members, depth, keys) <==>
            && FitsString(p, members[0].key) && key !in keys && |keys| + 1 <= p.limits.maxItems
            && Fits(p, members[0].value, depth + 1)
            && (|members| > 1 ==> MembersFit(p, members[1..], depth, keys + {key}))
  {
    var key := Decode(members[0].key);
    var rest := members[1..];
    if key !in keys && FitsString(p, members[0].key) && Fits(p, members[0].value, depth + 1)
       && (|members| > 1 ==> MembersFit(p, rest, depth, keys + {key})) {
      forall i, j | 0 <= i < j < |members| ensures Decode(members[i].key) != Decode(members[j].key) {
        assert members[j] == rest[j - 1];
        if i > 0 { assert members[i] == rest[i - 1]; }
      }
      forall k | 0 <= k < |members|
        ensures Decode(members[k].key) !in keys && FitsString(p, members[k].key) && Fits(p, members[k].value, depth + 1)
      {
        if k > 0 { assert members[k] == rest[k - 1]; }
      }
    }
  }

  lemma {:induction false} TreeRendered(p: Profile, text: Text, i: nat, total: nat, depth: nat, t: Tree)
    requires Grammatical(t) && At(text, i, Render(t))
    requires t.TNumber? ==> NumberStops(Peek(text, i + |Render(t)|))
    ensures Verdict(p, ParseValue(p, text, i, total, depth), Fits(p, t, depth), Denote(p, t), i + |Render(t)|, total + Count(t))
    decreases t, 0
  {
    hide At, RenderItems, RenderMembers, RenderPieces, RenderToken, ParseItems, ParseMembers, ParseString, ParseNumber, SkipSpace,
      NumberStops, ByteLength, DenoteItems, DenoteMembers, CountItems, CountMembers;
    FirstUnit(t);
    AtFirst(text, i, Render(t));
    if depth <= p.limits.maxDepth && total + 1 <= p.limits.maxTotal {
      match t
      case TNull =>
      case TTrue =>
      case TFalse =>
      case TNumber(token) => NumberRendered(p, text, i, total, depth, token);
      case TString(pieces) =>
        KeyAt(text, i, pieces);
        StringRendered(p, text, i + 1, pieces, []);
        assert [] + Decode(pieces) == Decode(pieces);
      case TArray(gap, items) => ArrayRendered(p, text, i, total, depth, t);
      case TObject(gap, members) => ObjectRendered(p, text, i, total, depth, t);
    }
  }

  lemma NumberRendered(p: Profile, text: Text, i: nat, total: nat, depth: nat, token: NumberToken)
    requires GoodToken(token) && At(text, i, RenderToken(token))
    requires NumberStops(Peek(text, i + |RenderToken(token)|))
    requires depth <= p.limits.maxDepth && total + 1 <= p.limits.maxTotal
    ensures Verdict(p, ParseValue(p, text, i, total, depth), TokenFault(p, RenderToken(token)).None?,
                    Num(p.toNumber(RenderToken(token))), i + |RenderToken(token)|, total + 1)
  {
    hide TokenEnd, TokenFault, NumberStops;
    TokenRendered(text, i, token);
    AtFirst(text, i, RenderToken(token));
    assert text[i..i + |RenderToken(token)|] == RenderToken(token);
  }

  /** Whitespace before the first item is skipped, and the item is not yet reached. */
  lemma ItemBegins(text: Text, i: nat, items: seq<Item>)
    requires items != [] && GoodItems(items) && At(text, i, RenderItems(items))
    ensures SkipSpace(text, i) == i + |items[0].before| < |text|
    ensures Peek(text, i + |items[0].before|) != RBRACKET
  {
    hide At, Render, SkipSpace, RenderItems, Grammatical;
    ItemsAt(text, i, items);
    FirstUnit(items[0].value);
    AtFirst(text, i + |items[0].before|, Render(items[0].value));
    SkipSpaceOver(text, i, items[0].before);
  }

  /** What follows the first item's value. */
  lemma ItemEnds(text: Text, i: nat, items: seq<Item>, k: nat, q: nat)
    requires items != [] && GoodItems(items) && At(text, i, RenderItems(items))
    requires k == i + |items[0].before| + |Render(items[0].value)| && q == k + |items[0].after|
    ensures At(text, i + |items[0].before|, Render(items[0].value))
    ensures NumberStops(Peek(text, k)) && SkipSpace(text, k) == q
    ensures Peek(text, q) == if |items| == 1 then RBRACKET else COMMA
    ensures |items| == 1 ==> i + |RenderItems(items)| == q + 1
    ensures |items| > 1 ==> At(text, q + 1, RenderItems(items[1..]))
    ensures |items| > 1 ==> i + |RenderItems(items)| == q + 1 + |RenderItems(items[1..])|
  {
    hide At, Render, SkipSpace, RenderItems, Grammatical;
    ItemsAt(text, i, items);
    ItemsEndAt(text, q, items);
    if items[0].after != [] { AtFirst(text, k, items[0].after); }
    SkipSpaceOver(text, k, items[0].after);
  }

  lemma {:induction false} ArrayRendered(p: Profile, text: Text, i: nat, total: nat, depth: nat, t: Tree)
    requires t.TArray? && Grammatical(t) && At(text, i, Render(t))
    requires depth <= p.limits.maxDepth && total + 1 <= p.limits.maxTotal
    ensures Verdict(p, ParseValue(p, text, i, total, depth), Fits(p, t, depth), Denote(p, t), i + |Render(t)|, total + Count(t))
    decreases t.items, 2
  {
    hide At, RenderItems, ParseItems, SkipSpace;
    var items := t.items;
    if items == [] {
      AtUnit(text, i, LBRACKET, t.gap + [RBRACKET]);
      AtConcat(text, i + 1, t.gap, [RBRACKET]);
      AtFirst(text, i + 1 + |t.gap|, [RBRACKET]);
      SkipSpaceOver(text, i + 1, t.gap);
    } else {
      AtUnit(text, i, LBRACKET, RenderItems(items));
      ItemBegins(text, i + 1, items);
      ItemsRendered(p, text, i + 1, total + 1, depth, items, []);
      assert [] + DenoteItems(p, items) == DenoteItems(p, items);
      assert Fits(p, t, depth) <==> ItemsFit(p, items, depth, 0);
    }
  }

  /** One turn of the item loop, from the verdicts on its value and on the rest. */
  lemma ItemVerdict(p: Profile, text: Text, j: nat, total: nat, depth: nat, acc: seq<Value>, fits: bool, v: Value, k: nat, t: nat, q: nat,
                    last: bool, fitsRest: bool, all: Value, next: nat, totalAll: nat)
    requires j < |text| && Verdict(p, ParseValue(p, text, j, total, depth + 1), fits, v, k, t)
    requires SkipSpace(text, k) == q && Peek(text, q) == (if last then RBRACKET else COMMA) && t <= totalAll
    requires last ==> all == Arr(acc + [v]) && next == q + 1 && totalAll == t && fitsRest
    requires !last ==> Verdict(p, ParseItems(p, text, SkipSpace(text, q + 1), t, depth, acc + [v]), fitsRest, all, next, totalAll)
    ensures Verdict(p, ParseItems(p, text, j, total, depth, acc), |acc| < p.limits.maxItems && fits && fitsRest, all, next, totalAll)
  {
    hide ParseValue, SkipSpace;
  }

  lemma {:induction false} ItemsRendered(p: Profile, text: Text, i: nat, total: nat, depth: nat, items: seq<Item>, acc: seq<Value>)
    requires items != [] && GoodItems(items) && At(text, i, RenderItems(items))
    ensures Verdict(p, ParseItems(p, text, i + |items[0].before|, total, depth, acc), ItemsFit(p, items, depth, |acc|),
                    Arr(acc + DenoteItems(p, items)), i + |RenderItems(items)|, total + CountItems(items))
    decreases items, 1
  {
    hide At, Render, RenderItems, ParseValue, ParseItems, Verdict, Fits, ItemsFit, SkipSpace, Denote, Count, Peek, Grammatical;
    var m := items[0];
    var rest := items[1..];
    var j := i + |m.before|;
    var k := j + |Render(m.value)|;
    var q := k + |m.after|;
    var v, t := Denote(p, m.value), total + Count(m.value);
    var last := |items| == 1;
    ItemBegins(text, i, items);
    ItemEnds(text, i, items, k, q);
    ItemsFitStep(p, items, depth, |acc|);
    TreeRendered(p, text, j, total, depth + 1, m.value);
    if last {
      assert DenoteItems(p, items) == [v];
    } else {
      ItemBegins(text, q + 1, rest);
      ItemsRendered(p, text, q + 1, t, depth, rest, acc + [v]);
      assert (acc + [v]) + DenoteItems(p, rest) == acc + DenoteItems(p, items);
    }
    ItemVerdict(p, text, j, total, depth, acc, Fits(p, m.value, depth + 1), v, k, t, q, last, last || ItemsFit(p, rest, depth, |acc| + 1),
                Arr(acc + DenoteItems(p, items)), i + |RenderItems(items)|, total + CountItems(items));
  }

  lemma MemberBegins(text: Text, i: nat, members: seq<Member>)
    requires members != [] && GoodMembers(members) && At(text, i, RenderMembers(members))
    ensures SkipSpace(text, i) == i + |members[0].before| < |text|
    ensures Peek(text, i + |members[0].before|) == QUOTE
  {
    hide At, Render, SkipSpace, RenderMembers, Grammatical, RenderPieces;
    MembersAt(text, i, members);
    KeyAt(text, i + |members[0].before|, members[0].key);
    SkipSpaceOver(text, i, members[0].before);
  }

  /** The first member's key and colon. */
  lemma MemberKey(text: Text, i: nat, members: seq<Member>, a: nat, b: nat)
    requires members != [] && GoodMembers(members) && At(text, i, RenderMembers(members))
    requires a == i + |members[0].before| + |KeyText(members[0].key)| && b == a + |members[0].mid|
    ensures At(text, i + |members[0].before| + 1, RenderPieces(members[0].key) + [QUOTE])
    ensures SkipSpace(text, a) == b && At(text, b, ValueText(members[0], MembersEnd(members)))
    ensures i + |RenderMembers(members)| == b + |ValueText(members[0], MembersEnd(members))|
  {
    hide At, Render, RenderMembers, RenderPieces, SkipSpace, Grammatical;
    var m := members[0];
    MembersAt(text, i, members);
    KeyAt(text, i + |m.before|, m.key);
    ValueAt(text, b, m, MembersEnd(members));
    SkipSpaceOver(text, a, m.mid);
  }

  /** The first member's value, and what follows it. */
  lemma MemberValue(text: Text, b: nat, members: seq<Member>, c: nat, d: nat, q: nat)
    requires members != [] && GoodMembers(members) && At(text, b, ValueText(members[0], MembersEnd(members)))
    requires c == b + 1 + |members[0].pad| && d == c + |Render(members[0].value)| && q == d + |members[0].after|
    ensures Peek(text, b) == COLON && SkipSpace(text, b + 1) == c <= |text|
    ensures At(text, c, Render(members[0].value))
    ensures NumberStops(Peek(text, d)) && SkipSpace(text, d) == q
    ensures At(text, q, MembersEnd(members))
    ensures b + |ValueText(members[0], MembersEnd(members))| == q + |MembersEnd(members)|
  {
    hide At, Render, SkipSpace, ValueText, MembersEnd, RenderPieces, RenderMembers;
    var m := members[0];
    ValueAt(text, b, m, MembersEnd(members));
    FirstUnit(m.value);
    AtFirst(text, c, Render(m.value));
    MembersEndAt(text, q, members);
    if m.after != [] { AtFirst(text, d, m.after); }
    SkipSpaceOver(text, b + 1, m.pad);
    SkipSpaceOver(text, d, m.after);
  }

  lemma MembersTail(members: seq<Member>)
    requires members != [] && GoodMembers(members)
    ensures GoodPieces(members[0].key) && Grammatical(members[0].value) && GoodMembers(members[1..])
  {}

  /** The meaning and the size of members, one member at a time. */
  lemma MembersUnfold(p: Profile, members: seq<Member>, acc: map<Text, Value>)
    requires members != [] && GoodMembers(members)
    ensures var next := acc[Decode(members[0].key) := Denote(p, members[0].value)];
            DenoteMembers(p, members, acc) == if |members| == 1 then next else DenoteMembers(p, members[1..], next)
    ensures CountMembers(members) == Count(members[0].value) + if |members| == 1 then 0 else CountMembers(members[1..])
  {
    hide Denote, Count, Decode;
    if |members| == 1 { assert members[1..] == []; }
  }

  lemma KeyRendered(p: Profile, text: Text, i: nat, key: seq<Piece>)
    requires GoodPieces(key) && At(text, i, RenderPieces(key) + [QUOTE])
    ensures ParseString(p, text, i, []) == if FitsString(p, key) then Ok(Decode(key), i + |RenderPieces(key)| + 1) else Bad(ByteLimit)
  {
    hide ParseString, At, ByteLength, RenderPieces, Decode;
    StringRendered(p, text, i, key, []);
    assert [] + Decode(key) == Decode(key);
  }

  /** After an opening brace comes the end of an empty object or the first member. */
  lemma ObjectOpens(p: Profile, text: Text, i: nat, total: nat, depth: nat)
    requires i < |text| && Peek(text, i) == LBRACE && depth <= p.limits.maxDepth && total + 1 <= p.limits.maxTotal
    ensures var k := SkipSpace(text, i + 1);
            ParseValue(p, text, i, total, depth) ==
            if Peek(text, k) == RBRACE then Done(Obj(map[]), k + 1, total + 1) else ParseMembers(p, text, k, total + 1, depth, map[])
  {
    hide SkipSpace, ParseMembers, ParseItems, ParseString, ParseNumber, ParseLiteral;
  }

  lemma EmptyObjectRendered(p: Profile, text: Text, i: nat, total: nat, depth: nat, gap: Text, members: seq<Member>)
    requires members == [] && AllSpace(gap) && At(text, i, [LBRACE] + (gap + [RBRACE]))
    requires depth <= p.limits.maxDepth && total + 1 <= p.limits.maxTotal
    ensures Verdict(p, ParseValue(p, text, i, total, depth), MembersFit(p, members, depth, {}), Obj(DenoteMembers(p, members, map[])),
                    i + |gap| + 2, total + 1 + CountMembers(members))
  {
    hide At, ParseValue, SkipSpace;
    AtUnit(text, i, LBRACE, gap + [RBRACE]);
    AtConcat(text, i + 1, gap, [RBRACE]);
    AtFirst(text, i + 1 + |gap|, [RBRACE]);
    SkipSpaceOver(text, i + 1, gap);
    ObjectOpens(p, text, i, total, depth);
  }

  /** The meaning, the size and the limits of an object are those of its members. */
  lemma ObjectUnfold(p: Profile, t: Tree, depth: nat)
    requires t.TObject? && Grammatical(t) && depth <= p.limits.maxDepth
    ensures GoodMembers(t.members) && AllSpace(t.gap)
    ensures Denote(p, t) == Obj(DenoteMembers(p, t.members, map[])) && Count(t) == 1 + CountMembers(t.members)
    ensures Fits(p, t, depth) <==> MembersFit(p, t.members, depth, {})
  {
    ObjectFits(p, t, depth);
    hide Fits, FitsString, DistinctKeys, RenderMembers, DenoteMembers, CountMembers;
  }

  lemma {:induction false} FilledObjectRendered(p: Profile, text: Text, i: nat, total: nat, depth: nat, members: seq<Member>)
    requires members != [] && GoodMembers(members) && At(text, i, [LBRACE] + RenderMembers(members))
    requires depth <= p.limits.maxDepth && total + 1 <= p.limits.maxTotal
    ensures Verdict(p, ParseValue(p, text, i, total, depth), MembersFit(p, members, depth, {}), Obj(DenoteMembers(p, members, map[])),
                    i + 1 + |RenderMembers(members)|, total + 1 + CountMembers(members))
    decreases members, 2
  {
    hide At, RenderMembers, ParseValue, ParseMembers, SkipSpace, GoodMembers, MembersFit, DenoteMembers, CountMembers, Verdict, Peek;
    AtUnit(text, i, LBRACE, RenderMembers(members));
    MemberBegins(text, i + 1, members);
    assert i < |text| by { AtFirst(text, i, [LBRACE] + RenderMembers(members)); }
    ObjectOpens(p, text, i, total, depth);
    var none: map<Text, Value> := map[];
    assert none.Keys == {};
    MembersRendered(p, text, i + 1, total + 1, depth, members, none);
  }

  lemma ObjectText(text: Text, i: nat, t: Tree)
    requires t.TObject? && At(text, i, Render(t))
    ensures var inside := if t.members == [] then t.gap + [RBRACE] else RenderMembers(t.members);
            At(text, i, [LBRACE] + inside) && |Render(t)| == 1 + |inside|
  {
    hide RenderMembers, At;
  }

  lemma {:induction false} ObjectRendered(p: Profile, text: Text, i: nat, total: nat, depth: nat, t: Tree)
    requires t.TObject? && Grammatical(t) && At(text, i, Render(t))
    requires depth <= p.limits.maxDepth && total + 1 <= p.limits.maxTotal
    ensures Verdict(p, ParseValue(p, text, i, total, depth), Fits(p, t, depth), Denote(p, t), i + |Render(t)|, total + Count(t))
    decreases t.members, 3
  {
    hide *;
    ObjectText(text, i, t);
    ObjectUnfold(p, t, depth);
    if t.members == [] {
      EmptyObjectRendered(p, text, i, total, depth, t.gap, t.members);
    } else {
      FilledObjectRendered(p, text, i, total, depth, t.members);
    }
  }

  /** One turn of the member loop, from what its parts scan to and the verdict on the rest. */
  lemma MemberVerdict(p: Profile, text: Text, h: nat, total: nat, depth: nat, acc: map<Text, Value>, fitsKey: bool, key: Text,
                      j: nat, b: nat, c: nat, fits: bool, v: Value, d: nat, t: nat, q: nat,
                      last: bool, fitsRest: bool, all: Value, next: nat, totalAll: nat)
    requires Peek(text, h) == QUOTE && ParseString(p, text, h + 1, []) == if fitsKey then Ok(key, j) else Bad(ByteLimit)
    requires SkipSpace(text, j) == b && Peek(text, b) == COLON && SkipSpace(text, b + 1) == c <= |text|
    requires Verdict(p, ParseValue(p, text, c, total, depth + 1), fits, v, d, t)
    requires SkipSpace(text, d) == q && Peek(text, q) == (if last then RBRACE else COMMA) && t <= totalAll
    requires last ==> all == Obj(acc[key := v]) && next == q + 1 && totalAll == t && fitsRest
    requires !last ==> Verdict(p, ParseMembers(p, text, SkipSpace(text, q + 1), t, depth, acc[key := v]), fitsRest, all, next, totalAll)
    ensures Verdict(p, ParseMembers(p, text, h, total, depth, acc),
                    fitsKey && key !in acc && |acc| + 1 <= p.limits.maxItems && fits && fitsRest, all, next, totalAll)
  {
    hide ParseString, ParseValue, SkipSpace;
    if fitsKey {
      assert ParseMembers(p, text, h, total, depth, acc) == AfterKey(p, text, j, total, depth, acc, key);
    }
  }

  /** The first member's turn, given the verdict on the members after it. */
  lemma {:induction false} FirstMemberRendered(p: Profile, text: Text, i: nat, total: nat, depth: nat, members: seq<Member>,
                                              acc: map<Text, Value>, q: nat, fitsRest: bool, all: Value, next: nat, totalAll: nat)
    requires members != [] && GoodMembers(members) && At(text, i, RenderMembers(members))
    requires q + |MembersEnd(members)| == i + |RenderMembers(members)|
    requires total + Count(members[0].value) <= totalAll
    requires var m := members[0];
             var extended := acc[Decode(m.key) := Denote(p, m.value)];
             var t := total + Count(m.value);
             if |members| == 1 then all == Obj(extended) && next == q + 1 && totalAll == t && fitsRest
             else Verdict(p, ParseMembers(p, text, SkipSpace(text, q + 1), t, depth, extended), fitsRest, all, next, totalAll)
    ensures var m := members[0];
            Verdict(p, ParseMembers(p, text, i + |m.before|, total, depth, acc),
                    FitsString(p, m.key) && Decode(m.key) !in acc && |acc| + 1 <= p.limits.maxItems && Fits(p, m.value, depth + 1) && fitsRest,
                    all, next, totalAll)
    decreases members, 0
  {
    hide At, Render, RenderMembers, ParseMembers, ParseValue, ParseString, Verdict, Fits, SkipSpace, Denote, Count, Decode,
      RenderPieces, ValueText, MembersEnd, Grammatical, GoodPieces, GoodMembers, SpacedMember, Peek, ByteLength, AllSpace, NumberStops,
      FitsString;
    MembersTail(members);
    var m := members[0];
    var h := i + |m.before|;
    var a := h + |KeyText(m.key)|;
    var b := a + |m.mid|;
    var c := b + 1 + |m.pad|;
    var d := c + |Render(m.value)|;
    MemberBegins(text, i, members);
    MemberKey(text, i, members, a, b);
    MemberValue(text, b, members, c, d, d + |m.after|);
    assert q == d + |m.after|;
    MembersEndAt(text, q, members);
    KeyRendered(p, text, h + 1, m.key);
    TreeRendered(p, text, c, total, depth + 1, m.value);
    MemberVerdict(p, text, h, total, depth, acc, FitsString(p, m.key), Decode(m.key), a, b, c, Fits(p, m.value, depth + 1),
                  Denote(p, m.value), d, total + Count(m.value), q, |members| == 1, fitsRest, all, next, totalAll);
  }

  lemma {:induction false} MembersRendered(p: Profile, text: Text, i: nat, total: nat, depth: nat,
                                          members: seq<Member>, acc: map<Text, Value>)
    requires members != [] && GoodMembers(members) && At(text, i, RenderMembers(members))
    ensures Verdict(p, ParseMembers(p, text, i + |members[0].before|, total, depth, acc), MembersFit(p, members, depth, acc.Keys),
                    Obj(DenoteMembers(p, members, acc)), i + |RenderMembers(members)|, total + CountMembers(members))
    decreases members, 1
  {
    hide At, Render, RenderMembers, ParseMembers, Verdict, Fits, MembersFit, SkipSpace, Denote, Count, Decode,
      MembersEnd, Grammatical, GoodPieces, GoodMembers, FitsString, DenoteMembers, CountMembers, Peek;
    MembersTail(members);
    var m, rest := members[0], members[1..];
    var key, v, t := Decode(m.key), Denote(p, m.value), total + Count(m.value);
    var q := MembersSplit(text, i, members);
    MembersUnfold(p, members, acc);
    MembersFitStep(p, members, depth, acc.Keys);
    assert acc[key := v].Keys == acc.Keys + {key};
    var fitsRest := |members| == 1 || MembersFit(p, rest, depth, acc.Keys + {key});
    if |members| > 1 {
      MemberBegins(text, q + 1, rest);
      MembersRendered(p, text, q + 1, t, depth, rest, acc[key := v]);
    }
    FirstMemberRendered(p, text, i, total, depth, members, acc, q, fitsRest,
                        Obj(DenoteMembers(p, members, acc)), i + |RenderMembers(members)|, total + CountMembers(members));
  }

  /** Where the first member ends. */
  lemma MembersSplit(text: Text, i: nat, members: seq<Member>) returns (q: nat)
    requires members != [] && GoodMembers(members) && At(text, i, RenderMembers(members))
    ensures q + |MembersEnd(members)| == i + |RenderMembers(members)|
    ensures |members| == 1 ==> i + |RenderMembers(members)| == q + 1
    ensures |members| > 1 ==> At(text, q + 1, RenderMembers(members[1..]))
    ensures |members| > 1 ==> i + |RenderMembers(members)| == q + 1 + |RenderMembers(members[1..])|
  {
    hide At, Render, RenderMembers, MembersEnd, ValueText, KeyText;
    var m := members[0];
    var b := i + |m.before| + |KeyText(m.key)| + |m.mid|;
    q := b + 1 + |m.pad| + |Render(m.value)| + |m.after|;
    MemberKey(text, i, members, b - |m.mid|, b);
    MemberValue(text, b, members, b + 1 + |m.pad|, b + 1 + |m.pad| + |Render(m.value)|, q);
    MembersEndAt(text, q, members);
  }
}
