/** Every accepted text renders an admissible tree, and the two directions together. */
module JsonSoundness {
  import opened CodeUnits
  import opened Json
  import opened StrictJson
  import opened JsonGrammar
  import opened JsonLexical
  import opened JsonAcceptance

  /** The tree t accounts for the acceptance r of the text from index i. */
  predicate Explains(p: Profile, text: Text, i: nat, total: nat, depth: nat, t: Tree, r: Parsed) {
    && Grammatical(t) && At(text, i, Render(t)) && Fits(p, t, depth) && total + Count(t) <= p.limits.maxTotal
    && r == Done(Denote(p, t), i + |Render(t)|, total + Count(t))
  }

  predicate ExplainsItems(p: Profile, text: Text, i: nat, total: nat, depth: nat, acc: seq<Value>, items: seq<Item>, r: Parsed) {
    && items != [] && GoodItems(items) && At(text, i, RenderItems(items)) && ItemsFit(p, items, depth, |acc|)
    && total + CountItems(items) <= p.limits.maxTotal
    && r == Done(Arr(acc + DenoteItems(p, items)), i + |RenderItems(items)|, total + CountItems(items))
  }

  predicate ExplainsMembers(p: Profile, text: Text, i: nat, total: nat, depth: nat, acc: map<Text, Value>, members: seq<Member>, r: Parsed) {
    && members != [] && GoodMembers(members) && At(text, i, RenderMembers(members)) && MembersFit(p, members, depth, acc.Keys)
    && total + CountMembers(members) <= p.limits.maxTotal
    && r == Done(Obj(DenoteMembers(p, members, acc)), i + |RenderMembers(members)|, total + CountMembers(members))
  }

  /** Whitespace from i up to where SkipSpace stops. */
  lemma SpaceAt(text: Text, i: nat)
    requires i <= |text|
    ensures var w := text[i..SkipSpace(text, i)];
            AllSpace(w) && At(text, i, w) && i + |w| == SkipSpace(text, i)
  {
    SkipSpaceTakes(text, i);
  }

  lemma LiteralSound(p: Profile, text: Text, i: nat, total: nat, depth: nat, t: Tree)
    requires t.TNull? || t.TTrue? || t.TFalse?
    requires depth <= p.limits.maxDepth && total + 1 <= p.limits.maxTotal && At(text, i, Render(t))
    ensures Explains(p, text, i, total, depth, t, Done(Denote(p, t), i + |Render(t)|, total + 1))
  {}

  lemma NumberSound(p: Profile, text: Text, i: nat, total: nat, depth: nat) returns (t: Tree)
    requires i <= |text| && depth <= p.limits.maxDepth && total + 1 <= p.limits.maxTotal
    requires ParseNumber(p, text, i).Ok?
    ensures var r := ParseNumber(p, text, i);
            Explains(p, text, i, total, depth, t, Done(Num(r.value), r.next, total + 1))
  {
    hide TokenEnd, TokenFault;
    var token := TokenSound(text, i);
    t := TNumber(token);
    assert Render(t) == text[i..TokenEnd(text, i).next];
  }

  lemma QuotedSound(p: Profile, text: Text, i: nat, total: nat, depth: nat) returns (t: Tree)
    requires i < |text| && depth <= p.limits.maxDepth && total + 1 <= p.limits.maxTotal
    requires text[i] == QUOTE && ParseString(p, text, i + 1, []).Ok?
    ensures var r := ParseString(p, text, i + 1, []);
            Explains(p, text, i, total, depth, t, Done(Str(r.value), r.next, total + 1))
  {
    hide ParseString, At, ByteLength, RenderPieces, Decode, GoodPieces;
    var cs := StringSound(p, text, i + 1, []);
    KeyAt(text, i, cs);
    assert [] + Decode(cs) == Decode(cs);
    t := TString(cs);
  }

  lemma {:induction false} TreeSound(p: Profile, text: Text, i: nat, total: nat, depth: nat) returns (t: Tree)
    requires i <= |text| && ParseValue(p, text, i, total, depth).Done?
    ensures Explains(p, text, i, total, depth, t, ParseValue(p, text, i, total, depth))
    decreases |text| - i, 0
  {
    hide At, ParseString, ParseNumber, ParseItems, ParseMembers, SkipSpace;
    var u := Peek(text, i);
    if u == LBRACE { t := ObjectSound(p, text, i, total, depth); }
    else if u == LBRACKET { t := ArraySound(p, text, i, total, depth); }
    else if u == QUOTE { t := QuotedSound(p, text, i, total, depth); }
    else if u == TRUE[0] { t := TTrue; LiteralSound(p, text, i, total, depth, t); }
    else if u == FALSE[0] { t := TFalse; LiteralSound(p, text, i, total, depth, t); }
    else if u == NULL[0] { t := TNull; LiteralSound(p, text, i, total, depth, t); }
    else { t := NumberSound(p, text, i, total, depth); }
  }

  lemma EmptySound(p: Profile, text: Text, i: nat, total: nat, depth: nat, gap: Text, t: Tree, open: Unit, close: Unit)
    requires (t == TArray(gap, []) && open == LBRACKET && close == RBRACKET) ||
             (t == TObject(gap, []) && open == LBRACE && close == RBRACE)
    requires depth <= p.limits.maxDepth && total + 1 <= p.limits.maxTotal
    requires AllSpace(gap) && Peek(text, i) == open && At(text, i + 1, gap) && Peek(text, i + 1 + |gap|) == close
    ensures Explains(p, text, i, total, depth, t, Done(if t.TArray? then Arr([]) else Obj(map[]), i + 2 + |gap|, total + 1))
  {
    AtUnit(text, i, open, gap + [close]);
    AtConcat(text, i + 1, gap, [close]);
    AtUnit(text, i + 1 + |gap|, close, []);
    assert [close] + [] == [close];
    assert Render(t) == [open] + (gap + [close]);
  }

  lemma {:induction false} ArraySound(p: Profile, text: Text, i: nat, total: nat, depth: nat) returns (t: Tree)
    requires i < |text| && text[i] == LBRACKET && ParseValue(p, text, i, total, depth).Done?
    ensures Explains(p, text, i, total, depth, t, ParseValue(p, text, i, total, depth))
    decreases |text| - i - 1, 2
  {
    hide At, ParseItems, SkipSpace;
    var k := SkipSpace(text, i + 1);
    var w := text[i + 1..k];
    SpaceAt(text, i + 1);
    if Peek(text, k) == RBRACKET {
      t := TArray(w, []);
      EmptySound(p, text, i, total, depth, w, t, LBRACKET, RBRACKET);
    } else {
      var items := ItemsSound(p, text, i + 1, w, total + 1, depth, []);
      t := TArray([], items);
      AtUnit(text, i, LBRACKET, RenderItems(items));
      assert [] + DenoteItems(p, items) == DenoteItems(p, items);
      assert Fits(p, t, depth) <==> ItemsFit(p, items, depth, 0);
    }
  }

  /** One more item in front of items that are already explained, or a last item. */
  lemma ItemBuild(p: Profile, text: Text, i: nat, total: nat, depth: nat, acc: seq<Value>, m: Item, rest: seq<Item>, r: Parsed)
    requires SpacedItem(m) && At(text, i, m.before) && |acc| < p.limits.maxItems
    requires Grammatical(m.value) && At(text, i + |m.before|, Render(m.value)) && Fits(p, m.value, depth + 1)
    requires var k := i + |m.before| + |Render(m.value)|;
             var q := k + |m.after|;
             var v := Denote(p, m.value);
             var t := total + Count(m.value);
             && At(text, k, m.after) && t <= p.limits.maxTotal
             && Peek(text, q) == (if rest == [] then RBRACKET else COMMA)
             && (if rest == [] then r == Done(Arr(acc + [v]), q + 1, t)
                 else ExplainsItems(p, text, q + 1, t, depth, acc + [v], rest, r))
    ensures ExplainsItems(p, text, i, total, depth, acc, [m] + rest, r)
  {
    hide At, Render, RenderItems, Fits, ItemsFit, Denote, Count;
    var items := [m] + rest;
    var v := Denote(p, m.value);
    assert items[1..] == rest;
    GoodItemsCons(m, rest);
    ItemsAt(text, i, items);
    ItemsEndAt(text, i + |m.before| + |Render(m.value)| + |m.after|, items);
    ItemsFitStep(p, items, depth, |acc|);
    if rest == [] {
      assert |items| == 1;
      assert DenoteItems(p, items) == [v];
      assert CountItems(items) == Count(m.value);
      assert ItemsFit(p, items, depth, |acc|);
      assert At(text, i, RenderItems(items));
    } else {
      assert (acc + [v]) + DenoteItems(p, rest) == acc + DenoteItems(p, items);
    }
  }

  lemma GoodItemsCons(m: Item, rest: seq<Item>)
    requires SpacedItem(m) && Grammatical(m.value) && (rest != [] ==> GoodItems(rest))
    ensures GoodItems([m] + rest)
  {}

  /** After an item's value: the end of the array, or the next turn. */
  predicate ItemTurnEnd(p: Profile, text: Text, j: nat, total: nat, depth: nat, acc: seq<Value>, first: Parsed) {
    first.Done? &&
    var q := SkipSpace(text, first.next);
    && (Peek(text, q) == RBRACKET || Peek(text, q) == COMMA)
    && ParseItems(p, text, j, total, depth, acc) ==
       if Peek(text, q) == RBRACKET then Done(Arr(acc + [first.value]), q + 1, first.total)
       else ParseItems(p, text, SkipSpace(text, q + 1), first.total, depth, acc + [first.value])
  }

  /** What one accepted turn of the item loop has seen. */
  lemma ItemTurn(p: Profile, text: Text, j: nat, total: nat, depth: nat, acc: seq<Value>)
    requires ParseItems(p, text, j, total, depth, acc).Done?
    ensures j < |text| && |acc| < p.limits.maxItems
    ensures ItemTurnEnd(p, text, j, total, depth, acc, ParseValue(p, text, j, total, depth + 1))
  {
    hide ParseValue, SkipSpace;
  }

  lemma {:induction false} ItemsSound(p: Profile, text: Text, i: nat, before: Text, total: nat, depth: nat, acc: seq<Value>)
    returns (items: seq<Item>)
    requires AllSpace(before) && At(text, i, before) && ParseItems(p, text, i + |before|, total, depth, acc).Done?
    ensures items != []
    ensures ExplainsItems(p, text, i, total, depth, acc, items, ParseItems(p, text, i + |before|, total, depth, acc))
    decreases |text| - i - |before|, 1
  {
    hide At, SkipSpace, ParseValue, ParseItems, ExplainsItems, Fits, Denote, Count, Render, Grammatical, AllSpace, Peek;
    var j := i + |before|;
    ItemTurn(p, text, j, total, depth, acc);
    var r := ParseItems(p, text, j, total, depth, acc);
    var first := ParseValue(p, text, j, total, depth + 1);
    var value := TreeSound(p, text, j, total, depth + 1);
    var k := first.next;
    var q := SkipSpace(text, k);
    SpaceAt(text, k);
    var m := Item(before, value, text[k..q]);
    if Peek(text, q) == RBRACKET {
      ItemBuild(p, text, i, total, depth, acc, m, [], r);
      items := [m] + [];
    } else {
      CommaInside(text, q);
      SpaceAt(text, q + 1);
      var rest := ItemsSound(p, text, q + 1, text[q + 1..SkipSpace(text, q + 1)], first.total, depth, acc + [first.value]);
      ItemBuild(p, text, i, total, depth, acc, m, rest, r);
      items := [m] + rest;
    }
  }

  lemma {:induction false} ObjectSound(p: Profile, text: Text, i: nat, total: nat, depth: nat) returns (t: Tree)
    requires i < |text| && text[i] == LBRACE && ParseValue(p, text, i, total, depth).Done?
    ensures Explains(p, text, i, total, depth, t, ParseValue(p, text, i, total, depth))
    decreases |text| - i - 1, 2
  {
    hide At, ParseMembers, SkipSpace;
    var k := SkipSpace(text, i + 1);
    var w := text[i + 1..k];
    SpaceAt(text, i + 1);
    if Peek(text, k) == RBRACE {
      t := TObject(w, []);
      EmptySound(p, text, i, total, depth, w, t, LBRACE, RBRACE);
    } else {
      var members := MembersSound(p, text, i + 1, w, total + 1, depth, map[]);
      t := TObject([], members);
      AtUnit(text, i, LBRACE, RenderMembers(members));
      assert Fits(p, t, depth) <==> MembersFit(p, members, depth, {});
    }
  }

  lemma GoodMembersCons(m: Member, rest: seq<Member>)
    requires SpacedMember(m) && Grammatical(m.value) && (rest != [] ==> GoodMembers(rest))
    ensures GoodMembers([m] + rest)
  {}

  /** The rendering of members, from its parts. */
  lemma MembersAssemble(text: Text, i: nat, m: Member, b: nat, q: nat, rest: seq<Member>)
    requires b == i + |m.before| + |KeyText(m.key)| + |m.mid|
    requires q == b + 1 + |m.pad| + |Render(m.value)| + |m.after|
    requires At(text, i, m.before) && At(text, i + |m.before|, KeyText(m.key)) && At(text, b - |m.mid|, m.mid)
    requires Peek(text, b) == COLON && At(text, b + 1, m.pad) && At(text, b + 1 + |m.pad|, Render(m.value))
    requires At(text, q - |m.after|, m.after) && Peek(text, q) == (if rest == [] then RBRACE else COMMA)
    requires rest != [] ==> At(text, q + 1, RenderMembers(rest))
    ensures At(text, i, RenderMembers([m] + rest))
    ensures i + |RenderMembers([m] + rest)| == q + 1 + if rest == [] then 0 else |RenderMembers(rest)|
  {
    hide At, Render, RenderMembers, KeyText, ValueText, MembersEnd, Peek;
    var members := [m] + rest;
    assert members[1..] == rest;
    MembersAt(text, i, members);
    ValueAt(text, b, m, MembersEnd(members));
    MembersEndAt(text, q, members);
  }

  /** One more member in front of members already explained, or a last member. */
  lemma MemberBuild(p: Profile, text: Text, i: nat, total: nat, depth: nat, acc: map<Text, Value>, m: Member,
                    next: nat, rest: seq<Member>, r: Parsed)
    requires SpacedMember(m) && Grammatical(m.value)
    requires At(text, i, RenderMembers([m] + rest))
    requires i + |RenderMembers([m] + rest)| == next + if rest == [] then 0 else |RenderMembers(rest)|
    requires FitsString(p, m.key) && Decode(m.key) !in acc && |acc| + 1 <= p.limits.maxItems && Fits(p, m.value, depth + 1)
    requires var v := Denote(p, m.value);
             var t := total + Count(m.value);
             && t <= p.limits.maxTotal
             && (if rest == [] then r == Done(Obj(acc[Decode(m.key) := v]), next, t)
                 else ExplainsMembers(p, text, next, t, depth, acc[Decode(m.key) := v], rest, r))
    ensures ExplainsMembers(p, text, i, total, depth, acc, [m] + rest, r)
  {
    hide At, Render, RenderMembers, Fits, MembersFit, Denote, DenoteMembers, Count, CountMembers, Decode, FitsString, Grammatical,
      GoodMembers, GoodPieces;
    var members := [m] + rest;
    var key, v := Decode(m.key), Denote(p, m.value);
    assert members[1..] == rest;
    assert acc[key := v].Keys == acc.Keys + {key};
    GoodMembersCons(m, rest);
    MembersFitStep(p, members, depth, acc.Keys);
    MembersUnfold(p, members, acc);
  }

  /** The key, colon and padding of the member at index h. */
  lemma KeySound(p: Profile, text: Text, h: nat) returns (key: seq<Piece>, mid: Text, pad: Text)
    requires Peek(text, h) == QUOTE && ParseString(p, text, h + 1, []).Ok?
    requires Peek(text, SkipSpace(text, ParseString(p, text, h + 1, []).next)) == COLON
    ensures GoodPieces(key) && FitsString(p, key) && At(text, h, KeyText(key)) && AllSpace(mid) && AllSpace(pad)
    ensures var r := ParseString(p, text, h + 1, []);
            var b := SkipSpace(text, r.next);
            && r.value == Decode(key) && r.next == h + |KeyText(key)| && b == r.next + |mid| && At(text, r.next, mid)
            && At(text, b + 1, pad) && b + 1 + |pad| == SkipSpace(text, b + 1)
  {
    hide SkipSpace, ParseString, At, ByteLength, RenderPieces, Decode, GoodPieces;
    var r := ParseString(p, text, h + 1, []);
    key := StringSound(p, text, h + 1, []);
    assert [] + Decode(key) == Decode(key);
    KeyAt(text, h, key);
    SpaceAt(text, r.next);
    mid := text[r.next..SkipSpace(text, r.next)];
    var b := SkipSpace(text, r.next);
    SpaceAt(text, b + 1);
    pad := text[b + 1..SkipSpace(text, b + 1)];
  }

  /** After the member's value: the end of the object, or the next turn. */
  predicate MemberTurnEnd(p: Profile, text: Text, h: nat, total: nat, depth: nat, acc: map<Text, Value>, key: Text, first: Parsed) {
    first.Done? &&
    var q := SkipSpace(text, first.next);
    && (Peek(text, q) == RBRACE || Peek(text, q) == COMMA)
    && ParseMembers(p, text, h, total, depth, acc) ==
       if Peek(text, q) == RBRACE then Done(Obj(acc[key := first.value]), q + 1, first.total)
       else ParseMembers(p, text, SkipSpace(text, q + 1), first.total, depth, acc[key := first.value])
  }

  /** What one accepted turn of the member loop has seen. */
  lemma MemberTurn(p: Profile, text: Text, h: nat, total: nat, depth: nat, acc: map<Text, Value>)
    requires ParseMembers(p, text, h, total, depth, acc).Done?
    ensures Peek(text, h) == QUOTE && ParseString(p, text, h + 1, []).Ok?
    ensures var key := ParseString(p, text, h + 1, []);
            var b := SkipSpace(text, key.next);
            && key.value !in acc && |acc| + 1 <= p.limits.maxItems
            && Peek(text, b) == COLON && SkipSpace(text, b + 1) <= |text|
            && MemberTurnEnd(p, text, h, total, depth, acc, key.value, ParseValue(p, text, SkipSpace(text, b + 1), total, depth + 1))
  {
    hide ParseString, ParseValue, SkipSpace;
    var key := ParseString(p, text, h + 1, []);
    assert ParseMembers(p, text, h, total, depth, acc) == AfterKey(p, text, key.next, total, depth, acc, key.value);
    var first := ParseValue(p, text, SkipSpace(text, SkipSpace(text, key.next) + 1), total, depth + 1);
    assert AfterKey(p, text, key.next, total, depth, acc, key.value) ==
           AfterMember(p, text, first.next, first.total, depth, acc[key.value := first.value]);
  }

  lemma {:induction false} MembersSound(p: Profile, text: Text, i: nat, before: Text, total: nat, depth: nat, acc: map<Text, Value>)
    returns (members: seq<Member>)
    requires AllSpace(before) && At(text, i, before) && ParseMembers(p, text, i + |before|, total, depth, acc).Done?
    ensures members != []
    ensures ExplainsMembers(p, text, i, total, depth, acc, members, ParseMembers(p, text, i + |before|, total, depth, acc))
    decreases |text| - i - |before|, 1
  {
    hide At, SkipSpace, ParseMembers, ParseValue, ParseString, ExplainsMembers, Fits, FitsString, Denote, Count, Render, RenderMembers,
      Grammatical, GoodPieces, Decode, KeyText, AllSpace, Peek;
    var h := i + |before|;
    MemberTurn(p, text, h, total, depth, acc);
    var r := ParseMembers(p, text, h, total, depth, acc);
    var key, mid, pad := KeySound(p, text, h);
    var b := h + |KeyText(key)| + |mid|;
    var c := b + 1 + |pad|;
    var first := ParseValue(p, text, c, total, depth + 1);
    var value := TreeSound(p, text, c, total, depth + 1);
    var q := SkipSpace(text, first.next);
    SpaceAt(text, first.next);
    var m := Member(before, key, mid, pad, value, text[first.next..q]);
    var rest := [];
    if Peek(text, q) == COMMA {
      CommaInside(text, q);
      SpaceAt(text, q + 1);
      rest := MembersSound(p, text, q + 1, text[q + 1..SkipSpace(text, q + 1)], first.total, depth, acc[Decode(key) := first.value]);
      ExplainedAt(p, text, q + 1, first.total, depth, acc[Decode(key) := first.value], rest, r);
    }
    MembersAssemble(text, i, m, b, q, rest);
    MemberBuild(p, text, i, total, depth, acc, m, q + 1, rest, r);
    members := [m] + rest;
  }

  lemma ExplainedAt(p: Profile, text: Text, i: nat, total: nat, depth: nat, acc: map<Text, Value>, members: seq<Member>, r: Parsed)
    requires ExplainsMembers(p, text, i, total, depth, acc, members, r)
    ensures members != [] && At(text, i, RenderMembers(members))
  {}

  lemma CommaInside(text: Text, q: nat)
    requires Peek(text, q) == COMMA
    ensures q < |text|
  {}

  // ---- acceptance is exactly the profile ----

  /** The text is w1, an admissible tree, w2. */
  predicate Derives(p: Profile, text: Text, w1: Text, t: Tree, w2: Text) {
    AllSpace(w1) && AllSpace(w2) && Admissible(p, t) && text == w1 + Render(t) + w2
  }

  /** A grammatical text, parsed: accepted with its meaning, or refused, as the profile says. */
  lemma ParseRendered(p: Profile, w1: Text, t: Tree, w2: Text)
    requires AllSpace(w1) && AllSpace(w2) && Grammatical(t)
    ensures var r := Parse(p, w1 + Render(t) + w2);
            if Admissible(p, t) then r == Done(Denote(p, t), |w1 + Render(t) + w2|, Count(t)) else r.Fail?
  {
    hide Render, ParseValue, SkipSpace, Fits, Denote, Count;
    var text := w1 + Render(t) + w2;
    var i := |w1|;
    var j := i + |Render(t)|;
    assert At(text, 0, w1) && At(text, i, Render(t)) && At(text, j, w2);
    FirstUnit(t);
    AtFirst(text, i, Render(t));
    if w2 != [] { AtFirst(text, j, w2); }
    SkipSpaceOver(text, 0, w1);
    SkipSpaceOver(text, j, w2);
    TreeRendered(p, text, i, 0, 1, t);
  }

  lemma ParseSound(p: Profile, text: Text) returns (w1: Text, t: Tree, w2: Text)
    requires Parse(p, text).Done?
    ensures Derives(p, text, w1, t, w2) && Parse(p, text) == Done(Denote(p, t), |text|, Count(t))
  {
    hide Render, ParseValue, SkipSpace, Fits, Denote, Count, Grammatical;
    var i := SkipSpace(text, 0);
    t := TreeSound(p, text, i, 0, 1);
    var j := i + |Render(t)|;
    SpaceAt(text, 0);
    SpaceAt(text, j);
    w1, w2 := text[0..i], text[j..|text|];
    assert text == text[0..i] + text[i..j] + text[j..|text|];
  }

  /** The parser accepts a text with value v exactly when the text is the
      rendering, between whitespace, of an admissible tree that denotes v. */
  lemma ParseExact(p: Profile, text: Text, v: Value)
    ensures (Parse(p, text).Done? && Parse(p, text).value == v) <==>
            exists w1, t, w2 :: Derives(p, text, w1, t, w2) && Denote(p, t) == v
  {
    hide Render, Denote, Fits, Parse;
    if Parse(p, text).Done? && Parse(p, text).value == v {
      var w1, t, w2 := ParseSound(p, text);
      assert Derives(p, text, w1, t, w2) && Denote(p, t) == v;
    }
    if w1, t, w2 :| Derives(p, text, w1, t, w2) && Denote(p, t) == v {
      ParseRendered(p, w1, t, w2);
    }
  }
}
