/** Canonical text and strict admission: round trip, injectivity, normal form. */
module CanonicalForm {
  import opened CodeUnits
  import opened Json
  import opened StrictJson
  import opened JsonGrammar
  import opened JsonSoundness
  import opened Canonical
  import opened CanonicalTrees

  // ---- the profile on values ----

  /** Binary64 integers that JSON.stringify writes as integers outside the safe range. */
  predicate PrintsUnsafe(n: Number) {
    n.Finite? && IsInteger(n.x) && -PLAIN_LIMIT < n.x < PLAIN_LIMIT && !SafeInteger(n)
  }

  predicate FitsValue(p: Profile, v: Value, depth: nat) {
    depth <= p.limits.maxDepth &&
    match v
    case Str(s) => ByteLength(s) <= p.limits.maxStringBytes
    case Num(n) => !(p.refuseUnsafe && PrintsUnsafe(n))
    case Arr(items) => |items| <= p.limits.maxItems && forall k :: 0 <= k < |items| ==> FitsValue(p, items[k], depth + 1)
    case Obj(members) =>
      |members| <= p.limits.maxItems &&
      forall k :: k in members ==> ByteLength(k) <= p.limits.maxStringBytes && FitsValue(p, members[k], depth + 1)
    case _ => true
  }

  /** Values inside a value, itself included. */
  function CountValue(v: Value): nat
    decreases v, 2
  {
    match v
    case Arr(items) => 1 + CountValues(items)
    case Obj(members) => 1 + CountFields(v, SortedKeys(members.Keys))
    case _ => 1
  }

  function CountValues(items: seq<Value>): nat
    decreases items, 1
  {
    if items == [] then 0 else CountValue(items[0]) + CountValues(items[1..])
  }

  function CountFields(v: Value, keys: seq<Text>): nat
    requires KeysOf(v, keys)
    decreases v, 1, |keys|
  {
    if keys == [] then 0 else CountValue(v.members[keys[0]]) + CountFields(v, keys[1..])
  }

  predicate FitsAll(p: Profile, v: Value) {
    FitsValue(p, v, 1) && CountValue(v) <= p.limits.maxTotal
  }

  // ---- the canonical tree fits exactly when the value does ----

  lemma {:induction false} CanonCount(rt: Runtime, v: Value)
    requires Printable(rt, v)
    ensures Count(CanonTree(rt, v)) == CountValue(v)
    decreases v, 2
  {
    match v
    case Arr(items) => CanonItemsCount(rt, items);
    case Obj(members) => CanonMembersCount(rt, v, SortedKeys(members.Keys));
    case _ =>
  }

  lemma {:induction false} CanonItemsCount(rt: Runtime, items: seq<Value>)
    requires forall k :: 0 <= k < |items| ==> Printable(rt, items[k])
    ensures CountItems(CanonItems(rt, items)) == CountValues(items)
    decreases items, 1
  {
    if items != [] {
      CanonCount(rt, items[0]);
      CanonItemsCount(rt, items[1..]);
      assert CanonItems(rt, items)[1..] == CanonItems(rt, items[1..]);
    }
  }

  lemma {:induction false} CanonMembersCount(rt: Runtime, v: Value, keys: seq<Text>)
    requires Printable(rt, v) && KeysOf(v, keys)
    ensures CountMembers(CanonMembers(rt, v, keys)) == CountFields(v, keys)
    decreases v, 1, |keys|
  {
    if keys != [] {
      CanonCount(rt, v.members[keys[0]]);
      CanonMembersCount(rt, v, keys[1..]);
      assert CanonMembers(rt, v, keys)[1..] == CanonMembers(rt, v, keys[1..]);
    }
  }

  lemma {:induction false} CanonFits(p: Profile, rt: Runtime, v: Value, depth: nat)
    requires Printable(rt, v) && p.toNumber == rt.toNumber
    ensures Grammatical(CanonTree(rt, v))
    ensures Fits(p, CanonTree(rt, v), depth) <==> FitsValue(p, v, depth)
    decreases v, 2
  {
    CanonGrammatical(rt, v);
    if depth <= p.limits.maxDepth {
      match v
      case Str(s) => CanonPiecesMean(s);
      case Arr(items) => CanonItemsFit(p, rt, v, depth);
      case Obj(members) => CanonMembersFit(p, rt, v, depth);
      case _ =>
    }
  }

  lemma {:induction false} CanonItemAt(rt: Runtime, items: seq<Value>, k: nat)
    requires (forall i :: 0 <= i < |items| ==> Printable(rt, items[i])) && k < |items|
    ensures CanonItems(rt, items)[k] == Item([], CanonTree(rt, items[k]), [])
  {
    if k > 0 { CanonItemAt(rt, items[1..], k - 1); }
  }

  lemma {:induction false} CanonItemsFit(p: Profile, rt: Runtime, v: Value, depth: nat)
    requires v.Arr? && Printable(rt, v) && p.toNumber == rt.toNumber && depth <= p.limits.maxDepth
    requires Grammatical(CanonTree(rt, v))
    ensures Fits(p, CanonTree(rt, v), depth) <==> FitsValue(p, v, depth)
    decreases v, 1
  {
    var items := v.items;
    var ts := CanonItems(rt, items);
    if FitsValue(p, v, depth) {
      forall k | 0 <= k < |ts| ensures Fits(p, ts[k].value, depth + 1) {
        CanonItemAt(rt, items, k);
        CanonFits(p, rt, items[k], depth + 1);
      }
    }
    if Fits(p, CanonTree(rt, v), depth) {
      forall k | 0 <= k < |items| ensures FitsValue(p, items[k], depth + 1) {
        CanonItemAt(rt, items, k);
        CanonFits(p, rt, items[k], depth + 1);
        assert Fits(p, ts[k].value, depth + 1);
      }
    }
  }

  /** One field fits exactly when its member of the canonical tree does. */
  lemma {:induction false} CanonFieldFits(p: Profile, rt: Runtime, v: Value, key: Text, depth: nat)
    requires v.Obj? && Printable(rt, v) && key in v.members && p.toNumber == rt.toNumber
    ensures var m := CanonMember(rt, v, key);
            && GoodPieces(m.key) && Grammatical(m.value) && Decode(m.key) == key
            && (FitsString(p, m.key) <==> ByteLength(key) <= p.limits.maxStringBytes)
            && (Fits(p, m.value, depth) <==> FitsValue(p, v.members[key], depth))
    decreases v, 0, 0
  {
    CanonPiecesMean(key);
    CanonFits(p, rt, v.members[key], depth);
  }

  lemma {:induction false} CanonMembersFit(p: Profile, rt: Runtime, v: Value, depth: nat)
    requires v.Obj? && Printable(rt, v) && p.toNumber == rt.toNumber && depth <= p.limits.maxDepth
    requires Grammatical(CanonTree(rt, v))
    ensures Fits(p, CanonTree(rt, v), depth) <==> FitsValue(p, v, depth)
    decreases v, 1
  {
    var keys := SortedKeys(v.members.Keys);
    var ms := CanonMembers(rt, v, keys);
    CanonMembersGood(rt, v, keys);
    CanonKeysDistinct(rt, v, keys);
    CanonFieldsFit(p, rt, v, keys, depth);
    FitsByFields(p, v, keys, depth);
    hide CanonMembers, CanonMember, FitsString, Fits, FitsValue, FieldsFit, DistinctKeys, SortedKeys, Printable;
    assert CanonTree(rt, v) == TObject([], ms);
    ObjectFits(p, CanonTree(rt, v), depth);
  }

  lemma FitsByFields(p: Profile, v: Value, keys: seq<Text>, depth: nat)
    requires v.Obj? && KeysOf(v, keys) && forall k :: k in v.members ==> k in keys
    requires depth <= p.limits.maxDepth
    ensures FitsValue(p, v, depth) <==> |v.members| <= p.limits.maxItems && FieldsFit(p, v, keys, depth)
  {
    if FieldsFit(p, v, keys, depth) {
      forall k | k in v.members ensures ByteLength(k) <= p.limits.maxStringBytes && FitsValue(p, v.members[k], depth + 1) {
        assert k in keys;
      }
    }
  }

  predicate FieldsFit(p: Profile, v: Value, keys: seq<Text>, depth: nat)
    requires KeysOf(v, keys)
  {
    forall i :: 0 <= i < |keys| ==> ByteLength(keys[i]) <= p.limits.maxStringBytes && FitsValue(p, v.members[keys[i]], depth + 1)
  }

  lemma {:induction false} CanonFieldsFit(p: Profile, rt: Runtime, v: Value, keys: seq<Text>, depth: nat)
    requires Printable(rt, v) && KeysOf(v, keys) && p.toNumber == rt.toNumber
    requires GoodMembers(CanonMembers(rt, v, keys))
    ensures var ms := CanonMembers(rt, v, keys);
            (forall i :: 0 <= i < |ms| ==> FitsString(p, ms[i].key) && Fits(p, ms[i].value, depth + 1)) <==> FieldsFit(p, v, keys, depth)
    decreases v, 0, 1
  {
    var ms := CanonMembers(rt, v, keys);
    hide FitsString, ByteLength, Fits, FitsValue, CanonMember, Decode, GoodPieces;
    if FieldsFit(p, v, keys, depth) {
      forall i | 0 <= i < |ms| ensures FitsString(p, ms[i].key) && Fits(p, ms[i].value, depth + 1) {
        CanonFieldFits(p, rt, v, keys[i], depth + 1);
      }
    }
    if forall i :: 0 <= i < |ms| ==> FitsString(p, ms[i].key) && Fits(p, ms[i].value, depth + 1) {
      forall i | 0 <= i < |keys| ensures ByteLength(keys[i]) <= p.limits.maxStringBytes && FitsValue(p, v.members[keys[i]], depth + 1) {
        assert FitsString(p, ms[i].key) && Fits(p, ms[i].value, depth + 1);
        CanonFieldFits(p, rt, v, keys[i], depth + 1);
      }
    }
  }

  lemma CanonKeysDistinct(rt: Runtime, v: Value, keys: seq<Text>)
    requires Printable(rt, v) && v.Obj? && keys == SortedKeys(v.members.Keys) && GoodMembers(CanonMembers(rt, v, keys))
    ensures DistinctKeys(CanonMembers(rt, v, keys))
  {
    SortedDistinct(v.members.Keys);
    forall k | 0 <= k < |keys| ensures Decode(CanonMembers(rt, v, keys)[k].key) == keys[k] { CanonPiecesMean(keys[k]); }
  }

  // ---- round trip ----

  /** The canonical text of a value parses to that value exactly when the value
      is within the limits and prints no integer outside the safe range, and is
      refused otherwise. */
  lemma CanonicalRoundTrip(p: Profile, rt: Runtime, v: Value)
    requires Printable(rt, v) && p.toNumber == rt.toNumber
    ensures Serialize(rt, v).Output?
    ensures var text := Serialize(rt, v).text;
            var r := Parse(p, text);
            if FitsAll(p, v) then r == Done(v, |text|, CountValue(v)) else r.Fail?
  {
    hide Parse, Render, CanonTree, Serialize, FitsValue, Fits, CountValue, Count, Denote, Grammatical;
    var t := CanonTree(rt, v);
    SerializeRenders(rt, v);
    CanonDenotes(p, rt, v);
    CanonFits(p, rt, v, 1);
    CanonCount(rt, v);
    ParseRendered(p, [], t, []);
    assert [] + Render(t) + [] == Render(t);
  }

  /** A canonical text the parser accepts is the text of the value it accepted. */
  lemma CanonicalIdempotent(p: Profile, rt: Runtime, v: Value)
    requires Printable(rt, v) && p.toNumber == rt.toNumber
    requires Serialize(rt, v).Output? && Parse(p, Serialize(rt, v).text).Done?
    ensures Serialize(rt, Parse(p, Serialize(rt, v).text).value) == Serialize(rt, v)
  {
    CanonicalRoundTrip(p, rt, v);
  }

  // ---- injectivity, for every printable value ----

  function Unlimited(rt: Runtime, n: nat): Profile {
    Profile(Limits(n, n, n, n, n), rt.toNumber, false)
  }

  ghost predicate BoundedBy(rt: Runtime, v: Value, n: nat) {
    forall m: nat, depth: nat :: depth + n <= m ==> FitsValue(Unlimited(rt, m), v, depth)
  }

  lemma BoundedMore(rt: Runtime, v: Value, n: nat, m: nat)
    requires BoundedBy(rt, v, n) && n <= m
    ensures BoundedBy(rt, v, m)
  {}

  /** Every value fits once the limits are large enough. */
  lemma {:induction false} FitsBound(rt: Runtime, v: Value) returns (n: nat)
    ensures BoundedBy(rt, v, n)
    decreases v, 2
  {
    match v
    case Str(s) => n := ByteLength(s);
    case Arr(items) =>
      var inner := FitsBoundItems(rt, items);
      n := inner + |items| + 1;
    case Obj(members) =>
      var keys := SortedKeys(members.Keys);
      var inner := FitsBoundFields(rt, v, keys);
      n := inner + |members| + 1;
      forall m: nat, depth: nat | depth + n <= m ensures FitsValue(Unlimited(rt, m), v, depth) {
        forall k | k in members ensures ByteLength(k) <= m && FitsValue(Unlimited(rt, m), members[k], depth + 1) {
          assert k in keys;
        }
      }
    case _ => n := 0;
  }

  lemma {:induction false} FitsBoundItems(rt: Runtime, items: seq<Value>) returns (n: nat)
    ensures forall k :: 0 <= k < |items| ==> BoundedBy(rt, items[k], n)
    decreases items, 1
  {
    n := 0;
    if items != [] {
      var first := FitsBound(rt, items[0]);
      var rest := FitsBoundItems(rt, items[1..]);
      n := first + rest;
      forall k | 0 <= k < |items| ensures BoundedBy(rt, items[k], n) {
        if k == 0 { BoundedMore(rt, items[0], first, n); }
        else {
          assert items[k] == items[1..][k - 1];
          BoundedMore(rt, items[k], rest, n);
        }
      }
    }
  }

  lemma {:induction false} FitsBoundFields(rt: Runtime, v: Value, keys: seq<Text>) returns (n: nat)
    requires KeysOf(v, keys)
    ensures forall k :: k in keys ==> ByteLength(k) <= n && BoundedBy(rt, v.members[k], n)
    decreases v, 1, |keys|
  {
    n := 0;
    if keys != [] {
      var first := FitsBound(rt, v.members[keys[0]]);
      var rest := FitsBoundFields(rt, v, keys[1..]);
      n := first + rest + ByteLength(keys[0]);
      forall k | k in keys ensures ByteLength(k) <= n && BoundedBy(rt, v.members[k], n) {
        if k == keys[0] { BoundedMore(rt, v.members[k], first, n); }
        else {
          assert k in keys[1..];
          BoundedMore(rt, v.members[k], rest, n);
        }
      }
    }
  }

  /** Distinct values have distinct canonical texts, even those admission refuses. */
  lemma CanonicalInjective(rt: Runtime, v: Value, w: Value)
    requires Printable(rt, v) && Printable(rt, w) && Serialize(rt, v) == Serialize(rt, w)
    ensures v == w
  {
    hide Serialize, Parse, CountValue, Printable, FitsValue;
    var m := FitsBound(rt, v);
    var n := FitsBound(rt, w);
    var p := Unlimited(rt, m + n + 1 + CountValue(v) + CountValue(w));
    assert FitsValue(p, v, 1) && FitsValue(p, w, 1);
    CanonicalRoundTrip(p, rt, v);
    CanonicalRoundTrip(p, rt, w);
  }

  // ---- admitted values can always be printed ----

  lemma {:induction false} DecodeScalar(cs: seq<Piece>)
    requires GoodPieces(cs)
    ensures Scalar(Decode(cs))
    decreases |cs|
  {
    if cs != [] {
      DecodeScalar(cs[1..]);
      var d := DecodePiece(cs[0]);
      assert Scalar(d);
      ScalarConcat(d, Decode(cs[1..]));
    }
  }

  lemma {:induction false} DenotePrintable(p: Profile, rt: Runtime, t: Tree, depth: nat)
    requires Grammatical(t) && Fits(p, t, depth) && p.toNumber == rt.toNumber && Ecma(rt)
    ensures Printable(rt, Denote(p, t))
    decreases t, 0
  {
    match t
    case TString(pieces) => DecodeScalar(pieces);
    case TArray(_, items) =>
      DenoteItemsPrintable(p, rt, items, depth + 1);
      assert Denote(p, t) == Arr(DenoteItems(p, items));
    case TObject(_, members) => DenoteMembersPrintable(p, rt, members, map[], depth + 1);
    case _ =>
  }

  predicate AllPrintable(rt: Runtime, vs: seq<Value>) { forall k :: 0 <= k < |vs| ==> Printable(rt, vs[k]) }

  lemma {:induction false} DenoteItemsPrintable(p: Profile, rt: Runtime, items: seq<Item>, depth: nat)
    requires GoodItems(items) && p.toNumber == rt.toNumber && Ecma(rt)
    requires forall k :: 0 <= k < |items| ==> Fits(p, items[k].value, depth)
    ensures AllPrintable(rt, DenoteItems(p, items))
    decreases items, 1
  {
    if items != [] {
      DenotePrintable(p, rt, items[0].value, depth);
      DenoteItemsPrintable(p, rt, items[1..], depth);
      PrintableCons(rt, Denote(p, items[0].value), DenoteItems(p, items[1..]));
    }
  }

  lemma PrintableCons(rt: Runtime, v: Value, rest: seq<Value>)
    requires Printable(rt, v) && AllPrintable(rt, rest)
    ensures AllPrintable(rt, [v] + rest)
  {
    hide Printable;
  }

  lemma {:induction false} DenoteMembersPrintable(p: Profile, rt: Runtime, members: seq<Member>, base: map<Text, Value>, depth: nat)
    requires GoodMembers(members) && p.toNumber == rt.toNumber && Ecma(rt)
    requires forall k :: 0 <= k < |members| ==> Fits(p, members[k].value, depth)
    requires forall k :: k in base ==> Scalar(k) && Printable(rt, base[k])
    ensures var m := DenoteMembers(p, members, base);
            forall k :: k in m ==> Scalar(k) && Printable(rt, m[k])
    decreases members, 1
  {
    if members != [] {
      DecodeScalar(members[0].key);
      DenotePrintable(p, rt, members[0].value, depth);
      DenoteMembersPrintable(p, rt, members[1..], base[Decode(members[0].key) := Denote(p, members[0].value)], depth);
    }
  }

  /** Canonicalization never refuses a value that strict admission produced. */
  lemma AdmittedPrintable(p: Profile, rt: Runtime, text: Text)
    requires Parse(p, text).Done? && p.toNumber == rt.toNumber && Ecma(rt)
    ensures Printable(rt, Parse(p, text).value) && Serialize(rt, Parse(p, text).value).Output?
  {
    hide Parse, Render, Denote, Printable, Serialize, Ecma;
    var w1, t, w2 := ParseSound(p, text);
    DenotePrintable(p, rt, t, 1);
    SerializeRenders(rt, Parse(p, text).value);
  }

  /** Two admitted texts have the same canonical text exactly when they hold the same value. */
  lemma CanonicalNormalForm(p: Profile, rt: Runtime, a: Text, b: Text)
    requires Parse(p, a).Done? && Parse(p, b).Done? && p.toNumber == rt.toNumber && Ecma(rt)
    ensures Serialize(rt, Parse(p, a).value) == Serialize(rt, Parse(p, b).value) <==> Parse(p, a).value == Parse(p, b).value
  {
    hide Parse, Serialize, Printable, Ecma;
    AdmittedPrintable(p, rt, a);
    AdmittedPrintable(p, rt, b);
    if Serialize(rt, Parse(p, a).value) == Serialize(rt, Parse(p, b).value) {
      CanonicalInjective(rt, Parse(p, a).value, Parse(p, b).value);
    }
  }
}
