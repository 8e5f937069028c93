/** Integers that do not fit 32 bits are given the int64 format. */
module Widening {
  import opened CodeUnits
  import opened Json
  import opened References
  import opened ReferenceRewriting
  import Canonical
  import SpecNormalization

  type Members = map<Text, Value>

  const INT32_MAX: real := 2147483647.0
  const INT32_MIN: real := -2147483648.0
  const FORMAT: Text := Lit("format")
  const MINIMUM: Text := Lit("minimum")
  const MAXIMUM: Text := Lit("maximum")
  const TYPE: Text := Lit("type")
  const INTEGER: Text := Lit("integer")
  const INT64: Text := Lit("int64")

  function Drop(): Dropped { SpecNormalization.DropFor(None) }

  predicate Above(m: Members) { MAXIMUM in m && m[MAXIMUM].Num? && Below(Finite(INT32_MAX), m[MAXIMUM].n) }

  predicate Under(m: Members) { MINIMUM in m && m[MINIMUM].Num? && Below(m[MINIMUM].n, Finite(INT32_MIN)) }

  /** An integer schema without a format whose bounds leave 32 bits. */
  predicate Exceeds(m: Members) { TYPE in m && m[TYPE] == Str(INTEGER) && FORMAT !in m && (Above(m) || Under(m)) }

  function AddFormat(m: Members): Members { if Exceeds(m) then m[FORMAT := Str(INT64)] else m }

  function Widen(v: Value): Value {
    match v
    case Arr(items) => Arr(seq(|items|, i requires 0 <= i < |items| => Widen(items[i])))
    case Obj(members) => Obj(AddFormat(map k | k in members && !Drop()(k) :: Widen(members[k])))
    case _ => v
  }

  function Copy(v: Value): Members
    requires v.Obj?
  {
    map k | k in v.members && !Drop()(k) :: Widen(v.members[k])
  }

  ghost predicate Copied(v: Value, done: seq<Text>, output: Members)
    requires v.Obj?
  {
    && (forall k :: k in output <==> k in v.members && k in done && !Drop()(k))
    && forall k :: k in output ==> output[k] == Widen(v.members[k])
  }

  lemma CopiedMore(v: Value, done: seq<Text>, key: Text, output: Members, more: Members)
    requires v.Obj? && key in v.members && Copied(v, done, output)
    requires more == if Drop()(key) then output else output[key := Widen(v.members[key])]
    ensures Copied(v, done + [key], more)
  {
    hide Widen, Drop;
  }

  lemma CopiedAll(v: Value, done: seq<Text>, output: Members)
    requires v.Obj? && Copied(v, done, output) && forall k :: k in v.members ==> k in done
    ensures Widen(v) == Obj(AddFormat(output))
  {
    assert output == Copy(v) by { hide Widen, Drop; }
    hide AddFormat;
  }

  method WidenIntegers(v: Value) returns (output: Value)
    ensures output == Widen(v)
    decreases v
  {
    match v
    case Arr(items) =>
      var widened: seq<Value> := [];
      while |widened| < |items|
        invariant |widened| <= |items| && forall i :: 0 <= i < |widened| ==> widened[i] == Widen(items[i])
      {
        var item := WidenIntegers(items[|widened|]);
        widened := widened + [item];
      }
      output := Arr(widened);
    case Obj(members) =>
      output := WidenMembers(v);
    case _ =>
      output := v;
  }

  method WidenMembers(v: Value) returns (output: Value)
    requires v.Obj?
    ensures output == Widen(v)
    decreases v, 0
  {
    hide Copied, Widen, Exceeds, Drop, Canonical.SortedKeys;
    var keys := Canonical.SortedKeys(v.members.Keys);
    var filled: Members := map[];
    var i := 0;
    assert Copied(v, keys[..0], filled) by { NothingCopied(v, keys[..0]); }
    while i < |keys|
      invariant 0 <= i <= |keys|
      invariant Copied(v, keys[..i], filled)
    {
      assert keys[i] in keys;
      ghost var before := filled;
      if !Drop()(keys[i]) {
        var child := WidenIntegers(v.members[keys[i]]);
        filled := filled[keys[i] := child];
      }
      CopiedMore(v, keys[..i], keys[i], before, filled);
      assert keys[..i + 1] == keys[..i] + [keys[i]];
      i := i + 1;
    }
    assert keys[..i] == keys;
    CopiedAll(v, keys, filled);
    if Exceeds(filled) {
      filled := filled[FORMAT := Str(INT64)];
    }
    return Obj(filled);
  }

  lemma NothingCopied(v: Value, done: seq<Text>)
    requires v.Obj? && done == []
    ensures Copied(v, done, map[])
  {}

  // ---- what widening achieves, and what it leaves alone ----

  /** No schema inside the value exceeds 32 bits without saying so, and none of
      the omitted members is there. */
  predicate Fitted(v: Value) {
    match v
    case Arr(items) => forall i :: 0 <= i < |items| ==> Fitted(items[i])
    case Obj(members) => !Exceeds(members) && forall k :: k in members ==> !Drop()(k) && Fitted(members[k])
    case _ => true
  }

  lemma FormatKept()
    ensures !Drop()(FORMAT) && FORMAT != REF
  {
    assert |FORMAT| == 6 && |SpecNormalization.PROTO| == 9 && |REF| == 4;
  }

  lemma AddedFormatFits(m: Members)
    ensures !Exceeds(AddFormat(m))
  {}

  /** After widening, every integer beyond 32 bits carries a format. */
  lemma {:induction false} WidenFits(v: Value)
    ensures Fitted(Widen(v))
    decreases v
  {
    match v
    case Arr(items) =>
      forall i | 0 <= i < |items| ensures Fitted(Widen(items[i])) { WidenFits(items[i]); }
    case Obj(members) =>
      FormatKept();
      forall k | k in members ensures Fitted(Widen(members[k])) { WidenFits(members[k]); }
      AddedFormatFits(Copy(v));
      hide Exceeds;
    case _ =>
  }

  /** Widening leaves a value alone exactly when there is nothing to widen. */
  lemma {:induction false} WidenFixes(v: Value)
    requires Fitted(v)
    ensures Widen(v) == v
    decreases v
  {
    match v
    case Arr(items) =>
      forall i | 0 <= i < |items| ensures Widen(items[i]) == items[i] { WidenFixes(items[i]); }
    case Obj(members) =>
      forall k | k in members ensures Widen(members[k]) == members[k] { WidenFixes(members[k]); }
      hide Exceeds;
      assert Copy(v) == members;
    case _ =>
  }

  lemma WidenOnce(v: Value)
    ensures Widen(Widen(v)) == Widen(v)
    ensures Widen(v) == v <==> Fitted(v)
  {
    WidenFits(v);
    WidenFixes(Widen(v));
    if Fitted(v) { WidenFixes(v); }
  }

  lemma {:induction false} WidenText(v: Value)
    ensures Widen(v).Str? <==> v.Str?
    ensures v.Str? ==> Widen(v) == v
  {}

  /** Widening neither adds nor loses a reference. */
  lemma {:induction false} WidenKeepsReferences(v: Value, t: Text)
    ensures Holds(Nothing(), Widen(v), t) <==> Holds(Drop(), v, t)
    decreases v
  {
    match v
    case Arr(items) =>
      forall i | 0 <= i < |items| ensures Holds(Nothing(), Widen(items[i]), t) <==> Holds(Drop(), items[i], t) {
        WidenKeepsReferences(items[i], t);
      }
      WidenedItems(v, t);
    case Obj(members) =>
      forall k | k in members ensures HoldsMember(Nothing(), k, Widen(members[k]), t) <==> HoldsMember(Drop(), k, members[k], t) {
        WidenText(members[k]);
        WidenKeepsReferences(members[k], t);
      }
      WidenedMembers(v, t);
    case _ =>
  }

  lemma WidenedItems(v: Value, t: Text)
    requires v.Arr? && forall i :: 0 <= i < |v.items| ==> (Holds(Nothing(), Widen(v.items[i]), t) <==> Holds(Drop(), v.items[i], t))
    ensures Holds(Nothing(), Widen(v), t) <==> Holds(Drop(), v, t)
  {
    var w := Widen(v);
    assert |w.items| == |v.items| && forall i :: 0 <= i < |v.items| ==> w.items[i] == Widen(v.items[i]);
    hide Widen;
    if Holds(Nothing(), w, t) {
      var i :| 0 <= i < |w.items| && Holds(Nothing(), w.items[i], t);
      assert Holds(Drop(), v.items[i], t);
    }
    if Holds(Drop(), v, t) {
      var i :| 0 <= i < |v.items| && Holds(Drop(), v.items[i], t);
      assert Holds(Nothing(), w.items[i], t);
    }
  }

  lemma WidenedMembers(v: Value, t: Text)
    requires v.Obj?
    requires forall k :: k in v.members ==> (HoldsMember(Nothing(), k, Widen(v.members[k]), t) <==> HoldsMember(Drop(), k, v.members[k], t))
    ensures Holds(Nothing(), Widen(v), t) <==> Holds(Drop(), v, t)
  {
    var m := Copy(v);
    assert Widen(v) == Obj(AddFormat(m));
    FormatAdded(m, t);
    CopiedMembers(v);
    MembersHold(Nothing(), Obj(m), t);
    MembersHold(Drop(), v, t);
    assert forall k :: !Nothing()(k);
    hide Widen, AddFormat, Copy, Holds, HoldsMember, Drop, Nothing;
    if Holds(Nothing(), Obj(m), t) {
      var k :| k in m && HoldsMember(Nothing(), k, m[k], t);
      assert HoldsMember(Drop(), k, v.members[k], t);
    }
    if Holds(Drop(), v, t) {
      var k :| k in v.members && !Drop()(k) && HoldsMember(Drop(), k, v.members[k], t);
      assert k in m && HoldsMember(Nothing(), k, m[k], t);
    }
  }

  lemma CopiedMembers(v: Value)
    requires v.Obj?
    ensures forall k :: k in Copy(v) <==> k in v.members && !Drop()(k)
    ensures forall k :: k in Copy(v) ==> Copy(v)[k] == Widen(v.members[k])
  {
    hide Widen;
  }

  /** The added format holds no reference, nor does what it replaces. */
  lemma FormatAdded(m: Members, t: Text)
    ensures Holds(Nothing(), Obj(AddFormat(m)), t) <==> Holds(Nothing(), Obj(m), t)
  {
    FormatKept();
    var w := AddFormat(m);
    if Holds(Nothing(), Obj(w), t) {
      var k :| k in w && HoldsMember(Nothing(), k, w[k], t);
      assert k in m && w[k] == m[k];
    }
    if Holds(Nothing(), Obj(m), t) {
      var k :| k in m && HoldsMember(Nothing(), k, m[k], t);
      assert k in w && w[k] == m[k];
    }
  }

  // ---- what becomes of each value ----

  /** A number above 2^31 - 1, and one below -2^31. */
  predicate TooLarge(n: Number) { n == Infinite(false) || (n.Finite? && n.x > 2147483647.0) }

  predicate TooSmall(n: Number) { n == Infinite(true) || (n.Finite? && n.x < -2147483648.0) }

  /** An object that says it is an integer, has no format, and has a bound beyond 32 bits. */
  predicate TooWide(v: Value) {
    && v.Obj? && Lit("type") in v.members && v.members[Lit("type")] == Str(Lit("integer")) && Lit("format") !in v.members
    && ((Lit("maximum") in v.members && v.members[Lit("maximum")].Num? && TooLarge(v.members[Lit("maximum")].n))
        || (Lit("minimum") in v.members && v.members[Lit("minimum")].Num? && TooSmall(v.members[Lit("minimum")].n)))
  }

  lemma KeywordsStay()
    ensures !Drop()(TYPE) && !Drop()(FORMAT) && !Drop()(MAXIMUM) && !Drop()(MINIMUM)
  {
    assert |SpecNormalization.PROTO| == 9 && |TYPE| == 4 && |FORMAT| == 6 && |MAXIMUM| == 7 && |MINIMUM| == 7;
  }

  lemma ExceedsExactly(v: Value)
    requires v.Obj?
    ensures Exceeds(Copy(v)) <==> TooWide(v)
  {
    KeywordsStay();
    CopiedMembers(v);
    if TYPE in v.members { WidenText(v.members[TYPE]); }
    if MAXIMUM in v.members { WidenNumber(v.members[MAXIMUM]); }
    if MINIMUM in v.members { WidenNumber(v.members[MINIMUM]); }
    hide Widen, Drop, Copy, TYPE, FORMAT, MAXIMUM, MINIMUM, INTEGER;
    KeywordsAre();
  }

  lemma KeywordsAre()
    ensures TYPE == Lit("type") && FORMAT == Lit("format") && MAXIMUM == Lit("maximum") && MINIMUM == Lit("minimum")
    ensures INTEGER == Lit("integer") && INT64 == Lit("int64")
  {}

  lemma WidenNumber(v: Value)
    ensures Widen(v).Num? <==> v.Num?
    ensures v.Num? ==> Widen(v) == v
  {}

  /** Arrays and what is neither array nor object stay what they are. */
  lemma WidenedOthers(v: Value)
    ensures v.Arr? ==>
              && Widen(v).Arr? && |Widen(v).items| == |v.items|
              && forall i :: 0 <= i < |v.items| ==> Widen(v).items[i] == Widen(v.items[i])
    ensures !v.Obj? && !v.Arr? ==> Widen(v) == v
  {}

  const PROTOTYPE: Text := Lit("__proto__")

  /** Widening copies an object but for a member named __proto__, and adds the format
      int64 exactly if it is too wide. */
  lemma WidenedExactly(v: Value)
    requires v.Obj?
    ensures Widen(v).Obj?
    ensures forall k :: k in Widen(v).members <==> (k in v.members && k != PROTOTYPE) || (TooWide(v) && k == Lit("format"))
    ensures TooWide(v) ==> Widen(v).members[Lit("format")] == Str(Lit("int64"))
    ensures forall k :: k in v.members && k != PROTOTYPE ==> k in Widen(v).members && Widen(v).members[k] == Widen(v.members[k])
  {
    ExceedsExactly(v);
    CopiedMembers(v);
    KeywordsAre();
    KeywordsStay();
    assert Widen(v) == Obj(AddFormat(Copy(v)));
    assert forall k :: Drop()(k) <==> k == PROTOTYPE;
    hide Widen, Copy, TooWide, Exceeds, TYPE, FORMAT, MAXIMUM, MINIMUM, INT64, PROTOTYPE;
  }

  /** Wherever a pointer leads in the original without passing a member named
      __proto__, it leads in the copy to the widened value. */
  lemma {:induction false} WidenedAt(v: Value, tokens: seq<Text>)
    requires Deref(v, tokens).Some? && forall i :: 0 <= i < |tokens| ==> tokens[i] != PROTOTYPE
    ensures Deref(Widen(v), tokens) == Some(Widen(Deref(v, tokens).value))
    decreases |tokens|
  {
    if tokens != [] {
      WidenedChild(v, tokens[0]);
      hide Widen, Child;
      assert forall i :: 0 <= i < |tokens[1..]| ==> tokens[1..][i] == tokens[i + 1];
      WidenedAt(Child(v, tokens[0]).value, tokens[1..]);
    }
  }

  lemma WidenedChild(v: Value, token: Text)
    requires Child(v, token).Some? && token != PROTOTYPE
    ensures Child(Widen(v), token) == Some(Widen(Child(v, token).value))
  {
    if v.Obj? { WidenedExactly(v); }
    WidenedOthers(v);
    hide Widen, TooWide, PROTOTYPE;
    if v.Arr? {
      var w := Widen(v);
      var i :| 0 <= i < |v.items| && IndexText(i) == token && Child(v, token) == Some(v.items[i]);
      var j :| 0 <= j < |w.items| && IndexText(j) == token && Child(w, token) == Some(w.items[j]);
      IndexInjective(i, j);
    }
  }
}
