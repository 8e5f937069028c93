/** Rewriting the $ref strings of a document: the walk that the projections of
    the specification tooling and of the bundle emitter have in common. */
module ReferenceRewriting {
  import opened CodeUnits
  import opened Json
  import Canonical
  import Decimal
  import opened References

  /** What happens to one $ref string; None where the code throws. */
  type Action = Text -> Option<Text>

  /** Member names left out of the copy, at every depth. */
  type Dropped = Text -> bool

  predicate IsReference(key: Text, child: Value) { key == REF && child.Str? }

  // ---- the copy ----

  /** No $ref string of the copied part is refused. */
  predicate Accepts(f: Action, drop: Dropped, v: Value)
    decreases v, 0
  {
    match v
    case Arr(items) => forall i :: 0 <= i < |items| ==> Accepts(f, drop, items[i])
    case Obj(members) => forall k :: k in members && !drop(k) ==> AcceptsMember(f, drop, k, members[k])
    case _ => true
  }

  predicate AcceptsMember(f: Action, drop: Dropped, key: Text, child: Value)
    decreases child, 1
  {
    if IsReference(key, child) then f(child.s).Some? else Accepts(f, drop, child)
  }

  function Apply(f: Action, drop: Dropped, v: Value): Value
    requires Accepts(f, drop, v)
    decreases v, 0
  {
    match v
    case Arr(items) => Arr(seq(|items|, i requires 0 <= i < |items| => Apply(f, drop, items[i])))
    case Obj(members) => Obj(map k | k in members && !drop(k) :: ApplyMember(f, drop, k, members[k]))
    case _ => v
  }

  function ApplyMember(f: Action, drop: Dropped, key: Text, child: Value): Value
    requires AcceptsMember(f, drop, key, child)
    decreases child, 1
  {
    if IsReference(key, child) then Str(f(child.s).value) else Apply(f, drop, child)
  }

  function Rewritten(f: Action, drop: Dropped, v: Value): Option<Value> {
    if Accepts(f, drop, v) then Some(Apply(f, drop, v)) else None
  }

  /** The walk: a loop over items, or over keys filling the copy. */
  method Rewrite(f: Action, drop: Dropped, v: Value) returns (copy: Option<Value>)
    ensures copy == Rewritten(f, drop, v)
    decreases v
  {
    match v
    case Arr(items) =>
      copy := RewriteItems(f, drop, v);
    case Obj(members) =>
      copy := RewriteMembers(f, drop, v);
    case _ =>
      copy := Some(v);
  }

  method RewriteItems(f: Action, drop: Dropped, v: Value) returns (copy: Option<Value>)
    requires v.Arr?
    ensures copy == Rewritten(f, drop, v)
    decreases v, 0
  {
    var output: seq<Value> := [];
    while |output| < |v.items|
      invariant |output| <= |v.items|
      invariant forall i :: 0 <= i < |output| ==> Accepts(f, drop, v.items[i]) && output[i] == Apply(f, drop, v.items[i])
    {
      var item := Rewrite(f, drop, v.items[|output|]);
      if item.None? {
        return None;
      }
      output := output + [item.value];
    }
    assert Apply(f, drop, v).items == output;
    return Some(Arr(output));
  }

  /** The members copied so far. */
  ghost predicate Copied(f: Action, drop: Dropped, v: Value, done: seq<Text>, output: map<Text, Value>)
    requires v.Obj?
  {
    && (forall k :: k in output <==> k in v.members && k in done && !drop(k))
    && forall k :: k in output ==> AcceptsMember(f, drop, k, v.members[k]) && output[k] == ApplyMember(f, drop, k, v.members[k])
  }

  lemma CopiedNone(f: Action, drop: Dropped, v: Value)
    requires v.Obj?
    ensures Copied(f, drop, v, [], map[])
  {}

  lemma CopiedMore(f: Action, drop: Dropped, v: Value, done: seq<Text>, key: Text, output: map<Text, Value>, more: map<Text, Value>)
    requires v.Obj? && key in v.members && Copied(f, drop, v, done, output)
    requires if drop(key) then more == output
             else AcceptsMember(f, drop, key, v.members[key]) && more == output[key := ApplyMember(f, drop, key, v.members[key])]
    ensures Copied(f, drop, v, done + [key], more)
  {
    hide AcceptsMember, ApplyMember;
  }

  lemma CopiedAll(f: Action, drop: Dropped, v: Value, done: seq<Text>, output: map<Text, Value>)
    requires v.Obj? && Copied(f, drop, v, done, output) && forall k :: k in v.members ==> k in done
    ensures Rewritten(f, drop, v) == Some(Obj(output))
  {
    hide AcceptsMember, ApplyMember;
    assert forall k :: k in v.members && !drop(k) ==> AcceptsMember(f, drop, k, v.members[k]);
    assert Apply(f, drop, v).members == output;
  }

  lemma MemberRefused(f: Action, drop: Dropped, v: Value, key: Text)
    requires v.Obj? && key in v.members && !drop(key) && !AcceptsMember(f, drop, key, v.members[key])
    ensures Rewritten(f, drop, v) == None
  {}

  method RewriteMembers(f: Action, drop: Dropped, v: Value) returns (copy: Option<Value>)
    requires v.Obj?
    ensures copy == Rewritten(f, drop, v)
    decreases v, 0
  {
    hide Copied, Accepts, Apply;
    var keys := Canonical.SortedKeys(v.members.Keys);
    var output: map<Text, Value> := map[];
    var i := 0;
    CopiedNone(f, drop, v);
    assert keys[..0] == [];
    while i < |keys|
      invariant 0 <= i <= |keys|
      invariant Copied(f, drop, v, keys[..i], output)
    {
      var key := keys[i];
      assert key in keys;
      ghost var before := output;
      if !drop(key) {
        var child := v.members[key];
        var member: Option<Value>;
        if IsReference(key, child) {
          member := match f(child.s) case None => None case Some(t) => Some(Str(t));
        } else {
          member := Rewrite(f, drop, child);
        }
        if member.None? {
          MemberRefused(f, drop, v, key);
          return None;
        }
        output := output[key := member.value];
      }
      CopiedMore(f, drop, v, keys[..i], key, before, output);
      assert keys[..i + 1] == keys[..i] + [key];
      i := i + 1;
    }
    assert keys[..i] == keys;
    CopiedAll(f, drop, v, keys, output);
    return Some(Obj(output));
  }

  // ---- the references of a value ----

  /** Somewhere in the copied part an object holds this $ref string. */
  predicate Holds(drop: Dropped, v: Value, s: Text)
    decreases v, 0
  {
    match v
    case Arr(items) => exists i :: 0 <= i < |items| && Holds(drop, items[i], s)
    case Obj(members) => exists k :: k in members && !drop(k) && HoldsMember(drop, k, members[k], s)
    case _ => false
  }

  predicate HoldsMember(drop: Dropped, key: Text, child: Value, s: Text)
    decreases child, 1
  {
    if IsReference(key, child) then child.s == s else Holds(drop, child, s)
  }

  /** A document is copied exactly when none of its references is refused. */
  lemma {:induction false} AcceptsExactly(f: Action, drop: Dropped, v: Value)
    ensures Accepts(f, drop, v) <==> forall s :: Holds(drop, v, s) ==> f(s).Some?
    decreases v
  {
    match v
    case Arr(items) =>
      forall i | 0 <= i < |items| ensures Accepts(f, drop, items[i]) <==> forall s :: Holds(drop, items[i], s) ==> f(s).Some? {
        AcceptsExactly(f, drop, items[i]);
      }
      if !Accepts(f, drop, v) {
        var i :| 0 <= i < |items| && !Accepts(f, drop, items[i]);
        var s :| Holds(drop, items[i], s) && f(s).None?;
        assert Holds(drop, v, s);
      }
    case Obj(members) =>
      forall k | k in members && !drop(k)
        ensures AcceptsMember(f, drop, k, members[k]) <==> forall s :: HoldsMember(drop, k, members[k], s) ==> f(s).Some?
      {
        if !IsReference(k, members[k]) {
          AcceptsExactly(f, drop, members[k]);
        } else {
          assert HoldsMember(drop, k, members[k], members[k].s);
        }
      }
      if !Accepts(f, drop, v) {
        var k :| k in members && !drop(k) && !AcceptsMember(f, drop, k, members[k]);
        var s :| HoldsMember(drop, k, members[k], s) && f(s).None?;
        assert Holds(drop, v, s);
      }
    case _ =>
  }

  function Nothing(): Dropped { (k: Text) => false }

  /** The references of the copy are exactly the images of those of the original. */
  lemma {:induction false} ReferencesOfCopy(f: Action, drop: Dropped, v: Value, t: Text)
    requires Accepts(f, drop, v)
    ensures Holds(Nothing(), Apply(f, drop, v), t) <==> exists s :: Holds(drop, v, s) && f(s) == Some(t)
    decreases v, 1
  {
    match v
    case Arr(items) => ReferencesOfItems(f, drop, v, t);
    case Obj(members) => ReferencesOfMembers(f, drop, v, t);
    case _ =>
  }

  lemma ItemsHold(drop: Dropped, v: Value, s: Text)
    requires v.Arr?
    ensures Holds(drop, v, s) <==> exists i :: 0 <= i < |v.items| && Holds(drop, v.items[i], s)
  {}

  lemma MembersHold(drop: Dropped, v: Value, s: Text)
    requires v.Obj?
    ensures Holds(drop, v, s) <==> exists k :: k in v.members && !drop(k) && HoldsMember(drop, k, v.members[k], s)
  {}

  lemma CopiedItem(f: Action, drop: Dropped, v: Value, i: int)
    requires v.Arr? && Accepts(f, drop, v) && 0 <= i < |v.items|
    ensures var copy := Apply(f, drop, v);
            copy.Arr? && |copy.items| == |v.items| && Accepts(f, drop, v.items[i]) && copy.items[i] == Apply(f, drop, v.items[i])
  {}

  lemma {:induction false} ReferencesOfItems(f: Action, drop: Dropped, v: Value, t: Text)
    requires v.Arr? && Accepts(f, drop, v)
    ensures Holds(Nothing(), Apply(f, drop, v), t) <==> exists s :: Holds(drop, v, s) && f(s) == Some(t)
    decreases v, 0
  {
    var copy := Apply(f, drop, v);
    assert copy.Arr? && |copy.items| == |v.items|;
    hide Holds, Apply, Accepts;
    forall i | 0 <= i < |v.items|
      ensures Holds(Nothing(), copy.items[i], t) <==> exists s :: Holds(drop, v.items[i], s) && f(s) == Some(t)
    {
      CopiedItem(f, drop, v, i);
      ReferencesOfCopy(f, drop, v.items[i], t);
    }
    ItemsHold(Nothing(), copy, t);
    if Holds(Nothing(), copy, t) {
      var i :| 0 <= i < |copy.items| && Holds(Nothing(), copy.items[i], t);
      var s :| Holds(drop, v.items[i], s) && f(s) == Some(t);
      ItemsHold(drop, v, s);
    }
    if s :| Holds(drop, v, s) && f(s) == Some(t) {
      ItemsHold(drop, v, s);
      var i :| 0 <= i < |v.items| && Holds(drop, v.items[i], s);
      assert Holds(Nothing(), copy.items[i], t);
    }
  }

  lemma {:induction false} ReferencesOfMember(f: Action, drop: Dropped, key: Text, child: Value, t: Text)
    requires AcceptsMember(f, drop, key, child)
    ensures HoldsMember(Nothing(), key, ApplyMember(f, drop, key, child), t)
        <==> exists s :: HoldsMember(drop, key, child, s) && f(s) == Some(t)
    decreases child, 2
  {
    if IsReference(key, child) {
      assert HoldsMember(drop, key, child, child.s);
    } else {
      ReferencesOfCopy(f, drop, child, t);
      assert forall s :: HoldsMember(drop, key, child, s) <==> Holds(drop, child, s);
    }
  }

  lemma {:induction false} ReferencesOfMembers(f: Action, drop: Dropped, v: Value, t: Text)
    requires v.Obj? && Accepts(f, drop, v)
    ensures Holds(Nothing(), Apply(f, drop, v), t) <==> exists s :: Holds(drop, v, s) && f(s) == Some(t)
    decreases v, 0
  {
    var copy := Apply(f, drop, v);
    if Holds(Nothing(), copy, t) {
      var k :| k in copy.members && HoldsMember(Nothing(), k, copy.members[k], t);
      ReferencesOfMember(f, drop, k, v.members[k], t);
      var s :| HoldsMember(drop, k, v.members[k], s) && f(s) == Some(t);
      assert Holds(drop, v, s);
    }
    if s :| Holds(drop, v, s) && f(s) == Some(t) {
      var k :| k in v.members && !drop(k) && HoldsMember(drop, k, v.members[k], s);
      ReferencesOfMember(f, drop, k, v.members[k], t);
      assert k in copy.members;
    }
  }

  /** Leaving less out keeps every reference. */
  lemma {:induction false} HoldsLess(drop: Dropped, less: Dropped, v: Value, s: Text)
    requires Holds(drop, v, s) && forall k :: less(k) ==> drop(k)
    ensures Holds(less, v, s)
    decreases v
  {
    match v
    case Arr(items) =>
      var i :| 0 <= i < |items| && Holds(drop, items[i], s);
      HoldsLess(drop, less, items[i], s);
    case Obj(members) =>
      var k :| k in members && !drop(k) && HoldsMember(drop, k, members[k], s);
      if !IsReference(k, members[k]) { HoldsLess(drop, less, members[k], s); }
      assert HoldsMember(less, k, members[k], s);
    case _ =>
  }

  lemma HoldsMore(drop: Dropped, v: Value, s: Text)
    requires Holds(drop, v, s)
    ensures Holds(Nothing(), v, s)
  {
    HoldsLess(drop, Nothing(), v, s);
  }

  /** No object holds a member of these names. */
  predicate Without(drop: Dropped, v: Value)
    decreases v
  {
    match v
    case Arr(items) => forall i :: 0 <= i < |items| ==> Without(drop, items[i])
    case Obj(members) => forall k :: k in members ==> !drop(k) && Without(drop, members[k])
    case _ => true
  }

  /** The copy is without the members left out. */
  lemma {:induction false} CopyIsWithout(f: Action, drop: Dropped, less: Dropped, v: Value)
    requires Accepts(f, drop, v) && forall k :: less(k) ==> drop(k)
    ensures Without(less, Apply(f, drop, v))
    decreases v
  {
    match v
    case Arr(items) =>
      forall i | 0 <= i < |items| ensures Without(less, Apply(f, drop, items[i])) { CopyIsWithout(f, drop, less, items[i]); }
    case Obj(members) =>
      forall k | k in members && !drop(k) ensures Without(less, ApplyMember(f, drop, k, members[k])) {
        if !IsReference(k, members[k]) { CopyIsWithout(f, drop, less, members[k]); }
      }
    case _ =>
  }

  /** Where nothing would be left out, every reference is copied. */
  lemma {:induction false} WithoutHolds(drop: Dropped, v: Value, s: Text)
    requires Without(drop, v) && Holds(Nothing(), v, s)
    ensures Holds(drop, v, s)
    decreases v
  {
    match v
    case Arr(items) =>
      var i :| 0 <= i < |items| && Holds(Nothing(), items[i], s);
      WithoutHolds(drop, items[i], s);
    case Obj(members) =>
      var k :| k in members && HoldsMember(Nothing(), k, members[k], s);
      if !IsReference(k, members[k]) { WithoutHolds(drop, members[k], s); }
      assert HoldsMember(drop, k, members[k], s);
    case _ =>
  }

  // ---- following pointers ----

  /** The digits of a decimal index as text. */
  function IndexText(i: nat): Text {
    var s := Decimal.Text(i);
    seq(|s|, j requires 0 <= j < |s| => 0x30 + Decimal.Digits(i)[j] as int)
  }

  /** What one pointer token selects (RFC 6901, section 4). */
  ghost function Child(v: Value, token: Text): Option<Value> {
    if v.Obj? && token in v.members then Some(v.members[token])
    else if v.Arr? && exists i :: 0 <= i < |v.items| && IndexText(i) == token then
      var i :| 0 <= i < |v.items| && IndexText(i) == token; Some(v.items[i])
    else None
  }

  ghost function Deref(v: Value, tokens: seq<Text>): Option<Value>
    decreases |tokens|
  {
    if tokens == [] then Some(v)
    else
      match Child(v, tokens[0])
      case None => None
      case Some(w) => Deref(w, tokens[1..])
  }

  lemma DerefStep(v: Value, key: Text, rest: seq<Text>)
    requires v.Obj?
    ensures Deref(v, [key] + rest) == if key in v.members then Deref(v.members[key], rest) else None
  {
    assert ([key] + rest)[1..] == rest;
  }

  lemma {:induction false} DerefConcat(v: Value, a: seq<Text>, b: seq<Text>)
    requires Deref(v, a).Some?
    ensures Deref(v, a + b) == Deref(Deref(v, a).value, b)
    decreases |a|
  {
    if a == [] {
      assert a + b == b;
    } else {
      assert (a + b)[1..] == a[1..] + b;
      DerefConcat(Child(v, a[0]).value, a[1..], b);
    }
  }

  predicate Passes(drop: Dropped, tokens: seq<Text>) { forall i :: 0 <= i < |tokens| ==> !drop(tokens[i]) }

  /** What a pointer selects, copied: a $ref string is replaced, anything else
      is copied as a value. */
  function Image(f: Action, drop: Dropped, tokens: seq<Text>, w: Value): Option<Value> {
    if tokens != [] && IsReference(tokens[|tokens| - 1], w) then
      match f(w.s) case None => None case Some(t) => Some(Str(t))
    else Rewritten(f, drop, w)
  }

  lemma IndexChosen(v: Value, w: Value, token: Text)
    requires v.Arr? && w.Arr? && |v.items| == |w.items| && Child(v, token).Some?
    ensures exists i :: 0 <= i < |v.items| && Child(v, token) == Some(v.items[i]) && Child(w, token) == Some(w.items[i])
  {
    var i :| 0 <= i < |v.items| && IndexText(i) == token && Child(v, token) == Some(v.items[i]);
    var j :| 0 <= j < |w.items| && IndexText(j) == token && Child(w, token) == Some(w.items[j]);
    IndexInjective(i, j);
  }

  lemma IndexInjective(i: nat, j: nat)
    requires IndexText(i) == IndexText(j)
    ensures i == j
  {
    forall k | 0 <= k < |Decimal.Digits(i)| ensures k < |Decimal.Digits(j)| && Decimal.Digits(i)[k] == Decimal.Digits(j)[k] {
      assert IndexText(i)[k] == IndexText(j)[k];
    }
    assert |IndexText(i)| == |IndexText(j)|;
    Decimal.DigitsInjective(i, j);
  }

  lemma NamesAreNoIndices(i: nat)
    ensures forall k :: 0 <= k < |IndexText(i)| ==> IsDigit(IndexText(i)[k])
    ensures IndexText(i) != [] && IndexText(i) != REF
  {
    assert IsDigit(IndexText(i)[0]);
    assert !IsDigit(REF[0]);
  }

  /** No index of an array is the name of a member left out. */
  ghost predicate KeepsIndices(drop: Dropped) { forall i: nat :: !drop(IndexText(i)) }

  lemma ChildOfCopy(f: Action, drop: Dropped, v: Value, token: Text)
    requires Accepts(f, drop, v) && !drop(token)
    ensures Child(v, token).None? ==> Child(Apply(f, drop, v), token).None?
    ensures Child(v, token).Some? ==>
              var w := Child(v, token).value;
              if v.Obj? then AcceptsMember(f, drop, token, w) && Child(Apply(f, drop, v), token) == Some(ApplyMember(f, drop, token, w))
              else Accepts(f, drop, w) && Child(Apply(f, drop, v), token) == Some(Apply(f, drop, w))
  {
    if v.Arr? && Child(v, token).Some? { IndexChosen(v, Apply(f, drop, v), token); }
  }

  /** Following a pointer and copying commute, for a pointer that keeps off the
      members left out; a dangling pointer stays dangling. */
  lemma {:induction false} DerefOfCopy(f: Action, drop: Dropped, v: Value, tokens: seq<Text>)
    requires Accepts(f, drop, v) && Passes(drop, tokens)
    ensures Deref(v, tokens).None? ==> Deref(Apply(f, drop, v), tokens).None?
    ensures Deref(v, tokens).Some? ==>
              Image(f, drop, tokens, Deref(v, tokens).value).Some?
              && Deref(Apply(f, drop, v), tokens) == Image(f, drop, tokens, Deref(v, tokens).value)
    decreases |tokens|
  {
    if tokens != [] {
      hide Accepts, Apply;
      ChildOfCopy(f, drop, v, tokens[0]);
      if Child(v, tokens[0]).Some? {
        var w := Child(v, tokens[0]).value;
        if v.Obj? && IsReference(tokens[0], w) {
          hide Child;
          NothingInText(w.s, tokens[1..]);
          NothingInText(f(w.s).value, tokens[1..]);
        } else {
          if v.Arr? {
            var i :| 0 <= i < |v.items| && IndexText(i) == tokens[0];
            NamesAreNoIndices(i);
          }
          hide Child;
          DerefOfCopy(f, drop, w, tokens[1..]);
          if |tokens| > 1 { assert tokens[1..][|tokens| - 2] == tokens[|tokens| - 1]; }
        }
      }
    }
  }

  /** A pointer that passes a member left out leads nowhere in the copy. */
  lemma {:induction false} DerefOfDropped(f: Action, drop: Dropped, v: Value, tokens: seq<Text>)
    requires Accepts(f, drop, v) && KeepsIndices(drop) && !Passes(drop, tokens)
    ensures Deref(Apply(f, drop, v), tokens).None?
    decreases |tokens|
  {
    if drop(tokens[0]) {
      var copy := Apply(f, drop, v);
      if copy.Arr? { assert forall i :: 0 <= i < |copy.items| ==> IndexText(i) != tokens[0]; }
    } else {
      assert !Passes(drop, tokens[1..]) by {
        var i :| 0 <= i < |tokens| && drop(tokens[i]);
        assert tokens[1..][i - 1] == tokens[i];
      }
      hide Accepts, Apply;
      ChildOfCopy(f, drop, v, tokens[0]);
      hide Child;
      if Child(v, tokens[0]).Some? {
        var w := Child(v, tokens[0]).value;
        if v.Obj? && IsReference(tokens[0], w) {
          NothingInText(f(w.s).value, tokens[1..]);
        } else {
          DerefOfDropped(f, drop, w, tokens[1..]);
        }
      }
    }
  }

  /** In the copy a pointer selects the copied value exactly when it keeps off
      the members left out. */
  lemma DerefExactly(f: Action, drop: Dropped, v: Value, tokens: seq<Text>)
    requires Accepts(f, drop, v) && KeepsIndices(drop) && Deref(v, tokens).Some?
    ensures var w := Deref(v, tokens).value;
            (Deref(Apply(f, drop, v), tokens).Some? && Deref(Apply(f, drop, v), tokens) == Image(f, drop, tokens, w))
            <==> Passes(drop, tokens)
  {
    if Passes(drop, tokens) { DerefOfCopy(f, drop, v, tokens); } else { DerefOfDropped(f, drop, v, tokens); }
  }

  lemma NothingInText(s: Text, tokens: seq<Text>)
    ensures Deref(Str(s), tokens) == if tokens == [] then Some(Str(s)) else None
  {}
}
