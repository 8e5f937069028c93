/** Narrowing a resolved description to the schemas its surface reaches. */
module BundleClosure {
  import opened CodeUnits
  import opened Json
  import opened JsonPointer
  import opened ReferenceRewriting
  import opened References
  import opened Prototypes
  import Canonical
  import Flattening

  const PREFIX: Text := Flattening.RESOLVED_PREFIX

  /** What reading a property can give: data, the prototype every object has, or
      one of its methods. */
  datatype Node = Data(v: Value) | ObjectPrototype | Method

  predicate IsObject(node: Node) { node.ObjectPrototype? || (node.Data? && node.v.Obj?) }

  /** node[name], None for undefined. */
  function Property(node: Node, name: Text): Option<Node>
    requires IsObject(node)
  {
    if node.Data? && name in node.v.members then Some(Data(node.v.members[name]))
    else if !Inherited(name) then None
    else if node.Data? && name == Lit("__proto__") then Some(ObjectPrototype)
    else Some(Method)
  }

  /** Following tokens from a node; None where the code throws. */
  function Walk(node: Node, tokens: seq<Text>): Option<Node>
    decreases |tokens|
  {
    if !IsObject(node) then None
    else if tokens == [] then Some(node)
    else
      match Property(node, tokens[0])
      case None => None
      case Some(next) => Walk(next, tokens[1..])
  }

  lemma WalkFromPrototype(node: Node, tokens: seq<Text>)
    requires !node.Data? && Walk(node, tokens).Some?
    ensures Walk(node, tokens) == Some(ObjectPrototype)
  {}

  /** pointer: the object a resolved reference leads to, None where it throws.
      The prototype, which holds no members of its own, reads as an empty object. */
  function Pointed(schemas: Value, ref: Text): Option<Value>
    requires StartsWith(ref, PREFIX)
  {
    match Walk(Data(schemas), Tokens(ref[|PREFIX|..]))
    case Some(Data(v)) => Some(v)
    case Some(_) => Some(Obj(map[]))
    case None => None
  }

  /** The object found by own members, through objects only. */
  function Own(v: Value, tokens: seq<Text>): (found: Option<Value>)
    ensures found.Some? ==> found.value.Obj?
    decreases |tokens|
  {
    if !v.Obj? then None
    else if tokens == [] then Some(v)
    else if tokens[0] in v.members then Own(v.members[tokens[0]], tokens[1..])
    else None
  }

  /** The last token asks an object, found by own members, for the prototype it has. */
  predicate AsksPrototype(v: Value, tokens: seq<Text>) {
    && tokens != [] && tokens[|tokens| - 1] == Lit("__proto__")
    && Own(v, tokens[..|tokens| - 1]).Some? && Lit("__proto__") !in Own(v, tokens[..|tokens| - 1]).value.members
  }

  lemma {:induction false} WalkExactly(v: Value, tokens: seq<Text>)
    ensures Walk(Data(v), tokens) ==
            if Own(v, tokens).Some? then Some(Data(Own(v, tokens).value))
            else if AsksPrototype(v, tokens) then Some(ObjectPrototype)
            else None
    decreases |tokens|
  {
    if v.Obj? && tokens != [] {
      var rest := tokens[1..];
      if tokens[0] in v.members {
        WalkExactly(v.members[tokens[0]], rest);
        hide Inherited;
        if Own(v, tokens).None? { AsksLater(v, tokens); }
      } else {
        WalkOff(v, tokens);
      }
    }
  }

  lemma AsksLater(v: Value, tokens: seq<Text>)
    requires v.Obj? && tokens != [] && tokens[0] in v.members && Own(v, tokens).None?
    ensures AsksPrototype(v, tokens) <==> AsksPrototype(v.members[tokens[0]], tokens[1..])
  {
    if |tokens| > 1 {
      assert tokens[..|tokens| - 1][1..] == tokens[1..][..|tokens| - 2];
    }
  }

  /** A token that is no own member leads to the prototype, as the last one, or nowhere. */
  lemma WalkOff(v: Value, tokens: seq<Text>)
    requires v.Obj? && tokens != [] && tokens[0] !in v.members
    ensures Own(v, tokens).None?
    ensures AsksPrototype(v, tokens) <==> tokens == [Lit("__proto__")]
    ensures Walk(Data(v), tokens) == if tokens == [Lit("__proto__")] then Some(ObjectPrototype) else None
  {
    PrototypeInherited();
    hide Inherited;
    if |tokens| > 1 {
      assert Own(v, tokens[..|tokens| - 1]).None?;
      FromPrototype(tokens[1..]);
    }
  }

  lemma PrototypeInherited()
    ensures Inherited(Lit("__proto__"))
  {}

  lemma FromPrototype(tokens: seq<Text>)
    requires tokens != []
    ensures Walk(ObjectPrototype, tokens) == None && Walk(Method, tokens) == None
  {
    hide Inherited;
    if |tokens| > 1 { assert Walk(Method, tokens[1..]) == None; }
  }

  /** Where a pointer leads: to the object its tokens find by own members; for a last
      token __proto__ of an object that holds none, to an empty one; else nowhere. */
  lemma PointedExactly(schemas: Value, ref: Text)
    requires StartsWith(ref, PREFIX)
    ensures var tokens := Tokens(ref[|PREFIX|..]);
            Pointed(schemas, ref) ==
            if Own(schemas, tokens).Some? then Own(schemas, tokens)
            else if AsksPrototype(schemas, tokens) then Some(Obj(map[]))
            else None
  {
    WalkExactly(schemas, Tokens(ref[|PREFIX|..]));
    hide Walk, Own, AsksPrototype, Tokens, PREFIX;
  }

  // ---- collecting references ----

  predicate IsResolved(key: Text, child: Value) { IsReference(key, child) && StartsWith(child.s, PREFIX) }

  function Collected(v: Value): set<Text>
    decreases v, 0
  {
    match v
    case Arr(items) => set i, t | 0 <= i < |items| && t in Collected(items[i]) :: t
    case Obj(members) => set k, t | k in members && t in CollectedMember(k, members[k]) :: t
    case _ => {}
  }

  function CollectedMember(key: Text, child: Value): set<Text>
    decreases child, 1
  {
    if IsResolved(key, child) then {child.s} else Collected(child)
  }

  /** The walk collects exactly the resolved references the value holds. */
  lemma {:induction false} CollectsExactly(v: Value, t: Text)
    ensures t in Collected(v) <==> Holds(Nothing(), v, t) && StartsWith(t, PREFIX)
    decreases v, 0
  {
    match v
    case Arr(items) =>
      forall i | 0 <= i < |items| ensures t in Collected(items[i]) <==> Holds(Nothing(), items[i], t) && StartsWith(t, PREFIX) {
        CollectsExactly(items[i], t);
      }
      if Holds(Nothing(), v, t) && StartsWith(t, PREFIX) {
        var i :| 0 <= i < |items| && Holds(Nothing(), items[i], t);
        assert t in Collected(items[i]);
      }
      if t in Collected(v) {
        var i :| 0 <= i < |items| && t in Collected(items[i]);
        assert Holds(Nothing(), items[i], t);
      }
    case Obj(members) =>
      forall k | k in members
        ensures t in CollectedMember(k, members[k]) <==> HoldsMember(Nothing(), k, members[k], t) && StartsWith(t, PREFIX)
      {
        if !IsReference(k, members[k]) { CollectsExactly(members[k], t); }
      }
      if Holds(Nothing(), v, t) && StartsWith(t, PREFIX) {
        var k :| k in members && HoldsMember(Nothing(), k, members[k], t);
        assert t in CollectedMember(k, members[k]);
      }
      if t in Collected(v) {
        var k :| k in members && t in CollectedMember(k, members[k]);
        assert HoldsMember(Nothing(), k, members[k], t);
      }
    case _ =>
  }

  method CollectRefs(v: Value, before: set<Text>) returns (into: set<Text>)
    ensures into == before + Collected(v)
    decreases v
  {
    match v
    case Arr(items) =>
      into := CollectFromItems(v, before);
    case Obj(members) =>
      into := CollectFromMembers(v, before);
    case _ =>
      into := before;
  }

  function CollectedUpTo(items: seq<Value>, n: nat): set<Text>
    requires n <= |items|
  {
    set i, t | 0 <= i < n && t in Collected(items[i]) :: t
  }

  lemma CollectedItems(items: seq<Value>)
    ensures Collected(Arr(items)) == CollectedUpTo(items, |items|)
    ensures CollectedUpTo(items, 0) == {}
    ensures forall n :: 0 <= n < |items| ==> CollectedUpTo(items, n + 1) == CollectedUpTo(items, n) + Collected(items[n])
  {}

  method CollectFromItems(v: Value, before: set<Text>) returns (into: set<Text>)
    requires v.Arr?
    ensures into == before + Collected(v)
    decreases v, 0
  {
    hide Collected, CollectedUpTo;
    CollectedItems(v.items);
    into := before;
    var i := 0;
    while i < |v.items|
      invariant 0 <= i <= |v.items|
      invariant into == before + CollectedUpTo(v.items, i)
    {
      into := CollectRefs(v.items[i], into);
      i := i + 1;
    }
  }

  function CollectedFrom(v: Value, keys: seq<Text>): set<Text>
    requires v.Obj? && forall i :: 0 <= i < |keys| ==> keys[i] in v.members
  {
    set i, t | 0 <= i < |keys| && t in CollectedMember(keys[i], v.members[keys[i]]) :: t
  }

  lemma CollectedAll(v: Value)
    requires v.Obj?
    ensures forall i :: 0 <= i < |Canonical.SortedKeys(v.members.Keys)| ==> Canonical.SortedKeys(v.members.Keys)[i] in v.members
    ensures CollectedFrom(v, Canonical.SortedKeys(v.members.Keys)) == Collected(v)
  {
    var keys := Canonical.SortedKeys(v.members.Keys);
    assert forall i :: 0 <= i < |keys| ==> keys[i] in keys;
    forall t ensures t in CollectedFrom(v, keys) <==> t in Collected(v) {
      if t in Collected(v) {
        var k :| k in v.members && t in CollectedMember(k, v.members[k]);
        assert k in keys;
      }
    }
  }

  lemma CollectedStep(v: Value, keys: seq<Text>, i: nat)
    requires v.Obj? && (forall j :: 0 <= j < |keys| ==> keys[j] in v.members) && i < |keys|
    ensures CollectedFrom(v, keys[..i + 1]) == CollectedFrom(v, keys[..i]) + CollectedMember(keys[i], v.members[keys[i]])
  {
    var a, b := keys[..i], keys[..i + 1];
    assert forall j :: 0 <= j < i ==> a[j] == b[j];
    assert b[i] == keys[i];
    hide CollectedMember;
    forall t ensures t in CollectedFrom(v, b) <==> t in CollectedFrom(v, a) || t in CollectedMember(keys[i], v.members[keys[i]]) {
      if t in CollectedFrom(v, a) {
        var j :| 0 <= j < |a| && t in CollectedMember(a[j], v.members[a[j]]);
        assert t in CollectedMember(b[j], v.members[b[j]]);
      }
      if t in CollectedMember(keys[i], v.members[keys[i]]) { assert t in CollectedMember(b[i], v.members[b[i]]); }
      if t in CollectedFrom(v, b) {
        var j :| 0 <= j < |b| && t in CollectedMember(b[j], v.members[b[j]]);
        if j < i { assert t in CollectedMember(a[j], v.members[a[j]]); }
      }
    }
  }

  method CollectFromMembers(v: Value, before: set<Text>) returns (into: set<Text>)
    requires v.Obj?
    ensures into == before + Collected(v)
    decreases v, 0
  {
    hide Collected, CollectedFrom, StartsWith, Canonical.SortedKeys;
    CollectedAll(v);
    var keys := Canonical.SortedKeys(v.members.Keys);
    into := before;
    var i := 0;
    NoKeys(v, keys[..0]);
    while i < |keys|
      invariant 0 <= i <= |keys|
      invariant into == before + CollectedFrom(v, keys[..i])
    {
      var child := v.members[keys[i]];
      CollectedStep(v, keys, i);
      if IsResolved(keys[i], child) {
        into := into + {child.s};
      } else {
        into := CollectRefs(child, into);
      }
      i := i + 1;
    }
    assert keys[..i] == keys;
  }

  lemma NoKeys(v: Value, keys: seq<Text>)
    requires v.Obj? && keys == []
    ensures CollectedFrom(v, keys) == {}
  {}

  // ---- the closure ----

  /** Every reference of the set leads somewhere, to references of the set only. */
  predicate ClosedUnder(schemas: Value, refs: set<Text>) {
    forall r :: r in refs ==> Leads(schemas, r) && Collected(Pointed(schemas, r).value) <= refs
  }

  predicate Leads(schemas: Value, r: Text) { StartsWith(r, PREFIX) && Pointed(schemas, r).Some? }

  /** No closed set that holds the seeds does without any of these. */
  ghost predicate Needed(schemas: Value, seeds: set<Text>, refs: set<Text>) {
    forall s: set<Text> :: seeds <= s && ClosedUnder(schemas, s) ==> refs <= s
  }

  ghost predicate LeastClosed(schemas: Value, seeds: set<Text>, refs: set<Text>) {
    seeds <= refs && ClosedUnder(schemas, refs) && Needed(schemas, seeds, refs)
  }

  lemma {:induction false} WalkedInside(v: Value, tokens: seq<Text>)
    requires Walk(Data(v), tokens).Some? && Walk(Data(v), tokens).value.Data?
    ensures Collected(Walk(Data(v), tokens).value.v) <= Collected(v)
    decreases |tokens|
  {
    if tokens != [] {
      var next := Property(Data(v), tokens[0]).value;
      if !next.Data? {
        WalkFromPrototype(next, tokens[1..]);
      } else {
        WalkedInside(next.v, tokens[1..]);
        CollectedInside(v, tokens[0]);
      }
    }
  }

  lemma CollectedInside(v: Value, key: Text)
    requires v.Obj? && key in v.members
    ensures Collected(v.members[key]) <= Collected(v)
  {
    forall t | t in Collected(v.members[key]) ensures t in Collected(v) {
      assert t in CollectedMember(key, v.members[key]);
    }
  }

  lemma PointedInside(schemas: Value, r: Text)
    requires Leads(schemas, r)
    ensures Collected(Pointed(schemas, r).value) <= Collected(schemas)
  {
    if Walk(Data(schemas), Tokens(r[|PREFIX|..])).value.Data? { WalkedInside(schemas, Tokens(r[|PREFIX|..])); }
  }

  /** What the references of a frontier lead to, one after the other; None as
      soon as one leads nowhere. */
  method Advance(schemas: Value, frontier: set<Text>) returns (next: Option<set<Text>>)
    requires forall r :: r in frontier ==> StartsWith(r, PREFIX)
    ensures next.None? ==> exists r :: r in frontier && !Leads(schemas, r)
    ensures next.Some? ==> forall r :: r in frontier ==> Leads(schemas, r) && Collected(Pointed(schemas, r).value) <= next.value
    ensures next.Some? ==> forall t :: t in next.value ==>
              exists r :: r in frontier && Leads(schemas, r) && t in Collected(Pointed(schemas, r).value)
  {
    hide Collected, Pointed;
    var remaining := frontier;
    var found: set<Text> := {};
    while remaining != {}
      invariant remaining <= frontier
      invariant forall r :: r in frontier && r !in remaining ==> Leads(schemas, r) && Collected(Pointed(schemas, r).value) <= found
      invariant forall t :: t in found ==> exists r :: r in frontier && Leads(schemas, r) && t in Collected(Pointed(schemas, r).value)
      decreases |remaining|
    {
      var ref :| ref in remaining;
      var target := Pointed(schemas, ref);
      if target.None? {
        return None;
      }
      found := CollectRefs(target.value, found);
      remaining := remaining - {ref};
    }
    return Some(found);
  }

  /** What is known of the worklist between two rounds. */
  ghost predicate Round(schemas: Value, seeds: set<Text>, reachable: set<Text>, frontier: set<Text>) {
    && seeds <= reachable && frontier <= reachable
    && reachable <= seeds + Collected(schemas)
    && (forall r :: r in reachable ==> StartsWith(r, PREFIX))
    && (forall r :: r in reachable && r !in frontier ==> Leads(schemas, r) && Collected(Pointed(schemas, r).value) <= reachable)
    && Needed(schemas, seeds, reachable)
  }

  lemma RoundKept(schemas: Value, seeds: set<Text>, reachable: set<Text>, frontier: set<Text>, next: set<Text>)
    requires Round(schemas, seeds, reachable, frontier)
    requires forall r :: r in frontier ==> Leads(schemas, r) && Collected(Pointed(schemas, r).value) <= next
    requires forall t :: t in next ==> exists r :: r in frontier && Leads(schemas, r) && t in Collected(Pointed(schemas, r).value)
    ensures Round(schemas, seeds, reachable + (next - reachable), next - reachable)
  {
    hide Pointed, Collected;
    var more := reachable + (next - reachable);
    forall t | t in next ensures StartsWith(t, PREFIX) && t in Collected(schemas) {
      var r :| r in frontier && Leads(schemas, r) && t in Collected(Pointed(schemas, r).value);
      PointedInside(schemas, r);
      CollectsExactly(schemas, t);
    }
    forall s: set<Text> | seeds <= s && ClosedUnder(schemas, s) ensures more <= s {
      assert reachable <= s;
      forall t | t in next ensures t in s {
        var r :| r in frontier && Leads(schemas, r) && t in Collected(Pointed(schemas, r).value);
        assert r in s;
      }
    }
  }

  lemma UnclosedSeeds(schemas: Value, seeds: set<Text>, reachable: set<Text>, r: Text)
    requires Needed(schemas, seeds, reachable) && r in reachable && !Leads(schemas, r)
    ensures forall s: set<Text> :: seeds <= s ==> !ClosedUnder(schemas, s)
  {
    hide Leads;
    forall s: set<Text> | seeds <= s ensures !ClosedUnder(schemas, s) {
      assert ClosedUnder(schemas, s) ==> reachable <= s;
    }
  }

  lemma RoundStarts(schemas: Value, seeds: set<Text>)
    requires forall r :: r in seeds ==> StartsWith(r, PREFIX)
    ensures Round(schemas, seeds, seeds, seeds)
  {
    hide Leads, Pointed, Collected;
  }

  lemma RoundBounds(schemas: Value, seeds: set<Text>, reachable: set<Text>, frontier: set<Text>)
    requires Round(schemas, seeds, reachable, frontier)
    ensures forall r :: r in frontier ==> StartsWith(r, PREFIX)
    ensures frontier <= reachable <= seeds + Collected(schemas)
    ensures Needed(schemas, seeds, reachable)
  {
    hide Leads, Pointed, Collected, Needed;
  }

  lemma RoundEnds(schemas: Value, seeds: set<Text>, reachable: set<Text>)
    requires Round(schemas, seeds, reachable, {})
    ensures LeastClosed(schemas, seeds, reachable)
  {
    hide Leads, Pointed, Collected, Needed;
  }

  /** The worklist computes the least set that holds the seeds and is closed under
      references; it throws exactly when no closed set holds them. */
  method Reachable(schemas: Value, seeds: set<Text>) returns (reachable: Option<set<Text>>)
    requires forall r :: r in seeds ==> StartsWith(r, PREFIX)
    ensures reachable.Some? ==> LeastClosed(schemas, seeds, reachable.value)
    ensures reachable.None? ==> forall s: set<Text> :: seeds <= s ==> !ClosedUnder(schemas, s)
  {
    hide Leads, Pointed, Collected, Needed, Round, ClosedUnder, LeastClosed, StartsWith;
    var known := seeds;
    var frontier := seeds;
    ghost var universe := seeds + Collected(schemas);
    RoundStarts(schemas, seeds);
    while frontier != {}
      invariant Round(schemas, seeds, known, frontier)
      decreases |universe - known|, if frontier == {} then 0 else 1
    {
      RoundBounds(schemas, seeds, known, frontier);
      var next := Advance(schemas, frontier);
      if next.None? {
        ghost var r :| r in frontier && !Leads(schemas, r);
        UnclosedSeeds(schemas, seeds, known, r);
        return None;
      }
      RoundKept(schemas, seeds, known, frontier, next.value);
      ghost var before := known;
      frontier := next.value - known;
      known := known + frontier;
      RoundBounds(schemas, seeds, known, frontier);
      Shrinks(universe, before, known, frontier);
    }
    RoundEnds(schemas, seeds, known);
    return Some(known);
  }

  lemma Shrinks(universe: set<Text>, before: set<Text>, after: set<Text>, frontier: set<Text>)
    requires after == before + frontier && frontier !! before && after <= universe
    ensures frontier != {} ==> |universe - after| < |universe - before|
    ensures frontier == {} ==> after == before
  {
    if frontier != {} {
      var x :| x in frontier;
      assert x in universe - before && x !in universe - after;
      SmallerSet(universe - after, universe - before);
    }
  }
}
