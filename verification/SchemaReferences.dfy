/** Local references of a schema document: what a $ref leads to, and when a
    chain of them comes to an end. */
module SchemaReferences {
  import opened CodeUnits
  import opened Json
  import opened JsonPointer
  import opened LaidJson
  import opened Prototypes
  import References

  const REF: Text := References.REF
  const FRAGMENT_START: Text := [HASH, SLASH]

  /** What reading a property of an object can give: data, the prototype every
      object has, or one of its methods. */
  datatype Node = Data(v: Laid) | ObjectPrototype | Method

  predicate IsJsonObject(node: Node) { node.ObjectPrototype? || (node.Data? && node.v.LObj?) }

  /** name in object */
  predicate Has(members: map<Text, Laid>, name: Text) { name in members || Inherited(name) }

  /** object[name], None for undefined. The prototype's own __proto__ is null,
      which like a method is neither undefined nor a JSON object. */
  function Property(node: Node, name: Text): Option<Node>
    requires IsJsonObject(node)
  {
    if node.Data? && name in MembersOf(node.v) then Some(Data(MembersOf(node.v)[name]))
    else if !Inherited(name) then None
    else if node.Data? && name == Lit("__proto__") then Some(ObjectPrototype)
    else Some(Method)
  }

  /** Following tokens from a node; None where the code throws. */
  function Walk(node: Node, tokens: seq<Text>): Option<Node>
    decreases |tokens|
  {
    if tokens == [] then (if IsJsonObject(node) then Some(node) else None)
    else if !IsJsonObject(node) then None
    else
      match Property(node, tokens[0])
      case None => None
      case Some(next) => Walk(next, tokens[1..])
  }

  function Resolved(root: Laid, ref: Text): Option<Node> {
    if References.StartsWith(ref, FRAGMENT_START) then Walk(Data(root), Tokens(ref[2..])) else None
  }

  /** resolveRef: the walk one token at a time; None where it throws. */
  method ResolveRef(root: Laid, ref: Text) returns (target: Option<Node>)
    ensures target == Resolved(root, ref)
  {
    if !References.StartsWith(ref, FRAGMENT_START) {
      return None;
    }
    var node := Data(root);
    var parts := Split(ref[2..]);
    var i := 0;
    assert parts[0..] == parts;
    while i < |parts|
      invariant 0 <= i <= |parts|
      invariant Resolved(root, ref) == Walk(node, UnescapeAll(parts[i..]))
    {
      var part := Unescape(parts[i]);
      assert parts[i..][1..] == parts[i + 1..];
      assert UnescapeAll(parts[i..])[0] == part && UnescapeAll(parts[i..])[1..] == UnescapeAll(parts[i + 1..]);
      if !IsJsonObject(node) {
        return None;
      }
      var next := Property(node, part);
      if next.None? {
        return None;
      }
      node := next.value;
      i := i + 1;
    }
    return if IsJsonObject(node) then Some(node) else None;
  }

  /** The value reached by own properties alone. */
  function Own(v: Laid, tokens: seq<Text>): Option<Laid>
    decreases |tokens|
  {
    if tokens == [] then Some(v)
    else if v.LObj? && tokens[0] in MembersOf(v) then Own(MembersOf(v)[tokens[0]], tokens[1..])
    else None
  }

  lemma {:induction false} WalkOwn(v: Laid, tokens: seq<Text>)
    requires Own(v, tokens).Some?
    ensures var w := Own(v, tokens).value;
            Walk(Data(v), tokens) == if w.LObj? then Some(Data(w)) else None
    decreases |tokens|
  {
    if tokens != [] { WalkOwn(MembersOf(v)[tokens[0]], tokens[1..]); }
  }

  /** A pointer written from tokens, whatever units they hold, is resolved by
      walking exactly those tokens (RFC 6901, sections 3 and 4). */
  lemma ResolvesTokens(root: Laid, tokens: seq<Text>)
    requires tokens != []
    ensures Resolved(root, FRAGMENT_START + PointerText(tokens)) == Walk(Data(root), tokens)
    ensures Own(root, tokens).Some? && Own(root, tokens).value.LObj? ==>
              Resolved(root, FRAGMENT_START + PointerText(tokens)) == Some(Data(Own(root, tokens).value))
  {
    TokensOfPointer(tokens);
    assert (FRAGMENT_START + PointerText(tokens))[2..] == PointerText(tokens);
    assert (FRAGMENT_START + PointerText(tokens))[0..2] == FRAGMENT_START;
    if Own(root, tokens).Some? { WalkOwn(root, tokens); }
  }

  // ---- chains of references ----

  /** typeof schema.$ref === "string" */
  predicate Refers(s: Node) { s.Data? && s.v.LObj? && REF in MembersOf(s.v) && MembersOf(s.v)[REF].LStr? }

  /** The next schema of a chain; None when the chain stops here. */
  function Hop(root: Laid, s: Node): Option<Node> {
    if Refers(s) then Resolved(root, MembersOf(s.v)[REF].s) else None
  }

  function Hops(root: Laid, s: Node, n: nat): Option<Node>
    decreases n
  {
    if n == 0 then Some(s)
    else
      match Hop(root, s)
      case None => None
      case Some(t) => Hops(root, t, n - 1)
  }

  /** No schema comes back to itself through references alone. */
  ghost predicate NoHopCycle(root: Laid) {
    forall s: Node, n: nat :: n > 0 ==> Hops(root, s, n) != Some(s)
  }

  /** The chain from s makes exactly n hops. */
  predicate Stops(root: Laid, s: Node, n: nat)
    decreases n
  {
    match Hop(root, s)
    case None => n == 0
    case Some(t) => n > 0 && Stops(root, t, n - 1)
  }

  lemma {:induction false} StopsUnique(root: Laid, s: Node, n: nat, m: nat)
    requires Stops(root, s, n) && Stops(root, s, m)
    ensures n == m
    decreases n
  {
    if n > 0 { StopsUnique(root, Hop(root, s).value, n - 1, m - 1); }
  }

  /** Every value inside v, v included. */
  ghost function Inside(v: Laid): (vs: set<Laid>)
    ensures v in vs
  {
    match v
    case LArr(items) => {v} + set k, x | 0 <= k < |items| && x in Inside(items[k]) :: x
    case LObj(fields) => {v} + set k, x | 0 <= k < |fields| && x in Inside(fields[k].value) :: x
    case _ => {v}
  }

  /** The schemas a reference of the document can lead to. */
  ghost function Targets(root: Laid): set<Node> {
    (set v | v in Inside(root) :: Data(v)) + {ObjectPrototype}
  }

  lemma {:induction false} WalkStaysInside(v: Laid, tokens: seq<Text>)
    requires Walk(Data(v), tokens).Some?
    ensures Walk(Data(v), tokens).value in Targets(v)
    decreases |tokens|
  {
    if tokens != [] {
      var next := Property(Data(v), tokens[0]).value;
      if tokens[0] in MembersOf(v) {
        var i := FieldOf(v, tokens[0]);
        WalkStaysInside(next.v, tokens[1..]);
        assert Inside(next.v) <= Inside(v);
      } else {
        WalkFromPrototype(next, tokens[1..]);
      }
    }
  }

  lemma {:induction false} WalkFromPrototype(node: Node, tokens: seq<Text>)
    requires !node.Data? && Walk(node, tokens).Some?
    ensures Walk(node, tokens) == Some(ObjectPrototype)
    decreases |tokens|
  {
    if tokens != [] { WalkFromPrototype(Property(node, tokens[0]).value, tokens[1..]); }
  }

  lemma HopInside(root: Laid, s: Node)
    requires Hop(root, s).Some?
    ensures Hop(root, s).value in Targets(root)
  {
    WalkStaysInside(root, Tokens(MembersOf(s.v)[REF].s[2..]));
  }

  lemma {:induction false} HopsSnoc(root: Laid, s: Node, n: nat, t: Node)
    requires Hops(root, s, n) == Some(t)
    ensures Hops(root, s, n + 1) == Hop(root, t)
    decreases n
  {
    if n > 0 {
      HopsSnoc(root, Hop(root, s).value, n - 1, t);
    } else {
      var next := Hop(root, s);
      if next.Some? { assert Hops(root, next.value, 0) == next; }
    }
  }

  ghost predicate Leads(root: Laid, v: Node, s: Node) { exists n: nat :: n > 0 && Hops(root, v, n) == Some(s) }

  lemma NotPassed(root: Laid, s: Node, passed: set<Node>)
    requires NoHopCycle(root) && forall v :: v in passed ==> Leads(root, v, s)
    ensures s !in passed
  {
    hide Hops;
  }

  lemma PassedOn(root: Laid, s: Node, t: Node, passed: set<Node>)
    requires Hop(root, s) == Some(t) && forall v :: v in passed ==> Leads(root, v, s)
    ensures forall v :: v in passed + {s} ==> Leads(root, v, t)
  {
    hide Hop;
    forall v | v in passed + {s} ensures Leads(root, v, t) {
      if v == s {
        assert Hops(root, s, 1) == Hops(root, t, 0);
      } else {
        var k: nat :| k > 0 && Hops(root, v, k) == Some(s);
        HopsSnoc(root, v, k, s);
      }
    }
  }

  /** Schemas already passed cannot recur, and there are finitely many. */
  lemma {:induction false} ChainStops(root: Laid, s: Node, passed: set<Node>) returns (n: nat)
    requires NoHopCycle(root) && s in Targets(root) && passed <= Targets(root)
    requires forall v :: v in passed ==> Leads(root, v, s)
    ensures Stops(root, s, n)
    decreases |Targets(root) - passed|
  {
    hide Targets, Resolved, MembersOf;
    match Hop(root, s)
    case None => n := 0;
    case Some(t) =>
      HopInside(root, s);
      NotPassed(root, s, passed);
      PassedOn(root, s, t, passed);
      hide Hops, Leads, Hop;
      var now := passed + {s};
      assert Targets(root) - now < Targets(root) - passed;
      References.SmallerSet(Targets(root) - now, Targets(root) - passed);
      var m := ChainStops(root, t, now);
      n := m + 1;
  }

  /** Without a cycle of references, every chain of them stops. */
  lemma ChainsStop(root: Laid, s: Node)
    requires NoHopCycle(root)
    ensures exists n: nat :: Stops(root, s, n)
  {
    match Hop(root, s)
    case None => assert Stops(root, s, 0);
    case Some(t) =>
      HopInside(root, s);
      var n := ChainStops(root, t, {});
      assert Stops(root, s, n + 1);
  }

  lemma {:induction false} StopsBefore(root: Laid, s: Node, n: nat, m: nat)
    requires Hops(root, s, n).Some? && Stops(root, Hops(root, s, n).value, m)
    ensures Stops(root, s, n + m)
    decreases n
  {
    hide Resolved;
    if n > 0 { StopsBefore(root, Hop(root, s).value, n - 1, m); }
  }

  /** A schema on a cycle has a chain that never stops. */
  lemma CycleNeverStops(root: Laid, s: Node, n: nat, m: nat)
    requires n > 0 && Hops(root, s, n) == Some(s)
    ensures !Stops(root, s, m)
  {
    if Stops(root, s, m) {
      StopsBefore(root, s, n, m);
      StopsUnique(root, s, m, n + m);
    }
  }

  ghost predicate ChainEnds(root: Laid, s: Node) { exists n: nat :: Stops(root, s, n) }

  /** Following references comes to an end from every schema exactly when no
      schema leads back to itself. */
  lemma ChainsStopExactly(root: Laid)
    ensures NoHopCycle(root) <==> forall s: Node :: ChainEnds(root, s)
  {
    if NoHopCycle(root) {
      forall s: Node ensures ChainEnds(root, s) { ChainsStop(root, s); }
    }
    if forall s: Node :: ChainEnds(root, s) {
      forall s: Node, n: nat | n > 0 ensures Hops(root, s, n) != Some(s) {
        if Hops(root, s, n) == Some(s) {
          assert ChainEnds(root, s);
          var m: nat :| Stops(root, s, m);
          CycleNeverStops(root, s, n, m);
        }
      }
    }
  }

  /** The hops left from s. */
  ghost function Rank(root: Laid, s: Node): (n: nat)
    requires NoHopCycle(root)
    ensures Stops(root, s, n)
  {
    ChainsStop(root, s);
    var n: nat :| Stops(root, s, n);
    n
  }

  lemma RankFalls(root: Laid, s: Node)
    requires NoHopCycle(root) && Hop(root, s).Some?
    ensures Rank(root, Hop(root, s).value) < Rank(root, s)
  {
    var t := Hop(root, s).value;
    StopsUnique(root, t, Rank(root, t), Rank(root, s) - 1);
  }
}
