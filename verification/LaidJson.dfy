/** JSON values as they are laid out: objects with the order of their members. */
module LaidJson {
  import opened CodeUnits
  import opened Json

  /** A JSON value with the order of its members. */
  datatype Laid =
    | LNull
    | LBool(b: bool)
    | LNum(n: Number)
    | LStr(s: Text)
    | LArr(items: seq<Laid>)
    | LObj(fields: seq<Field>)

  datatype Field = Field(name: Text, value: Laid)

  /** No object names a member twice. */
  predicate Distinct(a: Laid) {
    match a
    case LArr(items) => forall i :: 0 <= i < |items| ==> Distinct(items[i])
    case LObj(fields) =>
      && (forall i :: 0 <= i < |fields| ==> Distinct(fields[i].value))
      && forall i, j :: 0 <= i < j < |fields| ==> fields[i].name != fields[j].name
    case _ => true
  }

  /** The object whose members come in this order. */
  function FromList<V>(names: seq<Text>, values: seq<V>): map<Text, V>
    requires |names| == |values|
  {
    if names == [] then map[]
    else FromList(names[..|names| - 1], values[..|values| - 1])[names[|names| - 1] := values[|values| - 1]]
  }

  function Names(fields: seq<Field>): (names: seq<Text>)
    ensures |names| == |fields| && forall i :: 0 <= i < |fields| ==> names[i] == fields[i].name
  {
    seq(|fields|, i requires 0 <= i < |fields| => fields[i].name)
  }

  /** The value without the order of its members. */
  function ValueOf(a: Laid): Value
    requires Distinct(a)
  {
    match a
    case LNull => Null
    case LBool(b) => Bool(b)
    case LNum(n) => Num(n)
    case LStr(s) => Str(s)
    case LArr(items) => Arr(seq(|items|, i requires 0 <= i < |items| => ValueOf(items[i])))
    case LObj(fields) => Obj(FromList(Names(fields), seq(|fields|, i requires 0 <= i < |fields| => ValueOf(fields[i].value))))
  }

  /** The value as JSON text keeps it. */
  function Plainly(v: Value): Value
    decreases v
  {
    match v
    case Num(n) => if n.NaN? || n.Infinite? then Null else if n.NegativeZero? then Num(Finite(0.0)) else v
    case Arr(items) => Arr(seq(|items|, i requires 0 <= i < |items| => Plainly(items[i])))
    case Obj(members) => Obj(map k | k in members :: Plainly(members[k]))
    case _ => v
  }

  /** Objects at the same place name the same members in the same order. */
  predicate SameOrder(a: Laid, b: Laid) {
    if a.LArr? && b.LArr? then
      |a.items| == |b.items| && forall i :: 0 <= i < |a.items| ==> SameOrder(a.items[i], b.items[i])
    else if a.LObj? && b.LObj? then
      |a.fields| == |b.fields| &&
      forall i :: 0 <= i < |a.fields| ==> a.fields[i].name == b.fields[i].name && SameOrder(a.fields[i].value, b.fields[i].value)
    else true
  }

  /** A map given by a list of its keys and their values. */
  predicate Listed<V(==)>(m: map<Text, V>, names: seq<Text>, values: seq<V>) {
    && |names| == |values|
    && (forall i :: 0 <= i < |names| ==> names[i] in m && m[names[i]] == values[i])
    && forall k :: k in m ==> k in names
  }

  lemma ListedExactly<V>(p: map<Text, V>, q: map<Text, V>, names: seq<Text>, u: seq<V>, w: seq<V>)
    requires Listed(p, names, u) && Listed(q, names, w)
    ensures p == q <==> u == w
  {
    if u == w {
      forall k ensures k in p <==> k in q {}
      forall k | k in p ensures p[k] == q[k] {
        var i :| 0 <= i < |names| && names[i] == k;
        assert p[names[i]] == u[i] && q[names[i]] == w[i];
      }
    }
    if p == q {
      assert forall i :: 0 <= i < |names| ==> u[i] == p[names[i]] && w[i] == q[names[i]];
    }
  }

  lemma {:induction false} FromListHolds<V>(names: seq<Text>, values: seq<V>)
    requires |names| == |values| && forall i, j :: 0 <= i < j < |names| ==> names[i] != names[j]
    ensures Listed(FromList(names, values), names, values)
    decreases |names|
  {
    if names != [] {
      var n := |names| - 1;
      FromListHolds(names[..n], values[..n]);
      var before, m := FromList(names[..n], values[..n]), FromList(names, values);
      forall i | 0 <= i < |names| ensures names[i] in m && m[names[i]] == values[i] {
        if i < n { assert names[..n][i] == names[i] && values[..n][i] == values[i]; }
      }
      forall k | k in m ensures k in names {
        if k != names[n] { assert k in before && k in names[..n]; }
      }
    }
  }

  // ---- the members of an object ----

  function Values(fields: seq<Field>): (values: seq<Laid>)
    ensures |values| == |fields| && forall i :: 0 <= i < |fields| ==> values[i] == fields[i].value
  {
    seq(|fields|, i requires 0 <= i < |fields| => fields[i].value)
  }

  function MembersOf(a: Laid): map<Text, Laid>
    requires a.LObj?
  {
    FromList(Names(a.fields), Values(a.fields))
  }

  lemma {:induction false} FromListFrom<V>(names: seq<Text>, values: seq<V>, k: Text) returns (i: nat)
    requires |names| == |values| && k in FromList(names, values)
    ensures i < |names| && names[i] == k && values[i] == FromList(names, values)[k]
    decreases |names|
  {
    var n := |names| - 1;
    if names[n] == k {
      i := n;
    } else {
      i := FromListFrom(names[..n], values[..n], k);
    }
  }

  /** A member is one of the fields. */
  lemma FieldOf(a: Laid, k: Text) returns (i: nat)
    requires a.LObj? && k in MembersOf(a)
    ensures i < |a.fields| && a.fields[i].name == k && a.fields[i].value == MembersOf(a)[k]
  {
    i := FromListFrom(Names(a.fields), Values(a.fields), k);
  }

  lemma {:induction false} FromListNames<V>(names: seq<Text>, values: seq<V>)
    requires |names| == |values|
    ensures forall k :: k in FromList(names, values) <==> k in names
    decreases |names|
  {
    if names != [] {
      var n := |names| - 1;
      FromListNames(names[..n], values[..n]);
      assert names == names[..n] + [names[n]];
    }
  }

  lemma MemberSmaller(a: Laid, k: Text)
    requires a.LObj? && k in MembersOf(a)
    ensures MembersOf(a)[k] < a
  {
    var i := FieldOf(a, k);
  }

  /** The member of a name, smaller than its object. */
  function Member(a: Laid, k: Text): (r: Laid)
    requires a.LObj? && k in MembersOf(a)
    ensures r == MembersOf(a)[k] && r < a
  {
    MemberSmaller(a, k);
    MembersOf(a)[k]
  }
}
