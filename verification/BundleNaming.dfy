/** Names for the schemas a bundle republishes. */
module BundleNaming {
  import opened CodeUnits
  import opened Json
  import opened JsonPointer
  import opened References
  import opened BundleClosure
  import Canonical
  import SpecNormalization

  const PROTO: Text := SpecNormalization.PROTO

  const DEFS_SEPARATOR: Text := Lit("/$defs/")

  function IndexOf(t: Text, p: Text, from: nat): (i: Option<nat>)
    requires from <= |t|
    ensures i.Some? ==> from <= i.value && At(t, i.value, p) && forall j :: from <= j < i.value ==> !At(t, j, p)
    ensures i.None? ==> forall j :: from <= j <= |t| ==> !At(t, j, p)
    decreases |t| - from
  {
    if At(t, from, p) then Some(from) else if from == |t| then None else IndexOf(t, p, from + 1)
  }

  /** t.split(separator) */
  function SplitOn(t: Text, separator: Text): (parts: seq<Text>)
    requires separator != []
    decreases |t|
  {
    match IndexOf(t, separator, 0)
    case None => [t]
    case Some(i) => [t[..i]] + SplitOn(t[i + |separator|..], separator)
  }

  predicate Alphanumeric(u: int) { IsDigit(u) || 0x61 <= u <= 0x7A || 0x41 <= u <= 0x5A }

  /** Runs of letters and digits, each with its first letter raised, run together. */
  function Pascal(t: Text, starts: bool): Text {
    if t == [] then []
    else if !Alphanumeric(t[0]) then Pascal(t[1..], true)
    else [if starts && 0x61 <= t[0] <= 0x7A then t[0] - 0x20 else t[0]] + Pascal(t[1..], false)
  }

  /** The definition a reference ends in, when it goes through $defs once. */
  function DefinitionName(ref: Text): Option<Text>
    requires StartsWith(ref, PREFIX)
  {
    var defs := SplitOn(ref[|PREFIX|..], DEFS_SEPARATOR);
    if |defs| == 2 then Some(defs[1]) else None
  }

  function SlugOf(ref: Text): Text
    requires StartsWith(ref, PREFIX)
  {
    var defs := SplitOn(ref[|PREFIX|..], DEFS_SEPARATOR);
    if |defs| == 2 then defs[0] else []
  }

  predicate Resolved(refs: set<Text>) { forall r :: r in refs ==> StartsWith(r, PREFIX) }

  /** The references of the set that end in one definition name. */
  function Claims(refs: set<Text>, name: Text): set<Text>
    requires Resolved(refs)
  {
    set r | r in refs && DefinitionName(r) == Some(name)
  }

  /** The name a reachable schema is republished under. */
  function NameFor(declared: map<Text, Text>, reachable: set<Text>, ref: Text): Text
    requires Resolved(reachable) && StartsWith(ref, PREFIX)
  {
    if ref in declared && declared[ref] != [] then declared[ref]
    else
      match DefinitionName(ref)
      case Some(name) => if |Claims(reachable, name)| > 1 then Pascal(SlugOf(ref), true) + name else name
      case None => Pascal(ref[|PREFIX|..], true)
  }

  // ---- what names look like ----

  predicate NoLetterOrDigit(t: Text) { forall i :: 0 <= i < |t| ==> !Alphanumeric(t[i]) }

  lemma {:induction false} PascalShape(t: Text, starts: bool)
    ensures Pascal(t, starts) == [] <==> NoLetterOrDigit(t)
    ensures forall i :: 0 <= i < |Pascal(t, starts)| ==> Alphanumeric(Pascal(t, starts)[i])
    decreases |t|
  {
    if t != [] {
      PascalShape(t[1..], !Alphanumeric(t[0]));
      assert NoLetterOrDigit(t) <==> !Alphanumeric(t[0]) && NoLetterOrDigit(t[1..]) by {
        assert forall i :: 0 < i < |t| ==> t[i] == t[1..][i - 1];
      }
    }
  }

  lemma PascalPlain(t: Text)
    ensures TILDE !in Pascal(t, true) && SLASH !in Pascal(t, true)
  {
    PascalShape(t, true);
    assert !Alphanumeric(TILDE) && !Alphanumeric(SLASH);
  }

  /** The separator occurs in a text once, between the two parts. */
  predicate DividesOnce(t: Text, separator: Text, a: Text, b: Text) {
    && t == a + (separator + b)
    && (forall i :: 0 <= i < |a| ==> !At(t, i, separator))
    && forall i :: 0 <= i <= |b| ==> !At(b, i, separator)
  }

  lemma SplitsNever(t: Text, separator: Text, part: Text)
    requires separator != []
    ensures SplitOn(t, separator) == [part] ==> part == t && forall i :: 0 <= i <= |t| ==> !At(t, i, separator)
    ensures (part == t && forall i :: 0 <= i <= |t| ==> !At(t, i, separator)) ==> SplitOn(t, separator) == [part]
  {
    hide IndexOf;
    var first := IndexOf(t, separator, 0);
    if first.Some? {
      assert |SplitOn(t, separator)| >= 2 && At(t, first.value, separator);
    } else {
      assert SplitOn(t, separator)[0] == t && [part][0] == part;
    }
  }

  lemma TwoPartsDivide(t: Text, separator: Text, a: Text, b: Text)
    requires separator != [] && SplitOn(t, separator) == [a, b]
    ensures DividesOnce(t, separator, a, b)
  {
    var i := IndexOf(t, separator, 0).value;
    var rest := t[i + |separator|..];
    hide IndexOf;
    var parts := [t[..i]] + SplitOn(rest, separator);
    assert SplitOn(t, separator) == parts;
    hide SplitOn;
    assert a == parts[0] == t[..i];
    assert parts[1..] == SplitOn(rest, separator) && [a, b][1..] == [b];
    SplitsNever(rest, separator, b);
    assert b == rest && t[i..i + |separator|] == separator;
    assert t == t[..i] + (t[i..i + |separator|] + rest);
  }

  lemma DividedInTwo(t: Text, separator: Text, a: Text, b: Text)
    requires separator != [] && DividesOnce(t, separator, a, b)
    ensures SplitOn(t, separator) == [a, b]
  {
    assert t[|a|..|a| + |separator|] == separator;
    assert At(t, |a|, separator);
    var i := IndexOf(t, separator, 0).value;
    hide IndexOf;
    assert i == |a| && t[..i] == a && t[i + |separator|..] == b;
    SplitsNever(b, separator, b);
  }

  /** A reference has a definition name exactly when $defs divides its path once,
      read from the left. */
  lemma DefinitionNameExactly(ref: Text, slug: Text, name: Text)
    requires StartsWith(ref, PREFIX)
    ensures DefinitionName(ref) == Some(name) && SlugOf(ref) == slug
        <==> DividesOnce(ref[|PREFIX|..], DEFS_SEPARATOR, slug, name)
  {
    var path := ref[|PREFIX|..];
    var parts := SplitOn(path, DEFS_SEPARATOR);
    assert DEFS_SEPARATOR != [];
    hide SplitOn, DividesOnce;
    assert DefinitionName(ref) == Some(name) && SlugOf(ref) == slug <==> parts == [slug, name] by {
      if |parts| == 2 { assert parts == [parts[0], parts[1]]; }
    }
    if parts == [slug, name] { TwoPartsDivide(path, DEFS_SEPARATOR, slug, name); }
    if DividesOnce(path, DEFS_SEPARATOR, slug, name) { DividedInTwo(path, DEFS_SEPARATOR, slug, name); }
  }

  /** The part of a name that is taken over as it was written. */
  function WrittenName(declared: map<Text, Text>, ref: Text): Text
    requires StartsWith(ref, PREFIX)
  {
    if ref in declared && declared[ref] != [] then declared[ref]
    else match DefinitionName(ref) case Some(name) => name case None => []
  }

  /** A reference that gets no name: it is not declared under one, and either its
      definition name is empty and unqualified, or there is no letter or digit to
      make a name of. */
  predicate GetsNoName(declared: map<Text, Text>, reachable: set<Text>, ref: Text)
    requires Resolved(reachable) && StartsWith(ref, PREFIX)
  {
    && !(ref in declared && declared[ref] != [])
    && match DefinitionName(ref)
       case Some(name) => name == [] && (|Claims(reachable, name)| > 1 ==> NoLetterOrDigit(SlugOf(ref)))
       case None => NoLetterOrDigit(ref[|PREFIX|..])
  }

  lemma NameEmptyExactly(declared: map<Text, Text>, reachable: set<Text>, ref: Text)
    requires Resolved(reachable) && StartsWith(ref, PREFIX)
    ensures NameFor(declared, reachable, ref) == [] <==> GetsNoName(declared, reachable, ref)
  {
    PascalShape(SlugOf(ref), true);
    PascalShape(ref[|PREFIX|..], true);
    hide Pascal, NoLetterOrDigit, DefinitionName, SlugOf, Claims;
  }

  /** A name holds a slash, and needs escaping to stand in a pointer, exactly when
      the part of it taken over as written does. */
  lemma NameEscapesExactly(declared: map<Text, Text>, reachable: set<Text>, ref: Text)
    requires Resolved(reachable) && StartsWith(ref, PREFIX)
    ensures SLASH in NameFor(declared, reachable, ref) <==> SLASH in WrittenName(declared, ref)
    ensures NeedsNoEscape(NameFor(declared, reachable, ref)) <==> NeedsNoEscape(WrittenName(declared, ref))
  {
    PascalPlain(SlugOf(ref));
    PascalPlain(ref[|PREFIX|..]);
    hide Pascal, DefinitionName, SlugOf, Claims, NeedsNoEscape;
    PrefixNeedsNothing(Pascal(SlugOf(ref), true), WrittenName(declared, ref));
    PrefixNeedsNothing(Pascal(ref[|PREFIX|..], true), []);
    assert Pascal(ref[|PREFIX|..], true) + [] == Pascal(ref[|PREFIX|..], true);
  }

  /** The reference gets the name of the prototype: it is declared under it, or its
      definition has it and nothing is put in front. */
  predicate GetsLostName(declared: map<Text, Text>, reachable: set<Text>, ref: Text)
    requires Resolved(reachable) && StartsWith(ref, PREFIX)
  {
    if ref in declared && declared[ref] != [] then declared[ref] == PROTO
    else DefinitionName(ref) == Some(PROTO) && (|Claims(reachable, PROTO)| > 1 ==> NoLetterOrDigit(SlugOf(ref)))
  }

  lemma NameLostExactly(declared: map<Text, Text>, reachable: set<Text>, ref: Text)
    requires Resolved(reachable) && StartsWith(ref, PREFIX)
    ensures NameFor(declared, reachable, ref) == PROTO <==> GetsLostName(declared, reachable, ref)
  {
    assert |PROTO| == 9 && PROTO[0] == 0x5F && !Alphanumeric(PROTO[0]);
    var slug := SlugOf(ref);
    PascalShape(slug, true);
    PascalShape(ref[|PREFIX|..], true);
    hide Pascal, NoLetterOrDigit, DefinitionName, SlugOf, Claims, PROTO;
    if Pascal(slug, true) != [] {
      forall name ensures Pascal(slug, true) + name != PROTO {
        assert (Pascal(slug, true) + name)[0] == Pascal(slug, true)[0];
      }
    } else {
      forall name: Text ensures Pascal(slug, true) + name == name {}
    }
  }

  // ---- declared names ----

  predicate BareReference(schema: Value) { schema.Obj? && REF in schema.members && IsResolved(REF, schema.members[REF]) }

  /** The last declaration, in the order of the entries, that is a bare reference
      names what it refers to. */
  function DeclaredNames(declared: map<Text, Value>, order: seq<Text>): map<Text, Text>
    requires forall i :: 0 <= i < |order| ==> order[i] in declared
  {
    if order == [] then map[]
    else
      var name := order[|order| - 1];
      var earlier := DeclaredNames(declared, order[..|order| - 1]);
      if BareReference(declared[name]) then earlier[declared[name].members[REF].s := name] else earlier
  }

  method NameDeclared(declared: map<Text, Value>, order: seq<Text>) returns (names: map<Text, Text>)
    requires forall i :: 0 <= i < |order| ==> order[i] in declared
    ensures names == DeclaredNames(declared, order)
  {
    names := map[];
    var i := 0;
    while i < |order|
      invariant 0 <= i <= |order|
      invariant names == DeclaredNames(declared, order[..i])
    {
      var schema := declared[order[i]];
      if BareReference(schema) {
        names := names[schema.members[REF].s := order[i]];
      }
      assert order[..i + 1][..i] == order[..i];
      i := i + 1;
    }
    assert order[..i] == order;
  }

  // ---- counting definition names ----

  ghost predicate Counts(counts: map<Text, nat>, refs: set<Text>)
    requires Resolved(refs)
  {
    forall name :: (if name in counts then counts[name] else 0) == |Claims(refs, name)|
  }

  lemma ClaimsMore(done: set<Text>, ref: Text, name: Text)
    requires Resolved(done + {ref}) && ref !in done
    ensures |Claims(done + {ref}, name)| == |Claims(done, name)| + if DefinitionName(ref) == Some(name) then 1 else 0
  {
    hide DefinitionName;
    if DefinitionName(ref) == Some(name) {
      assert Claims(done + {ref}, name) == Claims(done, name) + {ref};
    } else {
      assert Claims(done + {ref}, name) == Claims(done, name);
    }
  }

  lemma CountOne(counts: map<Text, nat>, done: set<Text>, ref: Text, more: map<Text, nat>)
    requires Resolved(done + {ref}) && ref !in done && Counts(counts, done)
    requires match DefinitionName(ref)
             case None => more == counts
             case Some(name) => more == counts[name := (if name in counts then counts[name] else 0) + 1]
    ensures Counts(more, done + {ref})
  {
    hide DefinitionName, Claims;
    forall name ensures (if name in more then more[name] else 0) == |Claims(done + {ref}, name)| {
      ClaimsMore(done, ref, name);
    }
  }

  method CountDefinitions(reachable: set<Text>) returns (counts: map<Text, nat>)
    requires Resolved(reachable)
    ensures Counts(counts, reachable)
  {
    hide Counts, DefinitionName;
    counts := map[];
    var remaining := reachable;
    assert reachable - remaining == {};
    NothingCounted();
    while remaining != {}
      invariant remaining <= reachable
      invariant Counts(counts, reachable - remaining)
      decreases |remaining|
    {
      var ref :| ref in remaining;
      ghost var done, before := reachable - remaining, counts;
      match DefinitionName(ref) {
        case Some(name) => counts := counts[name := (if name in counts then counts[name] else 0) + 1];
        case None =>
      }
      CountOne(before, done, ref, counts);
      remaining := remaining - {ref};
      assert reachable - remaining == done + {ref};
    }
    assert reachable - remaining == reachable;
  }

  lemma NothingCounted()
    ensures Counts(map[], {})
  {
    forall name ensures |Claims({}, name)| == 0 { assert Claims({}, name) == {}; }
  }

  // ---- the naming ----

  ghost predicate Injective(m: map<Text, Text>) {
    forall r, s :: r in m && s in m && m[r] == m[s] ==> r == s
  }

  ghost predicate NamesCollide(declared: map<Text, Text>, reachable: set<Text>)
    requires Resolved(reachable)
  {
    exists r, s :: r in reachable && s in reachable && r != s && NameFor(declared, reachable, r) == NameFor(declared, reachable, s)
  }

  ghost predicate Named(declared: map<Text, Text>, reachable: set<Text>, naming: map<Text, Text>)
    requires Resolved(reachable)
  {
    naming.Keys == reachable && forall r :: r in reachable ==> naming[r] == NameFor(declared, reachable, r)
  }

  /** The two maps of the loop, once some references have their names. */
  ghost predicate Naming(declared: map<Text, Text>, reachable: set<Text>, done: seq<Text>, names: map<Text, Text>, taken: map<Text, Text>)
    requires Resolved(reachable)
  {
    && (forall r :: r in names <==> r in done)
    && (forall r :: r in names ==> r in reachable && names[r] == NameFor(declared, reachable, r))
    && (forall r :: r in names ==> names[r] in taken && taken[names[r]] == r)
    && (forall n :: n in taken ==> taken[n] in names && names[taken[n]] == n)
  }

  lemma NameOne(declared: map<Text, Text>, reachable: set<Text>, done: seq<Text>, names: map<Text, Text>, taken: map<Text, Text>, ref: Text, name: Text)
    requires Resolved(reachable) && Naming(declared, reachable, done, names, taken)
    requires ref in reachable && name == NameFor(declared, reachable, ref) && (name in taken ==> taken[name] == ref)
    ensures Naming(declared, reachable, done + [ref], names[ref := name], taken[name := ref])
  {
    hide NameFor, Resolved;
    var more, held := names[ref := name], taken[name := ref];
    assert forall r :: r in more ==> more[r] in held && held[more[r]] == r;
    assert forall n :: n in held ==> held[n] in more && more[held[n]] == n;
  }

  lemma NameClash(declared: map<Text, Text>, reachable: set<Text>, done: seq<Text>, names: map<Text, Text>, taken: map<Text, Text>, ref: Text, name: Text)
    requires Resolved(reachable) && Naming(declared, reachable, done, names, taken)
    requires ref in reachable && name == NameFor(declared, reachable, ref) && name in taken && taken[name] != ref
    ensures NamesCollide(declared, reachable)
  {
    hide NameFor;
    var r := taken[name];
    assert r in reachable && r != ref && NameFor(declared, reachable, r) == NameFor(declared, reachable, ref);
  }

  lemma NamingDone(declared: map<Text, Text>, reachable: set<Text>, done: seq<Text>, names: map<Text, Text>, taken: map<Text, Text>)
    requires Resolved(reachable) && Naming(declared, reachable, done, names, taken) && forall r :: r in reachable <==> r in done
    ensures Named(declared, reachable, names) && Injective(names) && !NamesCollide(declared, reachable)
  {
    hide NameFor, Resolved;
    assert names.Keys == reachable;
    assert forall r, s :: r in names && s in names && names[r] == names[s] ==> r == s;
  }

  /** The naming loop gives every reachable schema its name, no two the same; it
      throws exactly when two of them claim one name. */
  method NameReachable(declared: map<Text, Text>, reachable: set<Text>) returns (naming: Option<map<Text, Text>>)
    requires Resolved(reachable)
    ensures naming.None? <==> NamesCollide(declared, reachable)
    ensures naming.Some? ==> Named(declared, reachable, naming.value) && Injective(naming.value)
  {
    hide NameFor, Canonical.SortedKeys, Naming, Named, Injective, NamesCollide;
    var counts := CountDefinitions(reachable);
    var refs := Canonical.SortedKeys(reachable);
    var names: map<Text, Text> := map[];
    var taken: map<Text, Text> := map[];
    var i := 0;
    assert Naming(declared, reachable, refs[..0], names, taken) by { NoneNamed(declared, reachable, refs[..0]); }
    while i < |refs|
      invariant 0 <= i <= |refs|
      invariant Naming(declared, reachable, refs[..i], names, taken)
    {
      var ref := refs[i];
      assert ref in refs;
      var name := CountedName(declared, reachable, counts, ref);
      if name in taken && taken[name] != ref {
        NameClash(declared, reachable, refs[..i], names, taken, ref, name);
        return None;
      }
      NameOne(declared, reachable, refs[..i], names, taken, ref, name);
      taken := taken[name := ref];
      names := names[ref := name];
      assert refs[..i + 1] == refs[..i] + [ref];
      i := i + 1;
    }
    assert refs[..i] == refs;
    NamingDone(declared, reachable, refs, names, taken);
    return Some(names);
  }

  lemma NoneNamed(declared: map<Text, Text>, reachable: set<Text>, done: seq<Text>)
    requires Resolved(reachable) && done == []
    ensures Naming(declared, reachable, done, map[], map[])
  {}

  method CountedName(declared: map<Text, Text>, reachable: set<Text>, counts: map<Text, nat>, ref: Text) returns (name: Text)
    requires Resolved(reachable) && ref in reachable && Counts(counts, reachable)
    ensures name == NameFor(declared, reachable, ref)
  {
    if ref in declared && declared[ref] != [] {
      return declared[ref];
    }
    match DefinitionName(ref)
    case Some(definition) =>
      var count := if definition in counts then counts[definition] else 0;
      name := if count > 1 then Pascal(SlugOf(ref), true) + definition else definition;
    case None =>
      name := Pascal(ref[|PREFIX|..], true);
  }
}
