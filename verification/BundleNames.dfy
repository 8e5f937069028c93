/** Which name each schema of a bundle is published under, told from the text of its
    reference and from the declarations. */
module BundleNames {
  import opened CodeUnits
  import opened Json
  import opened References
  import opened Spelling
  import opened BundleClosure
  import opened BundleNaming

  // ---- names made of words ----

  predicate LetterOrDigit(u: int) { LowerOrDigit(u) || Between(u, 'A', 'Z') }

  /** The places of the letters and digits from an index on, in order. */
  predicate PicksFrom(t: Text, places: seq<nat>, from: nat) {
    && (forall k :: 0 <= k < |places| ==> from <= places[k] < |t| && LetterOrDigit(t[places[k]]))
    && (forall k, l :: 0 <= k < l < |places| ==> places[k] < places[l])
    && forall i: nat :: from <= i < |t| && LetterOrDigit(t[i]) ==> i in places
  }

  predicate StartsWord(t: Text, i: nat)
    requires i <= |t|
  {
    i == 0 || !LetterOrDigit(t[i - 1])
  }

  /** A letter that starts a word is raised. */
  function Raised(t: Text, i: nat): int
    requires i < |t|
  {
    if StartsWord(t, i) && Between(t[i], 'a', 'z') then t[i] - 'a' as int + 'A' as int else t[i]
  }

  /** The name is what stands at those places, raised. */
  predicate Spelled(name: Text, t: Text, places: seq<nat>) {
    |name| == |places| && forall k :: 0 <= k < |name| ==> places[k] < |t| && name[k] == Raised(t, places[k])
  }

  lemma AlphanumericExactly(u: int)
    ensures Alphanumeric(u) <==> LetterOrDigit(u)
  {}

  lemma PascalStep(t: Text, i: nat)
    requires i < |t|
    ensures var rest := Pascal(t[i + 1..], StartsWord(t, i + 1));
            Pascal(t[i..], StartsWord(t, i)) == if LetterOrDigit(t[i]) then [Raised(t, i)] + rest else rest
  {
    AlphanumericExactly(t[i]);
    assert t[i..][0] == t[i] && t[i..][1..] == t[i + 1..];
  }

  lemma {:induction false} PascalMade(t: Text, i: nat) returns (places: seq<nat>)
    requires i <= |t|
    ensures PicksFrom(t, places, i) && Spelled(Pascal(t[i..], StartsWord(t, i)), t, places)
    decreases |t| - i
  {
    if i == |t| {
      places := [];
    } else {
      PascalStep(t, i);
      places := PascalMade(t, i + 1);
      hide Pascal, PicksFrom, Spelled, LetterOrDigit;
      if LetterOrDigit(t[i]) {
        WithFirst(t, places, i);
        SpelledMore(Pascal(t[i + 1..], StartsWord(t, i + 1)), t, places, i);
        places := [i] + places;
      } else {
        WithoutFirst(t, places, i);
      }
    }
  }

  lemma SpelledMore(name: Text, t: Text, places: seq<nat>, i: nat)
    requires Spelled(name, t, places) && i < |t|
    ensures 0 <= Raised(t, i) < 0x1_0000 && Spelled([Raised(t, i)] + name, t, [i] + places)
  {
    hide StartsWord;
  }

  lemma WithFirst(t: Text, places: seq<nat>, i: nat)
    requires i < |t| && PicksFrom(t, places, i + 1) && LetterOrDigit(t[i])
    ensures PicksFrom(t, [i] + places, i)
  {
    hide LetterOrDigit;
    var all := [i] + places;
    forall j: nat | i <= j < |t| && LetterOrDigit(t[j]) ensures j in all {
      if j == i {
        assert all[0] == i;
      } else {
        var k :| 0 <= k < |places| && places[k] == j;
        assert all[k + 1] == j;
      }
    }
  }

  lemma WithoutFirst(t: Text, places: seq<nat>, i: nat)
    requires i < |t| && PicksFrom(t, places, i + 1) && !LetterOrDigit(t[i])
    ensures PicksFrom(t, places, i)
  {
    hide LetterOrDigit;
  }

  /** A made name is the letters and digits of its text, in order and no others, those
      that start a word raised. */
  lemma PascalExactly(t: Text)
    ensures exists places :: PicksFrom(t, places, 0) && Spelled(Pascal(t, true), t, places)
  {
    var places := PascalMade(t, 0);
    assert t[0..] == t;
  }

  // ---- declared names ----

  /** Entry i declares that name for the reference, and no later one declares another. */
  predicate DeclaredLast(declared: map<Text, Value>, order: seq<Text>, i: nat, ref: Text)
    requires forall k :: 0 <= k < |order| ==> order[k] in declared
  {
    && i < |order| && Declares(declared[order[i]], ref)
    && forall j :: i < j < |order| ==> !Declares(declared[order[j]], ref)
  }

  /** The schema is an object that refers to that resolved schema. */
  predicate Declares(schema: Value, ref: Text) {
    schema.Obj? && REF in schema.members && schema.members[REF] == Str(ref) && StartsWith(ref, PREFIX)
  }

  lemma BareExactly(schema: Value, ref: Text)
    ensures BareReference(schema) && schema.members[REF].s == ref <==> Declares(schema, ref)
  {}

  lemma {:induction false} DeclaredExactly(declared: map<Text, Value>, order: seq<Text>, ref: Text)
    requires forall k :: 0 <= k < |order| ==> order[k] in declared
    ensures var names := DeclaredNames(declared, order);
            && (ref in names <==> exists i :: 0 <= i < |order| && Declares(declared[order[i]], ref))
            && (forall i :: 0 <= i < |order| && DeclaredLast(declared, order, i, ref) ==> ref in names && names[ref] == order[i])
    decreases |order|
  {
    if order != [] {
      var n := |order| - 1;
      DeclaredExactly(declared, order[..n], ref);
      LastDeclares(declared, order, ref);
      hide DeclaredNames, Declares;
      EarlierDeclares(declared, order, ref);
    }
  }

  lemma LastDeclares(declared: map<Text, Value>, order: seq<Text>, ref: Text)
    requires order != [] && forall k :: 0 <= k < |order| ==> order[k] in declared
    ensures var n := |order| - 1;
            var names, earlier := DeclaredNames(declared, order), DeclaredNames(declared, order[..n]);
            if Declares(declared[order[n]], ref) then ref in names && names[ref] == order[n]
            else (ref in names <==> ref in earlier) && (ref in names ==> names[ref] == earlier[ref])
  {
    BareExactly(declared[order[|order| - 1]], ref);
    hide BareReference, Declares;
  }

  lemma EarlierDeclares(declared: map<Text, Value>, order: seq<Text>, ref: Text)
    requires order != [] && forall k :: 0 <= k < |order| ==> order[k] in declared
    ensures var n := |order| - 1;
            && ((exists i :: 0 <= i < |order| && Declares(declared[order[i]], ref)) <==>
                  Declares(declared[order[n]], ref) || exists i :: 0 <= i < n && Declares(declared[order[..n][i]], ref))
            && (forall i :: 0 <= i < |order| && DeclaredLast(declared, order, i, ref) ==>
                  if Declares(declared[order[n]], ref) then i == n else i < n && DeclaredLast(declared, order[..n], i, ref))
  {
    hide Declares;
    var n := |order| - 1;
    assert forall i :: 0 <= i < n ==> order[..n][i] == order[i];
  }

  // ---- the name of a schema ----

  /** Two schemas reached end in that definition name. */
  predicate Ambiguous(reachable: set<Text>, name: Text)
    requires Resolved(reachable)
  {
    exists a, b :: a in reachable && b in reachable && a != b && DefinitionName(a) == Some(name) && DefinitionName(b) == Some(name)
  }

  lemma ManyExactly<T>(s: set<T>)
    ensures |s| > 1 <==> exists a, b :: a in s && b in s && a != b
  {
    if |s| > 1 {
      var a :| a in s;
      assert |s - {a}| > 0;
      var b :| b in s - {a};
    }
    if a, b :| a in s && b in s && a != b {
      assert |s| == |s - {a}| + 1;
      assert b in s - {a};
    }
  }

  lemma ManyClaims(reachable: set<Text>, name: Text)
    requires Resolved(reachable)
    ensures |Claims(reachable, name)| > 1 <==> Ambiguous(reachable, name)
  {
    var claims := Claims(reachable, name);
    ManyExactly(claims);
    hide DefinitionName;
    assert forall a :: a in claims <==> a in reachable && DefinitionName(a) == Some(name);
    hide Claims;
  }

  /** The name: the declared one if there is one; else, for a path that /$defs/ divides
      once, the definition's, after the words of what stands before it if another schema
      reached has that definition name; else the words of the path. */
  lemma NameExactly(declared: map<Text, Text>, reachable: set<Text>, ref: Text, slug: Text, definition: Text)
    requires Resolved(reachable) && StartsWith(ref, PREFIX)
    ensures ref in declared && declared[ref] != [] ==> NameFor(declared, reachable, ref) == declared[ref]
    ensures !(ref in declared && declared[ref] != []) && DividesOnce(ref[|PREFIX|..], DEFS_SEPARATOR, slug, definition) ==>
              NameFor(declared, reachable, ref) == (if Ambiguous(reachable, definition) then Pascal(slug, true) else []) + definition
    ensures !(ref in declared && declared[ref] != [])
            && !(exists a, b :: DividesOnce(ref[|PREFIX|..], DEFS_SEPARATOR, a, b)) ==>
              NameFor(declared, reachable, ref) == Pascal(ref[|PREFIX|..], true)
  {
    DefinitionNameExactly(ref, slug, definition);
    ManyClaims(reachable, definition);
    assert [] + definition == definition;
    if DefinitionName(ref).Some? { DefinitionNameExactly(ref, SlugOf(ref), DefinitionName(ref).value); }
    hide DefinitionName, SlugOf, Claims, Ambiguous, Pascal, DividesOnce, DEFS_SEPARATOR, PREFIX;
  }
}
