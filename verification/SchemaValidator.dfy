/** The interpreter as it runs: one array of errors, appended to along the walk. */
module SchemaValidator {
  import opened CodeUnits
  import opened Json
  import opened LaidJson
  import opened SchemaReferences
  import opened SchemaValidation

  /** What a call did to the array of errors: nothing that matters once it threw. */
  predicate Reported(before: seq<Error>, after: seq<Error>, threw: bool, outcome: Outcome) {
    if threw then outcome.Threw? else outcome.Found? && after == before + outcome.errors
  }

  lemma ReportedThen(a: seq<Error>, b: seq<Error>, c: seq<Error>, threw: bool, x: Outcome, y: Outcome)
    requires Reported(a, b, false, x) && Reported(b, c, threw, y)
    ensures Reported(a, c, threw, Then(x, y))
  {}

  lemma MissingStep(names: seq<Text>, i: nat, members: Members, path: seq<Step>)
    requires i < |names|
    ensures CheckRequired(names[i..], members, path)
         == If(!Has(members, names[i]), path, MissingProperty(names[i])) + CheckRequired(names[i + 1..], members, path)
  {
    hide Has;
    assert names[i..][1..] == names[i + 1..];
  }

  lemma NoneMissing(members: Members, path: seq<Step>)
    ensures CheckRequired([], members, path) == []
  {}

  class Validator {
    const rt: Runtime
    const root: Laid
    var errors: seq<Error>

    constructor (rt: Runtime, root: Laid)
      ensures this.rt == rt && this.root == root && errors == []
    {
      this.rt := rt;
      this.root := root;
      errors := [];
    }

    method PushIf(fails: bool, path: seq<Step>, problem: Problem)
      modifies this
      ensures errors == old(errors) + If(fails, path, problem)
    {
      if fails {
        errors := errors + [Error(path, problem)];
      }
    }

    method ValidateValue(schema: Node, value: Laid, path: seq<Step>) returns (threw: bool)
      requires NoHopCycle(root)
      modifies this
      ensures Reported(old(errors), errors, threw, CheckValue(rt, root, schema, value, path))
      decreases value, Rank(root, schema) + 3
    {
      hide CheckKeywords, Resolved;
      if Refers(schema) {
        var target := ResolveRef(root, MembersOf(schema.v)[REF].s);
        if target.None? {
          return true;
        }
        RankFalls(root, schema);
        threw := ValidateValue(target.value, value, path);
      } else if schema.Data? && !schema.v.LObj? && !schema.v.LArr? {
        return true;
      } else if schema.Data? && schema.v.LObj? {
        threw := ValidateKeywords(MembersOf(schema.v), value, path);
      } else {
        threw := false;
      }
    }

    method ValidateKeywords(m: Members, value: Laid, path: seq<Step>) returns (threw: bool)
      requires NoHopCycle(root)
      modifies this
      ensures Reported(old(errors), errors, threw, CheckKeywords(rt, root, m, value, path))
      decreases value, 2
    {
      hide ConstHolds, EnumHolds, Object, Array, String, Numeric, Boolean, CheckObject, CheckArray, CheckString, CheckNumber;
      threw := false;
      if !ConstHolds(rt, m, value) {
        errors := errors + [Error(path, WrongConst)];
        return;
      }
      if !EnumHolds(rt, m, value) {
        errors := errors + [Error(path, NotInEnum)];
        return;
      }
      if Object(m) {
        threw := ValidateObject(m, value, path);
        return;
      }
      if Array(m) {
        threw := ValidateArray(m, value, path);
        return;
      }
      if String(m) {
        if !value.LStr? {
          errors := errors + [Error(path, ExpectedString)];
          return;
        }
        threw := ValidateString(m, value.s, path);
        return;
      }
      if Numeric(m) {
        if !value.LNum? {
          errors := errors + [Error(path, ExpectedNumber)];
          return;
        }
        ValidateNumber(m, value.n, path);
        return;
      }
      PushIf(Boolean(m) && !value.LBool?, path, ExpectedBoolean);
    }

    method ValidateObject(m: Members, value: Laid, path: seq<Step>) returns (threw: bool)
      requires NoHopCycle(root)
      modifies this
      ensures Reported(old(errors), errors, threw, CheckObject(rt, root, m, value, path))
      decreases value, 1
    {
      hide CheckMembers, Has, RequiredNames, MembersOf;
      threw := false;
      if !value.LObj? {
        errors := errors + [Error(path, ExpectedObject)];
        return;
      }
      var names := RequiredNames(rt, m);
      if names.None? {
        return true;
      }
      ghost var before := errors;
      PushMissing(names.value, MembersOf(value), path);
      ghost var between := errors;
      threw := ValidateMembers(m, value, path);
      ReportedThen(before, between, errors, threw, Found(CheckRequired(names.value, MembersOf(value), path)),
                   CheckMembers(rt, root, m, value, 0, path));
    }

    method PushMissing(names: seq<Text>, members: Members, path: seq<Step>)
      modifies this
      ensures errors == old(errors) + CheckRequired(names, members, path)
    {
      hide Has, CheckRequired, If;
      var i := 0;
      assert names[0..] == names;
      while i < |names|
        invariant 0 <= i <= |names|
        invariant errors + CheckRequired(names[i..], members, path) == old(errors) + CheckRequired(names, members, path)
      {
        MissingStep(names, i, members, path);
        PushIf(!Has(members, names[i]), path, MissingProperty(names[i]));
        i := i + 1;
      }
      assert names[i..] == [];
      NoneMissing(members, path);
    }

    method ValidateMembers(m: Members, value: Laid, path: seq<Step>) returns (threw: bool)
      requires NoHopCycle(root) && value.LObj?
      modifies this
      ensures Reported(old(errors), errors, threw, CheckMembers(rt, root, m, value, 0, path))
      decreases value, 0
    {
      hide CheckMember;
      var i := 0;
      while i < |value.fields|
        invariant 0 <= i <= |value.fields|
        invariant Then(Found(errors), CheckMembers(rt, root, m, value, i, path))
               == Then(Found(old(errors)), CheckMembers(rt, root, m, value, 0, path))
      {
        threw := ValidateMember(m, value.fields[i], path);
        if threw {
          return;
        }
        i := i + 1;
      }
      threw := false;
    }

    method ValidateMember(m: Members, f: Field, path: seq<Step>) returns (threw: bool)
      requires NoHopCycle(root)
      modifies this
      ensures Reported(old(errors), errors, threw, CheckMember(rt, root, m, f, path))
      decreases f
    {
      hide CheckValue, Closed, MembersOf;
      threw := false;
      if Has(Properties(m), f.name) {
        threw := ValidateValue(Property(Data(Declared(m)), f.name).value, f.value, path + [Key(f.name)]);
      } else {
        PushIf(Closed(m), path, ExtraProperty(f.name));
      }
    }

    method ValidateArray(m: Members, value: Laid, path: seq<Step>) returns (threw: bool)
      requires NoHopCycle(root)
      modifies this
      ensures Reported(old(errors), errors, threw, CheckArray(rt, root, m, value, path))
      decreases value, 1
    {
      threw := false;
      if !value.LArr? {
        errors := errors + [Error(path, ExpectedArray)];
        return;
      }
      if ITEMS !in m || !m[ITEMS].LObj? {
        return;
      }
      threw := ValidateItems(m[ITEMS], value, path);
    }

    method ValidateItems(schema: Laid, value: Laid, path: seq<Step>) returns (threw: bool)
      requires NoHopCycle(root) && value.LArr?
      modifies this
      ensures Reported(old(errors), errors, threw, CheckItems(rt, root, schema, value, 0, path))
      decreases value, 0
    {
      hide CheckValue;
      var i := 0;
      while i < |value.items|
        invariant 0 <= i <= |value.items|
        invariant Then(Found(errors), CheckItems(rt, root, schema, value, i, path))
               == Then(Found(old(errors)), CheckItems(rt, root, schema, value, 0, path))
      {
        threw := ValidateValue(Data(schema), value.items[i], path + [Index(i)]);
        if threw {
          return;
        }
        i := i + 1;
      }
      threw := false;
    }

    method ValidateString(m: Members, s: Text, path: seq<Step>) returns (threw: bool)
      modifies this
      ensures Reported(old(errors), errors, threw, CheckString(rt, m, s, path))
    {
      hide LongEnough, Compiles, Matches, DateHolds, UriHolds;
      PushIf(!LongEnough(m, s), path, TooShort);
      if !Compiles(rt, m, s) {
        return true;
      }
      PushIf(!Matches(rt, m, s), path, PatternMismatch);
      PushIf(!DateHolds(rt, m, s), path, InvalidDate);
      PushIf(!UriHolds(rt, m, s), path, InvalidUri);
      threw := false;
    }

    method ValidateNumber(m: Members, n: Number, path: seq<Step>)
      modifies this
      ensures Reported(old(errors), errors, false, CheckNumber(m, n, path))
    {
      hide Integer, WholeNumber, AtLeastMinimum, AtMostMaximum;
      if Integer(m) && !WholeNumber(n) {
        errors := errors + [Error(path, ExpectedNumber)];
        return;
      }
      PushIf(!AtLeastMinimum(m, n), path, BelowMinimum);
      PushIf(!AtMostMaximum(m, n), path, AboveMaximum);
    }
  }
}
