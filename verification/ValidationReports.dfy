/** What the schema interpreter reports, and when it throws: each error belongs to a
    place in the value and to the keyword it misses there. */
module ValidationReports {
  import opened CodeUnits
  import opened Json
  import opened LaidJson
  import opened Prototypes
  import opened SchemaReferences
  import opened SchemaValidation
  import opened KeywordMeanings

  // ---- which faults a value has ----

  /** Below the value, at the place, the schema is missed in that way. A reference
      stands for its target alone. */
  ghost predicate FaultAt(rt: Runtime, root: Laid, schema: Node, value: Laid, place: seq<Step>, problem: Problem)
    requires NoHopCycle(root)
    decreases value, Rank(root, schema) + 4
  {
    if Refers(schema) then
      Hop(root, schema).Some? && (RankFalls(root, schema); FaultAt(rt, root, Hop(root, schema).value, value, place, problem))
    else schema.Data? && schema.v.LObj? && KeywordFault(rt, root, MembersOf(schema.v), value, place, problem)
  }

  /** A wrong constant is the only fault told, then a value not enumerated; else the
      type and its keywords decide. */
  ghost predicate KeywordFault(rt: Runtime, root: Laid, m: Members, value: Laid, place: seq<Step>, problem: Problem)
    requires NoHopCycle(root)
    decreases value, 3
  {
    if !ConstHolds(rt, m, value) then place == [] && problem == WrongConst
    else if !EnumHolds(rt, m, value) then place == [] && problem == NotInEnum
    else
      || (HasText(m, TYPE, Lit("object")) && ObjectFault(rt, root, m, value, place, problem))
      || (HasText(m, TYPE, Lit("array")) && ArrayFault(rt, root, m, value, place, problem))
      || (HasText(m, TYPE, Lit("string")) && place == [] && StringFault(rt, m, value, problem))
      || (Numeric(m) && place == [] && NumberFault(m, value, problem))
      || (HasText(m, TYPE, Lit("boolean")) && place == [] && problem == ExpectedBoolean && !value.LBool?)
  }

  ghost predicate ObjectFault(rt: Runtime, root: Laid, m: Members, value: Laid, place: seq<Step>, problem: Problem)
    requires NoHopCycle(root)
    decreases value, 2
  {
    if !value.LObj? then place == [] && problem == ExpectedObject
    else Missing(rt, m, MembersOf(value), place, problem) || MembersFault(rt, root, m, value, 0, place, problem)
  }

  /** A required name that is no member, and that not every object answers to. */
  predicate Missing(rt: Runtime, m: Members, members: Members, place: seq<Step>, problem: Problem) {
    && place == [] && problem.MissingProperty?
    && RequiredNames(rt, m).Some? && problem.name in RequiredNames(rt, m).value
    && problem.name !in members && !Inherited(problem.name)
  }

  ghost predicate MembersFault(rt: Runtime, root: Laid, m: Members, value: Laid, from: nat, place: seq<Step>, problem: Problem)
    requires NoHopCycle(root) && value.LObj?
    decreases value, 1
  {
    exists i :: from <= i < |value.fields| && MemberFault(rt, root, m, value.fields[i], place, problem)
  }

  /** A fault of a declared property, told below its name, or an extra property. */
  ghost predicate MemberFault(rt: Runtime, root: Laid, m: Members, f: Field, place: seq<Step>, problem: Problem)
    requires NoHopCycle(root)
    decreases f
  {
    if f.name in Properties(m) then
      place != [] && place[0] == Key(f.name) && FaultAt(rt, root, Data(Properties(m)[f.name]), f.value, place[1..], problem)
    else !Inherited(f.name) && Closed(m) && place == [] && problem == ExtraProperty(f.name)
  }

  ghost predicate ArrayFault(rt: Runtime, root: Laid, m: Members, value: Laid, place: seq<Step>, problem: Problem)
    requires NoHopCycle(root)
    decreases value, 2
  {
    if !value.LArr? then place == [] && problem == ExpectedArray
    else ITEMS in m && m[ITEMS].LObj? && ItemsFault(rt, root, m[ITEMS], value, 0, place, problem)
  }

  ghost predicate ItemsFault(rt: Runtime, root: Laid, schema: Laid, value: Laid, from: nat, place: seq<Step>, problem: Problem)
    requires NoHopCycle(root) && value.LArr?
    decreases value, 1
  {
    && place != [] && place[0].Index? && from <= place[0].i < |value.items|
    && FaultAt(rt, root, Data(schema), value.items[place[0].i], place[1..], problem)
  }

  ghost predicate StringFault(rt: Runtime, m: Members, value: Laid, problem: Problem) {
    match problem
    case ExpectedString => !value.LStr?
    case TooShort => value.LStr? && !LongEnough(m, value.s)
    case PatternMismatch => value.LStr? && exists p :: HasText(m, PATTERN, p) && rt.test(p, value.s) == Some(false)
    case InvalidDate => value.LStr? && HasText(m, FORMAT, Lit("date-time")) && !rt.isDate(value.s)
    case InvalidUri => value.LStr? && HasText(m, FORMAT, Lit("uri")) && !rt.isUri(value.s)
    case _ => false
  }

  predicate NumberFault(m: Members, value: Laid, problem: Problem) {
    var expected := value.LNum? && (HasText(m, TYPE, Lit("integer")) ==> WholeNumber(value.n));
    match problem
    case ExpectedNumber => !expected
    case BelowMinimum => expected && !AtLeastMinimum(m, value.n)
    case AboveMaximum => expected && !AtMostMaximum(m, value.n)
    case _ => false
  }

  // ---- when it throws ----

  /** A reference that leads nowhere, a schema that is no object, names required that
      cannot be iterated, or a pattern that does not compile, is met on the way. */
  ghost predicate Breaks(rt: Runtime, root: Laid, schema: Node, value: Laid)
    requires NoHopCycle(root)
    decreases value, Rank(root, schema) + 4
  {
    if Refers(schema) then
      Hop(root, schema).Some? ==> (RankFalls(root, schema); Breaks(rt, root, Hop(root, schema).value, value))
    else
      schema.Data? && !schema.v.LArr? && (schema.v.LObj? ==> KeywordsBreak(rt, root, MembersOf(schema.v), value))
  }

  ghost predicate KeywordsBreak(rt: Runtime, root: Laid, m: Members, value: Laid)
    requires NoHopCycle(root)
    decreases value, 3
  {
    ConstHolds(rt, m, value) && EnumHolds(rt, m, value) &&
    match value
    case LObj(fields) => HasText(m, TYPE, Lit("object")) && (RequiredNames(rt, m).None? || MembersBreak(rt, root, m, value, 0))
    case LArr(items) => HasText(m, TYPE, Lit("array")) && ITEMS in m && m[ITEMS].LObj? && ItemsBreak(rt, root, m[ITEMS], value, 0)
    case LStr(s) => HasText(m, TYPE, Lit("string")) && exists p :: HasText(m, PATTERN, p) && rt.test(p, s) == None
    case _ => false
  }

  ghost predicate MembersBreak(rt: Runtime, root: Laid, m: Members, value: Laid, from: nat)
    requires NoHopCycle(root) && value.LObj?
    decreases value, 1
  {
    exists i :: from <= i < |value.fields| && MemberBreaks(rt, root, m, value.fields[i])
  }

  ghost predicate MemberBreaks(rt: Runtime, root: Laid, m: Members, f: Field)
    requires NoHopCycle(root)
    decreases f
  {
    f.name in Properties(m) && Breaks(rt, root, Data(Properties(m)[f.name]), f.value)
  }

  ghost predicate ItemsBreak(rt: Runtime, root: Laid, schema: Laid, value: Laid, from: nat)
    requires NoHopCycle(root) && value.LArr?
    decreases value, 1
  {
    exists i :: from <= i < |value.items| && Breaks(rt, root, Data(schema), value.items[i])
  }

  // ---- the reports are exactly the faults ----

  predicate Under(path: seq<Step>, e: Error) { |path| <= |e.path| && e.path[..|path|] == path }

  function Rest(path: seq<Step>, e: Error): seq<Step>
    requires Under(path, e)
  {
    e.path[|path|..]
  }

  /** The outcome is a throw exactly when told to break, and else lists the error
      exactly when told it is a fault. */
  predicate Reported(o: Outcome, e: Error, breaks: bool, fault: bool) {
    if o.Threw? then breaks else !breaks && (e in o.errors <==> fault)
  }

  lemma OneReported(path: seq<Step>, problem: Problem, fails: bool, e: Error)
    ensures Reported(Found(If(fails, path, problem)), e, false,
                     fails && Under(path, e) && Rest(path, e) == [] && e.problem == problem)
  {}

  lemma HereIsNowhere(path: seq<Step>, e: Error)
    ensures e.path == path <==> Under(path, e) && Rest(path, e) == []
  {}

  lemma NoneReported(e: Error)
    ensures Reported(Found([]), e, false, false)
  {}

  lemma ThenReported(a: Outcome, b: Outcome, e: Error, breaks: bool, fault: bool, breaksLater: bool, faultLater: bool)
    requires Reported(a, e, breaks, fault) && Reported(b, e, breaksLater, faultLater)
    ensures Reported(Then(a, b), e, breaks || breaksLater, fault || faultLater)
  {}

  lemma UnderStep(path: seq<Step>, step: Step, e: Error)
    ensures Under(path + [step], e) <==> Under(path, e) && Rest(path, e) != [] && Rest(path, e)[0] == step
    ensures Under(path + [step], e) ==> Rest(path + [step], e) == Rest(path, e)[1..]
  {
    if Under(path, e) && Rest(path, e) != [] && Rest(path, e)[0] == step {
      assert e.path[..|path| + 1] == path + [step];
    }
    if Under(path + [step], e) {
      assert e.path[..|path|] == (path + [step])[..|path|] == path;
      assert e.path[|path|] == e.path[..|path| + 1][|path|];
    }
  }

  lemma {:induction false} RequiredReports(names: seq<Text>, members: Members, path: seq<Step>, e: Error)
    ensures Reported(Found(CheckRequired(names, members, path)), e, false,
                     Under(path, e) && Rest(path, e) == [] && e.problem.MissingProperty?
                     && e.problem.name in names && !Has(members, e.problem.name))
  {
    HereIsNowhere(path, e);
    hide Has, Under, Rest;
    if names != [] { RequiredReports(names[1..], members, path, e); }
  }

  lemma PatternFaults(rt: Runtime, m: Members, s: Text)
    ensures !Compiles(rt, m, s) <==> exists p :: HasText(m, PATTERN, p) && rt.test(p, s) == None
    ensures Compiles(rt, m, s) ==> (!Matches(rt, m, s) <==> exists p :: HasText(m, PATTERN, p) && rt.test(p, s) == Some(false))
  {
    hide PATTERN;
    if PATTERN in m && m[PATTERN].LStr? {
      assert HasText(m, PATTERN, m[PATTERN].s);
      match rt.test(m[PATTERN].s, s)
      case None =>
      case Some(found) =>
    }
  }

  lemma FormatFaults(rt: Runtime, m: Members, s: Text)
    ensures DateHolds(rt, m, s) <==> HasText(m, FORMAT, Lit("date-time")) ==> rt.isDate(s)
    ensures UriHolds(rt, m, s) <==> HasText(m, FORMAT, Lit("uri")) ==> rt.isUri(s)
  {}

  lemma StringErrors(rt: Runtime, m: Members, s: Text, path: seq<Step>, e: Error)
    ensures CheckString(rt, m, s, path).Threw? <==> !Compiles(rt, m, s)
    ensures Compiles(rt, m, s) ==>
              (e in CheckString(rt, m, s, path).errors <==>
               e.path == path
               && (|| (e.problem == TooShort && !LongEnough(m, s)) || (e.problem == PatternMismatch && !Matches(rt, m, s))
                   || (e.problem == InvalidDate && !DateHolds(rt, m, s)) || (e.problem == InvalidUri && !UriHolds(rt, m, s))))
  {
    hide LongEnough, Compiles, Matches, DateHolds, UriHolds;
  }

  lemma StringReports(rt: Runtime, m: Members, s: Text, path: seq<Step>, e: Error)
    ensures Reported(CheckString(rt, m, s, path), e, exists p :: HasText(m, PATTERN, p) && rt.test(p, s) == None,
                     Under(path, e) && Rest(path, e) == [] && StringFault(rt, m, LStr(s), e.problem))
  {
    PatternFaults(rt, m, s);
    HereIsNowhere(path, e);
    FormatFaults(rt, m, s);
    StringErrors(rt, m, s, path, e);
    hide LongEnough, Compiles, Matches, DateHolds, UriHolds, HasText, PATTERN, FORMAT, Under, Rest, CheckString;
  }

  lemma NumberReports(m: Members, n: Number, path: seq<Step>, e: Error)
    ensures Reported(CheckNumber(m, n, path), e, false,
                     Under(path, e) && Rest(path, e) == [] && NumberFault(m, LNum(n), e.problem))
  {
    HereIsNowhere(path, e);
    hide AtLeastMinimum, AtMostMaximum, WholeNumber, Under, Rest;
  }

  /** Validation throws exactly when it meets such a schema; otherwise it lists the
      faults of the value, each at its place, and nothing else. */
  lemma {:induction false} ReportsExactly(rt: Runtime, root: Laid, schema: Node, value: Laid, path: seq<Step>, e: Error)
    requires NoHopCycle(root)
    ensures Reported(CheckValue(rt, root, schema, value, path), e, Breaks(rt, root, schema, value),
                     Under(path, e) && FaultAt(rt, root, schema, value, Rest(path, e), e.problem))
    decreases value, Rank(root, schema) + 3
  {
    hide CheckKeywords, KeywordFault, KeywordsBreak, Resolved, MembersOf, Under, Rest;
    if Refers(schema) {
      if Hop(root, schema).Some? {
        RankFalls(root, schema);
        ReportsExactly(rt, root, Hop(root, schema).value, value, path, e);
      }
    } else if schema.Data? && schema.v.LObj? {
      KeywordReports(rt, root, MembersOf(schema.v), value, path, e);
    }
  }

  lemma TypesAre(m: Members)
    ensures Object(m) <==> HasText(m, TYPE, Lit("object"))
    ensures Array(m) <==> HasText(m, TYPE, Lit("array"))
    ensures String(m) <==> HasText(m, TYPE, Lit("string"))
    ensures Boolean(m) <==> HasText(m, TYPE, Lit("boolean"))
  {}

  lemma ConstFirst(rt: Runtime, root: Laid, m: Members, value: Laid, path: seq<Step>, place: seq<Step>, problem: Problem)
    requires NoHopCycle(root) && !(ConstHolds(rt, m, value) && EnumHolds(rt, m, value))
    ensures !KeywordsBreak(rt, root, m, value)
    ensures var told := if ConstHolds(rt, m, value) then NotInEnum else WrongConst;
            && CheckKeywords(rt, root, m, value, path) == Found(If(true, path, told))
            && (KeywordFault(rt, root, m, value, place, problem) <==> place == [] && problem == told)
  {
    hide ConstHolds, EnumHolds, CheckObject, CheckArray, CheckString, CheckNumber, HasText, Object, Array, String, Numeric, Boolean;
    hide ObjectFault, ArrayFault, StringFault, NumberFault, RequiredNames, MembersBreak, ItemsBreak;
  }

  lemma ObjectNext(rt: Runtime, root: Laid, m: Members, value: Laid, path: seq<Step>, place: seq<Step>, problem: Problem)
    requires NoHopCycle(root) && ConstHolds(rt, m, value) && EnumHolds(rt, m, value) && Object(m)
    ensures CheckKeywords(rt, root, m, value, path) == CheckObject(rt, root, m, value, path)
    ensures KeywordFault(rt, root, m, value, place, problem) <==> ObjectFault(rt, root, m, value, place, problem)
    ensures KeywordsBreak(rt, root, m, value) <==> value.LObj? && (RequiredNames(rt, m).None? || MembersBreak(rt, root, m, value, 0))
  {
    TypesDiffer(m);
    TypesAre(m);
    hide ConstHolds, EnumHolds, HasText, Object, Array, String, Numeric, Boolean, ObjectFault, MembersBreak, CheckObject, RequiredNames;
  }

  lemma ArrayNext(rt: Runtime, root: Laid, m: Members, value: Laid, path: seq<Step>, place: seq<Step>, problem: Problem)
    requires NoHopCycle(root) && ConstHolds(rt, m, value) && EnumHolds(rt, m, value) && Array(m)
    ensures CheckKeywords(rt, root, m, value, path) == CheckArray(rt, root, m, value, path)
    ensures KeywordFault(rt, root, m, value, place, problem) <==> ArrayFault(rt, root, m, value, place, problem)
    ensures KeywordsBreak(rt, root, m, value) <==> value.LArr? && ITEMS in m && m[ITEMS].LObj? && ItemsBreak(rt, root, m[ITEMS], value, 0)
  {
    TypesDiffer(m);
    TypesAre(m);
    hide ConstHolds, EnumHolds, HasText, Object, Array, String, Numeric, Boolean, ArrayFault, ItemsBreak, CheckArray, ITEMS;
  }

  lemma StringNext(rt: Runtime, root: Laid, m: Members, value: Laid, path: seq<Step>, place: seq<Step>, problem: Problem)
    requires NoHopCycle(root) && ConstHolds(rt, m, value) && EnumHolds(rt, m, value) && String(m)
    ensures CheckKeywords(rt, root, m, value, path)
         == if value.LStr? then CheckString(rt, m, value.s, path) else Found(If(true, path, ExpectedString))
    ensures KeywordFault(rt, root, m, value, place, problem) <==> place == [] && StringFault(rt, m, value, problem)
    ensures KeywordsBreak(rt, root, m, value) <==> value.LStr? && exists p :: HasText(m, PATTERN, p) && rt.test(p, value.s) == None
  {
    TypesDiffer(m);
    TypesAre(m);
    hide ConstHolds, EnumHolds, HasText, Object, Array, String, Numeric, Boolean, StringFault, CheckString, PATTERN;
  }

  lemma NumberNext(rt: Runtime, root: Laid, m: Members, value: Laid, path: seq<Step>, place: seq<Step>, problem: Problem)
    requires NoHopCycle(root) && ConstHolds(rt, m, value) && EnumHolds(rt, m, value) && Numeric(m)
    ensures !KeywordsBreak(rt, root, m, value)
    ensures CheckKeywords(rt, root, m, value, path)
         == if value.LNum? then CheckNumber(m, value.n, path) else Found(If(true, path, ExpectedNumber))
    ensures KeywordFault(rt, root, m, value, place, problem) <==> place == [] && NumberFault(m, value, problem)
  {
    TypesDiffer(m);
    TypesAre(m);
    hide ConstHolds, EnumHolds, HasText, Object, Array, String, Numeric, Boolean, NumberFault, CheckNumber;
  }

  lemma OtherNext(rt: Runtime, root: Laid, m: Members, value: Laid, path: seq<Step>, place: seq<Step>, problem: Problem)
    requires NoHopCycle(root) && ConstHolds(rt, m, value) && EnumHolds(rt, m, value)
    requires !Object(m) && !Array(m) && !String(m) && !Numeric(m)
    ensures !KeywordsBreak(rt, root, m, value)
    ensures CheckKeywords(rt, root, m, value, path) == Found(If(Boolean(m) && !value.LBool?, path, ExpectedBoolean))
    ensures KeywordFault(rt, root, m, value, place, problem) <==> Boolean(m) && !value.LBool? && place == [] && problem == ExpectedBoolean
  {
    TypesAre(m);
    hide ConstHolds, EnumHolds, HasText, Object, Array, String, Numeric, Boolean;
  }

  lemma {:induction false} KeywordReports(rt: Runtime, root: Laid, m: Members, value: Laid, path: seq<Step>, e: Error)
    requires NoHopCycle(root)
    ensures Reported(CheckKeywords(rt, root, m, value, path), e, KeywordsBreak(rt, root, m, value),
                     Under(path, e) && KeywordFault(rt, root, m, value, Rest(path, e), e.problem))
    decreases value, 2
  {
    hide *;
    var place := if Under(path, e) then Rest(path, e) else [];
    if !(ConstHolds(rt, m, value) && EnumHolds(rt, m, value)) {
      ConstFirst(rt, root, m, value, path, place, e.problem);
      OneReported(path, if ConstHolds(rt, m, value) then NotInEnum else WrongConst, true, e);
    } else if Object(m) {
      ObjectNext(rt, root, m, value, path, place, e.problem);
      ObjectReports(rt, root, m, value, path, e);
    } else if Array(m) {
      ArrayNext(rt, root, m, value, path, place, e.problem);
      ArrayReports(rt, root, m, value, path, e);
    } else if String(m) {
      StringNext(rt, root, m, value, path, place, e.problem);
      if value.LStr? {
        StringReports(rt, m, value.s, path, e);
      } else {
        NoString(rt, m, value, e.problem);
        OneReported(path, ExpectedString, true, e);
      }
    } else if Numeric(m) {
      NumberNext(rt, root, m, value, path, place, e.problem);
      if value.LNum? {
        NumberReports(m, value.n, path, e);
      } else {
        NoNumber(m, value, e.problem);
        OneReported(path, ExpectedNumber, true, e);
      }
    } else {
      OtherNext(rt, root, m, value, path, place, e.problem);
      OneReported(path, ExpectedBoolean, Boolean(m) && !value.LBool?, e);
    }
  }

  lemma NoString(rt: Runtime, m: Members, value: Laid, problem: Problem)
    requires !value.LStr?
    ensures StringFault(rt, m, value, problem) <==> problem == ExpectedString
  {}

  lemma NoNumber(m: Members, value: Laid, problem: Problem)
    requires !value.LNum?
    ensures NumberFault(m, value, problem) <==> problem == ExpectedNumber
  {}

  lemma {:induction false} ObjectReports(rt: Runtime, root: Laid, m: Members, value: Laid, path: seq<Step>, e: Error)
    requires NoHopCycle(root)
    ensures Reported(CheckObject(rt, root, m, value, path), e,
                     value.LObj? && (RequiredNames(rt, m).None? || MembersBreak(rt, root, m, value, 0)),
                     Under(path, e) && ObjectFault(rt, root, m, value, Rest(path, e), e.problem))
    decreases value, 1
  {
    hide MembersFault, MembersBreak, CheckMembers, MembersOf, Under, Rest, RequiredNames, CheckRequired, Inherited, Reported, Then;
    OneReported(path, ExpectedObject, true, e);
    if value.LObj? {
      match RequiredNames(rt, m)
      case None => BrokenReported(e);
      case Some(names) =>
        RequiredReports(names, MembersOf(value), path, e);
        MembersReports(rt, root, m, value, 0, path, e);
        ThenReported(Found(CheckRequired(names, MembersOf(value), path)), CheckMembers(rt, root, m, value, 0, path), e,
                     false, Under(path, e) && Missing(rt, m, MembersOf(value), Rest(path, e), e.problem),
                     MembersBreak(rt, root, m, value, 0), Under(path, e) && MembersFault(rt, root, m, value, 0, Rest(path, e), e.problem));
    }
  }

  lemma BrokenReported(e: Error)
    ensures forall fault :: Reported(Threw, e, true, fault)
  {}

  lemma {:induction false} ArrayReports(rt: Runtime, root: Laid, m: Members, value: Laid, path: seq<Step>, e: Error)
    requires NoHopCycle(root)
    ensures Reported(CheckArray(rt, root, m, value, path), e,
                     value.LArr? && ITEMS in m && m[ITEMS].LObj? && ItemsBreak(rt, root, m[ITEMS], value, 0),
                     Under(path, e) && ArrayFault(rt, root, m, value, Rest(path, e), e.problem))
    decreases value, 1
  {
    hide ItemsFault, ItemsBreak, CheckItems, Under, Rest, Reported;
    OneReported(path, ExpectedArray, true, e);
    NoneReported(e);
    if value.LArr? && ITEMS in m && m[ITEMS].LObj? {
      ItemsReports(rt, root, m[ITEMS], value, 0, path, e);
    }
  }

  lemma {:induction false} MemberReports(rt: Runtime, root: Laid, m: Members, f: Field, path: seq<Step>, e: Error)
    requires NoHopCycle(root)
    ensures Reported(CheckMember(rt, root, m, f, path), e, MemberBreaks(rt, root, m, f),
                     Under(path, e) && MemberFault(rt, root, m, f, Rest(path, e), e.problem))
    decreases f
  {
    OneReported(path, ExtraProperty(f.name), Closed(m), e);
    UnderStep(path, Key(f.name), e);
    NoneReported(e);
    hide FaultAt, Breaks, Inherited, Closed, MembersOf, Under, Rest, Reported, If;
    if f.name in Properties(m) {
      ReportsExactly(rt, root, Data(Properties(m)[f.name]), f.value, path + [Key(f.name)], e);
      hide CheckValue;
    }
  }

  lemma MembersFaultStep(rt: Runtime, root: Laid, m: Members, value: Laid, from: nat, place: seq<Step>, problem: Problem)
    requires NoHopCycle(root) && value.LObj? && from < |value.fields|
    ensures MembersFault(rt, root, m, value, from, place, problem) <==>
            MemberFault(rt, root, m, value.fields[from], place, problem) || MembersFault(rt, root, m, value, from + 1, place, problem)
    ensures MembersBreak(rt, root, m, value, from) <==> MemberBreaks(rt, root, m, value.fields[from]) || MembersBreak(rt, root, m, value, from + 1)
  {
    hide MemberFault, MemberBreaks;
  }

  lemma MembersDone(rt: Runtime, root: Laid, m: Members, value: Laid, place: seq<Step>, problem: Problem, path: seq<Step>)
    requires NoHopCycle(root) && value.LObj?
    ensures !MembersFault(rt, root, m, value, |value.fields|, place, problem) && !MembersBreak(rt, root, m, value, |value.fields|)
    ensures CheckMembers(rt, root, m, value, |value.fields|, path) == Found([])
  {
    hide MemberFault, MemberBreaks;
  }

  lemma CheckMembersNext(rt: Runtime, root: Laid, m: Members, value: Laid, from: nat, path: seq<Step>)
    requires NoHopCycle(root) && value.LObj? && from < |value.fields|
    ensures CheckMembers(rt, root, m, value, from, path)
         == Then(CheckMember(rt, root, m, value.fields[from], path), CheckMembers(rt, root, m, value, from + 1, path))
  {
    hide CheckMember, Then;
  }

  lemma {:induction false} MembersReports(rt: Runtime, root: Laid, m: Members, value: Laid, from: nat, path: seq<Step>, e: Error)
    requires NoHopCycle(root) && value.LObj? && from <= |value.fields|
    ensures Reported(CheckMembers(rt, root, m, value, from, path), e, MembersBreak(rt, root, m, value, from),
                     Under(path, e) && MembersFault(rt, root, m, value, from, Rest(path, e), e.problem))
    decreases value, 0, |value.fields| - from
  {
    hide *;
    var place := if Under(path, e) then Rest(path, e) else [];
    if from == |value.fields| {
      MembersDone(rt, root, m, value, place, e.problem, path);
      NoneReported(e);
    } else {
      MembersFaultStep(rt, root, m, value, from, place, e.problem);
      CheckMembersNext(rt, root, m, value, from, path);
      MemberReports(rt, root, m, value.fields[from], path, e);
      MembersReports(rt, root, m, value, from + 1, path, e);
      ThenReported(CheckMember(rt, root, m, value.fields[from], path), CheckMembers(rt, root, m, value, from + 1, path), e,
                   MemberBreaks(rt, root, m, value.fields[from]),
                   Under(path, e) && MemberFault(rt, root, m, value.fields[from], place, e.problem),
                   MembersBreak(rt, root, m, value, from + 1),
                   Under(path, e) && MembersFault(rt, root, m, value, from + 1, place, e.problem));
    }
  }

  lemma ItemsFaultStep(rt: Runtime, root: Laid, schema: Laid, value: Laid, from: nat, place: seq<Step>, problem: Problem)
    requires NoHopCycle(root) && value.LArr? && from < |value.items|
    ensures ItemsFault(rt, root, schema, value, from, place, problem) <==>
            || (place != [] && place[0] == Index(from) && FaultAt(rt, root, Data(schema), value.items[from], place[1..], problem))
            || ItemsFault(rt, root, schema, value, from + 1, place, problem)
  {
    hide FaultAt;
  }

  lemma ItemsBreakStep(rt: Runtime, root: Laid, schema: Laid, value: Laid, from: nat)
    requires NoHopCycle(root) && value.LArr? && from < |value.items|
    ensures ItemsBreak(rt, root, schema, value, from) <==>
            Breaks(rt, root, Data(schema), value.items[from]) || ItemsBreak(rt, root, schema, value, from + 1)
  {
    hide Breaks;
  }

  lemma ItemsDone(rt: Runtime, root: Laid, schema: Laid, value: Laid, place: seq<Step>, problem: Problem, path: seq<Step>)
    requires NoHopCycle(root) && value.LArr?
    ensures !ItemsFault(rt, root, schema, value, |value.items|, place, problem) && !ItemsBreak(rt, root, schema, value, |value.items|)
    ensures CheckItems(rt, root, schema, value, |value.items|, path) == Found([])
  {
    hide FaultAt, Breaks;
  }

  lemma CheckItemsNext(rt: Runtime, root: Laid, schema: Laid, value: Laid, from: nat, path: seq<Step>)
    requires NoHopCycle(root) && value.LArr? && from < |value.items|
    ensures CheckItems(rt, root, schema, value, from, path)
         == Then(CheckValue(rt, root, Data(schema), value.items[from], path + [Index(from)]), CheckItems(rt, root, schema, value, from + 1, path))
  {
    hide CheckValue, Then;
  }

  lemma {:induction false} ItemsReports(rt: Runtime, root: Laid, schema: Laid, value: Laid, from: nat, path: seq<Step>, e: Error)
    requires NoHopCycle(root) && value.LArr? && from <= |value.items|
    ensures Reported(CheckItems(rt, root, schema, value, from, path), e, ItemsBreak(rt, root, schema, value, from),
                     Under(path, e) && ItemsFault(rt, root, schema, value, from, Rest(path, e), e.problem))
    decreases value, 0, |value.items| - from
  {
    hide *;
    var place := if Under(path, e) then Rest(path, e) else [];
    if from == |value.items| {
      ItemsDone(rt, root, schema, value, place, e.problem, path);
      NoneReported(e);
    } else {
      ItemsFaultStep(rt, root, schema, value, from, place, e.problem);
      ItemsBreakStep(rt, root, schema, value, from);
      CheckItemsNext(rt, root, schema, value, from, path);
      var below := path + [Index(from)];
      UnderStep(path, Index(from), e);
      ReportsExactly(rt, root, Data(schema), value.items[from], below, e);
      ItemsReports(rt, root, schema, value, from + 1, path, e);
      ThenReported(CheckValue(rt, root, Data(schema), value.items[from], below), CheckItems(rt, root, schema, value, from + 1, path), e,
                   Breaks(rt, root, Data(schema), value.items[from]),
                   Under(below, e) && FaultAt(rt, root, Data(schema), value.items[from], Rest(below, e), e.problem),
                   ItemsBreak(rt, root, schema, value, from + 1),
                   Under(path, e) && ItemsFault(rt, root, schema, value, from + 1, place, e.problem));
    }
  }
}
