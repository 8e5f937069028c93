/** The persistence half of the Pagix double: idempotency, compare-and-set
    revisions, single-use authorizations and the outbox, over every run. */
module PagixStore {
  import Decimal
  import opened PagixLedger

  const MODULUS: nat := 0x1_0000_0000_0000_0000

  datatype Command = Command(workspaceID: string, operation: string, idempotencyKey: string, requestDigest: string,
                             operationID: string, authorizationID: string, authorizationBytes: string,
                             expectedRevision: string, actionDigest: string, artifactDigest: string)

  datatype Outcome = Applied | Conflict

  datatype Result = Result(outcome: Outcome, operationID: string, authorizationID: string, revision: string, eventID: string)

  datatype Event = Event(id: string, workspaceID: string, operationID: string, authorizationID: string, outcome: Outcome, revision: string)

  datatype Record = Record(digest: string, result: Result)

  datatype Redemption = Redemption(bytes: string, result: Result)

  datatype Store = Store(revisions: map<string, nat>, idempotency: map<string, Record>, effects: map<string, Result>,
                         redemptions: map<string, Redemption>, authorizationBytes: map<string, string>,
                         outbox: seq<Event>, commands: nat)

  datatype Refusal =
    | ContextDone | InvalidCommand | IdempotencyMismatch | IdentitySubstitution | RedemptionConflict | AlreadyConsumed

  datatype Answer = Accepted(result: Result) | Refused(refusal: Refusal)

  const NEW := Store(map[], map[], map[], map[], map[], [], 0)

  predicate ValidCommand(c: Command) {
    && c.workspaceID != "" && c.operation == "page-persistence" && c.idempotencyKey != "" && ValidDigest(c.requestDigest)
    && c.operationID != "" && c.authorizationID != "" && c.authorizationBytes != "" && c.expectedRevision != ""
    && ValidDigest(c.actionDigest) && ValidDigest(c.artifactDigest)
  }

  function CommandKey(c: Command): string { c.workspaceID + "\0" + c.operation + "\0" + c.idempotencyKey }

  function RedemptionKey(authorizationID: string): string { "urn:anvilkit:issuer:agent-service\0" + authorizationID }

  function EffectKey(workspace: string, operation: string): string { workspace + "\0" + operation }

  function RevisionName(n: nat): string { "revision-" + Decimal.Text(n) }

  /** A Go map read of a uint64. */
  function Revision(s: Store, workspace: string): nat {
    if workspace in s.revisions then s.revisions[workspace] else 0
  }

  /** The uint64 successor. */
  function Next(n: nat): (m: nat)
    ensures m < MODULUS
  {
    (n + 1) % MODULUS
  }

  function Seed(s: Store, workspace: string, revision: nat): Store {
    s.(revisions := s.revisions[workspace := revision])
  }

  /** What a command not seen before, with an authorization not used before, results in. */
  function FreshResult(s: Store, c: Command): Result {
    var current := Revision(s, c.workspaceID);
    var applied := c.expectedRevision == RevisionName(current);
    Result(if applied then Applied else Conflict, c.operationID, c.authorizationID,
           RevisionName(if applied then Next(current) else current), "event-" + c.operationID)
  }

  function EventOf(c: Command, r: Result): Event {
    Event(r.eventID, c.workspaceID, c.operationID, c.authorizationID, r.outcome, r.revision)
  }

  function Persist(s: Store, contextDone: bool, c: Command): (Store, Answer) {
    if contextDone then (s, Refused(ContextDone))
    else if !ValidCommand(c) then (s, Refused(InvalidCommand))
    else
      var key := CommandKey(c);
      if key in s.idempotency then
        if s.idempotency[key].digest != c.requestDigest then (s, Refused(IdempotencyMismatch))
        else (s, Accepted(s.idempotency[key].result))
      else
        var rkey := RedemptionKey(c.authorizationID);
        if c.authorizationBytes in s.authorizationBytes && s.authorizationBytes[c.authorizationBytes] != rkey then
          (s, Refused(IdentitySubstitution))
        else if rkey in s.redemptions then
          (s, Refused(if s.redemptions[rkey].bytes != c.authorizationBytes then RedemptionConflict else AlreadyConsumed))
        else
          (Commit(s, c, FreshResult(s, c)), Accepted(FreshResult(s, c)))
  }

  /** The store after a command took effect with result r. */
  function Commit(s: Store, c: Command, r: Result): Store {
    var rkey := RedemptionKey(c.authorizationID);
    Store(if r.outcome.Applied? then s.revisions[c.workspaceID := Next(Revision(s, c.workspaceID))] else s.revisions,
          s.idempotency[CommandKey(c) := Record(c.requestDigest, r)],
          s.effects[EffectKey(c.workspaceID, c.operationID) := r],
          s.redemptions[rkey := Redemption(c.authorizationBytes, r)],
          s.authorizationBytes[c.authorizationBytes := rkey],
          s.outbox + [EventOf(c, r)],
          s.commands + 1)
  }

  // ---- runs ----

  datatype Call = CallSeed(workspace: string, revision: nat) | CallPersist(contextDone: bool, command: Command)

  function Apply(s: Store, call: Call): Store {
    match call
    case CallSeed(workspace, revision) => Seed(s, workspace, revision)
    case CallPersist(contextDone, command) => Persist(s, contextDone, command).0
  }

  function Run(s: Store, calls: seq<Call>): Store
    decreases |calls|
  {
    if calls == [] then s else Run(Apply(s, calls[0]), calls[1..])
  }

  /** A Persist call has an effect exactly when it is accepted and no replay. */
  predicate TakesEffect(s: Store, contextDone: bool, c: Command) {
    Persist(s, contextDone, c).1.Accepted? && CommandKey(c) !in s.idempotency
  }

  /** Refused and replayed calls change nothing; every other call appends one event. */
  lemma EffectOrNothing(s: Store, contextDone: bool, c: Command)
    ensures var s' := Persist(s, contextDone, c).0;
            if TakesEffect(s, contextDone, c) then
              s' == Commit(s, c, FreshResult(s, c)) && s'.outbox == s.outbox + [EventOf(c, FreshResult(s, c))]
            else s' == s
  {}

  // ---- redemption is a bijection ----

  function ResultOf(e: Event): Result { Result(e.outcome, e.operationID, e.authorizationID, e.revision, e.id) }

  /** The effects map as the last-writer fold of the outbox. */
  function EffectsOf(outbox: seq<Event>): map<string, Result> {
    if outbox == [] then map[]
    else
      var e := outbox[|outbox| - 1];
      EffectsOf(outbox[..|outbox| - 1])[EffectKey(e.workspaceID, e.operationID) := ResultOf(e)]
  }

  datatype Lookup = Absent | Present(result: Result)

  /** The last event of an operation, if it has any. */
  function LastResult(outbox: seq<Event>, key: string): Lookup {
    if outbox == [] then Absent
    else
      var e := outbox[|outbox| - 1];
      if EffectKey(e.workspaceID, e.operationID) == key then Present(ResultOf(e)) else LastResult(outbox[..|outbox| - 1], key)
  }

  lemma {:induction false} EffectsAreLast(outbox: seq<Event>, key: string)
    ensures LastResult(outbox, key) == if key in EffectsOf(outbox) then Present(EffectsOf(outbox)[key]) else Absent
    decreases |outbox|
  {
    if outbox != [] { EffectsAreLast(outbox[..|outbox| - 1], key); }
  }

  /** redemptions and authorizationBytes are mutually inverse. */
  predicate Inverse(s: Store) {
    && (forall k :: k in s.redemptions ==>
          s.redemptions[k].bytes in s.authorizationBytes && s.authorizationBytes[s.redemptions[k].bytes] == k)
    && (forall b :: b in s.authorizationBytes ==>
          s.authorizationBytes[b] in s.redemptions && s.redemptions[s.authorizationBytes[b]].bytes == b)
  }

  predicate SizesAgree(s: Store) {
    |s.redemptions| == |s.authorizationBytes| == |s.idempotency| == |s.outbox| == s.commands
  }

  /** Each event redeemed its own authorization, and each redemption caused an event. */
  predicate Redeemed(outbox: seq<Event>, redemptions: map<string, Redemption>) {
    && (forall i :: 0 <= i < |outbox| ==>
          RedemptionKey(outbox[i].authorizationID) in redemptions
          && redemptions[RedemptionKey(outbox[i].authorizationID)].result == ResultOf(outbox[i]))
    && (forall i, j :: 0 <= i < j < |outbox| ==> outbox[i].authorizationID != outbox[j].authorizationID)
    && (forall k :: k in redemptions ==> exists i :: 0 <= i < |outbox| && RedemptionKey(outbox[i].authorizationID) == k)
  }

  /** Each idempotency record holds the result of an event. */
  predicate Recorded(outbox: seq<Event>, idempotency: map<string, Record>) {
    forall k :: k in idempotency ==> exists i :: 0 <= i < |outbox| && ResultOf(outbox[i]) == idempotency[k].result
  }

  predicate Consistent(s: Store) {
    && Inverse(s) && SizesAgree(s) && Redeemed(s.outbox, s.redemptions) && Recorded(s.outbox, s.idempotency)
    && s.effects == EffectsOf(s.outbox)
  }

  lemma RedemptionKeyInjective(a: string, b: string)
    requires RedemptionKey(a) == RedemptionKey(b)
    ensures a == b
  {
    var p := "urn:anvilkit:issuer:agent-service\0";
    assert a == RedemptionKey(a)[|p|..] && b == RedemptionKey(b)[|p|..];
  }

  lemma FreshAuthorization(s: Store, contextDone: bool, c: Command)
    requires Inverse(s) && TakesEffect(s, contextDone, c)
    ensures RedemptionKey(c.authorizationID) !in s.redemptions && c.authorizationBytes !in s.authorizationBytes
  {}

  lemma PersistInverse(s: Store, contextDone: bool, c: Command)
    requires Inverse(s) && SizesAgree(s)
    ensures Inverse(Persist(s, contextDone, c).0) && SizesAgree(Persist(s, contextDone, c).0)
  {
    if TakesEffect(s, contextDone, c) {
      FreshAuthorization(s, contextDone, c);
      hide ValidCommand, FreshResult, RedemptionKey, CommandKey, EffectKey;
      CommitInverse(s, c, FreshResult(s, c));
      hide Inverse, SizesAgree, Commit;
    }
  }

  lemma CommitInverse(s: Store, c: Command, r: Result)
    requires Inverse(s) && SizesAgree(s) && RedemptionKey(c.authorizationID) !in s.redemptions
    requires c.authorizationBytes !in s.authorizationBytes && CommandKey(c) !in s.idempotency
    ensures Inverse(Commit(s, c, r)) && SizesAgree(Commit(s, c, r))
  {
    hide RedemptionKey, CommandKey, EffectKey;
  }

  lemma RedeemedExtends(outbox: seq<Event>, redemptions: map<string, Redemption>, e: Event, v: Redemption)
    requires Redeemed(outbox, redemptions) && RedemptionKey(e.authorizationID) !in redemptions && v.result == ResultOf(e)
    ensures Redeemed(outbox + [e], redemptions[RedemptionKey(e.authorizationID) := v])
  {
    var outbox', key := outbox + [e], RedemptionKey(e.authorizationID);
    forall i | 0 <= i < |outbox|
      ensures outbox'[i].authorizationID != e.authorizationID && RedemptionKey(outbox'[i].authorizationID) != key
    {
      assert RedemptionKey(outbox[i].authorizationID) in redemptions;
    }
    var redemptions' := redemptions[key := v];
    forall k | k in redemptions' ensures exists i :: 0 <= i < |outbox'| && RedemptionKey(outbox'[i].authorizationID) == k {
      if k == key {
        assert RedemptionKey(outbox'[|outbox|].authorizationID) == k;
      } else {
        var i :| 0 <= i < |outbox| && RedemptionKey(outbox[i].authorizationID) == k;
        assert RedemptionKey(outbox'[i].authorizationID) == k;
      }
    }
  }

  lemma RecordedExtends(outbox: seq<Event>, idempotency: map<string, Record>, e: Event, key: string, record: Record)
    requires Recorded(outbox, idempotency) && record.result == ResultOf(e)
    ensures Recorded(outbox + [e], idempotency[key := record])
  {
    var outbox', idempotency' := outbox + [e], idempotency[key := record];
    forall k | k in idempotency'
      ensures exists i :: 0 <= i < |outbox'| && ResultOf(outbox'[i]) == idempotency'[k].result
    {
      if k == key {
        assert ResultOf(outbox'[|outbox|]) == record.result;
      } else {
        var i :| 0 <= i < |outbox| && ResultOf(outbox[i]) == idempotency[k].result;
        assert ResultOf(outbox'[i]) == idempotency[k].result;
      }
    }
  }

  lemma CommitRedeemed(s: Store, c: Command, r: Result)
    requires Consistent(s) && RedemptionKey(c.authorizationID) !in s.redemptions
    requires r.operationID == c.operationID && r.authorizationID == c.authorizationID
    ensures var s' := Commit(s, c, r);
            && Redeemed(s'.outbox, s'.redemptions) && Recorded(s'.outbox, s'.idempotency)
            && s'.effects == EffectsOf(s'.outbox)
  {
    hide Redeemed, Recorded, Inverse, RedemptionKey, CommandKey, EffectKey;
    var e := EventOf(c, r);
    assert ResultOf(e) == r;
    RedeemedExtends(s.outbox, s.redemptions, e, Redemption(c.authorizationBytes, r));
    RecordedExtends(s.outbox, s.idempotency, e, CommandKey(c), Record(c.requestDigest, r));
    assert (s.outbox + [e])[..|s.outbox|] == s.outbox;
  }

  lemma PersistConsistent(s: Store, contextDone: bool, c: Command)
    requires Consistent(s)
    ensures Consistent(Persist(s, contextDone, c).0)
  {
    PersistInverse(s, contextDone, c);
    EffectOrNothing(s, contextDone, c);
    if TakesEffect(s, contextDone, c) {
      FreshAuthorization(s, contextDone, c);
      var r := FreshResult(s, c);
      hide Persist, Inverse, Redeemed, Recorded, SizesAgree, FreshResult, Commit, TakesEffect;
      assert r.operationID == c.operationID && r.authorizationID == c.authorizationID by { FreshNames(s, c); }
      CommitRedeemed(s, c, r);
    }
  }

  lemma FreshNames(s: Store, c: Command)
    ensures FreshResult(s, c).operationID == c.operationID && FreshResult(s, c).authorizationID == c.authorizationID
  {}

  lemma SeedConsistent(s: Store, workspace: string, revision: nat)
    requires Consistent(s)
    ensures Consistent(Seed(s, workspace, revision))
  {}

  lemma {:induction false} RunConsistent(s: Store, calls: seq<Call>)
    requires Consistent(s)
    ensures Consistent(Run(s, calls))
    decreases |calls|
  {
    if calls != [] {
      hide Persist, Consistent;
      if calls[0].CallPersist? {
        PersistConsistent(s, calls[0].contextDone, calls[0].command);
      } else {
        SeedConsistent(s, calls[0].workspace, calls[0].revision);
      }
      RunConsistent(Apply(s, calls[0]), calls[1..]);
    }
  }

  /** In every reachable state: the two redemption maps are mutually inverse, as
      large as the idempotency map, the outbox and the command count; the effects
      are the last-writer fold of the outbox; and no two events share an
      authorization identity or the bytes it was redeemed with. */
  lemma ReachableConsistent(calls: seq<Call>, i: nat, j: nat)
    requires i < j < |Run(NEW, calls).outbox|
    ensures var s := Run(NEW, calls);
            var a, b := RedemptionKey(s.outbox[i].authorizationID), RedemptionKey(s.outbox[j].authorizationID);
            && Consistent(s) && a in s.redemptions && b in s.redemptions
            && a != b && s.redemptions[a].bytes != s.redemptions[b].bytes
  {
    NewConsistent();
    RunConsistent(NEW, calls);
    hide Run, NEW;
    TwoEvents(Run(NEW, calls), i, j);
  }

  lemma NewConsistent()
    ensures Consistent(NEW)
  {}

  lemma TwoEvents(s: Store, i: nat, j: nat)
    requires Consistent(s) && i < j < |s.outbox|
    ensures var a, b := RedemptionKey(s.outbox[i].authorizationID), RedemptionKey(s.outbox[j].authorizationID);
            && a in s.redemptions && b in s.redemptions && a != b && s.redemptions[a].bytes != s.redemptions[b].bytes
  {
    if RedemptionKey(s.outbox[i].authorizationID) == RedemptionKey(s.outbox[j].authorizationID) {
      RedemptionKeyInjective(s.outbox[i].authorizationID, s.outbox[j].authorizationID);
    }
    hide SizesAgree, Recorded, EffectsOf, RedemptionKey;
  }

  // ---- revisions ----

  /** The events of one workspace form a chain from revision r: each applied event
      carries the successor of the revision before it, each conflict that revision. */
  predicate Chain(events: seq<Event>, workspace: string, r: nat)
    decreases |events|
  {
    events == [] ||
    if events[0].workspaceID != workspace then Chain(events[1..], workspace, r)
    else if events[0].outcome.Applied? then events[0].revision == RevisionName(Next(r)) && Chain(events[1..], workspace, Next(r))
    else events[0].revision == RevisionName(r) && Chain(events[1..], workspace, r)
  }

  /** The revisions of the workspace's applied events, in outbox order. */
  function AppliedRevisions(events: seq<Event>, workspace: string): seq<string>
    decreases |events|
  {
    if events == [] then []
    else (if events[0].workspaceID == workspace && events[0].outcome.Applied? then [events[0].revision] else [])
         + AppliedRevisions(events[1..], workspace)
  }

  predicate Seeds(calls: seq<Call>, workspace: string) {
    exists i :: 0 <= i < |calls| && calls[i].CallSeed? && calls[i].workspace == workspace
  }

  lemma ApplyOutbox(s: Store, call: Call)
    ensures s.outbox <= Apply(s, call).outbox
  {}

  lemma {:induction false} RunOutbox(s: Store, calls: seq<Call>)
    ensures s.outbox <= Run(s, calls).outbox
    decreases |calls|
  {
    if calls != [] {
      ApplyOutbox(s, calls[0]);
      RunOutbox(Apply(s, calls[0]), calls[1..]);
    }
  }

  /** The events a run adds. */
  function NewEvents(s: Store, calls: seq<Call>): seq<Event> {
    RunOutbox(s, calls);
    Run(s, calls).outbox[|s.outbox|..]
  }

  /** One call, seen from a workspace it does not seed: no event and the same
      revision, or one event that is the next link of the chain. */
  lemma CallLinks(s: Store, call: Call, workspace: string)
    requires !(call.CallSeed? && call.workspace == workspace)
    ensures var s1 := Apply(s, call);
            var r := Revision(s, workspace);
            (s1.outbox == s.outbox && Revision(s1, workspace) == r) ||
            (|s1.outbox| == |s.outbox| + 1 && s1.outbox[..|s.outbox|] == s.outbox &&
             var e := s1.outbox[|s.outbox|];
             if e.workspaceID == workspace && e.outcome.Applied? then
               e.revision == RevisionName(Next(r)) && Revision(s1, workspace) == Next(r)
             else
               (e.workspaceID == workspace ==> e.revision == RevisionName(r)) && Revision(s1, workspace) == r)
  {
    if call.CallPersist? { EffectOrNothing(s, call.contextDone, call.command); }
  }

  lemma SeedsTail(calls: seq<Call>, workspace: string)
    requires calls != [] && !Seeds(calls, workspace)
    ensures !Seeds(calls[1..], workspace) && !(calls[0].CallSeed? && calls[0].workspace == workspace)
  {
    var rest := calls[1..];
    forall i | 0 <= i < |rest| ensures !(rest[i].CallSeed? && rest[i].workspace == workspace) {
      assert rest[i] == calls[i + 1];
    }
  }

  /** The events of a run are those of its first call followed by those of the rest. */
  lemma NewEventsStep(s: Store, calls: seq<Call>)
    requires calls != []
    ensures var s1 := Apply(s, calls[0]);
            s.outbox <= s1.outbox && NewEvents(s, calls) == s1.outbox[|s.outbox|..] + NewEvents(s1, calls[1..])
  {
    hide Apply;
    RunOutbox(s, calls);
    RunOutbox(Apply(s, calls[0]), calls[1..]);
    ApplyOutbox(s, calls[0]);
  }

  /** The link the first call of a run adds, if any, in front of the later events. */
  lemma FirstLink(s: Store, calls: seq<Call>, workspace: string)
    requires calls != [] && !Seeds(calls, workspace)
    ensures var r, r1 := Revision(s, workspace), Revision(Apply(s, calls[0]), workspace);
            var events, later := NewEvents(s, calls), NewEvents(Apply(s, calls[0]), calls[1..]);
            if events == later then r1 == r
            else
              events != [] && events == [events[0]] + later &&
              if events[0].workspaceID == workspace && events[0].outcome.Applied? then
                events[0].revision == RevisionName(Next(r)) && r1 == Next(r)
              else
                (events[0].workspaceID == workspace ==> events[0].revision == RevisionName(r)) && r1 == r
  {
    hide Apply, Run, Revision, NewEvents, RevisionName;
    var s1 := Apply(s, calls[0]);
    SeedsTail(calls, workspace);
    CallLinks(s, calls[0], workspace);
    NewEventsStep(s, calls);
    if s1.outbox == s.outbox {
      assert NewEvents(s, calls) == NewEvents(s1, calls[1..]);
    } else {
      assert NewEvents(s, calls) == [s1.outbox[|s.outbox|]] + NewEvents(s1, calls[1..]);
    }
  }

  /** While a workspace is not seeded, its events chain from its revision. */
  lemma {:induction false} RevisionsChain(s: Store, calls: seq<Call>, workspace: string)
    requires !Seeds(calls, workspace)
    ensures Chain(NewEvents(s, calls), workspace, Revision(s, workspace))
    decreases |calls|
  {
    if calls == [] {
      assert NewEvents(s, calls) == [];
    } else {
      SeedsTail(calls, workspace);
      FirstLink(s, calls, workspace);
      hide Apply, NewEvents, Revision, Seeds, RevisionName, Chain, Run;
      var later := NewEvents(Apply(s, calls[0]), calls[1..]);
      RevisionsChain(Apply(s, calls[0]), calls[1..], workspace);
      if NewEvents(s, calls) != later { ChainExtends(NewEvents(s, calls)[0], later, workspace); }
    }
  }

  /** And its revision is the seed plus the number of its applied events, as uint64. */
  lemma {:induction false} RevisionCounts(s: Store, calls: seq<Call>, workspace: string)
    requires !Seeds(calls, workspace) && Revision(s, workspace) < MODULUS
    ensures Revision(Run(s, calls), workspace) == Advance(Revision(s, workspace), |AppliedRevisions(NewEvents(s, calls), workspace)|)
    decreases |calls|
  {
    if calls == [] {
      assert NewEvents(s, calls) == [];
    } else {
      SeedsTail(calls, workspace);
      FirstLink(s, calls, workspace);
      var s1 := Apply(s, calls[0]);
      assert Run(s, calls) == Run(s1, calls[1..]);
      hide Apply, NewEvents, Revision, Seeds, RevisionName, Chain, Run, AppliedRevisions, Next, Advance;
      var later := NewEvents(s1, calls[1..]);
      assert Revision(s1, workspace) < MODULUS by { NextInside(Revision(s, workspace)); }
      RevisionCounts(s1, calls[1..], workspace);
      var r, n := Revision(s, workspace), |AppliedRevisions(later, workspace)|;
      if NewEvents(s, calls) != later {
        assert NewEvents(s, calls) == [NewEvents(s, calls)[0]] + later;
        AppliedExtends(NewEvents(s, calls)[0], later, workspace);
        NextPlus(r, n);
      }
    }
  }

  /** The uint64 n steps after r. */
  function Advance(r: nat, n: nat): nat { (r + n) % MODULUS }

  lemma NextInside(r: nat)
    requires r < MODULUS
    ensures Next(r) < MODULUS
  {}

  lemma NextPlus(r: nat, n: nat)
    ensures Advance(Next(r), n) == Advance(r, n + 1)
  {}

  lemma AppliedExtends(e: Event, later: seq<Event>, workspace: string)
    ensures |AppliedRevisions([e] + later, workspace)| ==
            |AppliedRevisions(later, workspace)| + if e.workspaceID == workspace && e.outcome.Applied? then 1 else 0
  {
    assert ([e] + later)[1..] == later;
  }

  lemma ChainExtends(e: Event, later: seq<Event>, workspace: string)
    ensures var applied := e.workspaceID == workspace && e.outcome.Applied?;
            forall r: nat :: Chain([e] + later, workspace, r) <==>
                 if e.workspaceID != workspace then Chain(later, workspace, r)
                 else if applied then e.revision == RevisionName(Next(r)) && Chain(later, workspace, Next(r))
                 else e.revision == RevisionName(r) && Chain(later, workspace, r)
  {
    assert ([e] + later)[1..] == later;
  }

  /** The k-th applied event of a chain from r carries revision r + 1 + k. */
  lemma {:induction false} ChainConsecutive(events: seq<Event>, workspace: string, r: nat, k: nat)
    requires Chain(events, workspace, r) && r < MODULUS && k < |AppliedRevisions(events, workspace)|
    ensures AppliedRevisions(events, workspace)[k] == RevisionName((r + 1 + k) % MODULUS)
    decreases |events|
  {
    var here := events[0].workspaceID == workspace && events[0].outcome.Applied?;
    if !here {
      ChainConsecutive(events[1..], workspace, r, k);
    } else if k > 0 {
      ChainConsecutive(events[1..], workspace, Next(r), k - 1);
      NextPlus(r, k);
    }
  }

  lemma RevisionNameInjective(m: nat, n: nat)
    requires RevisionName(m) == RevisionName(n)
    ensures m == n
  {
    assert Decimal.Text(m) == RevisionName(m)[9..] && Decimal.Text(n) == RevisionName(n)[9..];
    Decimal.TextInjective(m, n);
  }

  /** No lost update: between seeds, fewer than 2^64 applied commands of a
      workspace all produce different revisions, so no two of them were applied
      on top of the same one. */
  lemma NoLostUpdate(s: Store, calls: seq<Call>, workspace: string, i: nat, j: nat)
    requires !Seeds(calls, workspace) && Revision(s, workspace) < MODULUS
    requires i < j < |AppliedRevisions(NewEvents(s, calls), workspace)| <= MODULUS
    ensures var a := AppliedRevisions(NewEvents(s, calls), workspace);
            && a[i] == RevisionName((Revision(s, workspace) + 1 + i) % MODULUS)
            && a[i] != a[j]
  {
    hide Chain, AppliedRevisions, NewEvents, Revision, RevisionName, Seeds;
    RevisionsChain(s, calls, workspace);
    var r, events := Revision(s, workspace), NewEvents(s, calls);
    ChainConsecutive(events, workspace, r, i);
    ChainConsecutive(events, workspace, r, j);
    if AppliedRevisions(events, workspace)[i] == AppliedRevisions(events, workspace)[j] {
      RevisionNameInjective((r + 1 + i) % MODULUS, (r + 1 + j) % MODULUS);
      assert false;
    }
  }

  // ---- replay ----

  lemma {:induction false} RunKeepsRecord(s: Store, calls: seq<Call>, key: string)
    requires key in s.idempotency
    ensures key in Run(s, calls).idempotency && Run(s, calls).idempotency[key] == s.idempotency[key]
    decreases |calls|
  {
    if calls != [] { RunKeepsRecord(Apply(s, calls[0]), calls[1..], key); }
  }

  /** However much later an accepted command is sent again, it is answered with
      its first result and changes nothing. */
  lemma ReplayStable(s: Store, c: Command, calls: seq<Call>)
    requires TakesEffect(s, false, c)
    ensures var later := Run(Persist(s, false, c).0, calls);
            Persist(later, false, c) == (later, Accepted(FreshResult(s, c)))
  {
    RunKeepsRecord(Persist(s, false, c).0, calls, CommandKey(c));
  }
}
