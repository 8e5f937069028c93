/** What the Pagix double answers to a command, told from the commands that took
    effect before it and not from the maps the double keeps. */
module PagixAnswers {
  import Decimal
  import opened PagixStore

  // ---- the history of a run ----

  /** A command that took effect, and what it was answered. */
  datatype Done = Done(command: Command, result: Result)

  function DoneBy(s: Store, call: Call): seq<Done> {
    if call.CallPersist? && TakesEffect(s, call.contextDone, call.command) then
      [Done(call.command, Persist(s, call.contextDone, call.command).1.result)]
    else []
  }

  /** The commands of a run that took effect, in order. */
  function Effective(s: Store, calls: seq<Call>): seq<Done>
    decreases |calls|
  {
    if calls == [] then [] else DoneBy(s, calls[0]) + Effective(Apply(s, calls[0]), calls[1..])
  }

  predicate KeySeen(past: seq<Done>, key: string) { exists i :: 0 <= i < |past| && CommandKey(past[i].command) == key }

  predicate AuthorizationSeen(past: seq<Done>, id: string) { exists i :: 0 <= i < |past| && past[i].command.authorizationID == id }

  predicate BytesSeen(past: seq<Done>, bytes: string) { exists i :: 0 <= i < |past| && past[i].command.authorizationBytes == bytes }

  /** The maps hold what the history tells, and nothing else. */
  predicate Keeps(s: Store, d: Done) {
    var rkey := RedemptionKey(d.command.authorizationID);
    && CommandKey(d.command) in s.idempotency
    && s.idempotency[CommandKey(d.command)] == Record(d.command.requestDigest, d.result)
    && rkey in s.redemptions && s.redemptions[rkey] == Redemption(d.command.authorizationBytes, d.result)
    && d.command.authorizationBytes in s.authorizationBytes && s.authorizationBytes[d.command.authorizationBytes] == rkey
  }

  predicate Redeems(past: seq<Done>, k: string) { exists i :: 0 <= i < |past| && RedemptionKey(past[i].command.authorizationID) == k }

  predicate AllKept(s: Store, past: seq<Done>) { forall i :: 0 <= i < |past| ==> Keeps(s, past[i]) }

  predicate KeysFrom(records: map<string, Record>, past: seq<Done>) { forall k :: k in records ==> KeySeen(past, k) }

  predicate RedemptionsFrom(redemptions: map<string, Redemption>, past: seq<Done>) { forall k :: k in redemptions ==> Redeems(past, k) }

  predicate BytesFrom(bytes: map<string, string>, past: seq<Done>) { forall b :: b in bytes ==> BytesSeen(past, b) }

  predicate Remembers(s: Store, past: seq<Done>) {
    && AllKept(s, past) && KeysFrom(s.idempotency, past) && RedemptionsFrom(s.redemptions, past)
    && BytesFrom(s.authorizationBytes, past)
  }

  lemma KeepsKept(s: Store, c: Command, r: Result, d: Done)
    requires Keeps(s, d) && CommandKey(c) !in s.idempotency && RedemptionKey(c.authorizationID) !in s.redemptions
    requires c.authorizationBytes !in s.authorizationBytes
    ensures Keeps(Commit(s, c, r), d)
  {
    hide CommandKey, RedemptionKey, EffectKey;
  }

  lemma KeepsNew(s: Store, c: Command, r: Result)
    ensures Keeps(Commit(s, c, r), Done(c, r))
  {
    hide CommandKey, RedemptionKey, EffectKey;
  }

  lemma BytesRedeemed(s: Store, past: seq<Done>, bytes: string)
    requires Remembers(s, past)
    ensures bytes in s.authorizationBytes ==> s.authorizationBytes[bytes] in s.redemptions
  {
    hide CommandKey, RedemptionKey, KeySeen;
    if bytes in s.authorizationBytes {
      var i :| 0 <= i < |past| && past[i].command.authorizationBytes == bytes;
      assert Keeps(s, past[i]);
    }
  }

  lemma TakenAnswer(s: Store, contextDone: bool, c: Command)
    requires TakesEffect(s, contextDone, c)
    ensures Persist(s, contextDone, c).0 == Commit(s, c, FreshResult(s, c))
    ensures Persist(s, contextDone, c).1 == Accepted(FreshResult(s, c))
    ensures CommandKey(c) !in s.idempotency && RedemptionKey(c.authorizationID) !in s.redemptions
    ensures c.authorizationBytes in s.authorizationBytes ==> s.authorizationBytes[c.authorizationBytes] == RedemptionKey(c.authorizationID)
  {
    EffectOrNothing(s, contextDone, c);
    hide FreshResult, Commit, CommandKey, RedemptionKey, ValidCommand;
  }

  /** A command that takes effect is new in its key, its authorization and its bytes. */
  lemma NewInAll(s: Store, past: seq<Done>, contextDone: bool, c: Command)
    requires Remembers(s, past) && TakesEffect(s, contextDone, c)
    ensures c.authorizationBytes !in s.authorizationBytes
  {
    BytesRedeemed(s, past, c.authorizationBytes);
    TakenAnswer(s, contextDone, c);
    hide *;
  }

  lemma KeysSeen(past: seq<Done>, d: Done, records: map<string, Record>, v: Record)
    requires KeysFrom(records, past)
    ensures KeysFrom(records[CommandKey(d.command) := v], past + [d])
  {
    var past' := past + [d];
    hide CommandKey;
    forall k | k in records[CommandKey(d.command) := v] ensures KeySeen(past', k) {
      if k == CommandKey(d.command) {
        assert CommandKey(past'[|past|].command) == k;
      } else {
        var i :| 0 <= i < |past| && CommandKey(past[i].command) == k;
        assert CommandKey(past'[i].command) == k;
      }
    }
  }

  lemma RedemptionsSeen(past: seq<Done>, d: Done, redemptions: map<string, Redemption>, v: Redemption)
    requires RedemptionsFrom(redemptions, past)
    ensures RedemptionsFrom(redemptions[RedemptionKey(d.command.authorizationID) := v], past + [d])
  {
    var past' := past + [d];
    hide RedemptionKey;
    forall k | k in redemptions[RedemptionKey(d.command.authorizationID) := v] ensures Redeems(past', k) {
      if k == RedemptionKey(d.command.authorizationID) {
        assert RedemptionKey(past'[|past|].command.authorizationID) == k;
      } else {
        var i :| 0 <= i < |past| && RedemptionKey(past[i].command.authorizationID) == k;
        assert RedemptionKey(past'[i].command.authorizationID) == k;
      }
    }
  }

  lemma AllBytesSeen(past: seq<Done>, d: Done, bytes: map<string, string>, v: string)
    requires BytesFrom(bytes, past)
    ensures BytesFrom(bytes[d.command.authorizationBytes := v], past + [d])
  {
    var past' := past + [d];
    forall b | b in bytes[d.command.authorizationBytes := v] ensures BytesSeen(past', b) {
      if b == d.command.authorizationBytes {
        assert past'[|past|].command.authorizationBytes == b;
      } else {
        var i :| 0 <= i < |past| && past[i].command.authorizationBytes == b;
        assert past'[i].command.authorizationBytes == b;
      }
    }
  }

  lemma CommitRemembers(s: Store, past: seq<Done>, c: Command, r: Result)
    requires Remembers(s, past) && CommandKey(c) !in s.idempotency && RedemptionKey(c.authorizationID) !in s.redemptions
    requires c.authorizationBytes !in s.authorizationBytes
    ensures Remembers(Commit(s, c, r), past + [Done(c, r)])
  {
    var d := Done(c, r);
    KeysSeen(past, d, s.idempotency, Record(c.requestDigest, r));
    RedemptionsSeen(past, d, s.redemptions, Redemption(c.authorizationBytes, r));
    AllBytesSeen(past, d, s.authorizationBytes, RedemptionKey(c.authorizationID));
    MoreKept(s, past, c, r);
    hide CommandKey, RedemptionKey, EffectKey, AllKept, KeysFrom, RedemptionsFrom, BytesFrom;
  }

  lemma MoreKept(s: Store, past: seq<Done>, c: Command, r: Result)
    requires AllKept(s, past) && CommandKey(c) !in s.idempotency
    requires RedemptionKey(c.authorizationID) !in s.redemptions && c.authorizationBytes !in s.authorizationBytes
    ensures AllKept(Commit(s, c, r), past + [Done(c, r)])
  {
    hide Keeps, Commit, CommandKey, RedemptionKey;
    KeepsNew(s, c, r);
    forall i | 0 <= i < |past| ensures Keeps(Commit(s, c, r), past[i]) { KeepsKept(s, c, r, past[i]); }
  }

  lemma StepRemembers(s: Store, past: seq<Done>, call: Call)
    requires Remembers(s, past)
    ensures Remembers(Apply(s, call), past + DoneBy(s, call))
  {
    hide Persist, Remembers, Commit, FreshResult, TakesEffect;
    if call.CallPersist? && TakesEffect(s, call.contextDone, call.command) {
      NewInAll(s, past, call.contextDone, call.command);
      TakenAnswer(s, call.contextDone, call.command);
      CommitRemembers(s, past, call.command, FreshResult(s, call.command));
    } else {
      assert past + DoneBy(s, call) == past;
      if call.CallPersist? {
        EffectOrNothing(s, call.contextDone, call.command);
      } else {
        SeedRemembers(s, past, call.workspace, call.revision);
      }
    }
  }

  lemma {:induction false} RunRemembers(s: Store, past: seq<Done>, calls: seq<Call>)
    requires Remembers(s, past)
    ensures Remembers(Run(s, calls), past + Effective(s, calls))
    decreases |calls|
  {
    hide Apply, Remembers, DoneBy;
    if calls == [] {
      assert past + Effective(s, calls) == past;
    } else {
      StepRemembers(s, past, calls[0]);
      RunRemembers(Apply(s, calls[0]), past + DoneBy(s, calls[0]), calls[1..]);
      assert past + DoneBy(s, calls[0]) + Effective(Apply(s, calls[0]), calls[1..]) == past + Effective(s, calls);
    }
  }

  lemma SeedRemembers(s: Store, past: seq<Done>, workspace: string, revision: nat)
    requires Remembers(s, past)
    ensures Remembers(Seed(s, workspace, revision), past)
  {
    hide CommandKey, RedemptionKey;
  }

  lemma NothingRemembered()
    ensures Remembers(NEW, [])
  {}

  lemma HistoryRemembered(calls: seq<Call>)
    ensures Remembers(Run(NEW, calls), Effective(NEW, calls))
  {
    NothingRemembered();
    hide Run, Effective, Remembers, NEW;
    RunRemembers(NEW, [], calls);
    assert [] + Effective(NEW, calls) == Effective(NEW, calls);
  }

  // ---- what is asked of a command ----

  /** No member is empty, the operation is the one there is, and the three digests
      are sha256: and 64 lower-case hexadecimal digits. */
  ghost predicate WellFormed(c: Command) {
    && "" !in {c.workspaceID, c.idempotencyKey, c.operationID, c.authorizationID, c.authorizationBytes, c.expectedRevision}
    && c.operation == "page-persistence"
    && forall d :: d in {c.requestDigest, c.actionDigest, c.artifactDigest} ==> PagixLedger.Sha256(d)
  }

  lemma WellFormedExactly(c: Command)
    ensures ValidCommand(c) <==> WellFormed(c)
  {
    hide PagixLedger.ValidDigest, PagixLedger.Sha256;
    PagixLedger.ValidDigestExactly(c.requestDigest);
    PagixLedger.ValidDigestExactly(c.actionDigest);
    PagixLedger.ValidDigestExactly(c.artifactDigest);
  }

  // ---- the answers ----

  /** The bytes were redeemed under another authorization. */
  predicate Substitutes(past: seq<Done>, c: Command) {
    exists i :: 0 <= i < |past| && past[i].command.authorizationBytes == c.authorizationBytes
                && past[i].command.authorizationID != c.authorizationID
  }

  predicate Unseen(past: seq<Done>, c: Command) {
    !KeySeen(past, CommandKey(c)) && !AuthorizationSeen(past, c.authorizationID) && !BytesSeen(past, c.authorizationBytes)
  }

  lemma SeenInMaps(s: Store, past: seq<Done>, c: Command)
    requires Remembers(s, past)
    ensures KeySeen(past, CommandKey(c)) <==> CommandKey(c) in s.idempotency
    ensures AuthorizationSeen(past, c.authorizationID) <==> RedemptionKey(c.authorizationID) in s.redemptions
    ensures BytesSeen(past, c.authorizationBytes) <==> c.authorizationBytes in s.authorizationBytes
  {
    hide *;
    KeyInMaps(s, past, CommandKey(c));
    AuthorizationInMaps(s, past, c.authorizationID);
    BytesInMaps(s, past, c.authorizationBytes);
  }

  lemma KeyInMaps(s: Store, past: seq<Done>, key: string)
    requires Remembers(s, past)
    ensures KeySeen(past, key) <==> key in s.idempotency
    ensures forall d :: d in past && CommandKey(d.command) == key ==>
              key in s.idempotency && s.idempotency[key] == Record(d.command.requestDigest, d.result)
  {
    hide CommandKey, RedemptionKey, RedemptionsFrom, BytesFrom;
    forall d | d in past && CommandKey(d.command) == key
      ensures key in s.idempotency && s.idempotency[key] == Record(d.command.requestDigest, d.result)
    {
      assert Keeps(s, d);
    }
  }

  /** Without a substitution, a redeemed authorization was redeemed with these bytes
      exactly when the bytes were redeemed at all. */
  lemma RedeemedWith(s: Store, past: seq<Done>, c: Command)
    requires Remembers(s, past) && AuthorizationSeen(past, c.authorizationID) && !Substitutes(past, c)
    ensures RedemptionKey(c.authorizationID) in s.redemptions
    ensures s.redemptions[RedemptionKey(c.authorizationID)].bytes == c.authorizationBytes <==> BytesSeen(past, c.authorizationBytes)
  {
    hide CommandKey, RedemptionKey, KeysFrom, RedemptionsFrom, BytesFrom;
    var i :| 0 <= i < |past| && past[i].command.authorizationID == c.authorizationID;
    assert Keeps(s, past[i]);
    if BytesSeen(past, c.authorizationBytes) {
      var j :| 0 <= j < |past| && past[j].command.authorizationBytes == c.authorizationBytes;
      assert Keeps(s, past[j]);
    }
  }

  lemma AuthorizationInMaps(s: Store, past: seq<Done>, id: string)
    requires Remembers(s, past)
    ensures AuthorizationSeen(past, id) <==> RedemptionKey(id) in s.redemptions
  {
    hide CommandKey, RedemptionKey, KeySeen, BytesSeen;
    if AuthorizationSeen(past, id) {
      var i :| 0 <= i < |past| && past[i].command.authorizationID == id;
      assert Keeps(s, past[i]);
    }
    if RedemptionKey(id) in s.redemptions {
      var i :| 0 <= i < |past| && RedemptionKey(past[i].command.authorizationID) == RedemptionKey(id);
      RedemptionKeyInjective(past[i].command.authorizationID, id);
    }
  }

  lemma BytesInMaps(s: Store, past: seq<Done>, bytes: string)
    requires Remembers(s, past)
    ensures BytesSeen(past, bytes) <==> bytes in s.authorizationBytes
  {
    hide CommandKey, RedemptionKey, KeySeen;
    if BytesSeen(past, bytes) {
      var i :| 0 <= i < |past| && past[i].command.authorizationBytes == bytes;
      assert Keeps(s, past[i]);
    }
  }

  lemma SubstitutesInMaps(s: Store, past: seq<Done>, c: Command)
    requires Remembers(s, past)
    ensures Substitutes(past, c) <==>
            c.authorizationBytes in s.authorizationBytes && s.authorizationBytes[c.authorizationBytes] != RedemptionKey(c.authorizationID)
  {
    hide CommandKey, RedemptionKey, KeySeen;
    if Substitutes(past, c) {
      var i :| 0 <= i < |past| && past[i].command.authorizationBytes == c.authorizationBytes
               && past[i].command.authorizationID != c.authorizationID;
      assert Keeps(s, past[i]);
      if RedemptionKey(past[i].command.authorizationID) == RedemptionKey(c.authorizationID) {
        RedemptionKeyInjective(past[i].command.authorizationID, c.authorizationID);
      }
    }
    if c.authorizationBytes in s.authorizationBytes && s.authorizationBytes[c.authorizationBytes] != RedemptionKey(c.authorizationID) {
      var i :| 0 <= i < |past| && past[i].command.authorizationBytes == c.authorizationBytes;
      assert Keeps(s, past[i]);
      assert past[i].command.authorizationID != c.authorizationID;
    }
  }

  lemma TakesEffectWhen(s: Store, contextDone: bool, c: Command)
    ensures TakesEffect(s, contextDone, c) <==>
            && !contextDone && ValidCommand(c) && CommandKey(c) !in s.idempotency
            && (c.authorizationBytes in s.authorizationBytes ==> s.authorizationBytes[c.authorizationBytes] == RedemptionKey(c.authorizationID))
            && RedemptionKey(c.authorizationID) !in s.redemptions
  {
    hide ValidCommand, CommandKey, RedemptionKey, FreshResult, Commit;
  }

  lemma BytesSeenBy(past: seq<Done>, c: Command)
    ensures BytesSeen(past, c.authorizationBytes) ==> Substitutes(past, c) || AuthorizationSeen(past, c.authorizationID)
    ensures Substitutes(past, c) ==> BytesSeen(past, c.authorizationBytes)
  {}

  /** A command takes effect exactly when the context is open, it is well formed, and
      no command before it that took effect had its key, its authorization or its bytes. */
  lemma EffectExactly(calls: seq<Call>, contextDone: bool, c: Command)
    ensures TakesEffect(Run(NEW, calls), contextDone, c) <==> !contextDone && WellFormed(c) && Unseen(Effective(NEW, calls), c)
  {
    hide Run, Effective, ValidCommand, WellFormed, CommandKey, RedemptionKey, Remembers, KeySeen, AuthorizationSeen, BytesSeen,
      Substitutes, TakesEffect, NEW;
    HistoryRemembered(calls);
    var s, past := Run(NEW, calls), Effective(NEW, calls);
    WellFormedExactly(c);
    SeenInMaps(s, past, c);
    SubstitutesInMaps(s, past, c);
    TakesEffectWhen(s, contextDone, c);
    BytesSeenBy(past, c);
  }

  /** What the code answers, told from the history. */
  ghost predicate AnsweredBy(past: seq<Done>, contextDone: bool, c: Command, a: Answer) {
    if contextDone then a == Refused(ContextDone)
    else if !WellFormed(c) then a == Refused(InvalidCommand)
    else if KeySeen(past, CommandKey(c)) then
      forall d :: d in past && CommandKey(d.command) == CommandKey(c) ==>
        a == if d.command.requestDigest == c.requestDigest then Accepted(d.result) else Refused(IdempotencyMismatch)
    else if Substitutes(past, c) then a == Refused(IdentitySubstitution)
    else if AuthorizationSeen(past, c.authorizationID) then
      a == Refused(if BytesSeen(past, c.authorizationBytes) then AlreadyConsumed else RedemptionConflict)
    else a.Accepted?
  }

  /** Every refusal and every replay. */
  lemma AnsweredExactly(calls: seq<Call>, contextDone: bool, c: Command)
    ensures AnsweredBy(Effective(NEW, calls), contextDone, c, Persist(Run(NEW, calls), contextDone, c).1)
  {
    hide Run, Effective, ValidCommand, WellFormed, CommandKey, RedemptionKey, Remembers, KeySeen, AuthorizationSeen, BytesSeen,
      Substitutes, FreshResult, Commit, NEW;
    HistoryRemembered(calls);
    var s, past := Run(NEW, calls), Effective(NEW, calls);
    WellFormedExactly(c);
    SeenInMaps(s, past, c);
    KeyInMaps(s, past, CommandKey(c));
    SubstitutesInMaps(s, past, c);
    if AuthorizationSeen(past, c.authorizationID) && !Substitutes(past, c) { RedeemedWith(s, past, c); }
  }

  /** revision- and the decimal numeral of n */
  ghost predicate NamesRevision(t: string, n: nat) {
    |t| >= 9 && t[..9] == "revision-" && Decimal.Numeral(t[9..], n)
  }

  lemma NamesExactly(t: string, n: nat)
    ensures t == RevisionName(n) <==> NamesRevision(t, n)
  {
    Decimal.TextExactly(RevisionName(n)[9..], n);
    if NamesRevision(t, n) {
      Decimal.TextExactly(t[9..], n);
      assert t == t[..9] + t[9..];
    }
  }

  /** The compare-and-set: a command that takes effect is applied exactly when the
      revision it expects is the workspace's, which it advances by one as uint64; a
      conflict leaves it. The answer names the revision the workspace is left with,
      and no other workspace's changes. */
  lemma AppliedExactly(calls: seq<Call>, contextDone: bool, c: Command)
    requires TakesEffect(Run(NEW, calls), contextDone, c)
    ensures var s := Run(NEW, calls);
            var (s', r) := Persist(s, contextDone, c);
            var n, n' := Revision(s, c.workspaceID), Revision(s', c.workspaceID);
            && (r.result.outcome.Applied? <==> NamesRevision(c.expectedRevision, n))
            && n' == (if r.result.outcome.Applied? then (n + 1) % 0x1_0000_0000_0000_0000 else n)
            && NamesRevision(r.result.revision, n')
            && (forall w :: w != c.workspaceID ==> Revision(s', w) == Revision(s, w))
            && r.result.operationID == c.operationID && r.result.authorizationID == c.authorizationID
            && r.result.eventID == "event-" + c.operationID
            && s'.outbox == s.outbox + [Event(r.result.eventID, c.workspaceID, c.operationID, c.authorizationID, r.result.outcome, r.result.revision)]
  {
    var s := Run(NEW, calls);
    var n := Revision(s, c.workspaceID);
    NamesExactly(c.expectedRevision, n);
    NamesExactly(RevisionName(n), n);
    NamesExactly(RevisionName(Next(n)), Next(n));
    hide NamesRevision, RevisionName, CommandKey, RedemptionKey, EffectKey, ValidCommand, Run;
  }

  // ---- the revision a run leaves ----

  lemma {:induction false} RunSplits(s: Store, calls: seq<Call>, i: nat)
    requires i <= |calls|
    ensures Run(s, calls) == Run(Run(s, calls[..i]), calls[i..])
    decreases i
  {
    if i > 0 {
      RunSplits(Apply(s, calls[0]), calls[1..], i - 1);
      assert calls[..i][1..] == calls[1..][..i - 1] && calls[1..][i - 1..] == calls[i..];
      assert calls[..i][0] == calls[0];
      hide Apply;
    } else {
      assert calls[0..] == calls;
    }
  }

  /** The number of a workspace's events of a run that are applied ones. */
  function AppliedIn(s: Store, calls: seq<Call>, workspace: string): nat { |AppliedRevisions(NewEvents(s, calls), workspace)| }

  /** After the last seed of a workspace its revision is the seed and the number of
      commands applied since, as uint64; where there was no seed, the number alone. */
  lemma RevisionTold(calls: seq<Call>, i: nat, workspace: string, revision: nat)
    requires i <= |calls| && !Seeds(calls[i..], workspace) && revision < MODULUS
    requires if i == 0 then revision == 0 else calls[i - 1] == CallSeed(workspace, revision)
    ensures Revision(Run(NEW, calls), workspace) == (revision + AppliedIn(Run(NEW, calls[..i]), calls[i..], workspace)) % MODULUS
  {
    hide *;
    RunSplits(NEW, calls, i);
    if i > 0 {
      assert calls[..i][|calls[..i]| - 1] == calls[i - 1];
      LastSeeds(calls[..i], workspace, revision);
    } else {
      assert calls[..i] == [];
      NothingYet(workspace);
    }
    CountedFrom(Run(NEW, calls[..i]), calls[i..], workspace, revision);
  }

  lemma NothingYet(workspace: string)
    ensures Revision(Run(NEW, []), workspace) == 0
  {}

  lemma AdvancedBy(revision: nat, s: Store, calls: seq<Call>, workspace: string)
    ensures Advance(revision, |AppliedRevisions(NewEvents(s, calls), workspace)|) == (revision + AppliedIn(s, calls, workspace)) % MODULUS
  {
    hide AppliedRevisions, NewEvents, MODULUS;
  }

  lemma CountedFrom(s: Store, calls: seq<Call>, workspace: string, revision: nat)
    requires Revision(s, workspace) == revision < MODULUS && !Seeds(calls, workspace)
    ensures Revision(Run(s, calls), workspace) == (revision + AppliedIn(s, calls, workspace)) % MODULUS
  {
    hide *;
    RevisionCounts(s, calls, workspace);
    AdvancedBy(revision, s, calls, workspace);
  }

  lemma LastSeeds(calls: seq<Call>, workspace: string, revision: nat)
    requires calls != [] && calls[|calls| - 1] == CallSeed(workspace, revision)
    ensures Revision(Run(NEW, calls), workspace) == revision
  {
    var n := |calls| - 1;
    RunSplits(NEW, calls, n);
    var before := Run(NEW, calls[..n]);
    var last := calls[n..];
    assert last[0] == calls[n] && last[1..] == [];
    assert Run(before, last) == Run(Apply(before, last[0]), last[1..]);
    assert Run(Apply(before, last[0]), []) == Apply(before, last[0]);
    hide Run, Persist;
  }
}
