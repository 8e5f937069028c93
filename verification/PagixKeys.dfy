/** The joined keys of the persistence store: when an effect or an idempotency
    record belongs to one workspace only. */
module PagixKeys {
  import JoinedKeys
  import PagixLedger
  import opened PagixStore

  const PAGE_PERSISTENCE: string := "page-persistence"

  /** The result of the last event of one workspace's operation. */
  function LastOf(outbox: seq<Event>, workspace: string, operation: string): PagixStore.Lookup {
    if outbox == [] then Absent
    else
      var e := outbox[|outbox| - 1];
      if e.workspaceID == workspace && e.operationID == operation then Present(ResultOf(e))
      else LastOf(outbox[..|outbox| - 1], workspace, operation)
  }

  predicate NamesGiven(outbox: seq<Event>) {
    forall i :: 0 <= i < |outbox| ==> outbox[i].workspaceID != "" && outbox[i].operationID != ""
  }

  lemma {:induction false} RunNames(s: Store, calls: seq<Call>)
    requires NamesGiven(s.outbox)
    ensures NamesGiven(Run(s, calls).outbox)
    decreases |calls|
  {
    if calls != [] {
      ApplyNames(s, calls[0]);
      hide Apply, NamesGiven;
      RunNames(Apply(s, calls[0]), calls[1..]);
    }
  }

  lemma ApplyNames(s: Store, call: Call)
    requires NamesGiven(s.outbox)
    ensures NamesGiven(Apply(s, call).outbox)
  {
    hide FreshResult, RedemptionKey, CommandKey, EffectKey;
  }

  lemma EffectKeyJoined(workspace: string, operation: string)
    ensures EffectKey(workspace, operation) == JoinedKeys.Join(workspace, PagixLedger.NUL, operation)
  {}

  predicate EffectKeyClear(workspace: string, operation: string) { JoinedKeys.ClearInside(workspace, operation, PagixLedger.NUL) }

  /** The joined key belongs to one workspace and operation exactly when no NUL
      stands in it but the separator, one at its very start or one at its end. */
  lemma EffectKeyExactly(workspace: string, operation: string)
    ensures EffectKeyClear(workspace, operation) <==>
            forall w, o :: w != "" && o != "" && EffectKey(w, o) == EffectKey(workspace, operation) ==> w == workspace && o == operation
  {
    JoinedKeys.AloneNonEmptyExactly(workspace, operation, PagixLedger.NUL);
    hide EffectKey, EffectKeyClear, JoinedKeys.Join;
    forall w, o ensures EffectKey(w, o) == JoinedKeys.Join(w, PagixLedger.NUL, o) { EffectKeyJoined(w, o); }
    assert EffectKeyClear(workspace, operation) <==> JoinedKeys.AloneNonEmpty(workspace, operation, PagixLedger.NUL) by {
      ClearMeans(workspace, operation);
    }
  }

  lemma ClearMeans(workspace: string, operation: string)
    ensures EffectKeyClear(workspace, operation) <==> JoinedKeys.ClearInside(workspace, operation, PagixLedger.NUL)
  {}

  lemma {:induction false} LastIsOwn(outbox: seq<Event>, workspace: string, operation: string)
    requires NamesGiven(outbox) && EffectKeyClear(workspace, operation)
    ensures LastResult(outbox, EffectKey(workspace, operation)) == LastOf(outbox, workspace, operation)
    decreases |outbox|
  {
    hide EffectKey, EffectKeyClear;
    if outbox != [] {
      var e := outbox[|outbox| - 1];
      EffectKeyExactly(workspace, operation);
      assert EffectKey(e.workspaceID, e.operationID) == EffectKey(workspace, operation) <==>
             e.workspaceID == workspace && e.operationID == operation;
      LastIsOwn(outbox[..|outbox| - 1], workspace, operation);
    }
  }

  /** A command the empty store accepts. */
  function Fresh(workspace: string, idempotencyKey: string, operationID: string): Command {
    var digest := PagixLedger.ZeroDigest();
    Command(workspace, PAGE_PERSISTENCE, idempotencyKey, digest, operationID, "authorization", "bytes", "revision", digest, digest)
  }

  lemma FreshRuns(workspace: string, idempotencyKey: string, operationID: string)
    requires workspace != "" && idempotencyKey != "" && operationID != ""
    ensures var c := Fresh(workspace, idempotencyKey, operationID);
            var s := Run(NEW, [CallPersist(false, c)]);
            && s.outbox == [EventOf(c, FreshResult(NEW, c))]
            && s.idempotency == map[CommandKey(c) := Record(PagixLedger.ZeroDigest(), FreshResult(NEW, c))]
  {
    var c := Fresh(workspace, idempotencyKey, operationID);
    assert ValidCommand(c);
    var calls := [CallPersist(false, c)];
    assert calls[1..] == [];
    assert Run(NEW, calls) == Apply(NEW, calls[0]);
    hide CommandKey, EventOf, FreshResult, RedemptionKey, EffectKey;
  }

  /** In every run the effect looked up is that of the operation's own last event,
      exactly when the key is clear. */
  lemma EffectsAreOwnExactly(workspace: string, operation: string)
    ensures (forall calls ::
               LastResult(Run(NEW, calls).outbox, EffectKey(workspace, operation)) == LastOf(Run(NEW, calls).outbox, workspace, operation))
            <==> EffectKeyClear(workspace, operation)
  {
    hide EffectKey, EffectKeyClear;
    if EffectKeyClear(workspace, operation) {
      forall calls
        ensures LastResult(Run(NEW, calls).outbox, EffectKey(workspace, operation)) == LastOf(Run(NEW, calls).outbox, workspace, operation)
      {
        RunNames(NEW, calls);
        LastIsOwn(Run(NEW, calls).outbox, workspace, operation);
      }
    } else {
      EffectKeyExactly(workspace, operation);
      var w, o :| w != "" && o != "" && EffectKey(w, o) == EffectKey(workspace, operation) && !(w == workspace && o == operation);
      FreshRuns(w, "k", o);
      hide FreshResult, Run;
      var c := Fresh(w, "k", o);
      var e := EventOf(c, FreshResult(NEW, c));
      assert Run(NEW, [CallPersist(false, c)]).outbox == [e];
      OneEvent(e, workspace, operation);
    }
  }

  lemma OneEvent(e: Event, workspace: string, operation: string)
    ensures LastOf([e], workspace, operation)
         == if e.workspaceID == workspace && e.operationID == operation then Present(ResultOf(e)) else Absent
    ensures LastResult([e], EffectKey(workspace, operation))
         == if EffectKey(e.workspaceID, e.operationID) == EffectKey(workspace, operation) then Present(ResultOf(e)) else Absent
  {
    assert [e][..0] == [];
  }

  /** One command of workspace a-NUL-b gives workspace a an effect it never had. */
  lemma EffectsCanMeet()
    ensures var c := Fresh("a\0b", "k", "c");
            var s := Run(NEW, [CallPersist(false, c)]);
            && LastResult(s.outbox, EffectKey("a", "b\0c")) == Present(FreshResult(NEW, c))
            && LastOf(s.outbox, "a", "b\0c") == Absent
  {
    FreshRuns("a\0b", "k", "c");
    var c := Fresh("a\0b", "k", "c");
    var e := EventOf(c, FreshResult(NEW, c));
    OneEvent(e, "a", "b\0c");
    assert EffectKey("a\0b", "c") == EffectKey("a", "b\0c");
    assert ResultOf(e) == FreshResult(NEW, c);
  }

  // ---- idempotency records ----

  function RecordKey(workspace: string, key: string): string { workspace + "\0" + PAGE_PERSISTENCE + "\0" + key }

  predicate RecordKeyClear(workspace: string, key: string)
    requires workspace != "" && key != ""
  {
    JoinedKeys.ClearAround(workspace, PAGE_PERSISTENCE, key, PagixLedger.NUL)
  }

  ghost predicate OwnRecordKey(workspace: string, key: string) {
    forall w, k :: w != "" && k != "" && RecordKey(w, k) == RecordKey(workspace, key) ==> w == workspace && k == key
  }

  lemma RecordKeyAround(workspace: string, key: string)
    ensures RecordKey(workspace, key) == workspace + JoinedKeys.Infix(PAGE_PERSISTENCE, PagixLedger.NUL) + key
  {}

  /** The idempotency key of valid commands belongs to one workspace and key exactly
      when the infix occurs nowhere else in it, as when neither holds a NUL. */
  lemma RecordKeyExactly(workspace: string, key: string)
    requires workspace != "" && key != ""
    ensures OwnRecordKey(workspace, key) <==> RecordKeyClear(workspace, key)
    ensures PagixLedger.NUL !in workspace && PagixLedger.NUL !in key ==> RecordKeyClear(workspace, key)
  {
    hide RecordKey;
    var m := JoinedKeys.Infix(PAGE_PERSISTENCE, PagixLedger.NUL);
    assert PagixLedger.NUL !in PAGE_PERSISTENCE;
    JoinedKeys.AloneAroundExactly(workspace, PAGE_PERSISTENCE, key, PagixLedger.NUL);
    if PagixLedger.NUL !in workspace && PagixLedger.NUL !in key {
      JoinedKeys.FreeIsClear(workspace, PAGE_PERSISTENCE, key, PagixLedger.NUL);
    }
    hide JoinedKeys.ClearAround, JoinedKeys.Infix, PAGE_PERSISTENCE;
    forall w, k ensures RecordKey(w, k) == w + m + k { RecordKeyAround(w, k); }
    assert OwnRecordKey(workspace, key) <==> JoinedKeys.AloneAround(workspace, m, key);
  }

  /** A call of the run is a valid command of that workspace with that key. */
  predicate CommandedBy(calls: seq<Call>, workspace: string, key: string) {
    exists i :: 0 <= i < |calls| && CommandOf(calls[i], workspace, key)
  }

  predicate CommandOf(call: Call, workspace: string, key: string) {
    call.CallPersist? && ValidCommand(call.command) && call.command.workspaceID == workspace && call.command.idempotencyKey == key
  }

  lemma ApplyRecords(s: Store, call: Call, identity: string)
    requires identity !in s.idempotency && identity in Apply(s, call).idempotency
    ensures call.CallPersist? && ValidCommand(call.command)
         && identity == RecordKey(call.command.workspaceID, call.command.idempotencyKey)
  {
    hide FreshResult, EventOf, RedemptionKey, EffectKey;
  }

  lemma {:induction false} RecordsHaveCalls(s: Store, calls: seq<Call>, identity: string)
    requires identity !in s.idempotency && identity in Run(s, calls).idempotency
    ensures exists w, k :: w != "" && k != "" && RecordKey(w, k) == identity && CommandedBy(calls, w, k)
    decreases |calls|
  {
    hide RecordKey, Apply;
    if calls != [] {
      var next := Apply(s, calls[0]);
      if identity in next.idempotency {
        ApplyRecords(s, calls[0], identity);
        var c := calls[0].command;
        assert CommandOf(calls[0], c.workspaceID, c.idempotencyKey);
        assert RecordKey(c.workspaceID, c.idempotencyKey) == identity && CommandedBy(calls, c.workspaceID, c.idempotencyKey);
      } else {
        RecordsHaveCalls(next, calls[1..], identity);
        var w, k :| w != "" && k != "" && RecordKey(w, k) == identity && CommandedBy(calls[1..], w, k);
        var i :| 0 <= i < |calls[1..]| && CommandOf(calls[1..][i], w, k);
        assert calls[i + 1] == calls[1..][i];
        assert CommandedBy(calls, w, k);
      }
    }
  }

  /** In every run a record under the key of a workspace comes from a valid command
      of that workspace with that key, exactly when the key is clear. */
  lemma RecordsAreOwnExactly(workspace: string, key: string)
    requires workspace != "" && key != ""
    ensures (forall calls :: RecordKey(workspace, key) in Run(NEW, calls).idempotency ==> CommandedBy(calls, workspace, key))
            <==> RecordKeyClear(workspace, key)
  {
    hide RecordKey, Run;
    RecordKeyExactly(workspace, key);
    hide RecordKeyClear;
    if OwnRecordKey(workspace, key) {
      forall calls | RecordKey(workspace, key) in Run(NEW, calls).idempotency ensures CommandedBy(calls, workspace, key) {
        RecordsHaveCalls(NEW, calls, RecordKey(workspace, key));
      }
    } else {
      var w, k :| w != "" && k != "" && RecordKey(w, k) == RecordKey(workspace, key) && !(w == workspace && k == key);
      FreshRuns(w, k, "o");
      var calls := [CallPersist(false, Fresh(w, k, "o"))];
      assert CommandKey(Fresh(w, k, "o")) == RecordKey(w, k) by { FreshKey(w, k); }
      assert RecordKey(workspace, key) in Run(NEW, calls).idempotency;
      assert !CommandedBy(calls, workspace, key);
    }
  }

  lemma FreshKey(workspace: string, key: string)
    ensures CommandKey(Fresh(workspace, key, "o")) == RecordKey(workspace, key)
  {}
}
