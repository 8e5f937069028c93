/** The joined keys of the worker double: when a recorded request or a usage
    reading belongs to one caller only. */
module WorkerKeys {
  import JoinedKeys
  import PagixLedger
  import opened WorkerModel

  // ---- requests ----

  function RequestKey(operation: string, key: string): string { operation + "\0" + key }

  lemma RequestKeyJoined(operation: string, key: string)
    ensures RequestKey(operation, key) == JoinedKeys.Join(operation, PagixLedger.NUL, key)
  {}

  ghost predicate OwnRequestKey(operation: string, key: string) {
    forall o, k :: RequestKey(o, k) == RequestKey(operation, key) ==> o == operation && k == key
  }

  /** The key of a request belongs to one operation and key exactly when neither
      holds a NUL. */
  lemma RequestKeyExactly(operation: string, key: string)
    ensures OwnRequestKey(operation, key) <==> PagixLedger.NUL !in operation && PagixLedger.NUL !in key
  {
    hide RequestKey, JoinedKeys.Join;
    JoinedKeys.AloneExactly(operation, key, PagixLedger.NUL);
    forall o, k ensures RequestKey(o, k) == JoinedKeys.Join(o, PagixLedger.NUL, k) { RequestKeyJoined(o, k); }
    assert OwnRequestKey(operation, key) <==> JoinedKeys.Alone(operation, key, PagixLedger.NUL);
  }

  predicate Recorded(calls: seq<Call>, operation: string, key: string) {
    exists i :: 0 <= i < |calls| && calls[i].CallRecord? && calls[i].operation == operation && calls[i].key == key
  }

  lemma ApplyRequests(w: Worker, call: Call, scoped: string)
    requires scoped !in w.idempotency && scoped in Apply(w, call).idempotency
    ensures call.CallRecord? && scoped == RequestKey(call.operation, call.key)
  {}

  lemma {:induction false} RequestsHaveCalls(w: Worker, calls: seq<Call>, scoped: string)
    requires scoped !in w.idempotency && scoped in Run(w, calls).idempotency
    ensures exists o, k :: RequestKey(o, k) == scoped && Recorded(calls, o, k)
    decreases |calls|
  {
    hide RequestKey, Apply;
    if calls != [] {
      var call := Last(calls);
      if scoped in Run(w, Front(calls)).idempotency {
        RequestsHaveCalls(w, Front(calls), scoped);
        var o, k :| RequestKey(o, k) == scoped && Recorded(Front(calls), o, k);
        var i :| 0 <= i < |calls| - 1 && Front(calls)[i].CallRecord? && Front(calls)[i].operation == o && Front(calls)[i].key == k;
        assert calls[i] == Front(calls)[i];
        assert Recorded(calls, o, k);
      } else {
        ApplyRequests(Run(w, Front(calls)), call, scoped);
        assert calls[|calls| - 1] == call;
        assert RequestKey(call.operation, call.key) == scoped && Recorded(calls, call.operation, call.key);
      }
    }
  }

  /** In every run a request that was never recorded is a first one, not answered
      for another's, exactly when its key is its own. */
  lemma RequestsAreOwnExactly(active: Fence, operation: string, key: string)
    ensures (forall calls :: !Recorded(calls, operation, key) ==>
               RequestKey(operation, key) !in Run(NewWorker(active), calls).idempotency)
            <==> PagixLedger.NUL !in operation && PagixLedger.NUL !in key
  {
    RequestKeyExactly(operation, key);
    if OwnRequestKey(operation, key) {
      hide RequestKey;
      forall calls | !Recorded(calls, operation, key)
        ensures RequestKey(operation, key) !in Run(NewWorker(active), calls).idempotency
      {
        if RequestKey(operation, key) in Run(NewWorker(active), calls).idempotency {
          RequestsHaveCalls(NewWorker(active), calls, RequestKey(operation, key));
        }
      }
    } else {
      var o, k :| RequestKey(o, k) == RequestKey(operation, key) && !(o == operation && k == key);
      var calls := [CallRecord(o, k, "", "")];
      assert Front(calls) == [];
      assert Run(NewWorker(active), calls) == Apply(NewWorker(active), calls[0]);
      assert RequestKey(operation, key) in Run(NewWorker(active), calls).idempotency;
      assert !Recorded(calls, operation, key);
    }
  }

  // ---- usage readings ----

  /** Readings of one provider request, or of one observation of one attempt. */
  predicate SameSource(u: Reading, v: Reading) {
    if u.providerRequestID != "" then v.providerRequestID == u.providerRequestID
    else v.providerRequestID == "" && v.physicalAttemptID == u.physicalAttemptID && v.observationID == u.observationID
  }

  ghost predicate OwnReadingKey(u: Reading) {
    forall v: Reading :: ValidReading(v) && ReadingKey(v) == ReadingKey(u) ==> SameSource(u, v)
  }

  lemma ProviderKeys(u: Reading, v: Reading)
    requires u.providerRequestID != "" && ReadingKey(v) == ReadingKey(u)
    ensures v.providerRequestID == u.providerRequestID
  {
    assert ReadingKey(u)[0] == 'p';
    assert ReadingKey(u)[9..] == u.providerRequestID;
    if v.providerRequestID != "" { assert ReadingKey(v)[9..] == v.providerRequestID; }
  }

  lemma AttemptKey(u: Reading)
    requires u.providerRequestID == ""
    ensures ReadingKey(u) == "attempt\0" + JoinedKeys.Join(u.physicalAttemptID, PagixLedger.NUL, u.observationID)
  {}

  lemma AfterPrefix(x: string, y: string)
    requires "attempt\0" + x == "attempt\0" + y
    ensures x == y
  {
    assert ("attempt\0" + x)[8..] == x && ("attempt\0" + y)[8..] == y;
  }

  /** A valid reading is taken for a duplicate of readings of its own source only,
      exactly when it names a provider request or no NUL stands inside its joined
      attempt and observation. */
  lemma ReadingKeyExactly(u: Reading)
    requires ValidReading(u)
    ensures OwnReadingKey(u) <==>
            u.providerRequestID != "" || JoinedKeys.ClearInside(u.physicalAttemptID, u.observationID, PagixLedger.NUL)
  {
    var a, o := u.physicalAttemptID, u.observationID;
    if u.providerRequestID != "" {
      forall v: Reading | ValidReading(v) && ReadingKey(v) == ReadingKey(u) ensures SameSource(u, v) { ProviderKeys(u, v); }
    } else {
      AttemptKey(u);
      JoinedKeys.AloneNonEmptyExactly(a, o, PagixLedger.NUL);
      if JoinedKeys.AloneNonEmpty(a, o, PagixLedger.NUL) {
        forall v: Reading | ValidReading(v) && ReadingKey(v) == ReadingKey(u) ensures SameSource(u, v) {
          if v.providerRequestID != "" { ProviderKeys(v, u); }
          AttemptKey(v);
          AfterPrefix(JoinedKeys.Join(v.physicalAttemptID, PagixLedger.NUL, v.observationID), JoinedKeys.Join(a, PagixLedger.NUL, o));
        }
      } else {
        var c, d :| c != [] && d != [] && !(c == a && d == o)
                    && JoinedKeys.Join(c, PagixLedger.NUL, d) == JoinedKeys.Join(a, PagixLedger.NUL, o);
        var v := Reading("", d, c, 0, false);
        AttemptKey(v);
        assert ValidReading(v) && !SameSource(u, v);
      }
    }
  }
}
