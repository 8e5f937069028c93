/** What the worker double answers, told from the calls made before and not from
    the fields the double keeps. */
module WorkerAnswers {
  import PagixLedger
  import opened WorkerModel
  import WorkerKeys

  // ---- the fence and the switches ----

  predicate Cancels(calls: seq<Call>) { exists i :: 0 <= i < |calls| && calls[i].CallCancel? }

  predicate Drains(calls: seq<Call>) { exists i :: 0 <= i < |calls| && calls[i].CallDrain? }

  /** The epoch of the last Restore. */
  function LastEpoch(calls: seq<Call>): PagixLedger.Int64
    requires Restores(calls) > 0
  {
    if Last(calls).CallRestore? then Last(calls).epoch else LastEpoch(Front(calls))
  }

  /** The fence given at first, until a Restore: then the epoch it names, the
      generation counted on, the first lease and the rest as it was. */
  function FenceNow(active: Fence, calls: seq<Call>): Fence {
    if Restores(calls) == 0 then active
    else Fence(LastEpoch(calls), Generation(active.executionGeneration, Restores(calls)), active.physicalAttemptID, 1, active.expiresAt)
  }

  /** The same in every member, and the same instant of expiry in whatever form. */
  predicate Agree(a: Fence, b: Fence) { a.(expiresAt := b.expiresAt) == b && a.expiresAt.instant == b.expiresAt.instant }

  lemma AgreeExactly(a: Fence, b: Fence)
    ensures SameFence(a, b) <==> Agree(a, b)
  {}

  lemma ExistsInFront(calls: seq<Call>)
    requires calls != []
    ensures Cancels(calls) <==> Cancels(Front(calls)) || Last(calls).CallCancel?
    ensures Drains(calls) <==> Drains(Front(calls)) || Last(calls).CallDrain?
  {
    assert calls == Front(calls) + [Last(calls)];
    assert calls[|calls| - 1] == Last(calls);
    assert forall i :: 0 <= i < |calls| - 1 ==> calls[i] == Front(calls)[i];
  }

  lemma SwitchStep(w: Worker, call: Call)
    ensures Apply(w, call).cancelled <==> w.cancelled || call.CallCancel?
    ensures Apply(w, call).draining <==> w.draining || call.CallDrain?
    ensures Apply(w, call).active ==
            if call.CallRestore? then
              Fence(call.epoch, PagixLedger.Wrap(w.active.executionGeneration + 1), w.active.physicalAttemptID, 1, w.active.expiresAt)
            else w.active
  {
    CallKeeps(w, call);
    hide ObserveUsage, ObserveCumulative, PutArtifact, TransitionArtifact, RecordRequest, DeliverEvent, AcceptResult, PagixLedger.Wrap;
    if !call.CallRestore? && !call.CallCancel? && !call.CallDrain? { hide Apply; }
  }

  lemma NothingCalled()
    ensures !Cancels([]) && !Drains([]) && Restores([]) == 0
  {}

  lemma {:induction false} ControlTold(active: Fence, calls: seq<Call>)
    ensures var w := Run(NewWorker(active), calls);
            && (w.cancelled <==> Cancels(calls)) && (w.draining <==> Drains(calls)) && w.active == FenceNow(active, calls)
    decreases |calls|
  {
    if calls == [] {
      hide Cancels, Drains, Apply;
      NothingCalled();
    } else {
      hide Apply, Cancels, Drains, FenceNow, NewWorker;
      ControlTold(active, Front(calls));
      ExistsInFront(calls);
      SwitchStep(Run(NewWorker(active), Front(calls)), Last(calls));
      FenceStep(active, calls);
    }
  }

  lemma FenceStep(active: Fence, calls: seq<Call>)
    requires calls != []
    ensures var before := FenceNow(active, Front(calls));
            FenceNow(active, calls) ==
            if Last(calls).CallRestore? then
              Fence(Last(calls).epoch, PagixLedger.Wrap(before.executionGeneration + 1), before.physicalAttemptID, 1, before.expiresAt)
            else before
  {
    var g, n := active.executionGeneration, Restores(Front(calls));
    GenerationZero(g);
    assert PagixLedger.Wrap(Generation(g, n) + 1) == Generation(g, n + 1);
    hide Generation, PagixLedger.Wrap;
  }

  // ---- results and executions ----

  /** The answer to a result, in this order: cancelled, not before the fence expires,
      another fence; else it is accepted, and the worker is committed. */
  lemma ResultExactly(active: Fence, calls: seq<Call>, fence: Fence, now: int)
    ensures var w := Run(NewWorker(active), calls);
            AcceptResult(w, fence, now) ==
            if Cancels(calls) then (w, Failed(Cancelled))
            else if fence.expiresAt.instant <= now then (w, Failed(LeaseExpired))
            else if !Agree(fence, FenceNow(active, calls)) then (w, Failed(StaleFence))
            else (w.(committed := true), Accepted)
  {
    ControlTold(active, calls);
    AgreeExactly(fence, FenceNow(active, calls));
    hide Run, Cancels, Drains, FenceNow, SameFence, Agree;
  }

  /** Where nothing was cancelled, a result under the active fence is accepted exactly
      before it expires. */
  lemma InTimeAccepted(active: Fence, calls: seq<Call>, now: int)
    requires !Cancels(calls)
    ensures var w := Run(NewWorker(active), calls);
            AcceptResult(w, w.active, now).1.Accepted? <==> now < active.expiresAt.instant
  {
    ControlTold(active, calls);
    ResultExactly(active, calls, FenceNow(active, calls), now);
    hide Run, Cancels, Drains, AcceptResult;
  }

  lemma ExecutionExactly(active: Fence, calls: seq<Call>, capability: string, fence: Fence, digestMatches: bool)
    ensures ExecuteStatus(Run(NewWorker(active), calls), capability, fence, digestMatches) ==
            if Cancels(calls) then Failed(Cancelled)
            else if Drains(calls) then Failed(DrainingNow)
            else if capability != "fake.execute" then Failed(CapabilityDenied)
            else if !Agree(fence, FenceNow(active, calls)) then Failed(StaleFence)
            else if !digestMatches then Failed(ArtifactDenied)
            else Accepted
  {
    ControlTold(active, calls);
    AgreeExactly(fence, FenceNow(active, calls));
    hide Run, Cancels, Drains, FenceNow, SameFence, Agree;
  }

  /** Call i brought an accepted result. */
  predicate AcceptedAt(active: Fence, calls: seq<Call>, i: nat) {
    && i < |calls| && calls[i].CallAccept?
    && AcceptResult(Before(NewWorker(active), calls, i), calls[i].fence, calls[i].now).1.Accepted?
  }

  predicate CommittedSince(active: Fence, calls: seq<Call>) {
    exists i :: 0 <= i < |calls| && AcceptedAt(active, calls, i) && Restores(calls[i..]) == 0
  }

  lemma CommitStep(w: Worker, call: Call)
    ensures Apply(w, call).committed <==>
            !call.CallRestore? && (w.committed || (call.CallAccept? && AcceptResult(w, call.fence, call.now).1.Accepted?))
  {
    hide SameFence, PagixLedger.Wrap;
    match call
    case CallObserve(u) => CommitKept(w, u, call);
    case CallCumulative(u) => CommitKept(w, u, call);
    case CallPut(a) => assert PutArtifact(w, a).0.committed == w.committed;
    case CallTransition(digest, fence, next) => assert TransitionArtifact(w, digest, fence, next).0.committed == w.committed by { hide Allowed; }
    case CallRecord(o, k, d, r) => assert RecordRequest(w, o, k, d, r).0.committed == w.committed;
    case CallDeliver(e) => assert DeliverEvent(w, e).0.committed == w.committed;
    case _ =>
  }

  lemma CommitKept(w: Worker, u: Reading, call: Call)
    ensures ObserveUsage(w, u).0.committed == w.committed && ObserveCumulative(w, u).0.committed == w.committed
  {
    hide ReadingKey, ValidReading, PagixLedger.Wrap, HighWater;
  }

  lemma AcceptedInFront(active: Fence, calls: seq<Call>, i: nat)
    requires calls != [] && i < |calls| - 1
    ensures AcceptedAt(active, calls, i) <==> AcceptedAt(active, Front(calls), i)
    ensures Restores(calls[i..]) == Restores(Front(calls)[i..]) + if Last(calls).CallRestore? then 1 else 0
  {
    assert Front(calls)[..i] == calls[..i] && Front(calls)[i] == calls[i];
    assert Front(calls[i..]) == Front(calls)[i..] && Last(calls[i..]) == Last(calls);
  }

  lemma CommittedInFront(active: Fence, calls: seq<Call>)
    requires calls != []
    ensures CommittedSince(active, calls) <==>
            !Last(calls).CallRestore? && (CommittedSince(active, Front(calls)) || AcceptedAt(active, calls, |calls| - 1))
  {
    var n := |calls| - 1;
    hide AcceptedAt;
    if CommittedSince(active, calls) {
      var i :| 0 <= i < |calls| && AcceptedAt(active, calls, i) && Restores(calls[i..]) == 0;
      if i < n { AcceptedInFront(active, calls, i); } else { LastRestores(calls); }
    }
    if !Last(calls).CallRestore? {
      if CommittedSince(active, Front(calls)) {
        var i :| 0 <= i < |Front(calls)| && AcceptedAt(active, Front(calls), i) && Restores(Front(calls)[i..]) == 0;
        AcceptedInFront(active, calls, i);
      } else if AcceptedAt(active, calls, n) {
        LastRestores(calls);
      }
    }
  }

  lemma LastRestores(calls: seq<Call>)
    requires calls != []
    ensures Restores(calls[|calls| - 1..]) == if Last(calls).CallRestore? then 1 else 0
  {
    var tail := calls[|calls| - 1..];
    assert Front(tail) == [] && Last(tail) == Last(calls);
  }

  /** The worker is committed exactly when a result was accepted since the last Restore. */
  lemma {:induction false} CommittedExactly(active: Fence, calls: seq<Call>)
    ensures Run(NewWorker(active), calls).committed <==> CommittedSince(active, calls)
    decreases |calls|
  {
    if calls != [] {
      hide Apply, CommittedSince, AcceptResult;
      CommittedExactly(active, Front(calls));
      CommittedInFront(active, calls);
      assert calls[..|calls| - 1] == Front(calls);
      CommitStep(Run(NewWorker(active), Front(calls)), Last(calls));
    }
  }

  // ---- usage ----

  /** Call i was answered with an accepted reading of the attempt. */
  predicate ReadAt(active: Fence, calls: seq<Call>, i: nat, attempt: string): (read: bool)
    ensures read ==> i < |calls| && (calls[i].CallObserve? || calls[i].CallCumulative?)
  {
    && i < |calls| && ReadBy(Before(NewWorker(active), calls, i), calls[i], attempt)
  }

  predicate ReadBy(w: Worker, call: Call, attempt: string) {
    match call
    case CallObserve(u) => u.physicalAttemptID == attempt && ObserveUsage(w, u).1.Accepted?
    case CallCumulative(u) => u.physicalAttemptID == attempt && ObserveCumulative(w, u).1.Accepted?
    case _ => false
  }

  /** The mark is the highest number of units read for the attempt, or zero. */
  predicate Highest(active: Fence, calls: seq<Call>, attempt: string, mark: int) {
    && mark >= 0
    && (forall i :: 0 <= i < |calls| && ReadAt(active, calls, i, attempt) ==> calls[i].reading.units <= mark)
    && (mark > 0 ==> exists i :: 0 <= i < |calls| && ReadAt(active, calls, i, attempt) && calls[i].reading.units == mark)
  }

  lemma MarkStep(w: Worker, call: Call, attempt: string)
    requires HighWater(w, attempt) >= 0
    ensures var before, after := HighWater(w, attempt), HighWater(Apply(w, call), attempt);
            after == if ReadBy(w, call, attempt) && call.reading.units > before then call.reading.units else before
  {
    if call.CallObserve? {
      ObservedMark(w, call.reading, attempt);
      assert Apply(w, call) == ObserveUsage(w, call.reading).0 by { hide ObserveUsage; }
    } else if call.CallCumulative? {
      CumulativeMark(w, call.reading, attempt);
      assert Apply(w, call) == ObserveCumulative(w, call.reading).0 by { hide ObserveCumulative; }
    } else {
      UsageFrame(w, call);
    }
    hide Apply, ObserveUsage, ObserveCumulative;
  }

  lemma ObservedMark(w: Worker, u: Reading, attempt: string)
    ensures var before, (w', r) := HighWater(w, attempt), ObserveUsage(w, u);
            HighWater(w', attempt) == if u.physicalAttemptID == attempt && r.Accepted? && u.units > before then u.units else before
  {
    hide ReadingKey, ValidReading, PagixLedger.Wrap;
  }

  lemma CumulativeMark(w: Worker, u: Reading, attempt: string)
    ensures var before, (w', r) := HighWater(w, attempt), ObserveCumulative(w, u);
            HighWater(w', attempt) == if u.physicalAttemptID == attempt && r.Accepted? && u.units > before then u.units else before
  {
    hide ReadingKey, ValidReading, PagixLedger.Wrap;
  }

  lemma ReadInFront(active: Fence, calls: seq<Call>, i: nat, attempt: string)
    requires calls != [] && i < |calls|
    ensures i < |calls| - 1 ==> (ReadAt(active, calls, i, attempt) <==> ReadAt(active, Front(calls), i, attempt)) && calls[i] == Front(calls)[i]
    ensures i == |calls| - 1 ==>
              (ReadAt(active, calls, i, attempt) <==> ReadBy(Run(NewWorker(active), Front(calls)), Last(calls), attempt)) && calls[i] == Last(calls)
  {
    hide ReadBy, Run;
    if i < |calls| - 1 { assert Front(calls)[..i] == calls[..i]; }
  }

  lemma HighestStep(active: Fence, calls: seq<Call>, attempt: string, mark: int, mark': int)
    requires calls != [] && Highest(active, Front(calls), attempt, mark)
    requires mark' == if ReadBy(Run(NewWorker(active), Front(calls)), Last(calls), attempt) && Last(calls).reading.units > mark
                      then Last(calls).reading.units else mark
    ensures Highest(active, calls, attempt, mark')
  {
    hide Run, ReadAt, ObserveUsage, ObserveCumulative;
    forall i | 0 <= i < |calls| && ReadAt(active, calls, i, attempt) ensures calls[i].reading.units <= mark' {
      ReadInFront(active, calls, i, attempt);
    }
    if mark' > mark {
      ReadInFront(active, calls, |calls| - 1, attempt);
    } else if mark > 0 {
      var i :| 0 <= i < |Front(calls)| && ReadAt(active, Front(calls), i, attempt) && Front(calls)[i].reading.units == mark;
      ReadInFront(active, calls, i, attempt);
    }
  }

  /** The mark of an attempt is the highest reading accepted for it. */
  lemma {:induction false} MarksTold(active: Fence, calls: seq<Call>, attempt: string)
    ensures Highest(active, calls, attempt, HighWater(Run(NewWorker(active), calls), attempt))
    decreases |calls|
  {
    if calls != [] {
      hide Apply, Highest, ReadBy, HighWater;
      MarksTold(active, Front(calls), attempt);
      var w := Run(NewWorker(active), Front(calls));
      assert HighWater(w, attempt) >= 0 by { hide Run; HighestIsNatural(active, Front(calls), attempt, HighWater(w, attempt)); }
      MarkStep(w, Last(calls), attempt);
      HighestStep(active, calls, attempt, HighWater(w, attempt), HighWater(Run(NewWorker(active), calls), attempt));
    }
  }

  lemma HighestIsNatural(active: Fence, calls: seq<Call>, attempt: string, mark: int)
    requires Highest(active, calls, attempt, mark)
    ensures mark >= 0
  {}

  predicate Complete(u: Reading) { "" !in {u.observationID, u.physicalAttemptID} && u.units >= 0 }

  /** An additive reading after any run: refused when it is not complete or its units
      do not fit the int64 total, a duplicate when its key is recorded; else recorded
      and added, and the attempt's mark raised to it. */
  lemma ReadingExactly(active: Fence, calls: seq<Call>, u: Reading)
    ensures var w := Run(NewWorker(active), calls);
            var mark := HighWater(w, u.physicalAttemptID);
            var (w', r) := ObserveUsage(w, u);
            && (r == Failed(UsageInvalid) <==> !(Complete(u) && w.usageTotal + u.units <= PagixLedger.MAX64))
            && (r == Failed(UsageDuplicate) <==>
                  Complete(u) && w.usageTotal + u.units <= PagixLedger.MAX64 && ReadingKey(u) in w.usage)
            && (if r.Accepted? then
                  && w'.usage == w.usage[ReadingKey(u) := u] && ReadingKey(u) !in w.usage && w'.usageTotal == w.usageTotal + u.units
                  && HighWater(w', u.physicalAttemptID) == if u.units > mark then u.units else mark
                else w' == w && r.failure in {UsageInvalid, UsageDuplicate})
  {
    TotalIsNatural(active, calls);
    ObservedMark(Run(NewWorker(active), calls), u, u.physicalAttemptID);
    hide Run, ReadingKey;
  }

  lemma TotalIsNatural(active: Fence, calls: seq<Call>)
    ensures Run(NewWorker(active), calls).usageTotal >= 0
    ensures forall a :: HighWater(Run(NewWorker(active), calls), a) >= 0
  {
    UsageBounded(active, calls);
    hide Run, MarkSum, UnitSum;
  }

  lemma CumulativeRefused(w: Worker, u: Reading)
    ensures !Complete(u) ==> ObserveCumulative(w, u) == (w, Failed(UsageInvalid))
    ensures Complete(u) && ReadingKey(u) in w.usage ==> ObserveCumulative(w, u) == (w, Failed(UsageDuplicate))
    ensures Complete(u) && ReadingKey(u) !in w.usage && u.units < HighWater(w, u.physicalAttemptID) ==>
              ObserveCumulative(w, u) == (w, Failed(UsageRegressed))
  {
    hide ReadingKey, HighWater, PagixLedger.Wrap;
  }

  lemma CumulativeTaken(w: Worker, u: Reading)
    requires Complete(u) && ReadingKey(u) !in w.usage && u.units >= HighWater(w, u.physicalAttemptID) >= 0 && w.usageTotal >= 0
    ensures var rise := u.units - HighWater(w, u.physicalAttemptID);
            var (w', r) := ObserveCumulative(w, u);
            && w'.usage == w.usage[ReadingKey(u) := u]
            && (r == Accepted <==> w.usageTotal + rise <= PagixLedger.MAX64) && (r.Failed? ==> r.failure == UsageInvalid)
            && w'.usageTotal == (if r.Accepted? then w.usageTotal + rise else w.usageTotal)
            && w'.highWater == (if r.Accepted? then w.highWater[u.physicalAttemptID := u.units] else w.highWater)
  {
    hide ReadingKey, HighWater;
  }

  /** A cumulative reading after any run: the rise over the attempt's mark is what is
      added; a fall is refused, a rise that does not fit is refused but stays recorded. */
  lemma CumulativeExactly(active: Fence, calls: seq<Call>, u: Reading)
    ensures var w := Run(NewWorker(active), calls);
            var rise := u.units - HighWater(w, u.physicalAttemptID);
            var (w', r) := ObserveCumulative(w, u);
            if !Complete(u) then (w', r) == (w, Failed(UsageInvalid))
            else if ReadingKey(u) in w.usage then (w', r) == (w, Failed(UsageDuplicate))
            else if rise < 0 then (w', r) == (w, Failed(UsageRegressed))
            else
              w'.usage == w.usage[ReadingKey(u) := u] &&
              if w.usageTotal + rise > PagixLedger.MAX64 then
                r == Failed(UsageInvalid) && w'.usageTotal == w.usageTotal && w'.highWater == w.highWater
              else
                r == Accepted && w'.usageTotal == w.usageTotal + rise && w'.highWater == w.highWater[u.physicalAttemptID := u.units]
  {
    hide *;
    TotalIsNatural(active, calls);
    var w := Run(NewWorker(active), calls);
    CumulativeRefused(w, u);
    if Complete(u) && ReadingKey(u) !in w.usage && u.units >= HighWater(w, u.physicalAttemptID) { CumulativeTaken(w, u); }
  }

  // ---- artifacts ----

  /** Call i put the artifact that the worker holds under the digest. */
  predicate PutAt(active: Fence, calls: seq<Call>, i: nat, digest: string) {
    i < |calls| && PutBy(Before(NewWorker(active), calls, i), calls[i], digest)
  }

  /** The call puts an artifact of that digest for the first time. */
  predicate PutBy(w: Worker, call: Call, digest: string) {
    && call.CallPut? && call.artifact.digest == digest && digest !in w.artifacts && PutArtifact(w, call.artifact).1.Accepted?
  }

  ghost predicate Held(active: Fence, calls: seq<Call>, digest: string) {
    exists i :: 0 <= i < |calls| && PutAt(active, calls, i, digest)
  }

  lemma PutHolds(w: Worker, a: Artifact, digest: string)
    ensures digest in PutArtifact(w, a).0.artifacts <==> digest in w.artifacts || PutBy(w, CallPut(a), digest)
  {
    var (later, r) := PutArtifact(w, a);
    assert if a.digest !in w.artifacts && r.Accepted? then later == w.(artifacts := w.artifacts[a.digest := a]) else later == w;
    hide PutArtifact;
  }

  lemma MoveHolds(w: Worker, moved: string, fence: Fence, next: ArtifactState, digest: string)
    ensures digest in TransitionArtifact(w, moved, fence, next).0.artifacts <==> digest in w.artifacts
  {
    var later := TransitionArtifact(w, moved, fence, next).0;
    assert later == w
        || (moved in w.artifacts && later == w.(artifacts := w.artifacts[moved := w.artifacts[moved].(state := next)]))
      by { hide Allowed, SameFence; }
    hide TransitionArtifact;
  }

  lemma HeldStep(w: Worker, call: Call, digest: string)
    ensures digest in Apply(w, call).artifacts <==> digest in w.artifacts || PutBy(w, call, digest)
  {
    hide PutArtifact, TransitionArtifact;
    match call
    case CallPut(a) =>
      PutHolds(w, a, digest);
      hide PutBy;
    case CallTransition(moved, fence, next) => MoveHolds(w, moved, fence, next, digest);
    case _ =>
      ArtifactFrame(w, call);
      hide Apply;
  }

  lemma PutInFront(active: Fence, calls: seq<Call>, digest: string)
    requires calls != []
    ensures Held(active, calls, digest) <==>
            Held(active, Front(calls), digest) || PutBy(Run(NewWorker(active), Front(calls)), Last(calls), digest)
  {
    hide PutBy, Run;
    var n := |calls| - 1;
    assert calls[..n] == Front(calls) && calls[n] == Last(calls);
    forall i | 0 <= i < n ensures PutAt(active, calls, i, digest) <==> PutAt(active, Front(calls), i, digest) {
      assert Front(calls)[..i] == calls[..i] && Front(calls)[i] == calls[i];
    }
    assert PutAt(active, calls, n, digest) <==> PutBy(Run(NewWorker(active), Front(calls)), Last(calls), digest);
  }

  lemma {:induction false} HeldExactly(active: Fence, calls: seq<Call>, digest: string)
    ensures digest in Run(NewWorker(active), calls).artifacts <==> Held(active, calls, digest)
    decreases |calls|
  {
    if calls != [] {
      hide Apply, Held, PutBy;
      HeldExactly(active, Front(calls), digest);
      PutInFront(active, calls, digest);
      HeldStep(Run(NewWorker(active), Front(calls)), Last(calls), digest);
    }
  }

  /** An artifact of a digest not put before is accepted exactly when the digest is not
      empty and it is pending; it is then held as it came, and nothing else changes. Of
      a digest held it is a retry or a conflict, and changes nothing. */
  lemma PutExactly(active: Fence, calls: seq<Call>, a: Artifact)
    ensures var w := Run(NewWorker(active), calls);
            if Held(active, calls, a.digest) then
              a.digest in w.artifacts && PutArtifact(w, a) == (w, if w.artifacts[a.digest] == a then Accepted else Failed(RequestConflict))
            else
              PutArtifact(w, a) ==
              if a.digest != "" && a.state == Pending then (w.(artifacts := w.artifacts[a.digest := a]), Accepted) else (w, Failed(ArtifactDenied))
  {
    HeldExactly(active, calls, a.digest);
    hide Run, Held;
  }

  /** The moves there are. */
  const LIFECYCLE: set<(ArtifactState, ArtifactState)> :=
    {(Pending, Scanning), (Pending, Quarantined), (Scanning, Available), (Scanning, Quarantined)}
    + {(Available, Revoked), (Available, Deleted), (Quarantined, Deleted), (Revoked, Deleted)}

  lemma AllowedExactly(from: ArtifactState, next: ArtifactState)
    ensures Allowed(from, next) <==> (from, next) in LIFECYCLE
  {}

  /** A move is accepted exactly when the artifact was put before, the fence is the
      active one where the move promotes or deletes, and it is a move of the lifecycle;
      it then changes that state and nothing else. */
  lemma MoveExactly(active: Fence, calls: seq<Call>, digest: string, fence: Fence, next: ArtifactState)
    ensures var w := Run(NewWorker(active), calls);
            var r := TransitionArtifact(w, digest, fence, next);
            if !Held(active, calls, digest) then r == (w, Failed(ArtifactDenied))
            else
              digest in w.artifacts &&
              if next in {Available, Deleted} && !Agree(fence, FenceNow(active, calls)) then r == (w, Failed(StaleFence))
              else if (w.artifacts[digest].state, next) !in LIFECYCLE then r == (w, Failed(ArtifactDenied))
              else r == (w.(artifacts := w.artifacts[digest := w.artifacts[digest].(state := next)]), Accepted)
  {
    HeldExactly(active, calls, digest);
    ControlTold(active, calls);
    AgreeExactly(fence, FenceNow(active, calls));
    var w := Run(NewWorker(active), calls);
    if digest in w.artifacts { AllowedExactly(w.artifacts[digest].state, next); }
    hide Run, Held, FenceNow, Agree, SameFence, LIFECYCLE, Allowed, Cancels, Drains;
  }

  predicate Path(states: seq<ArtifactState>)
    decreases |states|
  {
    var n := |states| - 1;
    states != [] && (n == 0 || (Path(states[..n]) && (states[n - 1], states[n]) in LIFECYCLE))
  }

  /** The moves along a path, each under the fence. */
  function Moves(digest: string, fence: Fence, states: seq<ArtifactState>): seq<Call>
    requires states != []
    decreases |states|
  {
    if |states| == 1 then []
    else Moves(digest, fence, states[..|states| - 1]) + [CallTransition(digest, fence, states[|states| - 1])]
  }

  /** Every path of the lifecycle is gone through: the moves along it, under the active
      fence, bring an artifact that is in its first state to its last. */
  lemma {:induction false} EveryPathTaken(w: Worker, digest: string, states: seq<ArtifactState>)
    requires Path(states) && digest in w.artifacts && w.artifacts[digest].state == states[0]
    ensures var w' := Run(w, Moves(digest, w.active, states));
            w'.active == w.active && digest in w'.artifacts && w'.artifacts[digest].state == states[|states| - 1]
    decreases |states|
  {
    if |states| > 1 {
      var n := |states| - 1;
      EveryPathTaken(w, digest, states[..n]);
      var calls := Moves(digest, w.active, states);
      assert Front(calls) == Moves(digest, w.active, states[..n]);
      var w' := Run(w, Front(calls));
      assert Run(w, calls) == Apply(w', Last(calls));
      hide Run, LIFECYCLE;
      MoveTaken(w', digest, states[n - 1], states[n]);
    }
  }

  lemma MoveTaken(w: Worker, digest: string, from: ArtifactState, next: ArtifactState)
    requires digest in w.artifacts && w.artifacts[digest].state == from && (from, next) in LIFECYCLE
    ensures var w' := Apply(w, CallTransition(digest, w.active, next));
            w'.active == w.active && digest in w'.artifacts && w'.artifacts[digest].state == next
  {
    AllowedExactly(from, next);
    hide Allowed, LIFECYCLE;
    assert Apply(w, CallTransition(digest, w.active, next)) == TransitionArtifact(w, digest, w.active, next).0 by { hide TransitionArtifact; }
    hide Apply;
  }

  // ---- requests ----

  predicate Asks(call: Call, scoped: string) { call.CallRecord? && WorkerKeys.RequestKey(call.operation, call.key) == scoped }

  /** Call i is the first request of the key. */
  predicate FirstAsk(calls: seq<Call>, i: int, scoped: string) {
    0 <= i < |calls| && Asks(calls[i], scoped) && forall j :: 0 <= j < i ==> !Asks(calls[j], scoped)
  }

  predicate NeverAsked(calls: seq<Call>, scoped: string) { forall i :: 0 <= i < |calls| ==> !Asks(calls[i], scoped) }

  lemma RecordStep(w: Worker, call: Call, scoped: string)
    ensures var later := Apply(w, call).idempotency;
            if scoped in w.idempotency then scoped in later && later[scoped] == w.idempotency[scoped]
            else if Asks(call, scoped) then scoped in later && later[scoped] == Request(call.bytesDigest, call.outcome)
            else scoped !in later
  {
    if call.CallRecord? {
      RecordAdds(w, call.operation, call.key, call.bytesDigest, call.outcome, scoped);
      hide RecordRequest;
    } else {
      CallKeeps(w, call);
      hide Apply;
    }
  }

  lemma RecordAdds(w: Worker, operation: string, key: string, digest: string, outcome: string, scoped: string)
    ensures var later := RecordRequest(w, operation, key, digest, outcome).0.idempotency;
            if scoped in w.idempotency then scoped in later && later[scoped] == w.idempotency[scoped]
            else if WorkerKeys.RequestKey(operation, key) == scoped then scoped in later && later[scoped] == Request(digest, outcome)
            else scoped !in later
  {}

  lemma {:induction false} RequestsTold(active: Fence, calls: seq<Call>, scoped: string)
    ensures var held := Run(NewWorker(active), calls).idempotency;
            && (scoped !in held <==> NeverAsked(calls, scoped))
            && (forall i :: 0 <= i < |calls| && FirstAsk(calls, i, scoped) ==> scoped in held && held[scoped] == Request(calls[i].bytesDigest, calls[i].outcome))
    decreases |calls|
  {
    if calls != [] {
      var front, n := Front(calls), |calls| - 1;
      RequestsTold(active, front, scoped);
      RecordStep(Run(NewWorker(active), front), Last(calls), scoped);
      hide Apply, Asks;
      assert forall i :: 0 <= i < n ==> calls[i] == front[i];
      assert calls[n] == Last(calls);
      assert NeverAsked(calls, scoped) <==> NeverAsked(front, scoped) && !Asks(calls[n], scoped);
      forall i | FirstAsk(calls, i, scoped) && i < n ensures FirstAsk(front, i, scoped) {}
      if FirstAsk(calls, n, scoped) { assert NeverAsked(front, scoped); }
    }
  }

  /** A request is answered with the outcome of the first one of its key, if its bytes
      are the same, and refused otherwise; the first is answered with its own. */
  lemma RequestExactly(active: Fence, calls: seq<Call>, operation: string, key: string, digest: string, outcome: string)
    ensures var w, scoped := Run(NewWorker(active), calls), WorkerKeys.RequestKey(operation, key);
            var r := RecordRequest(w, operation, key, digest, outcome);
            && (forall i :: 0 <= i < |calls| && FirstAsk(calls, i, scoped) ==>
                  r == if digest == calls[i].bytesDigest then (w, Accepted, calls[i].outcome) else (w, Failed(RequestConflict), ""))
            && (NeverAsked(calls, scoped) ==>
                  r == (w.(idempotency := w.idempotency[scoped := Request(digest, outcome)]), Accepted, outcome))
  {
    RequestsTold(active, calls, WorkerKeys.RequestKey(operation, key));
    hide Run, FirstAsk, NeverAsked;
  }

  // ---- events ----

  /** Call i delivered the event of that id which the worker holds. */
  predicate DeliveredAt(active: Fence, calls: seq<Call>, i: nat, id: string) {
    i < |calls| && DeliveredBy(Before(NewWorker(active), calls, i), calls[i], id)
  }

  predicate DeliveredBy(w: Worker, call: Call, id: string) {
    call.CallDeliver? && call.event.id == id && id !in w.events && DeliverEvent(w, call.event).1.Accepted?
  }

  lemma DeliverAdds(w: Worker, e: StreamEvent, id: string)
    ensures var later := DeliverEvent(w, e).0.events;
            if DeliveredBy(w, CallDeliver(e), id) then id in later && later[id] == e
            else (id in later <==> id in w.events) && (id in w.events ==> later[id] == w.events[id])
  {
    hide PagixLedger.Wrap;
    var (later, r) := DeliverEvent(w, e);
    assert if e.id !in w.events && r.Accepted? then later == w.(events := w.events[e.id := e], lastSequence := e.sequence) else later == w;
    hide DeliverEvent;
  }

  lemma DeliverStep(w: Worker, call: Call, id: string)
    ensures var later := Apply(w, call).events;
            if DeliveredBy(w, call, id) then id in later && later[id] == call.event
            else (id in later <==> id in w.events) && (id in w.events ==> later[id] == w.events[id])
  {
    if call.CallDeliver? {
      DeliverAdds(w, call.event, id);
      hide DeliverEvent, DeliveredBy;
    } else {
      StreamFrame(w, call);
      hide Apply;
    }
  }

  lemma DeliveredInFront(active: Fence, calls: seq<Call>, i: nat, id: string)
    requires calls != [] && i < |calls|
    ensures i < |calls| - 1 ==> (DeliveredAt(active, calls, i, id) <==> DeliveredAt(active, Front(calls), i, id)) && calls[i] == Front(calls)[i]
    ensures i == |calls| - 1 ==>
              (DeliveredAt(active, calls, i, id) <==> DeliveredBy(Run(NewWorker(active), Front(calls)), Last(calls), id)) && calls[i] == Last(calls)
  {
    hide DeliveredBy, Run;
    if i < |calls| - 1 { assert Front(calls)[..i] == calls[..i]; }
  }

  /** The events held are those delivered, each under its id. */
  lemma {:induction false} EventsTold(active: Fence, calls: seq<Call>, id: string)
    ensures var held := Run(NewWorker(active), calls).events;
            && (id in held <==> exists i :: 0 <= i < |calls| && DeliveredAt(active, calls, i, id))
            && (forall i :: 0 <= i < |calls| && DeliveredAt(active, calls, i, id) ==> id in held && calls[i].CallDeliver? && held[id] == calls[i].event)
    decreases |calls|
  {
    if calls != [] {
      var n, w := |calls| - 1, Run(NewWorker(active), Front(calls));
      EventsTold(active, Front(calls), id);
      DeliverStep(w, Last(calls), id);
      forall i | 0 <= i < |calls|
        ensures i < n ==> (DeliveredAt(active, calls, i, id) <==> DeliveredAt(active, Front(calls), i, id)) && calls[i] == Front(calls)[i]
        ensures i == n ==> (DeliveredAt(active, calls, i, id) <==> DeliveredBy(w, Last(calls), id)) && calls[i] == Last(calls)
      {
        DeliveredInFront(active, calls, i, id);
      }
      assert DeliveredBy(w, Last(calls), id) ==> id !in w.events && Last(calls).CallDeliver?;
      hide Apply, DeliveredAt, DeliveredBy;
      if DeliveredBy(w, Last(calls), id) { assert DeliveredAt(active, calls, n, id); }
      if i :| 0 <= i < n && DeliveredAt(active, Front(calls), i, id) { assert DeliveredAt(active, calls, i, id); }
    }
  }

  /** An event delivered before is accepted again when its bytes and sequence are the
      same, and conflicts otherwise; a new one is accepted exactly when it is the next
      after those delivered and carries a trace. */
  lemma EventExactly(active: Fence, calls: seq<Call>, e: StreamEvent)
    requires |calls| < PagixLedger.MAX64
    ensures var w := Run(NewWorker(active), calls);
            var r := DeliverEvent(w, e);
            && (forall i :: 0 <= i < |calls| && DeliveredAt(active, calls, i, e.id) ==>
                  calls[i].CallDeliver? &&
                  r == (w, if calls[i].event.bytes == e.bytes && calls[i].event.sequence == e.sequence then Accepted else Failed(RequestConflict)))
            && ((forall i :: 0 <= i < |calls| ==> !DeliveredAt(active, calls, i, e.id)) ==>
                  r == if e.sequence != |w.events| + 1 then (w, Failed(SequenceGap))
                       else if e.traceParent == "" then (w, Failed(TraceMissing))
                       else (w.(events := w.events[e.id := e], lastSequence := e.sequence), Accepted))
  {
    EventsTold(active, calls, e.id);
    RunGapFree(active, calls);
    EventCount(Run(NewWorker(active), calls));
    hide Run, DeliveredAt, GapFree;
  }
}
