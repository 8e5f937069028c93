/** What each call of the worker double does to its state, and what every run
    keeps: fences, usage accounting, artifact lifecycle, the event stream. */
module WorkerModel {
  import opened MapSum
  import opened PagixLedger

  /** An instant and what else a Go time holds: its location, a clock reading. */
  datatype Time = Time(instant: int, form: string)

  datatype Fence = Fence(recoveryEpoch: Int64, executionGeneration: Int64, physicalAttemptID: string, leaseEpoch: Int64, expiresAt: Time)

  /** Fence.Equal: times compare by their instants. */
  predicate SameFence(a: Fence, b: Fence) {
    && a.recoveryEpoch == b.recoveryEpoch && a.executionGeneration == b.executionGeneration
    && a.physicalAttemptID == b.physicalAttemptID && a.leaseEpoch == b.leaseEpoch
    && a.expiresAt.instant == b.expiresAt.instant
  }

  datatype Reading = Reading(providerRequestID: string, observationID: string, physicalAttemptID: string, units: Int64, final: bool)

  datatype ArtifactState = Pending | Scanning | Available | Quarantined | Revoked | Deleted

  /** A Go slice: nil is not the empty one to reflect.DeepEqual. */
  datatype Parents = NoSlice | Slice(digests: seq<string>)

  /** Equality is reflect.DeepEqual: it tells apart forms of one instant, and nil
      from an empty slice. */
  datatype Artifact = Artifact(digest: string, state: ArtifactState, producer: Fence, contractBomDigest: string, parents: Parents)

  datatype StreamEvent = StreamEvent(id: string, sequence: Int64, bytes: string, traceParent: string)

  datatype Request = Request(digest: string, outcome: string)

  datatype Worker = Worker(active: Fence, cancelled: bool, committed: bool, usage: map<string, Reading>, usageTotal: Int64,
                           highWater: map<string, Int64>, draining: bool, artifacts: map<string, Artifact>,
                           idempotency: map<string, Request>, events: map<string, StreamEvent>, lastSequence: Int64)

  datatype Failure =
    | StaleFence | CapabilityDenied | Cancelled | DrainingNow | LeaseExpired | UsageDuplicate
    | RequestConflict | SequenceGap | ArtifactDenied | UsageInvalid | UsageRegressed | TraceMissing

  datatype Status = Accepted | Failed(failure: Failure)

  function NewWorker(active: Fence): Worker {
    Worker(active, false, false, map[], 0, map[], false, map[], map[], map[], 0)
  }

  // ---- fences ----

  function Restore(w: Worker, nextRecoveryEpoch: Int64): Worker {
    w.(active := w.active.(recoveryEpoch := nextRecoveryEpoch, executionGeneration := Wrap(w.active.executionGeneration + 1), leaseEpoch := 1),
       committed := false)
  }

  const CAPABILITY: string := "fake.execute"

  /** The answer to Execute, given whether the input has the digest sent with it:
      the first of the five faults there is, in this order. */
  function ExecuteStatus(w: Worker, capability: string, fence: Fence, digestMatches: bool): (r: Status)
    ensures r.Accepted? <==> !w.cancelled && !w.draining && capability == CAPABILITY && SameFence(fence, w.active) && digestMatches
  {
    if w.cancelled then Failed(Cancelled)
    else if w.draining then Failed(DrainingNow)
    else if capability != CAPABILITY then Failed(CapabilityDenied)
    else if !SameFence(fence, w.active) then Failed(StaleFence)
    else if !digestMatches then Failed(ArtifactDenied)
    else Accepted
  }

  function AcceptResult(w: Worker, fence: Fence, now: int): (Worker, Status) {
    if w.cancelled then (w, Failed(Cancelled))
    else if now >= fence.expiresAt.instant then (w, Failed(LeaseExpired))
    else if !SameFence(fence, w.active) then (w, Failed(StaleFence))
    else (w.(committed := true), Accepted)
  }

  // ---- usage ----

  function ReadingKey(u: Reading): string {
    if u.providerRequestID != "" then "provider\0" + u.providerRequestID
    else "attempt\0" + u.physicalAttemptID + "\0" + u.observationID
  }

  predicate ValidReading(u: Reading) { u.observationID != "" && u.physicalAttemptID != "" && u.units >= 0 }

  /** A Go map read of an int64. */
  function HighWater(w: Worker, attempt: string): Int64 {
    if attempt in w.highWater then w.highWater[attempt] else 0
  }

  function ObserveUsage(w: Worker, u: Reading): (Worker, Status) {
    if !ValidReading(u) || w.usageTotal > Wrap(MAX64 - u.units) then (w, Failed(UsageInvalid))
    else if ReadingKey(u) in w.usage then (w, Failed(UsageDuplicate))
    else
      var highWater := if u.units > HighWater(w, u.physicalAttemptID) then w.highWater[u.physicalAttemptID := u.units] else w.highWater;
      (w.(usage := w.usage[ReadingKey(u) := u], usageTotal := Wrap(w.usageTotal + u.units), highWater := highWater), Accepted)
  }

  function ObserveCumulative(w: Worker, u: Reading): (Worker, Status) {
    if !ValidReading(u) then (w, Failed(UsageInvalid))
    else if ReadingKey(u) in w.usage then (w, Failed(UsageDuplicate))
    else
      var previous := HighWater(w, u.physicalAttemptID);
      if u.units < previous then (w, Failed(UsageRegressed))
      else
        var recorded := w.(usage := w.usage[ReadingKey(u) := u]);
        var delta := Wrap(u.units - previous);
        if w.usageTotal > Wrap(MAX64 - delta) then (recorded, Failed(UsageInvalid))
        else
          (recorded.(usageTotal := Wrap(w.usageTotal + delta), highWater := w.highWater[u.physicalAttemptID := u.units]), Accepted)
  }

  // ---- artifacts ----

  function PutArtifact(w: Worker, a: Artifact): (Worker, Status) {
    if a.digest in w.artifacts then
      (w, if w.artifacts[a.digest] != a then Failed(RequestConflict) else Accepted)
    else if a.digest == "" || a.state != Pending then (w, Failed(ArtifactDenied))
    else (w.(artifacts := w.artifacts[a.digest := a]), Accepted)
  }

  predicate Allowed(from: ArtifactState, next: ArtifactState) {
    match from
    case Pending => next.Scanning? || next.Quarantined?
    case Scanning => next.Available? || next.Quarantined?
    case Available => next.Revoked? || next.Deleted?
    case Quarantined => next.Deleted?
    case Revoked => next.Deleted?
    case Deleted => false
  }

  function TransitionArtifact(w: Worker, digest: string, fence: Fence, next: ArtifactState): (Worker, Status) {
    if digest !in w.artifacts then (w, Failed(ArtifactDenied))
    else if (next.Available? || next.Deleted?) && !SameFence(fence, w.active) then (w, Failed(StaleFence))
    else if !Allowed(w.artifacts[digest].state, next) then (w, Failed(ArtifactDenied))
    else (w.(artifacts := w.artifacts[digest := w.artifacts[digest].(state := next)]), Accepted)
  }

  predicate Readable(w: Worker, digest: string) {
    digest in w.artifacts && w.artifacts[digest].state.Available?
  }

  // ---- requests and events ----

  /** The digest of the request bytes is taken as given. */
  function RecordRequest(w: Worker, operation: string, key: string, digest: string, outcome: string): (Worker, Status, string) {
    var scoped := operation + "\0" + key;
    if scoped in w.idempotency then
      if w.idempotency[scoped].digest != digest then (w, Failed(RequestConflict), "")
      else (w, Accepted, w.idempotency[scoped].outcome)
    else (w.(idempotency := w.idempotency[scoped := Request(digest, outcome)]), Accepted, outcome)
  }

  function DeliverEvent(w: Worker, e: StreamEvent): (Worker, Status) {
    if e.id in w.events then
      (w, if w.events[e.id].bytes != e.bytes || w.events[e.id].sequence != e.sequence then Failed(RequestConflict) else Accepted)
    else if e.sequence != Wrap(w.lastSequence + 1) then (w, Failed(SequenceGap))
    else if e.traceParent == "" then (w, Failed(TraceMissing))
    else (w.(events := w.events[e.id := e], lastSequence := e.sequence), Accepted)
  }

  // ---- runs ----

  datatype Call =
    | CallRestore(epoch: Int64)
    | CallCancel
    | CallDrain
    | CallAccept(fence: Fence, now: int)
    | CallObserve(reading: Reading)
    | CallCumulative(reading: Reading)
    | CallPut(artifact: Artifact)
    | CallTransition(digest: string, fence: Fence, next: ArtifactState)
    | CallRecord(operation: string, key: string, bytesDigest: string, outcome: string)
    | CallDeliver(event: StreamEvent)

  function Apply(w: Worker, call: Call): Worker {
    match call
    case CallRestore(epoch) => Restore(w, epoch)
    case CallCancel => w.(cancelled := true)
    case CallDrain => w.(draining := true)
    case CallAccept(fence, now) => AcceptResult(w, fence, now).0
    case CallObserve(reading) => ObserveUsage(w, reading).0
    case CallCumulative(reading) => ObserveCumulative(w, reading).0
    case CallPut(artifact) => PutArtifact(w, artifact).0
    case CallTransition(digest, fence, next) => TransitionArtifact(w, digest, fence, next).0
    case CallRecord(operation, key, bytesDigest, outcome) => RecordRequest(w, operation, key, bytesDigest, outcome).0
    case CallDeliver(event) => DeliverEvent(w, event).0
  }

  function Run(w: Worker, calls: seq<Call>): Worker
    decreases |calls|
  {
    if calls == [] then w else Apply(Run(w, Front(calls)), Last(calls))
  }

  // Which parts of the state each call leaves alone.

  /** The fence and the two switches are the same. */
  predicate SameControl(w: Worker, later: Worker) {
    later.active == w.active && later.cancelled == w.cancelled && later.draining == w.draining
  }

  predicate SameUsage(w: Worker, later: Worker) {
    later.usage == w.usage && later.usageTotal == w.usageTotal && later.highWater == w.highWater
  }

  predicate SameStream(w: Worker, later: Worker) { later.events == w.events && later.lastSequence == w.lastSequence }

  lemma ObserveKeeps(w: Worker, u: Reading)
    ensures var later := ObserveUsage(w, u).0;
            SameControl(w, later) && SameStream(w, later) && later.artifacts == w.artifacts && later.idempotency == w.idempotency
  {
    var later := ObserveUsage(w, u).0;
    assert later == w || later == w.(usage := later.usage, usageTotal := later.usageTotal, highWater := later.highWater) by {
      hide ReadingKey, ValidReading, Wrap, HighWater;
    }
    hide ObserveUsage;
  }

  lemma CumulativeKeeps(w: Worker, u: Reading)
    ensures var later := ObserveCumulative(w, u).0;
            SameControl(w, later) && SameStream(w, later) && later.artifacts == w.artifacts && later.idempotency == w.idempotency
  {
    var later := ObserveCumulative(w, u).0;
    assert later == w || later == w.(usage := later.usage, usageTotal := later.usageTotal, highWater := later.highWater) by {
      hide ReadingKey, ValidReading, Wrap, HighWater;
    }
    hide ObserveCumulative;
  }

  lemma PutKeeps(w: Worker, a: Artifact)
    ensures var later := PutArtifact(w, a).0;
            SameControl(w, later) && SameUsage(w, later) && SameStream(w, later) && later.idempotency == w.idempotency
  {
    var later := PutArtifact(w, a).0;
    assert later == w || later == w.(artifacts := later.artifacts);
    hide PutArtifact;
  }

  lemma TransitionKeeps(w: Worker, digest: string, fence: Fence, next: ArtifactState)
    ensures var later := TransitionArtifact(w, digest, fence, next).0;
            SameControl(w, later) && SameUsage(w, later) && SameStream(w, later) && later.idempotency == w.idempotency
  {
    var later := TransitionArtifact(w, digest, fence, next).0;
    assert later == w || later == w.(artifacts := later.artifacts) by {
      hide Allowed, SameFence;
    }
    hide TransitionArtifact;
  }

  lemma RecordKeeps(w: Worker, operation: string, key: string, digest: string, outcome: string)
    ensures var later := RecordRequest(w, operation, key, digest, outcome).0;
            SameControl(w, later) && SameUsage(w, later) && SameStream(w, later) && later.artifacts == w.artifacts
  {
    var later := RecordRequest(w, operation, key, digest, outcome).0;
    assert later == w || later == w.(idempotency := later.idempotency);
    hide RecordRequest;
  }

  lemma DeliverKeeps(w: Worker, e: StreamEvent)
    ensures var later := DeliverEvent(w, e).0;
            SameControl(w, later) && SameUsage(w, later) && later.artifacts == w.artifacts && later.idempotency == w.idempotency
  {
    var later := DeliverEvent(w, e).0;
    assert later == w || later == w.(events := later.events, lastSequence := later.lastSequence) by {
      hide Wrap;
    }
    hide DeliverEvent;
  }

  /** The parts of the state that a call cannot touch. */
  predicate Kept(w: Worker, call: Call, later: Worker) {
    && (call.CallRestore? || call.CallCancel? || call.CallDrain? || SameControl(w, later))
    && (call.CallObserve? || call.CallCumulative? || SameUsage(w, later))
    && (call.CallDeliver? || SameStream(w, later))
    && (call.CallPut? || call.CallTransition? || later.artifacts == w.artifacts)
    && (call.CallRecord? || later.idempotency == w.idempotency)
  }

  lemma AcceptKeeps(w: Worker, fence: Fence, now: int)
    ensures var later := AcceptResult(w, fence, now).0;
            SameControl(w, later) && SameUsage(w, later) && SameStream(w, later) && later.artifacts == w.artifacts
            && later.idempotency == w.idempotency
  {
    var later := AcceptResult(w, fence, now).0;
    assert later == w || later == w.(committed := later.committed) by { hide SameFence; }
    hide AcceptResult;
  }

  lemma SwitchKeeps(w: Worker, epoch: Int64)
    ensures Kept(w, CallRestore(epoch), Restore(w, epoch))
    ensures Kept(w, CallCancel, w.(cancelled := true))
    ensures Kept(w, CallDrain, w.(draining := true))
  {
    hide Wrap;
  }

  lemma CallKeeps(w: Worker, call: Call)
    ensures Kept(w, call, Apply(w, call))
  {
    hide ObserveUsage, ObserveCumulative, PutArtifact, TransitionArtifact, RecordRequest, DeliverEvent, SameControl, SameUsage,
         SameStream, Restore, AcceptResult;
    match call
    case CallObserve(u) => ObserveKeeps(w, u);
    case CallCumulative(u) => CumulativeKeeps(w, u);
    case CallPut(a) => PutKeeps(w, a);
    case CallTransition(digest, fence, next) => TransitionKeeps(w, digest, fence, next);
    case CallRecord(operation, key, digest, outcome) => RecordKeeps(w, operation, key, digest, outcome);
    case CallDeliver(e) => DeliverKeeps(w, e);
    case CallAccept(fence, now) => AcceptKeeps(w, fence, now);
    case CallRestore(epoch) => SwitchKeeps(w, epoch);
    case _ => SwitchKeeps(w, 0);
  }

  lemma FenceFrame(w: Worker, call: Call)
    ensures Apply(w, call).active == (if call.CallRestore? then Restore(w, call.epoch).active else w.active)
    ensures Apply(w, call).cancelled == (w.cancelled || call.CallCancel?)
  {
    CallKeeps(w, call);
    hide ObserveUsage, ObserveCumulative, PutArtifact, TransitionArtifact, RecordRequest, DeliverEvent, AcceptResult, Wrap;
    if !call.CallRestore? && !call.CallCancel? && !call.CallDrain? { hide Apply; }
  }

  lemma UsageFrame(w: Worker, call: Call)
    requires !call.CallObserve? && !call.CallCumulative?
    ensures Apply(w, call).usage == w.usage && Apply(w, call).usageTotal == w.usageTotal && Apply(w, call).highWater == w.highWater
  {
    CallKeeps(w, call);
    hide Apply;
  }

  lemma StreamFrame(w: Worker, call: Call)
    requires !call.CallDeliver?
    ensures Apply(w, call).events == w.events && Apply(w, call).lastSequence == w.lastSequence
  {
    CallKeeps(w, call);
    hide Apply;
  }

  lemma RecordGrows(w: Worker, operation: string, key: string, digest: string, outcome: string, scoped: string)
    requires scoped in w.idempotency
    ensures var later := RecordRequest(w, operation, key, digest, outcome).0;
            scoped in later.idempotency && later.idempotency[scoped] == w.idempotency[scoped]
  {}

  lemma RequestFrame(w: Worker, call: Call, scoped: string)
    requires scoped in w.idempotency
    ensures scoped in Apply(w, call).idempotency && Apply(w, call).idempotency[scoped] == w.idempotency[scoped]
  {
    if call.CallRecord? {
      RecordGrows(w, call.operation, call.key, call.bytesDigest, call.outcome, scoped);
      hide RecordRequest;
    } else {
      CallKeeps(w, call);
      hide Apply;
    }
  }

  lemma ArtifactFrame(w: Worker, call: Call)
    requires !call.CallPut? && !call.CallTransition?
    ensures Apply(w, call).artifacts == w.artifacts
  {
    CallKeeps(w, call);
    hide Apply;
  }

  function Front(calls: seq<Call>): seq<Call>
    requires calls != []
  {
    calls[..|calls| - 1]
  }

  function Last(calls: seq<Call>): Call
    requires calls != []
  {
    calls[|calls| - 1]
  }

  /** The state before call i of a run. */
  function Before(w: Worker, calls: seq<Call>, i: nat): Worker
    requires i <= |calls|
  {
    Run(w, calls[..i])
  }

  lemma {:induction false} RunSplit(w: Worker, calls: seq<Call>, i: nat)
    requires i <= |calls|
    ensures Run(w, calls) == Run(Before(w, calls, i), calls[i..])
    decreases |calls|
  {
    if i == |calls| {
      assert calls[..i] == calls;
    } else {
      RunSplit(w, Front(calls), i);
      assert Front(calls)[..i] == calls[..i];
      assert Front(calls[i..]) == Front(calls)[i..];
    }
  }

  // ---- fencing ----

  function Restores(calls: seq<Call>): nat {
    if calls == [] then 0 else Restores(Front(calls)) + if Last(calls).CallRestore? then 1 else 0
  }

  /** The int64 generation n Restore calls after g. */
  function Generation(g: Int64, n: nat): Int64 { Wrap(g + n) }

  lemma GenerationZero(g: Int64)
    ensures Generation(g, 0) == g
  {}

  lemma GenerationStep(w: Worker, call: Call, g: Int64, n: nat)
    requires w.active.executionGeneration == Generation(g, n)
    ensures Apply(w, call).active.executionGeneration == Generation(g, n + if call.CallRestore? then 1 else 0)
  {
    FenceFrame(w, call);
    hide Apply;
    assert Wrap(Generation(g, n) + 1) == Generation(g, n + 1);
  }

  /** The execution generation counts the Restore calls, as int64. */
  lemma {:induction false} GenerationCounts(w: Worker, calls: seq<Call>)
    ensures Run(w, calls).active.executionGeneration == Generation(w.active.executionGeneration, Restores(calls))
    decreases |calls|
  {
    GenerationZero(w.active.executionGeneration);
    if calls != [] {
      hide Apply, Generation;
      GenerationCounts(w, Front(calls));
      GenerationStep(Run(w, Front(calls)), Last(calls), w.active.executionGeneration, Restores(Front(calls)));
    }
  }

  /** Without a Restore the active fence does not change. */
  lemma {:induction false} FenceStays(w: Worker, calls: seq<Call>)
    requires Restores(calls) == 0
    ensures Run(w, calls).active == w.active
    decreases |calls|
  {
    if calls != [] {
      hide Apply;
      FenceStays(w, Front(calls));
      FenceFrame(Run(w, Front(calls)), Last(calls));
    }
  }

  lemma GenerationDistinct(g: Int64, n: nat)
    requires 1 <= n < 0x1_0000_0000_0000_0000
    ensures Generation(g, n) != g
  {}

  /** A fence superseded by a Restore is never accepted again, by Execute, by
      AcceptResult or for a promotion or deletion (until the generation has wrapped
      around). */
  lemma SupersededRefused(w: Worker, calls: seq<Call>, capability: string, matches: bool, now: int, digest: string, next: ArtifactState)
    requires 1 <= Restores(calls) < 0x1_0000_0000_0000_0000
    ensures var later := Run(w, calls);
            && ExecuteStatus(later, capability, w.active, matches).Failed?
            && AcceptResult(later, w.active, now).1.Failed?
            && (next.Available? || next.Deleted? ==> TransitionArtifact(later, digest, w.active, next).1.Failed?)
  {
    GenerationCounts(w, calls);
    GenerationDistinct(w.active.executionGeneration, Restores(calls));
    hide Run, Wrap, Restores, Generation, Allowed;
  }

  /** All results accepted between two Restores carry one fence. */
  lemma OneFencePerGeneration(w: Worker, calls: seq<Call>, i: nat, j: nat)
    requires i <= j < |calls| && calls[i].CallAccept? && calls[j].CallAccept?
    requires AcceptResult(Before(w, calls, i), calls[i].fence, calls[i].now).1.Accepted?
    requires AcceptResult(Before(w, calls, j), calls[j].fence, calls[j].now).1.Accepted?
    requires Restores(calls[i..j]) == 0
    ensures SameFence(calls[i].fence, calls[j].fence)
  {
    RunSplit(w, calls[..j], i);
    assert calls[..j][..i] == calls[..i] && calls[..j][i..] == calls[i..j];
    FenceStays(Before(w, calls, i), calls[i..j]);
  }

  lemma {:induction false} StaysCancelled(w: Worker, calls: seq<Call>)
    requires w.cancelled
    ensures Run(w, calls).cancelled
    decreases |calls|
  {
    if calls != [] {
      hide Apply;
      StaysCancelled(w, Front(calls));
      FenceFrame(Run(w, Front(calls)), Last(calls));
    }
  }

  /** After Cancel nothing is executed and no result is accepted. */
  lemma NothingAfterCancel(w: Worker, calls: seq<Call>, i: nat, capability: string, matches: bool, fence: Fence, now: int)
    requires i < |calls| && calls[i].CallCancel?
    ensures ExecuteStatus(Run(w, calls), capability, fence, matches) == Failed(Cancelled)
    ensures AcceptResult(Run(w, calls), fence, now).1 == Failed(Cancelled)
  {
    RunSplit(w, calls, i + 1);
    assert Front(calls[..i + 1]) == calls[..i];
    StaysCancelled(Before(w, calls, i + 1), calls[i + 1..]);
  }

  // ---- usage ----

  function Units(): Reading -> int { (u: Reading) => u.units }

  function Marks(): Int64 -> int { (n: Int64) => n }

  /** The sum of the per-attempt high-water marks. */
  ghost function MarkSum(w: Worker): int { Sum(w.highWater, Marks()) }

  /** The sum of the units of the distinct recorded readings. */
  ghost function UnitSum(w: Worker): int { Sum(w.usage, Units()) }

  ghost predicate Accounted(w: Worker) {
    && 0 <= MarkSum(w) <= w.usageTotal <= UnitSum(w)
    && forall a :: a in w.highWater ==> w.highWater[a] >= 0
  }

  lemma MarkUpdate(w: Worker, attempt: string, units: Int64)
    ensures Sum(w.highWater[attempt := units], Marks()) == MarkSum(w) - HighWater(w, attempt) + units
  {
    if attempt in w.highWater {
      SumUpdate(w.highWater, Marks(), attempt, units);
    } else {
      SumInsert(w.highWater, Marks(), attempt, units);
    }
  }

  lemma ObserveAccounted(w: Worker, u: Reading)
    requires Accounted(w)
    ensures var w' := ObserveUsage(w, u).0;
            && Accounted(w')
            && w'.usageTotal - w.usageTotal == UnitSum(w') - UnitSum(w)
            && w'.usageTotal - w.usageTotal >= MarkSum(w') - MarkSum(w)
  {
    if ObserveUsage(w, u).1.Accepted? {
      SumInsert(w.usage, Units(), ReadingKey(u), u);
      MarkUpdate(w, u.physicalAttemptID, u.units);
    }
  }

  /** What a cumulative reading changes: nothing, the record alone, or the record,
      the mark and the total by the rise of the mark. */
  lemma CumulativeChange(w: Worker, u: Reading)
    requires Accounted(w)
    ensures var w' := ObserveCumulative(w, u).0;
            || w' == w
            || (&& ReadingKey(u) !in w.usage && w'.usage == w.usage[ReadingKey(u) := u]
                && u.units >= HighWater(w, u.physicalAttemptID) >= 0
                && ((w'.usageTotal == w.usageTotal && w'.highWater == w.highWater)
                    || (w'.usageTotal == w.usageTotal + (u.units - HighWater(w, u.physicalAttemptID))
                        && w'.highWater == w.highWater[u.physicalAttemptID := u.units])))
  {
    hide MarkSum, UnitSum, ReadingKey;
  }

  lemma CumulativeAccounted(w: Worker, u: Reading)
    requires Accounted(w)
    ensures var w' := ObserveCumulative(w, u).0;
            && Accounted(w')
            && w'.usageTotal - w.usageTotal == MarkSum(w') - MarkSum(w)
            && w'.usageTotal - w.usageTotal <= UnitSum(w') - UnitSum(w)
  {
    CumulativeChange(w, u);
    hide ObserveCumulative, Sum, ReadingKey, HighWater;
    if ObserveCumulative(w, u).0 != w {
      SumInsert(w.usage, Units(), ReadingKey(u), u);
      MarkUpdate(w, u.physicalAttemptID, u.units);
    }
  }

  predicate OnlyCumulative(calls: seq<Call>) { forall i :: 0 <= i < |calls| ==> !calls[i].CallObserve? }

  predicate OnlyAdditive(calls: seq<Call>) { forall i :: 0 <= i < |calls| ==> !calls[i].CallCumulative? }

  /** Usage is never undercounted or overcounted, however the two kinds of
      observation are interleaved; it is exact when only one kind is used. */
  lemma {:induction false} UsageBounded(active: Fence, calls: seq<Call>)
    ensures var w := Run(NewWorker(active), calls);
            && Accounted(w)
            && (OnlyCumulative(calls) ==> w.usageTotal == MarkSum(w))
            && (OnlyAdditive(calls) ==> w.usageTotal == UnitSum(w))
    decreases |calls|
  {
    if calls != [] {
      UsageBounded(active, Front(calls));
      var w := Run(NewWorker(active), Front(calls));
      assert OnlyCumulative(calls) ==> OnlyCumulative(Front(calls)) && !Last(calls).CallObserve?;
      assert OnlyAdditive(calls) ==> OnlyAdditive(Front(calls)) && !Last(calls).CallCumulative?;
      match Last(calls)
      case CallObserve(u) => ObserveAccounted(w, u);
      case CallCumulative(u) => CumulativeAccounted(w, u);
      case _ => UsageFrame(w, Last(calls));
    }
  }

  /** The addition of a usage total never wraps around. */
  lemma UsageNoOverflow(active: Fence, calls: seq<Call>, u: Reading)
    requires u.units >= 0
    ensures var w := Run(NewWorker(active), calls);
            && (ObserveUsage(w, u).1.Accepted? ==> ObserveUsage(w, u).0.usageTotal == w.usageTotal + u.units)
            && (ObserveCumulative(w, u).1.Accepted? ==>
                  ObserveCumulative(w, u).0.usageTotal == w.usageTotal + u.units - HighWater(w, u.physicalAttemptID))
  {
    UsageBounded(active, calls);
    hide Run, MarkSum, UnitSum;
  }

  /** A cumulative observation that fails leaves the worker as it was, except
      exactly when it fails the overflow check: then its key stays recorded. */
  lemma FailedCumulative(active: Fence, calls: seq<Call>, u: Reading)
    requires ObserveCumulative(Run(NewWorker(active), calls), u).1.Failed?
    ensures var w := Run(NewWorker(active), calls);
            var delta := u.units - HighWater(w, u.physicalAttemptID);
            var overflows := ValidReading(u) && ReadingKey(u) !in w.usage && delta >= 0 && w.usageTotal + delta > MAX64;
            && (ObserveCumulative(w, u).0 == w <==> !overflows)
            && (overflows ==> ObserveCumulative(ObserveCumulative(w, u).0, u).1 == Failed(UsageDuplicate))
  {
    UsageBounded(active, calls);
    hide Run, MarkSum, UnitSum, ReadingKey;
    var w := Run(NewWorker(active), calls);
    if ObserveCumulative(w, u).0 != w { assert ReadingKey(u) in ObserveCumulative(w, u).0.usage; }
  }

  /** Such a failure: two attempts whose marks together pass the largest int64. */
  lemma FailedCumulativeRecords(active: Fence)
    ensures var first := Reading("", "o", "a", MAX64, false);
            var second := Reading("", "o", "b", 1, false);
            var w := Run(NewWorker(active), [CallCumulative(first)]);
            && ObserveCumulative(w, second).1 == Failed(UsageInvalid)
            && ObserveCumulative(w, second).0 != w
  {
    var first := Reading("", "o", "a", MAX64, false);
    var second := Reading("", "o", "b", 1, false);
    var calls := [CallCumulative(first)];
    assert Front(calls) == [];
    var k1, k2 := ReadingKey(first), ReadingKey(second);
    assert k1[8] == 'a' && k2[8] == 'b';
    assert k2 in ObserveCumulative(Run(NewWorker(active), calls), second).0.usage;
  }

  // ---- artifacts ----

  function Rank(state: ArtifactState): nat {
    match state
    case Pending => 0
    case Scanning => 1
    case Available => 2
    case Quarantined => 2
    case Revoked => 3
    case Deleted => 4
  }

  lemma PutLeavesAlone(w: Worker, a: Artifact, digest: string)
    requires digest in w.artifacts
    ensures var w' := PutArtifact(w, a).0; digest in w'.artifacts && w'.artifacts[digest] == w.artifacts[digest]
  {}

  lemma TransitionRises(w: Worker, moved: string, fence: Fence, next: ArtifactState, digest: string)
    requires digest in w.artifacts
    ensures var w' := TransitionArtifact(w, moved, fence, next).0;
            && digest in w'.artifacts
            && (w'.artifacts[digest] == w.artifacts[digest] ||
                (&& moved == digest && w'.artifacts[digest] == w.artifacts[digest].(state := next)
                 && Rank(next) > Rank(w.artifacts[digest].state)))
  {}

  /** A call leaves an artifact alone or moves it, and only it, up in rank. */
  lemma ArtifactRises(w: Worker, call: Call, digest: string)
    requires digest in w.artifacts
    ensures var w' := Apply(w, call);
            && digest in w'.artifacts
            && (w'.artifacts[digest] == w.artifacts[digest] ||
                (&& call.CallTransition? && call.digest == digest
                 && w'.artifacts[digest] == w.artifacts[digest].(state := call.next)
                 && Rank(call.next) > Rank(w.artifacts[digest].state)))
  {
    hide PutArtifact, TransitionArtifact, Rank;
    match call
    case CallPut(artifact) => PutLeavesAlone(w, artifact, digest);
    case CallTransition(moved, fence, next) => TransitionRises(w, moved, fence, next, digest);
    case _ =>
      ArtifactFrame(w, call);
      hide Apply;
  }

  /** Over any run an artifact keeps its content and never falls in rank; a
      deleted one stays deleted. */
  lemma {:induction false} LifecycleMonotone(w: Worker, calls: seq<Call>, digest: string)
    requires digest in w.artifacts
    ensures var w' := Run(w, calls);
            && digest in w'.artifacts
            && w'.artifacts[digest] == w.artifacts[digest].(state := w'.artifacts[digest].state)
            && Rank(w'.artifacts[digest].state) >= Rank(w.artifacts[digest].state)
            && (w.artifacts[digest].state.Deleted? ==> w'.artifacts[digest].state.Deleted?)
            && (w'.artifacts[digest].state == w.artifacts[digest].state || Rank(w'.artifacts[digest].state) > Rank(w.artifacts[digest].state))
    decreases |calls|
  {
    if calls != [] {
      LifecycleMonotone(w, Front(calls), digest);
      ArtifactRises(Run(w, Front(calls)), Last(calls), digest);
    }
  }

  /** The same artifact put again, after any run, is taken for a retry exactly while
      it is pending; one that differs in anything, the form of its expiry or a nil
      list of parents included, never is. */
  lemma RetryExactly(w: Worker, a: Artifact, calls: seq<Call>, b: Artifact)
    requires a.digest !in w.artifacts && PutArtifact(w, a).1.Accepted? && b.digest == a.digest
    ensures var later := Run(PutArtifact(w, a).0, calls);
            && a.digest in later.artifacts
            && (PutArtifact(later, b).1.Accepted? <==> b == a.(state := later.artifacts[a.digest].state))
            && (PutArtifact(later, a).1.Accepted? <==> later.artifacts[a.digest].state.Pending?)
  {
    LifecycleMonotone(PutArtifact(w, a).0, calls, a.digest);
    hide Run, Rank;
  }

  /** Call i moved the artifact to the state. */
  predicate MovedAt(w: Worker, calls: seq<Call>, i: nat, digest: string, state: ArtifactState) {
    && i < |calls| && calls[i].CallTransition? && calls[i].digest == digest && calls[i].next == state
    && TransitionArtifact(Before(w, calls, i), digest, calls[i].fence, state).1.Accepted?
  }

  lemma MovedInFront(w: Worker, calls: seq<Call>, i: nat, digest: string, state: ArtifactState)
    requires calls != [] && MovedAt(w, Front(calls), i, digest, state)
    ensures MovedAt(w, calls, i, digest, state)
  {
    assert Front(calls)[..i] == calls[..i];
  }

  /** In a run from a new worker, an artifact that is not pending was moved to its state by a call. */
  lemma {:induction false} StateHasCause(active: Fence, calls: seq<Call>, digest: string) returns (i: nat)
    requires var w := Run(NewWorker(active), calls);
             digest in w.artifacts && !w.artifacts[digest].state.Pending?
    ensures MovedAt(NewWorker(active), calls, i, digest, Run(NewWorker(active), calls).artifacts[digest].state)
    decreases |calls|
  {
    var w0 := Run(NewWorker(active), Front(calls));
    var w1 := Run(NewWorker(active), calls);
    hide Apply, TransitionArtifact, PutArtifact;
    if digest in w0.artifacts && w0.artifacts[digest].state == w1.artifacts[digest].state {
      i := StateHasCause(active, Front(calls), digest);
      MovedInFront(NewWorker(active), calls, i, digest, w1.artifacts[digest].state);
    } else {
      LastMove(w0, Last(calls), digest);
      i := |calls| - 1;
    }
  }

  /** The artifact has a state other than pending, and had another one before. */
  predicate Moved(w: Worker, later: Worker, digest: string) {
    && digest in later.artifacts && !later.artifacts[digest].state.Pending?
    && !(digest in w.artifacts && w.artifacts[digest].state == later.artifacts[digest].state)
  }

  lemma PutMovesNothing(w: Worker, a: Artifact, digest: string)
    ensures !Moved(w, PutArtifact(w, a).0, digest)
  {
    var later := PutArtifact(w, a).0;
    assert later == w || (a.state.Pending? && later == w.(artifacts := w.artifacts[a.digest := a]));
    hide PutArtifact;
  }

  lemma TransitionMoves(w: Worker, digest: string, fence: Fence, next: ArtifactState, moved: string)
    requires Moved(w, TransitionArtifact(w, digest, fence, next).0, moved)
    ensures digest == moved && TransitionArtifact(w, digest, fence, next).0.artifacts[moved].state == next
    ensures TransitionArtifact(w, digest, fence, next).1.Accepted?
  {
    hide Allowed, SameFence;
  }

  /** A call that gives an artifact a new state other than pending is an accepted transition to it. */
  lemma LastMove(w: Worker, call: Call, digest: string)
    requires Moved(w, Apply(w, call), digest)
    ensures call.CallTransition? && call.digest == digest && call.next == Apply(w, call).artifacts[digest].state
    ensures TransitionArtifact(w, digest, call.fence, call.next).1.Accepted?
  {
    if call.CallPut? {
      assert Apply(w, call) == PutArtifact(w, call.artifact).0 by { hide PutArtifact; }
      hide Apply, PutArtifact, Moved;
      PutMovesNothing(w, call.artifact, digest);
    } else if call.CallTransition? {
      assert Apply(w, call) == TransitionArtifact(w, call.digest, call.fence, call.next).0 by { hide TransitionArtifact; }
      hide Apply, TransitionArtifact;
      TransitionMoves(w, call.digest, call.fence, call.next, digest);
    } else {
      hide Apply;
      ArtifactFrame(w, call);
    }
  }

  /** A readable artifact was scanned, and later promoted under the fence that was
      active at the promotion. */
  lemma ReadableWasPromoted(active: Fence, calls: seq<Call>, digest: string)
    requires Readable(Run(NewWorker(active), calls), digest)
    ensures exists i, j ::
              && i < j && MovedAt(NewWorker(active), calls, i, digest, Scanning) && MovedAt(NewWorker(active), calls, j, digest, Available)
              && SameFence(calls[j].fence, Before(NewWorker(active), calls, j).active)
  {
    var w := NewWorker(active);
    hide Run, Apply;
    var j := StateHasCause(active, calls, digest);
    assert Before(w, calls, j).artifacts[digest].state.Scanning?;
    var i := StateHasCause(active, calls[..j], digest);
    assert calls[..j][..i] == calls[..i];
    assert MovedAt(w, calls, i, digest, Scanning);
    assert MovedAt(w, calls, j, digest, Available);
  }

  // ---- the event stream ----

  predicate HasSequence(events: map<string, StreamEvent>, n: int) {
    exists id :: id in events && events[id].sequence == n
  }

  /** The accepted events carry exactly the sequence numbers 1 to last, one event each. */
  predicate GapFree(events: map<string, StreamEvent>, last: int) {
    && last == |events|
    && (forall id :: id in events ==> events[id].id == id && 1 <= events[id].sequence <= last)
    && (forall a, b :: a in events && b in events && a != b ==> events[a].sequence != events[b].sequence)
    && (forall n :: 1 <= n <= last ==> HasSequence(events, n))
  }

  lemma GapFreeExtends(events: map<string, StreamEvent>, last: int, e: StreamEvent)
    requires GapFree(events, last) && e.id !in events && e.sequence == last + 1
    ensures GapFree(events[e.id := e], last + 1)
  {
    var events' := events[e.id := e];
    forall n | 1 <= n <= last + 1 ensures HasSequence(events', n) {
      if n == last + 1 {
        assert events'[e.id].sequence == n;
      } else {
        assert HasSequence(events, n);
        var id :| id in events && events[id].sequence == n;
        assert events'[id].sequence == n;
      }
    }
  }

  lemma DeliverGapFree(w: Worker, e: StreamEvent)
    requires GapFree(w.events, w.lastSequence) && |w.events| < MAX64
    ensures var w' := DeliverEvent(w, e).0;
            GapFree(w'.events, w'.lastSequence) && |w'.events| <= |w.events| + 1
  {
    hide GapFree;
    if DeliverEvent(w, e).0 != w { GapFreeExtends(w.events, w.lastSequence, e) by { EventCount(w); } }
    EventCount(w);
  }

  lemma EventCount(w: Worker)
    requires GapFree(w.events, w.lastSequence)
    ensures w.lastSequence == |w.events|
  {}

  lemma ApplyGapFree(w: Worker, call: Call)
    requires GapFree(w.events, w.lastSequence) && |w.events| < MAX64
    ensures var w' := Apply(w, call);
            GapFree(w'.events, w'.lastSequence) && |w'.events| <= |w.events| + 1
  {
    hide GapFree, DeliverEvent;
    if call.CallDeliver? {
      DeliverGapFree(w, call.event);
    } else {
      StreamFrame(w, call);
    }
  }

  lemma {:induction false} RunGapFree(active: Fence, calls: seq<Call>)
    requires |calls| < MAX64
    ensures var w := Run(NewWorker(active), calls);
            GapFree(w.events, w.lastSequence) && |w.events| <= |calls|
    decreases |calls|
  {
    if calls != [] {
      hide GapFree, NewWorker, Wrap;
      RunGapFree(active, Front(calls));
      ApplyGapFree(Run(NewWorker(active), Front(calls)), Last(calls));
      hide Apply;
    }
  }

  /** In every run of fewer than 2^63 - 1 calls, the sequence numbers of the
      accepted events are exactly 1 to lastSequence, one event each. */
  lemma StreamGapFree(active: Fence, calls: seq<Call>, n: int)
    requires |calls| < MAX64
    ensures var w := Run(NewWorker(active), calls);
            && w.lastSequence == |w.events|
            && (1 <= n <= w.lastSequence <==> HasSequence(w.events, n))
            && (forall a, b :: a in w.events && b in w.events && a != b ==> w.events[a].sequence != w.events[b].sequence)
  {
    RunGapFree(active, calls);
  }

  // ---- requests ----

  lemma {:induction false} RequestKept(w: Worker, calls: seq<Call>, scoped: string)
    requires scoped in w.idempotency
    ensures scoped in Run(w, calls).idempotency && Run(w, calls).idempotency[scoped] == w.idempotency[scoped]
    decreases |calls|
  {
    if calls != [] {
      hide Apply;
      RequestKept(w, Front(calls), scoped);
      RequestFrame(Run(w, Front(calls)), Last(calls), scoped);
    }
  }

  /** A recorded request is answered with its first outcome from then on, and
      refused when it comes with other bytes. */
  lemma RequestStable(w: Worker, operation: string, key: string, digest: string, outcome: string, calls: seq<Call>,
                      digest': string, outcome': string)
    requires RecordRequest(w, operation, key, digest, outcome).1.Accepted?
    ensures var first := RecordRequest(w, operation, key, digest, outcome);
            var later := Run(first.0, calls);
            RecordRequest(later, operation, key, digest', outcome') ==
            if digest' == digest then (later, Accepted, first.2) else (later, Failed(RequestConflict), "")
  {
    RecordHolds(w, operation, key, digest, outcome);
    hide RecordRequest;
    var first := RecordRequest(w, operation, key, digest, outcome);
    RequestKept(first.0, calls, operation + "\0" + key);
    hide Run;
    RecordAnswers(Run(first.0, calls), operation, key, digest', outcome');
  }

  lemma RecordHolds(w: Worker, operation: string, key: string, digest: string, outcome: string)
    requires RecordRequest(w, operation, key, digest, outcome).1.Accepted?
    ensures var r := RecordRequest(w, operation, key, digest, outcome);
            operation + "\0" + key in r.0.idempotency && r.0.idempotency[operation + "\0" + key] == Request(digest, r.2)
  {}

  lemma RecordAnswers(w: Worker, operation: string, key: string, digest: string, outcome: string)
    requires operation + "\0" + key in w.idempotency
    ensures var held := w.idempotency[operation + "\0" + key];
            RecordRequest(w, operation, key, digest, outcome) ==
            if digest == held.digest then (w, Accepted, held.outcome) else (w, Failed(RequestConflict), "")
  {}
}
