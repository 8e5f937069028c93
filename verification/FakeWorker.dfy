/** The worker double: one object, its mutex held over every call, so a call is
    one atomic step on the fields. */
module FakeWorker {
  import opened PagixLedger
  import opened WorkerModel

  class Double {
    var active: Fence
    var cancelled: bool
    var committed: bool
    var usage: map<string, Reading>
    var usageTotal: Int64
    var highWater: map<string, Int64>
    var draining: bool
    var artifacts: map<string, Artifact>
    var idempotency: map<string, Request>
    var events: map<string, StreamEvent>
    var lastSequence: Int64

    ghost function State(): Worker
      reads this
    {
      Worker(active, cancelled, committed, usage, usageTotal, highWater, draining, artifacts, idempotency, events, lastSequence)
    }

    constructor (active: Fence)
      ensures State() == NewWorker(active)
    {
      this.active := active;
      cancelled, committed, draining := false, false, false;
      usage, usageTotal, highWater := map[], 0, map[];
      artifacts, idempotency, events, lastSequence := map[], map[], map[], 0;
    }

    method Restore(nextRecoveryEpoch: Int64)
      modifies this`active, this`committed
      ensures State() == WorkerModel.Restore(old(State()), nextRecoveryEpoch)
    {
      active := active.(recoveryEpoch := nextRecoveryEpoch);
      active := active.(executionGeneration := Wrap(active.executionGeneration + 1));
      active := active.(leaseEpoch := 1);
      committed := false;
    }

    method Cancel()
      modifies this`cancelled
      ensures State() == Apply(old(State()), CallCancel)
    {
      cancelled := true;
    }

    method Drain()
      modifies this`draining
      ensures State() == Apply(old(State()), CallDrain)
    {
      draining := true;
    }

    /** Reads the state only; digest stands for SHA-256 in its wire form. */
    method Execute(capability: string, inputDigest: string, input: string, fence: Fence, digest: string -> string)
      returns (status: Status, output: string)
      ensures status == ExecuteStatus(State(), capability, fence, digest(input) == inputDigest)
      ensures output == if status.Accepted? then digest("fake.execute:" + input) else ""
    {
      output := "";
      if cancelled {
        return Failed(Cancelled), output;
      }
      if draining {
        return Failed(DrainingNow), output;
      }
      if capability != CAPABILITY {
        return Failed(CapabilityDenied), output;
      }
      if !SameFence(fence, active) {
        return Failed(StaleFence), output;
      }
      if digest(input) != inputDigest {
        return Failed(ArtifactDenied), output;
      }
      return Accepted, digest("fake.execute:" + input);
    }

    method AcceptResult(fence: Fence, now: int) returns (r: Status)
      modifies this`committed
      ensures (State(), r) == WorkerModel.AcceptResult(old(State()), fence, now)
    {
      if cancelled {
        return Failed(Cancelled);
      }
      if now >= fence.expiresAt.instant {
        return Failed(LeaseExpired);
      }
      if !SameFence(fence, active) {
        return Failed(StaleFence);
      }
      if committed {
        return Accepted;
      }
      committed := true;
      return Accepted;
    }

    method ObserveUsage(u: Reading) returns (r: Status)
      modifies this`usage, this`usageTotal, this`highWater
      ensures (State(), r) == WorkerModel.ObserveUsage(old(State()), u)
    {
      if !ValidReading(u) || usageTotal > Wrap(MAX64 - u.units) {
        return Failed(UsageInvalid);
      }
      var key := ReadingKey(u);
      if key in usage {
        return Failed(UsageDuplicate);
      }
      usage := usage[key := u];
      usageTotal := Wrap(usageTotal + u.units);
      var previous := if u.physicalAttemptID in highWater then highWater[u.physicalAttemptID] else 0;
      if u.units > previous {
        highWater := highWater[u.physicalAttemptID := u.units];
      }
      return Accepted;
    }

    method ObserveCumulativeUsage(u: Reading) returns (r: Status)
      modifies this`usage, this`usageTotal, this`highWater
      ensures (State(), r) == ObserveCumulative(old(State()), u)
    {
      hide ReadingKey, ValidReading, Wrap;
      if !ValidReading(u) {
        return Failed(UsageInvalid);
      }
      var key := ReadingKey(u);
      if key in usage {
        return Failed(UsageDuplicate);
      }
      var previous := if u.physicalAttemptID in highWater then highWater[u.physicalAttemptID] else 0;
      if u.units < previous {
        return Failed(UsageRegressed);
      }
      usage := usage[key := u];
      var delta := Wrap(u.units - previous);
      if usageTotal > Wrap(MAX64 - delta) {
        return Failed(UsageInvalid);
      }
      usageTotal := Wrap(usageTotal + delta);
      highWater := highWater[u.physicalAttemptID := u.units];
      return Accepted;
    }

    method PutArtifact(artifact: Artifact) returns (r: Status)
      modifies this`artifacts
      ensures (State(), r) == WorkerModel.PutArtifact(old(State()), artifact)
    {
      if artifact.digest in artifacts {
        if artifacts[artifact.digest] != artifact {
          return Failed(RequestConflict);
        }
        return Accepted;
      }
      if artifact.digest == "" || artifact.state != Pending {
        return Failed(ArtifactDenied);
      }
      artifacts := artifacts[artifact.digest := artifact];
      return Accepted;
    }

    method TransitionArtifact(digest: string, fence: Fence, next: ArtifactState) returns (r: Status)
      modifies this`artifacts
      ensures (State(), r) == WorkerModel.TransitionArtifact(old(State()), digest, fence, next)
    {
      if digest !in artifacts {
        return Failed(ArtifactDenied);
      }
      var artifact := artifacts[digest];
      if (next.Available? || next.Deleted?) && !SameFence(fence, active) {
        return Failed(StaleFence);
      }
      if !Allowed(artifact.state, next) {
        return Failed(ArtifactDenied);
      }
      artifact := artifact.(state := next);
      artifacts := artifacts[digest := artifact];
      return Accepted;
    }

    method ReadArtifact(digest: string) returns (r: Status, artifact: seq<Artifact>)
      ensures r.Accepted? <==> Readable(State(), digest)
      ensures artifact == if Readable(State(), digest) then [artifacts[digest]] else []
    {
      if digest !in artifacts || !artifacts[digest].state.Available? {
        return Failed(ArtifactDenied), [];
      }
      return Accepted, [artifacts[digest]];
    }

    method RecordRequest(operation: string, key: string, digest: string, outcome: string) returns (r: Status, recorded: string)
      modifies this`idempotency
      ensures (State(), r, recorded) == WorkerModel.RecordRequest(old(State()), operation, key, digest, outcome)
    {
      var scoped := operation + "\0" + key;
      if scoped in idempotency {
        if idempotency[scoped].digest != digest {
          return Failed(RequestConflict), "";
        }
        return Accepted, idempotency[scoped].outcome;
      }
      idempotency := idempotency[scoped := Request(digest, outcome)];
      return Accepted, outcome;
    }

    method DeliverEvent(event: StreamEvent) returns (r: Status)
      modifies this`events, this`lastSequence
      ensures (State(), r) == WorkerModel.DeliverEvent(old(State()), event)
    {
      if event.id in events {
        var previous := events[event.id];
        if previous.bytes != event.bytes || previous.sequence != event.sequence {
          return Failed(RequestConflict);
        }
        return Accepted;
      }
      if event.sequence != Wrap(lastSequence + 1) {
        return Failed(SequenceGap);
      }
      if event.traceParent == "" {
        return Failed(TraceMissing);
      }
      events := events[event.id := event];
      lastSequence := event.sequence;
      return Accepted;
    }
  }
}
