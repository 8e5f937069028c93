/** The Pagix double itself: one object whose maps, outbox and counter every
    method updates in place. Each method holds the lock for its whole body, so a
    call is one atomic step. */
module FakePagix {
  import PagixKeys
  import opened PagixLedger
  import opened PagixStore

  class Fake {
    var revisions: map<string, nat>
    var idempotency: map<string, Record>
    var effects: map<string, Result>
    var redemptions: map<string, Redemption>
    var authorizationBytes: map<string, string>
    var outbox: seq<Event>
    var commands: nat
    var reservations: map<string, Reservation>
    var reservationKeys: map<string, KeyRecord>
    var usage: map<string, Usage>

    ghost function Store(): Store
      reads this
    {
      PagixStore.Store(revisions, idempotency, effects, redemptions, authorizationBytes, outbox, commands)
    }

    ghost function Ledger(): Ledger
      reads this
    {
      PagixLedger.Ledger(reservations, reservationKeys, usage)
    }

    constructor ()
      ensures Store() == NEW && Ledger() == EMPTY
    {
      revisions, idempotency, effects, redemptions, authorizationBytes := map[], map[], map[], map[], map[];
      outbox, commands := [], 0;
      reservations, reservationKeys, usage := map[], map[], map[];
    }

    method Seed(workspace: string, revision: nat)
      modifies this`revisions
      ensures Store() == PagixStore.Seed(old(Store()), workspace, revision)
    {
      revisions := revisions[workspace := revision];
    }

    method Reserve(workspace: string, key: string, digest: string, value: Reservation) returns (r: Reply<Reservation>)
      modifies this`reservations, this`reservationKeys
      ensures (Ledger(), r) == PagixLedger.Reserve(old(Ledger()), workspace, key, digest, value)
    {
      if workspace == "" || key == "" || !ValidDigest(digest) || value.id == "" || value.rootRunID == "" || value.generation == 0 ||
         value.upperBound < 1 {
        return Error(InvalidReservation);
      }
      var identity := ReserveKey(workspace, key);
      if identity in reservationKeys {
        if reservationKeys[identity].digest != digest {
          return Error(IdempotencyConflict);
        }
        return Ok(PagixLedger.Lookup(reservations, reservationKeys[identity].reservation));
      }
      if value.id in reservations {
        return Error(ReservationConflict);
      }
      var stored := value.(workspaceID := workspace);
      reservations := reservations[value.id := stored];
      reservationKeys := reservationKeys[identity := KeyRecord(digest, value.id)];
      return Ok(stored);
    }

    method Observe(value: Usage) returns (r: Reply<()>)
      modifies this`reservations, this`usage
      ensures (Ledger(), r) == PagixLedger.Observe(old(Ledger()), value)
    {
      if value.id == "" || value.reservationID == "" || value.cost < 0 {
        return Error(InvalidUsage);
      }
      if value.id in usage {
        if usage[value.id] != value {
          return Error(UsageConflict);
        }
        return Ok(());
      }
      if value.reservationID !in reservations {
        return Error(ReservationNotFound);
      }
      var reservation := reservations[value.reservationID];
      if reservation.observed > Wrap(reservation.upperBound - value.cost) {
        return Error(UsageExceeds);
      }
      reservation := reservation.(observed := Wrap(reservation.observed + value.cost));
      reservation := reservation.(final := reservation.final || value.final);
      reservations := reservations[value.reservationID := reservation];
      usage := usage[value.id := value];
      return Ok(());
    }

    method Reconcile(id: string, generation: nat, finalCost: Int64, release: bool) returns (r: Reply<Reservation>)
      modifies this`reservations
      ensures (Ledger(), r) == PagixLedger.Reconcile(old(Ledger()), id, generation, finalCost, release)
    {
      if id !in reservations {
        return Error(FenceFailed);
      }
      var value := reservations[id];
      if generation != value.generation || !value.final || finalCost < value.observed || finalCost > value.upperBound {
        return Error(FenceFailed);
      }
      value := value.(observed := finalCost);
      value := value.(upperBound := finalCost);
      value := value.(released := release);
      reservations := reservations[id := value];
      return Ok(value);
    }

    method Persist(contextDone: bool, command: Command) returns (r: Answer)
      modifies this`revisions, this`idempotency, this`effects, this`redemptions, this`authorizationBytes, this`outbox, this`commands
      ensures (Store(), r) == PagixStore.Persist(old(Store()), contextDone, command)
    {
      hide ValidCommand, CommandKey, RedemptionKey, EffectKey, RevisionName, Next, EventOf;
      if contextDone {
        return Refused(ContextDone);
      }
      if !ValidCommand(command) {
        return Refused(InvalidCommand);
      }
      var key := CommandKey(command);
      if key in idempotency {
        if idempotency[key].digest != command.requestDigest {
          return Refused(IdempotencyMismatch);
        }
        return Accepted(idempotency[key].result);
      }
      var redemptionKey := RedemptionKey(command.authorizationID);
      if command.authorizationBytes in authorizationBytes && authorizationBytes[command.authorizationBytes] != redemptionKey {
        return Refused(IdentitySubstitution);
      }
      if redemptionKey in redemptions {
        if redemptions[redemptionKey].bytes != command.authorizationBytes {
          return Refused(RedemptionConflict);
        }
        return Refused(AlreadyConsumed);
      }
      commands := commands + 1;
      var current := if command.workspaceID in revisions then revisions[command.workspaceID] else 0;
      var expected := RevisionName(current);
      var result: Result;
      if command.expectedRevision != expected {
        result := Result(Conflict, command.operationID, command.authorizationID, expected, "event-" + command.operationID);
      } else {
        current := Next(current);
        revisions := revisions[command.workspaceID := current];
        result := Result(Applied, command.operationID, command.authorizationID, RevisionName(current), "event-" + command.operationID);
      }
      idempotency := idempotency[key := Record(command.requestDigest, result)];
      effects := effects[EffectKey(command.workspaceID, command.operationID) := result];
      redemptions := redemptions[redemptionKey := Redemption(command.authorizationBytes, result)];
      authorizationBytes := authorizationBytes[command.authorizationBytes := redemptionKey];
      outbox := outbox + [EventOf(command, result)];
      return Accepted(result);
    }

    /** In a reachable state this is the result of the last event under the joined
        key; when the key is clear, of the operation's own last event. */
    method Effect(workspace: string, operation: string) returns (r: PagixStore.Lookup)
      requires Consistent(Store()) && PagixKeys.NamesGiven(outbox)
      ensures r == LastResult(outbox, EffectKey(workspace, operation))
      ensures PagixKeys.EffectKeyClear(workspace, operation) ==> r == PagixKeys.LastOf(outbox, workspace, operation)
    {
      EffectsAreLast(outbox, EffectKey(workspace, operation));
      if PagixKeys.EffectKeyClear(workspace, operation) { PagixKeys.LastIsOwn(outbox, workspace, operation); }
      var key := EffectKey(workspace, operation);
      r := if key in effects then Present(effects[key]) else Absent;
    }

    method Events() returns (events: seq<Event>)
      ensures events == outbox
    {
      events := outbox;
    }
  }
}
