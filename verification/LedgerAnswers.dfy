/** What the reservation ledger answers, told from the reservations taken and the
    usages recorded before a call. */
module LedgerAnswers {
  import opened PagixLedger

  // ---- the history of a run ----

  /** A call that took a reservation. */
  datatype Taking = Taking(workspace: string, key: string, digest: string, value: Reservation)

  function TakenBy(s: Ledger, op: Op): seq<Taking> {
    if op.OpReserve? && Creates(s, op.workspace, op.key, op.digest, op.value) then [Taking(op.workspace, op.key, op.digest, op.value)] else []
  }

  function UsedBy(s: Ledger, op: Op): seq<Usage> {
    if op.OpObserve? && Observe(s, op.usage).1.Ok? && op.usage.id !in s.usage then [op.usage] else []
  }

  /** The reservations taken in a run, in order. */
  function Takings(s: Ledger, ops: seq<Op>): seq<Taking>
    decreases |ops|
  {
    if ops == [] then [] else TakenBy(s, ops[0]) + Takings(Step(s, ops[0]), ops[1..])
  }

  /** The usages recorded in a run, in order. */
  function Usages(s: Ledger, ops: seq<Op>): seq<Usage>
    decreases |ops|
  {
    if ops == [] then [] else UsedBy(s, ops[0]) + Usages(Step(s, ops[0]), ops[1..])
  }

  predicate KeySeen(taken: seq<Taking>, key: string) {
    exists i :: 0 <= i < |taken| && ReserveKey(taken[i].workspace, taken[i].key) == key
  }

  predicate IdSeen(taken: seq<Taking>, id: string) { exists i :: 0 <= i < |taken| && taken[i].value.id == id }

  predicate UsageSeen(used: seq<Usage>, id: string) { exists i :: 0 <= i < |used| && used[i].id == id }

  /** Some usage of the reservation was its last. */
  predicate Finalized(used: seq<Usage>, id: string) { exists i :: 0 <= i < |used| && used[i].reservationID == id && used[i].final }

  // ---- the maps hold what the history tells ----

  /** The reservation as taken, apart from its account. */
  predicate Kept(s: Ledger, used: seq<Usage>, t: Taking) {
    && ReserveKey(t.workspace, t.key) in s.keys && s.keys[ReserveKey(t.workspace, t.key)] == KeyRecord(t.digest, t.value.id)
    && t.value.id in s.reservations
    && var r := s.reservations[t.value.id];
       && r.id == t.value.id && r.workspaceID == t.workspace && r.rootRunID == t.value.rootRunID && r.generation == t.value.generation
       && (r.final <==> t.value.final || Finalized(used, t.value.id))
  }

  predicate AllKept(s: Ledger, taken: seq<Taking>, used: seq<Usage>) { forall i :: 0 <= i < |taken| ==> Kept(s, used, taken[i]) }

  predicate KeysFrom(keys: map<string, KeyRecord>, taken: seq<Taking>) { forall k :: k in keys ==> KeySeen(taken, k) }

  predicate IdsFrom(reservations: map<string, Reservation>, taken: seq<Taking>) { forall id :: id in reservations ==> IdSeen(taken, id) }

  /** The usage map is the usages recorded, each under its id, of reservations there are. */
  predicate UsageFrom(s: Ledger, used: seq<Usage>) {
    && (forall i :: 0 <= i < |used| ==> used[i].id in s.usage && s.usage[used[i].id] == used[i] && used[i].reservationID in s.reservations)
    && forall id :: id in s.usage ==> UsageSeen(used, id)
  }

  predicate Remembers(s: Ledger, taken: seq<Taking>, used: seq<Usage>) {
    AllKept(s, taken, used) && KeysFrom(s.keys, taken) && IdsFrom(s.reservations, taken) && UsageFrom(s, used)
  }

  lemma KeysGrow(keys: map<string, KeyRecord>, taken: seq<Taking>, t: Taking, v: KeyRecord)
    requires KeysFrom(keys, taken)
    ensures KeysFrom(keys[ReserveKey(t.workspace, t.key) := v], taken + [t])
  {
    hide ReserveKey;
    var taken' := taken + [t];
    forall k | k in keys[ReserveKey(t.workspace, t.key) := v] ensures KeySeen(taken', k) {
      if k == ReserveKey(t.workspace, t.key) {
        assert ReserveKey(taken'[|taken|].workspace, taken'[|taken|].key) == k;
      } else {
        var i :| 0 <= i < |taken| && ReserveKey(taken[i].workspace, taken[i].key) == k;
        assert ReserveKey(taken'[i].workspace, taken'[i].key) == k;
      }
    }
  }

  lemma IdsGrow(reservations: map<string, Reservation>, taken: seq<Taking>, t: Taking, r: Reservation)
    requires IdsFrom(reservations, taken)
    ensures IdsFrom(reservations[t.value.id := r], taken + [t])
  {
    var taken' := taken + [t];
    forall id | id in reservations[t.value.id := r] ensures IdSeen(taken', id) {
      if id == t.value.id {
        assert taken'[|taken|].value.id == id;
      } else {
        var i :| 0 <= i < |taken| && taken[i].value.id == id;
        assert taken'[i].value.id == id;
      }
    }
  }

  /** The state a reservation call that takes one leaves. */
  lemma CreatedState(s: Ledger, workspace: string, key: string, digest: string, value: Reservation)
    requires Creates(s, workspace, key, digest, value)
    ensures var s' := Reserve(s, workspace, key, digest, value).0;
            && s' == s.(reservations := s.reservations[value.id := value.(workspaceID := workspace)],
                        keys := s.keys[ReserveKey(workspace, key) := KeyRecord(digest, value.id)])
            && value.id !in s.reservations && ReserveKey(workspace, key) !in s.keys
  {
    hide ReserveKey, ValidDigest;
  }

  lemma TakingRemembers(s: Ledger, taken: seq<Taking>, used: seq<Usage>, t: Taking)
    requires Remembers(s, taken, used) && Creates(s, t.workspace, t.key, t.digest, t.value)
    ensures Remembers(Reserve(s, t.workspace, t.key, t.digest, t.value).0, taken + [t], used)
  {
    CreatedState(s, t.workspace, t.key, t.digest, t.value);
    KeysGrow(s.keys, taken, t, KeyRecord(t.digest, t.value.id));
    IdsGrow(s.reservations, taken, t, t.value.(workspaceID := t.workspace));
    var s' := Reserve(s, t.workspace, t.key, t.digest, t.value).0;
    hide Reserve, Creates, KeysFrom, IdsFrom, ReserveKey, KeySeen, IdSeen;
    assert UsageFrom(s', used) by { hide UsageSeen; }
    TakenKept(s, s', taken, used, t);
  }

  lemma TakenKept(s: Ledger, s': Ledger, taken: seq<Taking>, used: seq<Usage>, t: Taking)
    requires AllKept(s, taken, used) && UsageFrom(s, used)
    requires t.value.id !in s.reservations && ReserveKey(t.workspace, t.key) !in s.keys
    requires s'.reservations == s.reservations[t.value.id := t.value.(workspaceID := t.workspace)]
    requires s'.keys == s.keys[ReserveKey(t.workspace, t.key) := KeyRecord(t.digest, t.value.id)]
    ensures AllKept(s', taken + [t], used)
  {
    hide ReserveKey, UsageSeen;
    var taken' := taken + [t];
    forall i | 0 <= i < |taken'| ensures Kept(s', used, taken'[i]) {
      if i < |taken| { assert Kept(s, used, taken[i]); }
    }
  }

  lemma FinalizedMore(used: seq<Usage>, u: Usage, id: string)
    ensures Finalized(used + [u], id) <==> Finalized(used, id) || (u.reservationID == id && u.final)
  {
    if i :| 0 <= i < |used| && used[i].reservationID == id && used[i].final { assert (used + [u])[i] == used[i]; }
    if u.reservationID == id && u.final { assert (used + [u])[|used|] == u; }
  }

  /** The state an observation that records a usage leaves. */
  lemma ObservedState(s: Ledger, u: Usage)
    requires Observe(s, u).1.Ok? && u.id !in s.usage
    ensures u.reservationID in s.reservations
    ensures var r := s.reservations[u.reservationID];
            Observe(s, u).0 == s.(reservations := s.reservations[u.reservationID :=
                                    r.(observed := Wrap(r.observed + u.cost), final := r.final || u.final)],
                                  usage := s.usage[u.id := u])
  {
    hide Wrap;
  }

  lemma UsageRemembers(s: Ledger, taken: seq<Taking>, used: seq<Usage>, u: Usage)
    requires Remembers(s, taken, used) && Observe(s, u).1.Ok? && u.id !in s.usage
    ensures Remembers(Observe(s, u).0, taken, used + [u])
  {
    ObservedState(s, u);
    var s' := Observe(s, u).0;
    hide Observe, Wrap, ReserveKey, KeySeen, IdSeen;
    assert KeysFrom(s'.keys, taken) && IdsFrom(s'.reservations, taken);
    UsageGrows(s, s', used, u);
    UsedKept(s, s', taken, used, u);
    hide UsageFrom, KeysFrom, IdsFrom, AllKept;
  }

  lemma UsedKept(s: Ledger, s': Ledger, taken: seq<Taking>, used: seq<Usage>, u: Usage)
    requires AllKept(s, taken, used) && u.reservationID in s.reservations && s'.keys == s.keys
    requires var r := s.reservations[u.reservationID];
             s'.reservations == s.reservations[u.reservationID := r.(observed := Wrap(r.observed + u.cost), final := r.final || u.final)]
    ensures AllKept(s', taken, used + [u])
  {
    hide ReserveKey, Finalized, Wrap;
    forall i | 0 <= i < |taken| ensures Kept(s', used + [u], taken[i]) {
      assert Kept(s, used, taken[i]);
      FinalizedMore(used, u, taken[i].value.id);
    }
  }

  lemma UsageGrows(s: Ledger, s': Ledger, used: seq<Usage>, u: Usage)
    requires UsageFrom(s, used) && u.id !in s.usage && u.reservationID in s.reservations
    requires s'.usage == s.usage[u.id := u] && s.reservations.Keys <= s'.reservations.Keys
    ensures UsageFrom(s', used + [u])
  {
    var used' := used + [u];
    forall id | id in s'.usage ensures UsageSeen(used', id) {
      if id == u.id {
        assert used'[|used|].id == id;
      } else {
        var i :| 0 <= i < |used| && used[i].id == id;
        assert used'[i].id == id;
      }
    }
  }

  /** A reconciliation changes an account, and nothing else. */
  lemma ReconcileRemembers(s: Ledger, taken: seq<Taking>, used: seq<Usage>, id: string, generation: nat, finalCost: Int64, release: bool)
    requires Remembers(s, taken, used)
    ensures Remembers(Reconcile(s, id, generation, finalCost, release).0, taken, used)
  {
    hide ReserveKey, KeySeen, IdSeen, UsageSeen, Finalized;
    var s' := Reconcile(s, id, generation, finalCost, release).0;
    if s' != s {
      var r := s.reservations[id];
      assert s' == s.(reservations := s.reservations[id := r.(observed := finalCost, upperBound := finalCost, released := release)]);
      hide Reconcile;
      forall i | 0 <= i < |taken| ensures Kept(s', used, taken[i]) { assert Kept(s, used, taken[i]); }
      hide Kept;
    }
  }

  lemma StepRemembers(s: Ledger, taken: seq<Taking>, used: seq<Usage>, op: Op)
    requires Remembers(s, taken, used)
    ensures Remembers(Step(s, op), taken + TakenBy(s, op), used + UsedBy(s, op))
  {
    hide Remembers, Reserve, Observe, Reconcile, Creates, ReserveKey;
    assert taken + [] == taken && used + [] == used;
    match op
    case OpReserve(workspace, key, digest, value) =>
      if Creates(s, workspace, key, digest, value) {
        TakingRemembers(s, taken, used, Taking(workspace, key, digest, value));
      } else {
        NotTaken(s, workspace, key, digest, value);
      }
    case OpObserve(u) =>
      if Observe(s, u).1.Ok? && u.id !in s.usage { UsageRemembers(s, taken, used, u); } else { NotUsed(s, u); }
    case OpReconcile(id, generation, finalCost, release) => ReconcileRemembers(s, taken, used, id, generation, finalCost, release);
  }

  lemma NotTaken(s: Ledger, workspace: string, key: string, digest: string, value: Reservation)
    requires !Creates(s, workspace, key, digest, value)
    ensures Reserve(s, workspace, key, digest, value).0 == s
  {
    hide ReserveKey, ValidDigest;
  }

  lemma NotUsed(s: Ledger, u: Usage)
    requires !(Observe(s, u).1.Ok? && u.id !in s.usage)
    ensures Observe(s, u).0 == s
  {
    hide Wrap;
  }

  lemma {:induction false} RunRemembers(s: Ledger, taken: seq<Taking>, used: seq<Usage>, ops: seq<Op>)
    requires Remembers(s, taken, used)
    ensures Remembers(Run(s, ops), taken + Takings(s, ops), used + Usages(s, ops))
    decreases |ops|
  {
    hide Remembers, Step, TakenBy, UsedBy;
    if ops == [] {
      assert taken + Takings(s, ops) == taken && used + Usages(s, ops) == used;
    } else {
      var s', later := Step(s, ops[0]), ops[1..];
      StepRemembers(s, taken, used, ops[0]);
      RunRemembers(s', taken + TakenBy(s, ops[0]), used + UsedBy(s, ops[0]), later);
      assert taken + TakenBy(s, ops[0]) + Takings(s', later) == taken + Takings(s, ops);
      assert used + UsedBy(s, ops[0]) + Usages(s', later) == used + Usages(s, ops);
    }
  }

  lemma NothingRemembered()
    ensures Remembers(EMPTY, [], [])
  {}

  lemma HistoryRemembered(ops: seq<Op>)
    ensures Remembers(Run(EMPTY, ops), Takings(EMPTY, ops), Usages(EMPTY, ops))
  {
    NothingRemembered();
    hide Remembers, Run, Takings, Usages, EMPTY;
    RunRemembers(EMPTY, [], [], ops);
    assert [] + Takings(EMPTY, ops) == Takings(EMPTY, ops) && [] + Usages(EMPTY, ops) == Usages(EMPTY, ops);
  }

  // ---- the answers ----

  ghost predicate Admissible(workspace: string, key: string, digest: string, value: Reservation) {
    "" !in {workspace, key, value.id, value.rootRunID} && Sha256(digest) && value.generation > 0 && value.upperBound > 0
  }

  lemma KeyInMap(s: Ledger, taken: seq<Taking>, used: seq<Usage>, key: string)
    requires Remembers(s, taken, used)
    ensures KeySeen(taken, key) <==> key in s.keys
    ensures forall t :: t in taken && ReserveKey(t.workspace, t.key) == key ==>
              key in s.keys && s.keys[key] == KeyRecord(t.digest, t.value.id) && t.value.id in s.reservations
  {
    hide ReserveKey, IdsFrom, UsageFrom, Finalized;
    forall t | t in taken && ReserveKey(t.workspace, t.key) == key
      ensures key in s.keys && s.keys[key] == KeyRecord(t.digest, t.value.id) && t.value.id in s.reservations
    {
      assert Kept(s, used, t);
    }
  }

  lemma IdInMap(s: Ledger, taken: seq<Taking>, used: seq<Usage>, id: string)
    requires Remembers(s, taken, used)
    ensures IdSeen(taken, id) <==> id in s.reservations
    ensures forall t :: t in taken && t.value.id == id ==>
              && id in s.reservations && s.reservations[id].generation == t.value.generation
              && (s.reservations[id].final <==> t.value.final || Finalized(used, id))
  {
    hide ReserveKey, KeysFrom, UsageFrom, Finalized;
    forall t | t in taken && t.value.id == id
      ensures id in s.reservations && s.reservations[id].generation == t.value.generation
      ensures s.reservations[id].final <==> t.value.final || Finalized(used, id)
    {
      assert Kept(s, used, t);
    }
  }

  lemma UsageInMap(s: Ledger, taken: seq<Taking>, used: seq<Usage>, u: Usage)
    requires Remembers(s, taken, used)
    ensures UsageSeen(used, u.id) <==> u.id in s.usage
    ensures u in used <==> u.id in s.usage && s.usage[u.id] == u
  {
    hide AllKept, KeysFrom, IdsFrom;
    if u.id in s.usage {
      var i :| 0 <= i < |used| && used[i].id == u.id;
      assert s.usage[used[i].id] == used[i];
    }
  }

  /** Reserve, told from the history: an admissible call under a key seen before is
      answered with that reservation as it stands, or refused for another digest; one
      for an id seen before is refused; any other takes the reservation as given. */
  lemma ReserveExactly(ops: seq<Op>, workspace: string, key: string, digest: string, value: Reservation)
    ensures var s, taken := Run(EMPTY, ops), Takings(EMPTY, ops);
            var r := Reserve(s, workspace, key, digest, value);
            if !Admissible(workspace, key, digest, value) then r == (s, Error(InvalidReservation))
            else if KeySeen(taken, ReserveKey(workspace, key)) then
              forall t :: t in taken && ReserveKey(t.workspace, t.key) == ReserveKey(workspace, key) ==>
                t.value.id in s.reservations
                && r == (s, if t.digest == digest then Ok(s.reservations[t.value.id]) else Error(IdempotencyConflict))
            else if IdSeen(taken, value.id) then r == (s, Error(ReservationConflict))
            else
              var stored := value.(workspaceID := workspace);
              r.1 == Ok(stored) && r.0.usage == s.usage && r.0.reservations == s.reservations[value.id := stored]
  {
    hide Run, Takings, Usages, ReserveKey, ValidDigest, Sha256, KeySeen, IdSeen, Remembers, EMPTY;
    HistoryRemembered(ops);
    ValidDigestExactly(digest);
    KeyInMap(Run(EMPTY, ops), Takings(EMPTY, ops), Usages(EMPTY, ops), ReserveKey(workspace, key));
    IdInMap(Run(EMPTY, ops), Takings(EMPTY, ops), Usages(EMPTY, ops), value.id);
  }

  /** Observe, told from the history: a usage recorded before is accepted again and
      changes nothing, another of its id is refused, as is one of a reservation never
      taken; of the rest exactly those the bound has room for are accepted, and they
      are added, as long as the bound less the cost is an int64. */
  lemma ObserveExactly(ops: seq<Op>, u: Usage)
    ensures var s, taken, used := Run(EMPTY, ops), Takings(EMPTY, ops), Usages(EMPTY, ops);
            var r := Observe(s, u);
            if u.id == "" || u.reservationID == "" || u.cost < 0 then r == (s, Error(InvalidUsage))
            else if UsageSeen(used, u.id) then r == (s, if u in used then Ok(()) else Error(UsageConflict))
            else if !IdSeen(taken, u.reservationID) then r == (s, Error(ReservationNotFound))
            else
              u.reservationID in s.reservations &&
              var held := s.reservations[u.reservationID];
              held.upperBound - u.cost >= MIN64 ==>
                if held.observed + u.cost > held.upperBound then r == (s, Error(UsageExceeds))
                else
                  && r.1 == Ok(()) && r.0.keys == s.keys && r.0.usage == s.usage[u.id := u]
                  && r.0.reservations == s.reservations[u.reservationID :=
                                           held.(observed := held.observed + u.cost, final := held.final || u.final)]
  {
    hide Run, Takings, Usages, UsageSeen, IdSeen, Remembers, EMPTY;
    HistoryRemembered(ops);
    UsageInMap(Run(EMPTY, ops), Takings(EMPTY, ops), Usages(EMPTY, ops), u);
    IdInMap(Run(EMPTY, ops), Takings(EMPTY, ops), Usages(EMPTY, ops), u.reservationID);
  }

  /** Reconcile, told from the history: accepted exactly for a reservation taken under
      that generation, one of whose usages was its last, at a cost between what is
      observed and the bound; both are then that cost. */
  lemma ReconcileExactly(ops: seq<Op>, id: string, generation: nat, finalCost: Int64, release: bool)
    ensures var s, taken, used := Run(EMPTY, ops), Takings(EMPTY, ops), Usages(EMPTY, ops);
            var r := Reconcile(s, id, generation, finalCost, release);
            if !IdSeen(taken, id) then r == (s, Error(FenceFailed))
            else
              forall t :: t in taken && t.value.id == id ==>
                id in s.reservations &&
                var held := s.reservations[id];
                if && generation == t.value.generation && (t.value.final || Finalized(used, id))
                   && held.observed <= finalCost <= held.upperBound
                then
                  var closed := held.(observed := finalCost, upperBound := finalCost, released := release);
                  r.1 == Ok(closed) && r.0 == s.(reservations := s.reservations[id := closed])
                else r == (s, Error(FenceFailed))
  {
    hide Run, Takings, Usages, IdSeen, Finalized, Remembers, EMPTY;
    HistoryRemembered(ops);
    IdInMap(Run(EMPTY, ops), Takings(EMPTY, ops), Usages(EMPTY, ops), id);
  }

  /** On an account taken within its bound, after any run, the room left decides. */
  lemma RoomDecides(before: seq<Op>, workspace: string, key: string, digest: string, value: Reservation, after: seq<Op>, u: Usage)
    requires Creates(Run(EMPTY, before), workspace, key, digest, value) && -1 <= value.observed <= value.upperBound
    requires u.id != "" && u.reservationID == value.id && u.cost >= 0
    requires u.id !in Run(Reserve(Run(EMPTY, before), workspace, key, digest, value).0, after).usage
    ensures var s := Run(Reserve(Run(EMPTY, before), workspace, key, digest, value).0, after);
            && value.id in s.reservations
            && var held := s.reservations[value.id];
               && (Observe(s, u).1.Ok? <==> held.observed + u.cost <= held.upperBound)
               && (Observe(s, u).1.Ok? ==>
                     value.id in Observe(s, u).0.reservations
                     && Observe(s, u).0.reservations[value.id].observed == held.observed + u.cost)
  {
    NoOverflow(before, workspace, key, digest, value, after, u.cost);
    CreatedNamed(Run(EMPTY, before), workspace, key, digest, value);
    hide *;
    RoomIn(Run(Reserve(Run(EMPTY, before), workspace, key, digest, value).0, after), u);
  }

  lemma RoomIn(s: Ledger, u: Usage)
    requires u.id != "" && u.reservationID != "" && u.cost >= 0 && u.id !in s.usage && u.reservationID in s.reservations
    requires var r := s.reservations[u.reservationID];
             && Wrap(r.upperBound - u.cost) == r.upperBound - u.cost
             && (r.observed <= r.upperBound - u.cost ==> Wrap(r.observed + u.cost) == r.observed + u.cost)
    ensures var r := s.reservations[u.reservationID];
            && (Observe(s, u).1.Ok? <==> r.observed + u.cost <= r.upperBound)
            && (Observe(s, u).1.Ok? ==>
                  u.reservationID in Observe(s, u).0.reservations
                  && Observe(s, u).0.reservations[u.reservationID].observed == r.observed + u.cost)
  {
    hide Wrap;
  }

  lemma CreatedNamed(s: Ledger, workspace: string, key: string, digest: string, value: Reservation)
    requires Creates(s, workspace, key, digest, value)
    ensures value.id != ""
  {
    hide ReserveKey, ValidDigest;
  }
}
