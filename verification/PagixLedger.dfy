/** The reservation ledger of the Pagix double: what each call does to it, and
    what every run keeps. Micros are int64 with two's complement wrap-around. */
module PagixLedger {
  import JoinedKeys
  import opened MapSum

  const MAX64: int := 0x7FFF_FFFF_FFFF_FFFF
  const MIN64: int := -0x8000_0000_0000_0000

  type Int64 = x: int | MIN64 <= x <= MAX64

  /** The int64 a sum or difference is stored as. */
  function Wrap(x: int): (w: Int64)
    ensures MIN64 <= x <= MAX64 ==> w == x
  {
    (x - MIN64) % 0x1_0000_0000_0000_0000 + MIN64
  }

  datatype Reservation = Reservation(id: string, workspaceID: string, rootRunID: string, generation: nat,
                                     upperBound: Int64, observed: Int64, final: bool, released: bool)

  datatype Usage = Usage(id: string, reservationID: string, cost: Int64, final: bool)

  datatype KeyRecord = KeyRecord(digest: string, reservation: string)

  datatype Ledger = Ledger(reservations: map<string, Reservation>, keys: map<string, KeyRecord>, usage: map<string, Usage>)

  datatype Fault =
    | InvalidReservation | IdempotencyConflict | ReservationConflict
    | InvalidUsage | UsageConflict | ReservationNotFound | UsageExceeds | FenceFailed

  datatype Reply<+T> = Ok(value: T) | Error(fault: Fault)

  const EMPTY := Ledger(map[], map[], map[])

  /** sha256: and 64 lower-case hexadecimal digits. */
  predicate ValidDigest(value: string) {
    |value| == 71 && value[..7] == "sha256:" &&
    forall i :: 7 <= i < 71 ==> '0' <= value[i] <= '9' || 'a' <= value[i] <= 'f'
  }

  /** A digest in wire form, put together. */
  ghost predicate Sha256(d: string) {
    exists hex :: d == "sha256:" + hex && |hex| == 64 && forall i :: 0 <= i < |hex| ==> hex[i] in "0123456789abcdef"
  }

  lemma ValidDigestExactly(d: string)
    ensures ValidDigest(d) <==> Sha256(d)
  {
    if ValidDigest(d) {
      assert d == "sha256:" + d[7..];
      forall i | 0 <= i < |d[7..]| ensures d[7..][i] in "0123456789abcdef" { LowerHexDigit(d[i + 7]); }
    }
    if hex :| d == "sha256:" + hex && |hex| == 64 && forall i :: 0 <= i < |hex| ==> hex[i] in "0123456789abcdef" {
      forall i | 7 <= i < 71 ensures '0' <= d[i] <= '9' || 'a' <= d[i] <= 'f' {
        LowerHexDigit(hex[i - 7]);
        assert d[i] == hex[i - 7];
      }
    }
  }

  lemma LowerHexDigit(c: char)
    ensures c in "0123456789abcdef" <==> '0' <= c <= '9' || 'a' <= c <= 'f'
  {
    var digits := "0123456789abcdef";
    assert forall i :: 0 <= i < 16 ==> digits[i] == if i < 10 then '0' + i as char else 'a' + (i - 10) as char;
    if '0' <= c <= '9' { assert digits[c as int - '0' as int] == c; }
    if 'a' <= c <= 'f' { assert digits[c as int - 'a' as int + 10] == c; }
  }

  function ReserveKey(workspace: string, key: string): string { workspace + "\0reserve\0" + key }

  /** A Go map read: the zero value when the key is absent. */
  function Lookup(reservations: map<string, Reservation>, id: string): Reservation {
    if id in reservations then reservations[id] else Reservation("", "", "", 0, 0, 0, false, false)
  }

  function Reserve(s: Ledger, workspace: string, key: string, digest: string, value: Reservation): (Ledger, Reply<Reservation>) {
    if workspace == "" || key == "" || !ValidDigest(digest) || value.id == "" || value.rootRunID == "" || value.generation == 0 ||
       value.upperBound < 1 then
      (s, Error(InvalidReservation))
    else
      var identity := ReserveKey(workspace, key);
      if identity in s.keys then
        if s.keys[identity].digest != digest then (s, Error(IdempotencyConflict))
        else (s, Ok(Lookup(s.reservations, s.keys[identity].reservation)))
      else if value.id in s.reservations then (s, Error(ReservationConflict))
      else
        var stored := value.(workspaceID := workspace);
        (s.(reservations := s.reservations[value.id := stored], keys := s.keys[identity := KeyRecord(digest, value.id)]), Ok(stored))
  }

  function Observe(s: Ledger, value: Usage): (Ledger, Reply<()>) {
    if value.id == "" || value.reservationID == "" || value.cost < 0 then (s, Error(InvalidUsage))
    else if value.id in s.usage then
      if s.usage[value.id] != value then (s, Error(UsageConflict)) else (s, Ok(()))
    else if value.reservationID !in s.reservations then (s, Error(ReservationNotFound))
    else
      var r := s.reservations[value.reservationID];
      if r.observed > Wrap(r.upperBound - value.cost) then (s, Error(UsageExceeds))
      else
        var r' := r.(observed := Wrap(r.observed + value.cost), final := r.final || value.final);
        (s.(reservations := s.reservations[value.reservationID := r'], usage := s.usage[value.id := value]), Ok(()))
  }

  function Reconcile(s: Ledger, id: string, generation: nat, finalCost: Int64, release: bool): (Ledger, Reply<Reservation>) {
    if id !in s.reservations then (s, Error(FenceFailed))
    else
      var r := s.reservations[id];
      if generation != r.generation || !r.final || finalCost < r.observed || finalCost > r.upperBound then (s, Error(FenceFailed))
      else
        var r' := r.(observed := finalCost, upperBound := finalCost, released := release);
        (s.(reservations := s.reservations[id := r']), Ok(r'))
  }

  // ---- runs ----

  datatype Op =
    | OpReserve(workspace: string, key: string, digest: string, value: Reservation)
    | OpObserve(usage: Usage)
    | OpReconcile(id: string, generation: nat, finalCost: Int64, release: bool)

  function Step(s: Ledger, op: Op): Ledger {
    match op
    case OpReserve(workspace, key, digest, value) => Reserve(s, workspace, key, digest, value).0
    case OpObserve(usage) => Observe(s, usage).0
    case OpReconcile(id, generation, finalCost, release) => Reconcile(s, id, generation, finalCost, release).0
  }

  function Run(s: Ledger, ops: seq<Op>): Ledger
    decreases |ops|
  {
    if ops == [] then s else Run(Step(s, ops[0]), ops[1..])
  }

  predicate Reconciles(s: Ledger, op: Op, id: string) {
    op.OpReconcile? && op.id == id && Reconcile(s, op.id, op.generation, op.finalCost, op.release).1.Ok?
  }

  /** Some call of the run reconciles the reservation successfully. */
  predicate EverReconciled(s: Ledger, ops: seq<Op>, id: string)
    decreases |ops|
  {
    ops != [] && (Reconciles(s, ops[0], id) || EverReconciled(Step(s, ops[0]), ops[1..], id))
  }

  /** Usage and idempotency records name reservations that exist. */
  predicate Known(s: Ledger) {
    && (forall u :: u in s.usage ==> s.usage[u].reservationID in s.reservations)
    && (forall k :: k in s.keys ==> s.keys[k].reservation in s.reservations)
  }

  lemma StepKnown(s: Ledger, op: Op)
    requires Known(s)
    ensures Known(Step(s, op)) && s.reservations.Keys <= Step(s, op).reservations.Keys
  {}

  lemma {:induction false} RunKnown(s: Ledger, ops: seq<Op>)
    requires Known(s)
    ensures Known(Run(s, ops))
    decreases |ops|
  {
    if ops != [] {
      StepKnown(s, ops[0]);
      RunKnown(Step(s, ops[0]), ops[1..]);
    }
  }

  // ---- conservation ----

  function CostFor(id: string): Usage -> int {
    (u: Usage) => if u.reservationID == id then u.cost else 0
  }

  /** The costs of the distinct usages recorded against a reservation. */
  ghost function Spent(s: Ledger, id: string): int { Sum(s.usage, CostFor(id)) }

  /** A reservation taken with the given observed amount and bound. Its account
      is exact until the first successful reconciliation and closed after it. */
  ghost predicate Conserved(s: Ledger, id: string, initial: int, bound: int, reconciled: bool) {
    id in s.reservations &&
    var r := s.reservations[id];
    && initial + Spent(s, id) <= r.observed <= r.upperBound <= bound
    && initial <= r.observed
    && (if reconciled then r.observed == r.upperBound && r.final
        else r.observed == initial + Spent(s, id) && r.upperBound == bound)
  }

  lemma ObserveConserves(s: Ledger, value: Usage, id: string, initial: int, bound: int, reconciled: bool)
    requires Conserved(s, id, initial, bound, reconciled) && initial >= -1
    ensures Conserved(Observe(s, value).0, id, initial, bound, reconciled)
  {
    if Observe(s, value).0 != s {
      SumInsert(s.usage, CostFor(id), value.id, value);
    }
  }

  lemma StepConserves(s: Ledger, op: Op, id: string, initial: int, bound: int, reconciled: bool)
    requires Conserved(s, id, initial, bound, reconciled) && initial >= -1
    ensures Conserved(Step(s, op), id, initial, bound, reconciled || Reconciles(s, op, id))
  {
    if op.OpObserve? { ObserveConserves(s, op.usage, id, initial, bound, reconciled); }
  }

  lemma {:induction false} RunConserves(s: Ledger, ops: seq<Op>, id: string, initial: int, bound: int, reconciled: bool)
    requires Conserved(s, id, initial, bound, reconciled) && initial >= -1
    ensures Conserved(Run(s, ops), id, initial, bound, reconciled || EverReconciled(s, ops, id))
    decreases |ops|
  {
    if ops != [] {
      StepConserves(s, ops[0], id, initial, bound, reconciled);
      RunConserves(Step(s, ops[0]), ops[1..], id, initial, bound, reconciled || Reconciles(s, ops[0], id));
    }
  }

  /** The call that created the reservation: accepted, and not a replay. */
  predicate Creates(s: Ledger, workspace: string, key: string, digest: string, value: Reservation) {
    Reserve(s, workspace, key, digest, value).1.Ok? && ReserveKey(workspace, key) !in s.keys
  }

  lemma CreatedConserved(s: Ledger, workspace: string, key: string, digest: string, value: Reservation)
    requires Known(s) && Creates(s, workspace, key, digest, value) && value.observed <= value.upperBound
    ensures Conserved(Reserve(s, workspace, key, digest, value).0, value.id, value.observed, value.upperBound, false)
  {
    SumZero(s.usage, CostFor(value.id));
  }

  /** Over every run: the usage costs recorded against a reservation never exceed
      what it has observed, nor that its bound, nor that its first bound. Observed
      is exactly the sum of the costs until the reservation is reconciled. */
  lemma LedgerConserves(before: seq<Op>, workspace: string, key: string, digest: string, value: Reservation, after: seq<Op>)
    requires Creates(Run(EMPTY, before), workspace, key, digest, value)
    requires value.observed == 0
    ensures var s1 := Reserve(Run(EMPTY, before), workspace, key, digest, value).0;
            var s := Run(s1, after);
            && value.id in s.reservations
            && 0 <= Spent(s, value.id) <= s.reservations[value.id].observed <= s.reservations[value.id].upperBound <= value.upperBound
            && (!EverReconciled(s1, after, value.id) ==>
                  s.reservations[value.id].observed == Spent(s, value.id) && s.reservations[value.id].upperBound == value.upperBound)
            && (EverReconciled(s1, after, value.id) ==>
                  s.reservations[value.id].observed == s.reservations[value.id].upperBound && s.reservations[value.id].final)
  {
    RunKnown(EMPTY, before);
    var s0 := Run(EMPTY, before);
    CreatedConserved(s0, workspace, key, digest, value);
    var s1 := Reserve(s0, workspace, key, digest, value).0;
    RunConserves(s1, after, value.id, 0, value.upperBound, false);
    RunSpent(s1, after, value.id);
    SumZero(s0.usage, CostFor(value.id));
  }

  /** Recorded costs never shrink. */
  lemma {:induction false} RunSpent(s: Ledger, ops: seq<Op>, id: string)
    ensures Spent(Run(s, ops), id) >= Spent(s, id)
    decreases |ops|
  {
    if ops != [] {
      var s' := Step(s, ops[0]);
      if ops[0].OpObserve? && s' != s {
        SumInsert(s.usage, CostFor(id), ops[0].usage.id, ops[0].usage);
      }
      RunSpent(s', ops[1..], id);
    }
  }

  lemma ClosedAccount(s: Ledger, id: string, initial: int, bound: int, value: Usage, generation: nat, finalCost: Int64, release: bool)
    requires Conserved(s, id, initial, bound, true) && initial >= -1
    requires value.id != "" && value.reservationID == id != "" && value.cost >= 0 && value.id !in s.usage
    ensures Observe(s, value).1.Ok? <==> value.cost == 0
    ensures Reconcile(s, id, generation, finalCost, release).1.Ok? <==>
            generation == s.reservations[id].generation && finalCost == s.reservations[id].upperBound
  {}

  /** An account as it stands after any run from the call that created it. */
  lemma RunAccount(before: seq<Op>, workspace: string, key: string, digest: string, value: Reservation, after: seq<Op>)
    requires Creates(Run(EMPTY, before), workspace, key, digest, value) && -1 <= value.observed <= value.upperBound
    ensures var s1 := Reserve(Run(EMPTY, before), workspace, key, digest, value).0;
            Conserved(Run(s1, after), value.id, value.observed, value.upperBound, EverReconciled(s1, after, value.id))
  {
    RunKnown(EMPTY, before);
    var s0 := Run(EMPTY, before);
    CreatedConserved(s0, workspace, key, digest, value);
    RunConserves(Reserve(s0, workspace, key, digest, value).0, after, value.id, value.observed, value.upperBound, false);
  }

  /** After a reconciliation, however the run goes on, the fence is shut: of the
      usages not yet recorded exactly those of cost zero are accepted, and exactly
      the same final cost reconciles. */
  lemma FenceShut(before: seq<Op>, workspace: string, key: string, digest: string, value: Reservation, after: seq<Op>,
                  usage: Usage, generation: nat, finalCost: Int64, release: bool)
    requires Creates(Run(EMPTY, before), workspace, key, digest, value) && -1 <= value.observed <= value.upperBound
    requires var s1 := Reserve(Run(EMPTY, before), workspace, key, digest, value).0;
             EverReconciled(s1, after, value.id) && usage.id !in Run(s1, after).usage
    requires usage.id != "" && usage.reservationID == value.id && usage.cost >= 0
    ensures var s := Run(Reserve(Run(EMPTY, before), workspace, key, digest, value).0, after);
            && value.id in s.reservations
            && (Observe(s, usage).1.Ok? <==> usage.cost == 0)
            && (Reconcile(s, value.id, generation, finalCost, release).1.Ok? <==>
                  generation == s.reservations[value.id].generation && finalCost == s.reservations[value.id].upperBound)
  {
    RunAccount(before, workspace, key, digest, value, after);
    var s := Run(Reserve(Run(EMPTY, before), workspace, key, digest, value).0, after);
    hide Run, EverReconciled;
    ClosedAccount(s, value.id, value.observed, value.upperBound, usage, generation, finalCost, release);
  }

  lemma AccountNoOverflow(s: Ledger, id: string, initial: int, bound: int, reconciled: bool, cost: Int64)
    requires Conserved(s, id, initial, bound, reconciled) && initial >= -1 && cost >= 0
    ensures var r := s.reservations[id];
            && Wrap(r.upperBound - cost) == r.upperBound - cost
            && (r.observed <= r.upperBound - cost ==> Wrap(r.observed + cost) == r.observed + cost)
  {}

  /** No subtraction or addition of an observation wraps around, after any run. */
  lemma NoOverflow(before: seq<Op>, workspace: string, key: string, digest: string, value: Reservation, after: seq<Op>, cost: Int64)
    requires Creates(Run(EMPTY, before), workspace, key, digest, value) && -1 <= value.observed <= value.upperBound && cost >= 0
    ensures var s := Run(Reserve(Run(EMPTY, before), workspace, key, digest, value).0, after);
            && value.id in s.reservations
            && var r := s.reservations[value.id];
               && Wrap(r.upperBound - cost) == r.upperBound - cost
               && (r.observed <= r.upperBound - cost ==> Wrap(r.observed + cost) == r.observed + cost)
  {
    RunAccount(before, workspace, key, digest, value, after);
    var s1 := Reserve(Run(EMPTY, before), workspace, key, digest, value).0;
    var s := Run(s1, after);
    AccountNoOverflow(s, value.id, value.observed, value.upperBound, EverReconciled(s1, after, value.id), cost);
  }

  // ---- exactly when the bound is kept ----

  predicate WithinBound(s: Ledger, id: string) {
    id in s.reservations && s.reservations[id].observed <= s.reservations[id].upperBound
  }

  ghost predicate AlwaysWithin(s: Ledger, id: string) {
    forall after :: WithinBound(Run(s, after), id)
  }

  lemma {:induction false} FreshUsage(usage: map<string, Usage>) returns (n: nat)
    ensures forall u :: u in usage ==> |u| < n
    decreases |usage|
  {
    n := 1;
    if usage != map[] {
      var u :| u in usage;
      var m := FreshUsage(usage - {u});
      n := m + |u| + 1;
      forall v | v in usage ensures |v| < n {
        if v != u { assert v in usage - {u}; }
      }
    }
  }

  function Name(n: nat): (s: string)
    ensures |s| == n
  {
    seq(n, _ => 'u')
  }

  /** A reservation taken with two or more micros below zero: closed at that
      amount, it then takes a usage whose check wraps around. */
  lemma NegativeOverflows(s: Ledger, id: string) returns (ops: seq<Op>)
    requires id in s.reservations && id != ""
    requires s.reservations[id].observed <= -2 && s.reservations[id].upperBound >= 1
    ensures !WithinBound(Run(s, ops), id)
  {
    var r := s.reservations[id];
    var n := FreshUsage(s.usage);
    var closing := OpObserve(Usage(Name(n + 1), id, 0, true));
    var reconcile := OpReconcile(id, r.generation, r.observed, false);
    var huge := OpObserve(Usage(Name(n + 2), id, MAX64, false));
    ops := [closing, reconcile, huge];
    var s1 := Step(s, closing);
    assert Name(n + 1) !in s.usage && Name(n + 2) !in s.usage;
    assert s1.reservations[id] == r.(final := true);
    var s2 := Step(s1, reconcile);
    assert s2.reservations[id] == r.(final := true, upperBound := r.observed, released := false);
    assert Name(n + 2) !in s2.usage by { assert |Name(n + 1)| != |Name(n + 2)|; }
    assert Wrap(r.observed - MAX64) == r.observed - MAX64 + 0x1_0000_0000_0000_0000;
    assert ops[1..] == [reconcile, huge] && ops[1..][1..] == [huge] && ops[1..][1..][1..] == [];
    assert Run(s2, [huge]) == Step(s2, huge);
    assert Run(s, ops) == Step(s2, huge);
  }

  /** Reserve does not check the observed amount it is given. The bound is kept
      over every later run exactly when that amount lies between -1 and the bound. */
  lemma BoundKeptExactly(before: seq<Op>, workspace: string, key: string, digest: string, value: Reservation)
    requires Creates(Run(EMPTY, before), workspace, key, digest, value)
    ensures var s1 := Reserve(Run(EMPTY, before), workspace, key, digest, value).0;
            AlwaysWithin(s1, value.id) <==> -1 <= value.observed <= value.upperBound
  {
    var s1 := Reserve(Run(EMPTY, before), workspace, key, digest, value).0;
    if value.observed > value.upperBound {
      assert Run(s1, []) == s1;
      assert !WithinBound(Run(s1, []), value.id);
    } else if value.observed >= -1 {
      forall after ensures WithinBound(Run(s1, after), value.id) { RunAccount(before, workspace, key, digest, value, after); }
    } else {
      var ops := NegativeOverflows(s1, value.id);
      hide WithinBound;
      assert !AlwaysWithin(s1, value.id);
    }
  }

  function Zeros(n: nat): (s: string)
    ensures |s| == n && forall i :: 0 <= i < n ==> s[i] == '0'
  {
    seq(n, _ => '0')
  }

  /** A digest in wire form. */
  function ZeroDigest(): (d: string)
    ensures ValidDigest(d)
  {
    assert ("sha256:" + Zeros(64))[..7] == "sha256:";
    "sha256:" + Zeros(64)
  }

  function Taken(observed: Int64): Reservation { Reservation("r", "", "root", 1, 1, observed, false, false) }

  /** Both failures on an empty ledger: a reservation of one micro that is accepted
      with ten micros observed breaks its bound at once, and one accepted with two
      below zero breaks it in three calls. */
  lemma BoundBreaks()
    ensures Creates(EMPTY, "w", "k", ZeroDigest(), Taken(10)) && Creates(EMPTY, "w", "k", ZeroDigest(), Taken(-2))
    ensures !WithinBound(Reserve(EMPTY, "w", "k", ZeroDigest(), Taken(10)).0, "r")
    ensures !AlwaysWithin(Reserve(EMPTY, "w", "k", ZeroDigest(), Taken(-2)).0, "r")
  {
    assert Run(EMPTY, []) == EMPTY;
    BoundKeptExactly([], "w", "k", ZeroDigest(), Taken(-2));
  }

  // ---- idempotency keys ----

  const NUL: char := '\0'
  const RESERVE: string := "reserve"

  /** Among calls Reserve admits, the key is that of no other workspace and key. */
  ghost predicate OwnReserveKey(workspace: string, key: string) {
    forall w, k :: w != "" && k != "" && ReserveKey(w, k) == ReserveKey(workspace, key) ==> w == workspace && k == key
  }

  predicate ReserveKeyClear(workspace: string, key: string)
    requires workspace != "" && key != ""
  {
    JoinedKeys.ClearAround(workspace, RESERVE, key, NUL)
  }

  lemma ReserveKeyAround(workspace: string, key: string)
    ensures ReserveKey(workspace, key) == workspace + JoinedKeys.Infix(RESERVE, NUL) + key
  {
    assert JoinedKeys.Infix(RESERVE, NUL) == "\0reserve\0";
  }

  /** The joined key belongs to one workspace and key exactly when the infix occurs
      nowhere else in it, as when neither holds a NUL. */
  lemma ReserveKeyExactly(workspace: string, key: string)
    requires workspace != "" && key != ""
    ensures OwnReserveKey(workspace, key) <==> ReserveKeyClear(workspace, key)
    ensures NUL !in workspace && NUL !in key ==> ReserveKeyClear(workspace, key)
  {
    hide ReserveKey;
    var m := JoinedKeys.Infix(RESERVE, NUL);
    assert NUL !in RESERVE;
    JoinedKeys.AloneAroundExactly(workspace, RESERVE, key, NUL);
    if NUL !in workspace && NUL !in key { JoinedKeys.FreeIsClear(workspace, RESERVE, key, NUL); }
    hide JoinedKeys.ClearAround, JoinedKeys.Infix;
    forall w, k ensures ReserveKey(w, k) == w + m + k { ReserveKeyAround(w, k); }
    assert OwnReserveKey(workspace, key) <==> JoinedKeys.AloneAround(workspace, m, key);
  }

  predicate ReservedBy(ops: seq<Op>, workspace: string, key: string) {
    exists i :: 0 <= i < |ops| && ops[i].OpReserve? && ops[i].workspace == workspace && ops[i].key == key
  }

  lemma {:induction false} RecordsHaveCalls(s: Ledger, ops: seq<Op>, identity: string)
    requires identity !in s.keys && identity in Run(s, ops).keys
    ensures exists i :: 0 <= i < |ops| && ops[i].OpReserve? && ops[i].workspace != "" && ops[i].key != ""
              && ReserveKey(ops[i].workspace, ops[i].key) == identity
    decreases |ops|
  {
    hide ReserveKey;
    if ops != [] {
      var next := Step(s, ops[0]);
      if identity !in next.keys {
        RecordsHaveCalls(next, ops[1..], identity);
        var i :| 0 <= i < |ops[1..]| && ops[1..][i].OpReserve? && ops[1..][i].workspace != "" && ops[1..][i].key != ""
                 && ReserveKey(ops[1..][i].workspace, ops[1..][i].key) == identity;
        assert ops[i + 1] == ops[1..][i];
      }
    }
  }

  /** In every run a record under the key of a workspace comes from a call of that
      workspace with that key, exactly when the key is clear. */
  lemma RecordsAreOwnExactly(workspace: string, key: string)
    requires workspace != "" && key != ""
    ensures (forall ops :: ReserveKey(workspace, key) in Run(EMPTY, ops).keys ==> ReservedBy(ops, workspace, key))
            <==> ReserveKeyClear(workspace, key)
  {
    hide ReserveKey;
    ReserveKeyExactly(workspace, key);
    hide ReserveKeyClear;
    if OwnReserveKey(workspace, key) {
      forall ops | ReserveKey(workspace, key) in Run(EMPTY, ops).keys ensures ReservedBy(ops, workspace, key) {
        RecordsHaveCalls(EMPTY, ops, ReserveKey(workspace, key));
      }
    } else {
      var w, k :| w != "" && k != "" && ReserveKey(w, k) == ReserveKey(workspace, key) && !(w == workspace && k == key);
      var ops := [OpReserve(w, k, ZeroDigest(), Taken(0))];
      assert ops[1..] == [];
      assert Run(EMPTY, ops) == Step(EMPTY, ops[0]);
      assert ReserveKey(workspace, key) in Run(EMPTY, ops).keys;
      assert !ReservedBy(ops, workspace, key);
    }
  }

  /** A key that two workspaces share. */
  lemma ReserveKeysCanMeet()
    ensures ReserveKey("a\0reserve", "b") == ReserveKey("a", "reserve\0b")
  {}
}
