/** Redeeming apply authorizations: the first bytes for an authorization win. */
module Redemption {
  import opened CodeUnits
  import JoinedKeys

  const NUL: Unit := 0

  datatype Call = Call(issuer: Text, authorizationId: Text, compact: Text)

  datatype Outcome = Accepted | IdenticalRetry | Conflict

  /** `${issuer}\0${authorizationId}` */
  function KeyOf(c: Call): Text { c.issuer + ([NUL] + c.authorizationId) }

  /** One call: its outcome and the map afterwards. */
  function Answer(redeemed: map<Text, Text>, c: Call): (Outcome, map<Text, Text>) {
    if KeyOf(c) !in redeemed then (Accepted, redeemed[KeyOf(c) := c.compact])
    else if redeemed[KeyOf(c)] == c.compact then (IdenticalRetry, redeemed)
    else (Conflict, redeemed)
  }

  class AuthorizationRedemptionSet {
    var redeemed: map<Text, Text>

    constructor ()
      ensures redeemed == map[]
    {
      redeemed := map[];
    }

    method Redeem(c: Call) returns (outcome: Outcome)
      modifies this
      ensures (outcome, redeemed) == Answer(old(redeemed), c)
    {
      var key := KeyOf(c);
      if key !in redeemed {
        redeemed := redeemed[key := c.compact];
        return Accepted;
      }
      if redeemed[key] == c.compact {
        return IdenticalRetry;
      }
      return Conflict;
    }
  }

  // ---- runs ----

  function Run(calls: seq<Call>): map<Text, Text> {
    if calls == [] then map[] else Answer(Run(calls[..|calls| - 1]), calls[|calls| - 1]).1
  }

  function OutcomeAt(calls: seq<Call>, i: nat): Outcome
    requires i < |calls|
  {
    Answer(Run(calls[..i]), calls[i]).0
  }

  /** The index of the first call with the key. */
  predicate FirstWith(calls: seq<Call>, key: Text, i: int) {
    0 <= i < |calls| && KeyOf(calls[i]) == key && forall j :: 0 <= j < i ==> KeyOf(calls[j]) != key
  }

  lemma FirstInFront(calls: seq<Call>, key: Text, n: int, i: int)
    requires n == |calls| - 1 && i < n
    ensures n >= 0 ==> (FirstWith(calls[..n], key, i) <==> FirstWith(calls, key, i))
  {
    hide KeyOf;
  }

  lemma FirstIsLast(calls: seq<Call>, key: Text, n: int)
    requires n == |calls| - 1 && n >= 0
    ensures FirstWith(calls, key, n) <==> KeyOf(calls[n]) == key && forall j :: !FirstWith(calls[..n], key, j)
  {
    hide KeyOf;
    if forall j :: !FirstWith(calls[..n], key, j) { NoneBefore(calls[..n], key); }
  }

  lemma StepHolds(calls: seq<Call>, key: Text, n: int)
    requires n == |calls| - 1 && n >= 0
    ensures key in Run(calls) <==> key in Run(calls[..n]) || KeyOf(calls[n]) == key
    ensures key in Run(calls[..n]) ==> key in Run(calls) && Run(calls)[key] == Run(calls[..n])[key]
    ensures key !in Run(calls[..n]) && KeyOf(calls[n]) == key ==> key in Run(calls) && Run(calls)[key] == calls[n].compact
  {
    hide KeyOf;
  }

  lemma {:induction false} RunHoldsFirst(calls: seq<Call>, key: Text)
    ensures key in Run(calls) <==> exists i :: FirstWith(calls, key, i)
    ensures forall i :: FirstWith(calls, key, i) ==> key in Run(calls) && Run(calls)[key] == calls[i].compact
    decreases |calls|
  {
    if calls == [] {
      assert forall i :: !FirstWith(calls, key, i);
    } else {
      var n := |calls| - 1;
      var front := calls[..n];
      RunHoldsFirst(front, key);
      StepHolds(calls, key, n);
      FirstIsLast(calls, key, n);
      forall i | i < n ensures FirstWith(front, key, i) <==> FirstWith(calls, key, i) { FirstInFront(calls, key, n, i); }
      forall i | FirstWith(calls, key, i) ensures i <= n && (i < n ==> FirstWith(front, key, i) && calls[i] == front[i]) {}
      forall i | FirstWith(front, key, i) ensures i < n {}
      hide KeyOf, FirstWith, Run;
    }
  }

  lemma {:induction false} NoneBefore(calls: seq<Call>, key: Text)
    requires forall i :: !FirstWith(calls, key, i)
    ensures forall j :: 0 <= j < |calls| ==> KeyOf(calls[j]) != key
    decreases |calls|
  {
    hide KeyOf;
    if calls != [] {
      var n := |calls| - 1;
      forall i ensures !FirstWith(calls[..n], key, i) {
        assert FirstWith(calls[..n], key, i) ==> FirstWith(calls, key, i);
      }
      NoneBefore(calls[..n], key);
      assert forall j :: 0 <= j < n ==> calls[..n][j] == calls[j];
      assert !FirstWith(calls, key, n);
    }
  }

  /** In any run a call is accepted exactly when it is the first with its key; a
      later one is a retry exactly when it repeats the first one's bytes, and a
      conflict otherwise, whatever came in between. */
  lemma FirstBytesWin(calls: seq<Call>, i: nat, first: nat)
    requires i < |calls| && FirstWith(calls, KeyOf(calls[i]), first)
    ensures OutcomeAt(calls, i) ==
              if i == first then Accepted else if calls[i].compact == calls[first].compact then IdenticalRetry else Conflict
  {
    hide KeyOf;
    var key := KeyOf(calls[i]);
    var before := calls[..i];
    RunHoldsFirst(before, key);
    if i == first {
      assert forall j :: !FirstWith(before, key, j);
    } else {
      assert FirstWith(before, key, first);
    }
  }

  // ---- whose key it is ----

  /** No call for another issuer or authorization has the key of this one. */
  ghost predicate OwnKey(c: Call) {
    forall d: Call :: KeyOf(d) == KeyOf(c) ==> d.issuer == c.issuer && d.authorizationId == c.authorizationId
  }

  /** The joined key belongs to one authorization exactly when NUL stands neither
      in its issuer nor in its id. */
  lemma OwnKeyExactly(c: Call)
    ensures OwnKey(c) <==> NUL !in c.issuer && NUL !in c.authorizationId
  {
    JoinedKeys.AloneExactly(c.issuer, c.authorizationId, NUL);
    if OwnKey(c) {
      forall a, b | JoinedKeys.Join(a, NUL, b) == JoinedKeys.Join(c.issuer, NUL, c.authorizationId)
        ensures a == c.issuer && b == c.authorizationId
      {
        assert KeyOf(Call(a, b, [])) == KeyOf(c);
      }
      assert JoinedKeys.Alone(c.issuer, c.authorizationId, NUL);
    } else {
      var d :| KeyOf(d) == KeyOf(c) && !(d.issuer == c.issuer && d.authorizationId == c.authorizationId);
      assert JoinedKeys.Join(d.issuer, NUL, d.authorizationId) == JoinedKeys.Join(c.issuer, NUL, c.authorizationId);
    }
  }

  /** Calls for one issuer and authorization. */
  predicate SameAuthorization(a: Call, b: Call) { a.issuer == b.issuer && a.authorizationId == b.authorizationId }

  /** In every run, what answers a call is a call for the same authorization,
      exactly when its key is its own: a call after none such is accepted. */
  lemma AnsweredByOwnExactly(c: Call)
    ensures (forall calls :: (forall i :: 0 <= i < |calls| ==> !SameAuthorization(calls[i], c)) ==> Answer(Run(calls), c).0 == Accepted)
            <==> NUL !in c.issuer && NUL !in c.authorizationId
  {
    hide KeyOf;
    OwnKeyExactly(c);
    if OwnKey(c) {
      forall calls | forall i :: 0 <= i < |calls| ==> !SameAuthorization(calls[i], c) ensures Answer(Run(calls), c).0 == Accepted {
        RunHoldsFirst(calls, KeyOf(c));
        assert forall i :: !FirstWith(calls, KeyOf(c), i);
      }
    } else {
      var d :| KeyOf(d) == KeyOf(c) && !(d.issuer == c.issuer && d.authorizationId == c.authorizationId);
      var calls := [d];
      assert calls[..0] == [];
      assert Run(calls) == Answer(Run([]), d).1;
      assert KeyOf(c) in Run(calls);
    }
  }

  /** When keys of different authorizations meet, the longer issuer goes on from
      the shorter one with NUL; so issuers free of NUL keep them apart. */
  lemma KeyInjective(a: Call, b: Call)
    requires KeyOf(a) == KeyOf(b)
    ensures SameAuthorization(a, b)
         || (|a.issuer| < |b.issuer| && b.issuer[..|a.issuer|] == a.issuer && b.issuer[|a.issuer|] == NUL)
         || (|b.issuer| < |a.issuer| && a.issuer[..|b.issuer|] == b.issuer && a.issuer[|b.issuer|] == NUL)
    ensures NUL !in a.issuer && NUL !in b.issuer ==> SameAuthorization(a, b)
  {
    if |a.issuer| < |b.issuer| {
      JoinedKeys.Resplit(a.issuer, a.authorizationId, b.issuer, b.authorizationId, NUL);
    } else if |b.issuer| < |a.issuer| {
      JoinedKeys.Resplit(b.issuer, b.authorizationId, a.issuer, a.authorizationId, NUL);
    } else {
      JoinedKeys.SameLength(a.issuer, a.authorizationId, b.issuer, b.authorizationId, NUL);
    }
  }

  /** Such a pair: the second authorization is refused although it is new. */
  lemma KeysCanCollide()
    ensures var a, b := Call([1], [0, 2], [3]), Call([1, 0], [2], [4]);
            KeyOf(a) == KeyOf(b) && !SameAuthorization(a, b) && Answer(Run([a]), b).0 == Conflict
  {
    var a := Call([1], [0, 2], [3]);
    assert KeyOf(a) == [1, 0, 0, 2] && KeyOf(Call([1, 0], [2], [4])) == [1, 0, 0, 2];
    assert [a][..0] == [];
    assert Run([a]) == Answer(Run([]), a).1;
  }
}
