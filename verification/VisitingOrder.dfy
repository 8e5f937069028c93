/** When the order a Go map is visited in decides the latency quantile. */
module VisitingOrder {
  import opened Histogram
  import opened HistogramSeries

  // ---- one sorted order ----

  predicate OneCountEach(bs: seq<Bucket>) {
    forall i, j :: 0 <= i < |bs| && 0 <= j < |bs| && bs[i].le == bs[j].le ==> bs[i] == bs[j]
  }

  lemma FirstIsLeast(a: seq<Bucket>, x: Bucket)
    requires a != [] && Ordered(a) && x in a
    ensures x == a[0] || !Before(x, a[0])
  {
    var i :| 0 <= i < |a| && a[i] == x;
  }

  lemma SameFirst(a: seq<Bucket>, b: seq<Bucket>)
    requires a != [] && b != [] && Ordered(a) && Ordered(b) && multiset(a) == multiset(b) && OneCountEach(a)
    ensures a[0] == b[0]
  {
    assert a[0] in multiset(b) && b[0] in multiset(a);
    FirstIsLeast(a, b[0]);
    FirstIsLeast(b, a[0]);
    var i :| 0 <= i < |a| && a[i] == b[0];
    assert a[i].le == a[0].le;
  }

  lemma Tail(a: seq<Bucket>)
    requires a != []
    ensures multiset(a[1..]) == multiset(a) - multiset{a[0]}
    ensures Ordered(a) ==> Ordered(a[1..])
    ensures OneCountEach(a) ==> OneCountEach(a[1..])
  {
    assert a == [a[0]] + a[1..];
    hide Before;
    if Ordered(a) {
      forall i, j | 0 <= i < j < |a[1..]| ensures !Before(a[1..][j], a[1..][i]) {
        assert a[1..][j] == a[j + 1] && a[1..][i] == a[i + 1];
      }
    }
  }

  /** Buckets with one count for each bound are sorted in one way only. */
  lemma {:induction false} SortedOneWay(a: seq<Bucket>, b: seq<Bucket>)
    requires Ordered(a) && Ordered(b) && multiset(a) == multiset(b) && OneCountEach(a)
    ensures a == b
    decreases |a|
  {
    assert |a| == |multiset(a)| && |b| == |multiset(b)|;
    if a != [] {
      SameFirst(a, b);
      Tail(a);
      Tail(b);
      hide Ordered, OneCountEach;
      SortedOneWay(a[1..], b[1..]);
      assert a == [a[0]] + a[1..] && b == [b[0]] + b[1..];
    }
  }

  predicate Gives(parse: Parser, name: string, metrics: map<string, real>, metric: string, b: Bucket) {
    metric in metrics && BucketOf(parse, name, metric, metrics[metric]) == [b]
  }

  /** The metrics of a list that give a bucket. */
  function Giving(parse: Parser, name: string, metrics: map<string, real>, order: seq<string>, b: Bucket): set<string> {
    set k | k in order && Gives(parse, name, metrics, k, b)
  }

  lemma GivingStep(parse: Parser, name: string, metrics: map<string, real>, front: seq<string>, last: string, b: Bucket)
    requires last !in front
    ensures last !in Giving(parse, name, metrics, front, b)
    ensures Giving(parse, name, metrics, front + [last], b)
         == Giving(parse, name, metrics, front, b) + if Gives(parse, name, metrics, last, b) then {last} else {}
  {
    hide Gives;
  }

  /** A bucket is collected once for each metric that gives it. */
  lemma {:induction false} CollectedCount(parse: Parser, name: string, metrics: map<string, real>, order: seq<string>, b: Bucket)
    requires (forall i :: 0 <= i < |order| ==> order[i] in metrics) && forall i, j :: 0 <= i < j < |order| ==> order[i] != order[j]
    ensures multiset(Collected(parse, name, metrics, order))[b] == |Giving(parse, name, metrics, order, b)|
    decreases |order|
  {
    if order != [] {
      var front, last := order[..|order| - 1], order[|order| - 1];
      assert order == front + [last];
      CollectedCount(parse, name, metrics, front, b);
      CollectedStep(parse, name, metrics, front, last);
      BucketCount(parse, name, last, metrics[last], b);
      GivingStep(parse, name, metrics, front, last, b);
      hide BucketOf, Giving, Collected;
      assert Gives(parse, name, metrics, last, b) <==> BucketOf(parse, name, last, metrics[last]) == [b];
    }
  }

  lemma BucketCount(parse: Parser, name: string, metric: string, value: real, b: Bucket)
    ensures multiset(BucketOf(parse, name, metric, value))[b] == if BucketOf(parse, name, metric, value) == [b] then 1 else 0
  {}

  lemma SameGiving(parse: Parser, name: string, metrics: map<string, real>, order: seq<string>, other: seq<string>, b: Bucket)
    requires Visits(order, metrics) && Visits(other, metrics)
    ensures Giving(parse, name, metrics, order, b) == Giving(parse, name, metrics, other, b)
  {
    hide Gives;
    assert forall k :: k in order <==> k in other;
  }

  /** Go may visit the metrics in any order: the quantile is the same, as long as
      no two series of the metric differ in their count alone. */
  lemma VisitingOrderIsFree(parse: Parser, name: string, metrics: map<string, real>, order: seq<string>, other: seq<string>,
                            a: seq<Bucket>, b: seq<Bucket>, q: real)
    requires Visits(order, metrics) && Visits(other, metrics)
    requires Ordered(a) && multiset(a) == multiset(Collected(parse, name, metrics, order))
    requires Ordered(b) && multiset(b) == multiset(Collected(parse, name, metrics, other))
    requires OneCountEach(a)
    ensures a == b && Quantile(a, q) == Quantile(b, q)
  {
    hide Collected, Giving, Ordered, OneCountEach, Quantile;
    forall x: Bucket ensures multiset(a)[x] == multiset(b)[x] {
      CollectedCount(parse, name, metrics, order, x);
      CollectedCount(parse, name, metrics, other, x);
      SameGiving(parse, name, metrics, order, other, x);
    }
    assert multiset(a) == multiset(b);
    SortedOneWay(a, b);
  }

  // ---- when it matters ----

  lemma BeforeOrders(x: Bucket, y: Bucket, z: Bucket)
    ensures Before(x, y) ==> !Before(y, x)
    ensures !Before(x, y) && !Before(y, z) ==> !Before(x, z)
  {}

  lemma OrderedCons(x: Bucket, a: seq<Bucket>)
    requires Ordered(a) && forall y :: y in a ==> !Before(y, x)
    ensures Ordered([x] + a)
  {
    hide Before;
    forall i, j | 0 <= i < j < |[x] + a| ensures !Before(([x] + a)[j], ([x] + a)[i]) {
      assert ([x] + a)[j] == a[j - 1] && a[j - 1] in a;
      if i > 0 { assert ([x] + a)[i] == a[i - 1]; }
    }
  }

  lemma {:induction false} Insert(bs: seq<Bucket>, x: Bucket) returns (a: seq<Bucket>)
    requires Ordered(bs)
    ensures Ordered(a) && multiset(a) == multiset(bs) + multiset{x}
    decreases |bs|
  {
    hide Before, Ordered;
    if bs == [] || !Before(bs[0], x) {
      forall y | y in bs ensures !Before(y, x) {
        FirstIsLeast(bs, y);
        BeforeOrders(y, bs[0], x);
      }
      OrderedCons(x, bs);
      a := [x] + bs;
    } else {
      Tail(bs);
      assert bs == [bs[0]] + bs[1..];
      var rest := Insert(bs[1..], x);
      forall y | y in rest ensures !Before(y, bs[0]) {
        assert y in multiset(rest);
        BeforeOrders(bs[0], x, x);
        if y != x {
          assert y in bs;
          FirstIsLeast(bs, y);
          BeforeOrders(y, bs[0], bs[0]);
        }
      }
      OrderedCons(bs[0], rest);
      a := [bs[0]] + rest;
    }
  }

  lemma {:induction false} Sortable(bs: seq<Bucket>) returns (a: seq<Bucket>)
    ensures Ordered(a) && multiset(a) == multiset(bs)
    decreases |bs|
  {
    if bs == [] {
      a := [];
    } else {
      var rest := Sortable(bs[1..]);
      a := Insert(rest, bs[0]);
      assert bs == [bs[0]] + bs[1..];
    }
  }

  function Exchange(a: seq<Bucket>, i: int, j: int): (b: seq<Bucket>)
    requires 0 <= i < |a| && 0 <= j < |a|
    ensures |b| == |a| && b[i] == a[j] && b[j] == a[i] && forall k :: 0 <= k < |a| && k != i && k != j ==> b[k] == a[k]
  {
    a[i := a[j]][j := a[i]]
  }

  /** Two buckets of one bound can change places in a sorted sequence. */
  lemma Exchanged(a: seq<Bucket>, i: int, j: int)
    requires Ordered(a) && 0 <= i < |a| && 0 <= j < |a| && a[i].le == a[j].le
    ensures Ordered(Exchange(a, i, j)) && multiset(Exchange(a, i, j)) == multiset(a)
    ensures forall k :: 0 <= k < |a| ==> Exchange(a, i, j)[k].le == a[k].le
  {
    var b := Exchange(a, i, j);
    assert forall k :: 0 <= k < |a| ==> b[k].le == a[k].le;
    forall k, l | 0 <= k < l < |b| ensures !Before(b[l], b[k]) { assert !Before(a[l], a[k]); }
  }

  /** Collected buckets are sorted in one way only exactly when no two of one bound
      differ in their count. */
  lemma SortedOneWayExactly(collected: seq<Bucket>)
    ensures (forall a, b :: Ordered(a) && Ordered(b) && multiset(a) == multiset(collected) == multiset(b) ==> a == b)
            <==> OneCountEach(collected)
  {
    if OneCountEach(collected) {
      forall a, b | Ordered(a) && Ordered(b) && multiset(a) == multiset(collected) == multiset(b) ensures a == b {
        SameBuckets(collected, a);
        SortedOneWay(a, b);
      }
    } else {
      var a := Sortable(collected);
      if OneCountEach(a) { SameBuckets(a, collected); }
      var i, j :| 0 <= i < |a| && 0 <= j < |a| && a[i].le == a[j].le && a[i] != a[j];
      Exchanged(a, i, j);
      assert Exchange(a, i, j)[j] != a[j];
    }
  }

  lemma SameBuckets(a: seq<Bucket>, b: seq<Bucket>)
    requires multiset(a) == multiset(b) && OneCountEach(a)
    ensures OneCountEach(b)
  {
    forall i, j | 0 <= i < |b| && 0 <= j < |b| && b[i].le == b[j].le ensures b[i] == b[j] {
      assert b[i] in multiset(a) && b[j] in multiset(a);
    }
  }

  // ---- counts that tell orders apart ----

  /** What a scraped histogram is like, apart from how many counts a bound has:
      finite bounds are positive, counts are not negative and do not fall from a
      bound to a higher one, and the +Inf bucket has one count. */
  predicate Plausible(bs: seq<Bucket>) {
    && (forall i :: 0 <= i < |bs| ==> bs[i].count >= 0.0 && (bs[i].le == SENTINEL || bs[i].le > 0.0))
    && forall i, j :: 0 <= i < |bs| && 0 <= j < |bs| ==> Rises(bs[i], bs[j])
  }

  predicate Rises(x: Bucket, y: Bucket) {
    (Before(x, y) ==> x.count <= y.count) && (x.le == SENTINEL && y.le == SENTINEL ==> x == y)
  }

  lemma PlausiblePermuted(a: seq<Bucket>, b: seq<Bucket>)
    requires multiset(a) == multiset(b) && Plausible(a)
    ensures Plausible(b)
  {
    hide Rises;
    forall i | 0 <= i < |b| ensures exists k :: 0 <= k < |a| && a[k] == b[i] {
      assert b[i] in multiset(a);
    }
    forall i, j | 0 <= i < |b| && 0 <= j < |b| ensures Rises(b[i], b[j]) {
      var k :| 0 <= k < |a| && a[k] == b[i];
      var l :| 0 <= l < |a| && a[l] == b[j];
      assert Rises(a[k], a[l]);
    }
  }

  lemma StrictlyInside(prevLe: real, le: real, target: real, low: real, high: real)
    requires prevLe < le && low < target < high
    ensures Interpolate(prevLe, le, target, low, high) < le
  {
    var d, w := le - prevLe, high - low;
    Regroup(d, target - low, w);
    var x := (target - low) / w;
    assert x * w == target - low;
    if x >= 1.0 { NonNegativeProduct(x - 1.0, w); }
    PositiveProduct(d, 1.0 - x);
    assert d * (1.0 - x) == d - d * x;
  }

  /** Where a bucket of bound le holds more than the target, and those in front of
      it have lower bounds, the scan stops below le. */
  lemma {:induction false} ScanBelow(bs: seq<Bucket>, target: real, prevLe: real, prevCount: real, i: nat, le: real)
    requires i < |bs| && bs[i].le == le && le != SENTINEL && target < bs[i].count && prevCount < target && prevLe < le
    requires forall k :: 0 <= k < i ==> bs[k].le != SENTINEL && prevLe <= bs[k].le < le
    requires forall k, l :: 0 <= k < l < i ==> bs[k].le <= bs[l].le
    ensures Scan(bs, target, prevLe, prevCount) < le
    decreases i
  {
    hide Interpolate;
    if i == 0 {
      StrictlyInside(prevLe, le, target, prevCount, bs[0].count);
    } else if bs[0].count >= target {
      InterpolationBounds(prevLe, bs[0].le, target, prevCount, bs[0].count);
    } else {
      assert forall k :: 0 <= k < |bs| - 1 ==> bs[1..][k] == bs[k + 1];
      ScanBelow(bs[1..], target, bs[0].le, bs[0].count, i - 1, le);
    }
  }

  lemma FlatInterpolation(le: real, target: real, low: real, high: real)
    requires low != high
    ensures Interpolate(le, le, target, low, high) == le
  {
    assert (le - le) * (target - low) == 0.0;
    assert 0.0 / (high - low) == 0.0;
  }

  /** Among buckets of one bound the scan that comes from one of them stops at it. */
  lemma {:induction false} ScanWithin(bs: seq<Bucket>, target: real, prevCount: real, m: nat, le: real)
    requires m < |bs| && bs[m].count >= target && le != SENTINEL && forall k :: 0 <= k <= m ==> bs[k].le == le
    ensures Scan(bs, target, le, prevCount) == le
    decreases m
  {
    hide Interpolate;
    if bs[0].count >= target {
      if bs[0].count != prevCount { FlatInterpolation(le, target, prevCount, bs[0].count); }
    } else {
      assert forall k :: 0 <= k < |bs| - 1 ==> bs[1..][k] == bs[k + 1];
      ScanWithin(bs[1..], target, bs[0].count, m - 1, le);
    }
  }

  /** Where the buckets up to one of bound le hold less than the target, and a later
      one of that bound enough, the scan stops at le. */
  lemma {:induction false} ScanAt(bs: seq<Bucket>, target: real, prevLe: real, prevCount: real, i: nat, m: nat, le: real)
    requires i < m < |bs| && bs[m].count >= target && le != SENTINEL && forall k :: i <= k <= m ==> bs[k].le == le
    requires forall k :: 0 <= k <= i ==> bs[k].le != SENTINEL && bs[k].count < target
    ensures Scan(bs, target, prevLe, prevCount) == le
    decreases i
  {
    hide Interpolate;
    assert forall k :: 0 <= k < |bs| - 1 ==> bs[1..][k] == bs[k + 1];
    if i == 0 {
      ScanWithin(bs[1..], target, bs[0].count, m - 1, le);
    } else {
      ScanAt(bs[1..], target, bs[0].le, bs[0].count, i - 1, m - 1, le);
    }
  }

  // ---- the buckets of one bound ----

  /** The buckets of the bound at i lie from i to j. */
  predicate Group(bs: seq<Bucket>, i: int, j: int) {
    && 0 <= i <= j < |bs| && bs[i].le != SENTINEL
    && forall k :: 0 <= k < |bs| ==> (bs[k].le == bs[i].le <==> i <= k <= j)
  }

  lemma Between(bs: seq<Bucket>, k: int, l: int, m: int)
    requires Ordered(bs) && 0 <= k <= l <= m < |bs| && bs[k].le == bs[m].le && bs[k].le != SENTINEL
    ensures bs[l].le == bs[k].le
  {
    assert k < l ==> !Before(bs[l], bs[k]);
    assert l < m ==> !Before(bs[m], bs[l]);
  }

  lemma {:induction false} GroupStart(bs: seq<Bucket>, p: int) returns (i: int)
    requires Ordered(bs) && 0 <= p < |bs| && bs[p].le != SENTINEL
    ensures 0 <= i <= p && bs[i].le == bs[p].le && forall k :: 0 <= k < i ==> bs[k].le != bs[p].le
    decreases p
  {
    hide Ordered;
    if k :| 0 <= k < p && bs[k].le == bs[p].le { i := GroupStart(bs, k); } else { i := p; }
  }

  lemma {:induction false} GroupEnd(bs: seq<Bucket>, p: int) returns (j: int)
    requires Ordered(bs) && 0 <= p < |bs| && bs[p].le != SENTINEL
    ensures p <= j < |bs| && bs[j].le == bs[p].le && forall k :: j < k < |bs| ==> bs[k].le != bs[p].le
    decreases |bs| - p
  {
    hide Ordered;
    if k :| p < k < |bs| && bs[k].le == bs[p].le { j := GroupEnd(bs, k); } else { j := p; }
  }

  lemma FindGroup(bs: seq<Bucket>, p: int) returns (i: int, j: int)
    requires Ordered(bs) && 0 <= p < |bs| && bs[p].le != SENTINEL
    ensures Group(bs, i, j) && i <= p <= j
  {
    i := GroupStart(bs, p);
    j := GroupEnd(bs, p);
    forall k | i <= k <= j ensures bs[k].le == bs[i].le { Between(bs, i, k, j); }
  }

  lemma SameGroup(s: seq<Bucket>, a: seq<Bucket>, i: int, j: int)
    requires Group(s, i, j) && |a| == |s| && forall k :: 0 <= k < |s| ==> a[k].le == s[k].le
    ensures Group(a, i, j)
  {}

  /** Two buckets of one bound brought to the ends of its group. */
  lemma Arranged(s: seq<Bucket>, p: int, q: int) returns (a: seq<Bucket>, i: int, j: int)
    requires Ordered(s) && 0 <= p < |s| && 0 <= q < |s| && p != q && s[p].le == s[q].le && s[p].le != SENTINEL
    ensures Ordered(a) && multiset(a) == multiset(s) && Group(a, i, j) && i < j && a[i] == s[p] && a[j] == s[q]
  {
    i, j := FindGroup(s, p);
    assert s[i].le == s[j].le == s[p].le && i <= q <= j;
    hide Ordered, Group, Exchange;
    Exchanged(s, i, p);
    var first := Exchange(s, i, p);
    var r := if q == i then p else q;
    assert first[i] == s[p] && first[r] == s[q] && r != i;
    assert i < j;
    assert first[j].le == first[r].le;
    Exchanged(first, j, r);
    a := Exchange(first, j, r);
    assert a[i] == first[i] && a[j] == first[r];
    assert Group(a, i, j) by { SameGroup(s, a, i, j); }
  }

  /** What stands around a group: lower bounds and counts in front, and at the end
      a count that is no lower. */
  lemma AroundGroup(a: seq<Bucket>, i: int, j: int)
    requires Ordered(a) && Plausible(a) && Group(a, i, j)
    ensures 0.0 < a[i].le && 0.0 <= a[i].count && a[i].le != SENTINEL && forall k :: i <= k <= j ==> a[k].le == a[i].le
    ensures forall k :: 0 <= k < i ==> a[k].le != SENTINEL && 0.0 <= a[k].le < a[i].le && a[k].count <= a[i].count
    ensures forall k, l :: 0 <= k < l < i ==> a[k].le <= a[l].le
    ensures j < |a| - 1 ==> a[|a| - 1].count >= a[j].count
  {
    forall k | 0 <= k < i ensures a[k].le != SENTINEL && a[k].le < a[i].le && a[k].count <= a[i].count {
      assert !Before(a[i], a[k]) && Rises(a[k], a[i]);
    }
    forall k, l | 0 <= k < l < i ensures a[k].le <= a[l].le { assert !Before(a[l], a[k]); }
    if j < |a| - 1 {
      assert !Before(a[|a| - 1], a[j]) && Rises(a[j], a[|a| - 1]);
    }
  }

  /** The two ends of the last group exchanged: the largest value tells. */
  lemma LastEndsTell(a: seq<Bucket>, i: int, j: int)
    requires Ordered(a) && Plausible(a) && Group(a, i, j) && i < j == |a| - 1 && a[i].count < a[j].count
    ensures Quantile(a, 1.0) != Quantile(Exchange(a, i, j), 1.0)
  {
    var b := Exchange(a, i, j);
    var le, low, high := a[i].le, a[i].count, a[j].count;
    AroundGroup(a, i, j);
    hide Ordered, Plausible, Group, Scan, Exchange;
    assert TargetOf(1.0, high) == high && TargetOf(1.0, low) == low;
    hide TargetOf;
    assert Quantile(a, 1.0) == le by { ScanAt(a, high, 0.0, 0.0, i, j, le); }
    assert Quantile(b, 1.0) < le by {
      if low > 0.0 { BelowInExchanged(a, i, j, low); }
    }
  }

  lemma BelowInExchanged(a: seq<Bucket>, i: int, j: int, target: real)
    requires Ordered(a) && Plausible(a) && Group(a, i, j) && i < j && 0.0 < target < a[j].count
    ensures Scan(Exchange(a, i, j), target, 0.0, 0.0) < a[i].le
  {
    AroundGroup(a, i, j);
    hide Ordered, Plausible, Group, Scan, Exchange;
    ScanBelow(Exchange(a, i, j), target, 0.0, 0.0, i, a[i].le);
  }

  lemma HalfWay(low: real, high: real, total: real) returns (q: real)
    requires 0.0 <= low < high <= total
    ensures 0.0 <= q <= 1.0 && low < TargetOf(q, total) < high
  {
    var target := (low + high) / 2.0;
    q := target / total;
    assert q * total == target;
    if q > 1.0 { PositiveProduct(q - 1.0, total); }
    if q < 0.0 { PositiveProduct(0.0 - q, total); }
    assert (q - 1.0) * total == target - total && (0.0 - q) * total == 0.0 - target;
  }

  /** In front of other buckets: a target between their counts does. */
  lemma InnerEndsTell(a: seq<Bucket>, i: int, j: int) returns (q: real)
    requires Ordered(a) && Plausible(a) && Group(a, i, j) && i < j < |a| - 1 && a[i].count < a[j].count
    ensures 0.0 <= q <= 1.0 && Quantile(a, q) != Quantile(Exchange(a, i, j), q)
  {
    var b := Exchange(a, i, j);
    var le, total := a[i].le, a[|a| - 1].count;
    AroundGroup(a, i, j);
    q := HalfWay(a[i].count, a[j].count, total);
    var target := TargetOf(q, total);
    hide Ordered, Scan, TargetOf, Exchange;
    BelowInExchanged(a, i, j, target);
    hide Plausible, Group;
    assert Quantile(a, q) == le by { ScanAt(a, target, 0.0, 0.0, i, j, le); }
    assert Quantile(b, q) == Scan(b, target, 0.0, 0.0);
  }

  /** Some order of plausible buckets with two counts for a bound, and another, that
      a quantile tells apart. */
  lemma OrdersDiffer(collected: seq<Bucket>) returns (a: seq<Bucket>, b: seq<Bucket>, q: real)
    requires Plausible(collected) && !OneCountEach(collected)
    ensures Ordered(a) && Ordered(b) && multiset(a) == multiset(collected) == multiset(b)
    ensures 0.0 <= q <= 1.0 && Quantile(a, q) != Quantile(b, q)
  {
    var s := Sortable(collected);
    PlausiblePermuted(collected, s);
    var p, r := TwoCounts(collected, s);
    hide OneCountEach, Ordered, Plausible, Quantile, Exchange, Group;
    var i, j;
    a, i, j := Arranged(s, p, r);
    PlausiblePermuted(s, a);
    assert a[i].le == a[j].le by { GroupEnds(a, i, j); }
    if j == |a| - 1 {
      q := 1.0;
      LastEndsTell(a, i, j);
    } else {
      GroupEnds(a, i, j);
      q := InnerEndsTell(a, i, j);
    }
    Exchanged(a, i, j);
    b := Exchange(a, i, j);
  }

  lemma GroupEnds(a: seq<Bucket>, i: int, j: int)
    requires Group(a, i, j)
    ensures a[i].le == a[j].le && 0 <= i <= j < |a|
  {}

  lemma TwoCounts(collected: seq<Bucket>, s: seq<Bucket>) returns (p: int, r: int)
    requires multiset(s) == multiset(collected) && !OneCountEach(collected) && Plausible(s)
    ensures 0 <= p < |s| && 0 <= r < |s| && p != r && s[p].le == s[r].le && s[p].le != SENTINEL && s[p].count < s[r].count
  {
    if OneCountEach(s) { SameBuckets(s, collected); }
    p, r :| 0 <= p < |s| && 0 <= r < |s| && s[p].le == s[r].le && s[p] != s[r];
    assert Rises(s[p], s[r]);
    if s[p].count > s[r].count { p, r := r, p; }
  }

  /** The quantiles of collected buckets do not depend on the order they were
      collected in, nor on how the sort leaves ties, exactly when no two of one
      bound differ in their count. */
  lemma OrderIsFreeExactly(collected: seq<Bucket>)
    requires Plausible(collected)
    ensures (forall a, b, q :: 0.0 <= q <= 1.0 && Ordered(a) && Ordered(b) && multiset(a) == multiset(collected) == multiset(b) ==>
               Quantile(a, q) == Quantile(b, q))
            <==> OneCountEach(collected)
  {
    SortedOneWayExactly(collected);
    hide OneCountEach, Ordered, Plausible, Quantile;
    if !OneCountEach(collected) {
      var a, b, q := OrdersDiffer(collected);
      assert Quantile(a, q) != Quantile(b, q);
    }
  }

  // ---- metrics that do ----

  const NAME := "d"
  const ONE := "1"
  const ONE_POINT_ZERO := "1.0"

  /** Reads both as the number one. */
  function ParseOnes(t: string): Maybe<real> { if t == ONE || t == ONE_POINT_ZERO then Just(1.0) else Nothing }

  /** Two series whose bounds are one number, counting 1 and 2. */
  function TwoSeries(): map<string, real> { map[SeriesText(NAME, ONE) := 1.0, SeriesText(NAME, ONE_POINT_ZERO) := 2.0] }

  lemma SeriesDiffer()
    ensures SeriesText(NAME, ONE) != SeriesText(NAME, ONE_POINT_ZERO)
  {
    assert |SeriesText(NAME, ONE)| + 2 == |SeriesText(NAME, ONE_POINT_ZERO)|;
  }

  lemma CollectedTwo(metrics: map<string, real>, m: string, n: string, x: Bucket, y: Bucket)
    requires m in metrics && n in metrics
    requires BucketOf(ParseOnes, NAME, m, metrics[m]) == [x] && BucketOf(ParseOnes, NAME, n, metrics[n]) == [y]
    ensures (forall i :: 0 <= i < 2 ==> [m, n][i] in metrics) && Collected(ParseOnes, NAME, metrics, [m, n]) == [x, y]
  {
    hide BucketOf;
    assert [m, n][..1] == [m] && [m][..0] == [];
    assert Collected(ParseOnes, NAME, metrics, []) == [];
    assert Collected(ParseOnes, NAME, metrics, [m]) == [] + [x];
  }

  /** Visited in one order the 0.75 quantile of these metrics is 1, in the other
      0.375; both collect their buckets already sorted. */
  lemma VisitingOrderMatters()
    ensures var m, n := SeriesText(NAME, ONE), SeriesText(NAME, ONE_POINT_ZERO);
            && Visits([m, n], TwoSeries()) && Visits([n, m], TwoSeries())
            && var a, b := Collected(ParseOnes, NAME, TwoSeries(), [m, n]), Collected(ParseOnes, NAME, TwoSeries(), [n, m]);
               Ordered(a) && Ordered(b) && Plausible(a) && Quantile(a, 0.75) == 1.0 && Quantile(b, 0.75) == 0.375
  {
    var m, n := SeriesText(NAME, ONE), SeriesText(NAME, ONE_POINT_ZERO);
    var metrics := TwoSeries();
    var x, y := Bucket(1.0, 1.0), Bucket(1.0, 2.0);
    SeriesDiffer();
    SeriesRead(ParseOnes, NAME, ONE, 1.0);
    SeriesRead(ParseOnes, NAME, ONE_POINT_ZERO, 2.0);
    assert ONE != INFINITY && ONE_POINT_ZERO != INFINITY;
    hide SeriesText, BucketOf, Collected, NAME, ONE, ONE_POINT_ZERO;
    CollectedTwo(metrics, m, n, x, y);
    CollectedTwo(metrics, n, m, y, x);
    QuantilesOfTwo(x, y);
  }

  lemma QuantilesOfTwo(x: Bucket, y: Bucket)
    requires x == Bucket(1.0, 1.0) && y == Bucket(1.0, 2.0)
    ensures Quantile([x, y], 0.75) == 1.0 && Quantile([y, x], 0.75) == 0.375
  {
    assert [x, y][1..] == [y];
    assert TargetOf(0.75, 2.0) == 1.5 && TargetOf(0.75, 1.0) == 0.75;
    assert Scan([y], 1.5, 1.0, 1.0) == Interpolate(1.0, 1.0, 1.5, 1.0, 2.0) == 1.0;
    assert Interpolate(0.0, 1.0, 0.75, 0.0, 2.0) == 0.375;
  }
}
