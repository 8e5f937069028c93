/** The latency quantile of the load driver, from cumulative histogram buckets.
    Floating point is modelled by the reals. */
module Histogram {

  /** A bucket; the bound -1 marks the +Inf bucket. */
  datatype Bucket = Bucket(le: real, count: real)

  const SENTINEL: real := -1.0

  // ---- sorting ----

  /** The comparison given to the sort: the +Inf bucket comes last. */
  predicate Before(a: Bucket, b: Bucket) {
    if a.le == SENTINEL then false else if b.le == SENTINEL then true else a.le < b.le
  }

  predicate Ordered(bs: seq<Bucket>) { forall i, j :: 0 <= i < j < |bs| ==> !Before(bs[j], bs[i]) }

  /** Everything up to n is in order, except that the bucket at k may still have
      to move left. */
  ghost predicate OrderedBut(bs: seq<Bucket>, k: int, n: int) {
    0 <= k < n <= |bs| && forall i, j :: 0 <= i < j < n && j != k ==> !Before(bs[j], bs[i])
  }

  method SortBuckets(a: array<Bucket>)
    modifies a
    ensures Ordered(a[..]) && multiset(a[..]) == multiset(old(a[..]))
  {
    var n := 0;
    while n < a.Length
      invariant 0 <= n <= a.Length && Ordered(a[..n])
      invariant multiset(a[..]) == multiset(old(a[..]))
    {
      InsertBucket(a, n);
      n := n + 1;
    }
    assert a[..n] == a[..];
  }

  lemma MovesLeft(bs: seq<Bucket>, k: int, n: int, moved: seq<Bucket>)
    requires OrderedBut(bs, k, n) && k > 0 && Before(bs[k], bs[k - 1])
    requires moved == bs[k := bs[k - 1]][k - 1 := bs[k]]
    ensures OrderedBut(moved, k - 1, n)
  {}

  lemma InPlace(bs: seq<Bucket>, k: int, n: int)
    requires OrderedBut(bs, k, n) && (k == 0 || !Before(bs[k], bs[k - 1]))
    ensures Ordered(bs[..n])
  {}

  lemma OneMore(bs: seq<Bucket>, n: int)
    requires 0 <= n < |bs| && Ordered(bs[..n])
    ensures OrderedBut(bs, n, n + 1)
  {
    assert forall i :: 0 <= i < n ==> bs[..n][i] == bs[i];
  }

  /** Moves the bucket at n left to its place. */
  method InsertBucket(a: array<Bucket>, n: nat)
    requires n < a.Length && Ordered(a[..n])
    modifies a
    ensures Ordered(a[..n + 1]) && multiset(a[..]) == multiset(old(a[..]))
  {
    hide Before, Ordered, OrderedBut;
    var k := n;
    assert a[..][..n] == a[..n];
    OneMore(a[..], n);
    while k > 0 && Before(a[k], a[k - 1])
      invariant 0 <= k <= n
      invariant multiset(a[..]) == multiset(old(a[..]))
      invariant OrderedBut(a[..], k, n + 1)
    {
      ghost var before := a[..];
      a[k], a[k - 1] := a[k - 1], a[k];
      assert a[..] == before[k := before[k - 1]][k - 1 := before[k]];
      MovesLeft(before, k, n + 1, a[..]);
      k := k - 1;
    }
    InPlace(a[..], k, n + 1);
    assert a[..][..n + 1] == a[..n + 1];
  }

  // ---- the scan ----

  /** The point of a bucket that a target falls on, by linear interpolation. */
  function Interpolate(prevLe: real, le: real, target: real, low: real, high: real): real
    requires low != high
  {
    prevLe + (le - prevLe) * (target - low) / (high - low)
  }

  function Scan(bs: seq<Bucket>, target: real, prevLe: real, prevCount: real): real {
    if bs == [] || bs[0].le == SENTINEL then prevLe
    else if bs[0].count >= target then
      if bs[0].count == prevCount then bs[0].le
      else Interpolate(prevLe, bs[0].le, target, prevCount, bs[0].count)
    else Scan(bs[1..], target, bs[0].le, bs[0].count)
  }

  function TargetOf(q: real, total: real): real { q * total }

  /** The quantile of buckets in order. */
  function Quantile(bs: seq<Bucket>, q: real): real {
    if bs == [] then -1.0
    else
      var total := bs[|bs| - 1].count;
      if total == 0.0 then -1.0 else Scan(bs, TargetOf(q, total), 0.0, 0.0)
  }

  // ---- bounds ----

  /** Finite bounds that do not fall, cumulative counts that do not fall, and the
      sentinel, if any, at the end; no bound or count falls below those given. */
  predicate Cumulative(bs: seq<Bucket>, le: real, count: real) {
    bs == [] ||
    (&& count <= bs[0].count
     && if bs[0].le == SENTINEL then forall j :: 0 <= j < |bs| ==> bs[j] == bs[0] else le <= bs[0].le && Cumulative(bs[1..], bs[0].le, bs[0].count))
  }

  /** The bound of the last finite bucket, or the given one when there is none. */
  function LargestBound(bs: seq<Bucket>, le: real): real {
    if bs == [] || bs[0].le == SENTINEL then le else LargestBound(bs[1..], bs[0].le)
  }

  lemma PositiveProduct(a: real, b: real)
    requires a > 0.0 && b > 0.0
    ensures a * b > 0.0
  {}

  lemma NonNegativeProduct(a: real, b: real)
    requires a >= 0.0 && b >= 0.0
    ensures a * b >= 0.0
  {}

  lemma Products(d: real, x: real, y: real)
    requires d >= 0.0 && x <= y
    ensures d * x <= d * y
  {
    NonNegativeProduct(d, y - x);
    assert d * (y - x) == d * y - d * x;
  }

  lemma Quotients(a: real, b: real, w: real)
    requires a <= b && w > 0.0
    ensures a / w <= b / w
  {
    var x, y := a / w, b / w;
    assert x * w == a && y * w == b;
    assert (x - y) * w == x * w - y * w;
    if x > y { PositiveProduct(x - y, w); }
  }

  lemma Regroup(d: real, a: real, b: real)
    requires b != 0.0
    ensures d * a / b == d * (a / b)
  {
    var x := a / b;
    assert x * b == a;
    assert d * a == (d * x) * b;
  }

  lemma InterpolationRises(prevLe: real, le: real, s: real, t: real, low: real, high: real)
    requires prevLe <= le && s <= t && low < high
    ensures Interpolate(prevLe, le, s, low, high) <= Interpolate(prevLe, le, t, low, high)
  {
    var d, w := le - prevLe, high - low;
    Regroup(d, s - low, w);
    Regroup(d, t - low, w);
    Quotients(s - low, t - low, w);
    Products(d, (s - low) / w, (t - low) / w);
  }

  lemma InterpolationEnds(prevLe: real, le: real, low: real, high: real)
    requires low < high
    ensures Interpolate(prevLe, le, low, low, high) == prevLe && Interpolate(prevLe, le, high, low, high) == le
  {
    var d, w := le - prevLe, high - low;
    assert d * (low - low) == 0.0 && 0.0 / w == 0.0;
    Regroup(d, w, w);
    assert w / w == 1.0;
  }

  lemma InterpolationBounds(prevLe: real, le: real, target: real, low: real, high: real)
    requires prevLe <= le && low <= target <= high && low < high
    ensures prevLe <= Interpolate(prevLe, le, target, low, high) <= le
  {
    hide Interpolate;
    InterpolationEnds(prevLe, le, low, high);
    InterpolationRises(prevLe, le, low, target, low, high);
    InterpolationRises(prevLe, le, target, high, low, high);
  }

  lemma {:induction false} LargestBoundRises(bs: seq<Bucket>, le: real, count: real)
    requires Cumulative(bs, le, count)
    ensures le <= LargestBound(bs, le)
  {
    if bs != [] && bs[0].le != SENTINEL { LargestBoundRises(bs[1..], bs[0].le, bs[0].count); }
  }

  lemma {:induction false} ScanBounds(bs: seq<Bucket>, target: real, prevLe: real, prevCount: real)
    requires Cumulative(bs, prevLe, prevCount) && prevCount <= target
    ensures prevLe <= Scan(bs, target, prevLe, prevCount) <= LargestBound(bs, prevLe)
  {
    hide Interpolate;
    LargestBoundRises(bs, prevLe, prevCount);
    if bs != [] && bs[0].le != SENTINEL {
      LargestBoundRises(bs[1..], bs[0].le, bs[0].count);
      if bs[0].count >= target {
        if bs[0].count != prevCount {
          InterpolationBounds(prevLe, bs[0].le, target, prevCount, bs[0].count);
        }
      } else {
        ScanBounds(bs[1..], target, bs[0].le, bs[0].count);
      }
    }
  }

  /** A quantile lies between zero and the largest finite bound. */
  lemma QuantileBounded(bs: seq<Bucket>, q: real)
    requires Cumulative(bs, 0.0, 0.0) && 0.0 <= q <= 1.0
    ensures Quantile(bs, q) == -1.0 || 0.0 <= Quantile(bs, q) <= LargestBound(bs, 0.0)
    ensures Quantile(bs, q) == -1.0 <==> bs == [] || bs[|bs| - 1].count == 0.0
  {
    if bs != [] && bs[|bs| - 1].count != 0.0 {
      var total := bs[|bs| - 1].count;
      TotalNonNegative(bs, 0.0, 0.0);
      TargetBounds(q, q, total);
      hide TargetOf, Scan, Cumulative, LargestBound;
      ScanBounds(bs, TargetOf(q, total), 0.0, 0.0);
    }
  }

  lemma TargetBounds(p: real, q: real, total: real)
    requires 0.0 <= p <= q && total >= 0.0
    ensures 0.0 <= TargetOf(p, total) <= TargetOf(q, total)
  {
    NonNegativeProduct(p, total);
    Products(total, p, q);
  }

  lemma {:induction false} TotalNonNegative(bs: seq<Bucket>, le: real, count: real)
    requires bs != [] && Cumulative(bs, le, count)
    ensures count <= bs[|bs| - 1].count
  {
    if |bs| > 1 {
      TotalNonNegative(bs[1..], bs[0].le, bs[0].count);
    }
  }

  // ---- the bucket it falls in ----

  /** The first finite bucket whose count reaches the target. */
  predicate Reaches(bs: seq<Bucket>, target: real, i: int) {
    0 <= i < |bs| && bs[i].le != SENTINEL && bs[i].count >= target && forall j :: 0 <= j < i ==> bs[j].count < target
  }

  /** The result lies within the bucket that first reaches the target. */
  lemma {:induction false} ScanLands(bs: seq<Bucket>, target: real, prevLe: real, prevCount: real, i: int)
    requires Cumulative(bs, prevLe, prevCount) && prevCount <= target && Reaches(bs, target, i)
    ensures (if i == 0 then prevLe else bs[i - 1].le) <= Scan(bs, target, prevLe, prevCount) <= bs[i].le
    decreases |bs|
  {
    hide Interpolate;
    if i == 0 {
      ScanInFirst(bs, target, prevLe, prevCount);
    } else {
      assert bs[0].count < target && bs[0].le != SENTINEL;
      forall j | 0 <= j < |bs[1..]| ensures bs[1..][j] == bs[j + 1] {}
      ScanLands(bs[1..], target, bs[0].le, bs[0].count, i - 1);
      assert i > 1 ==> bs[1..][i - 2] == bs[i - 1];
    }
  }

  ghost predicate Unreached(bs: seq<Bucket>, target: real) { forall i :: !Reaches(bs, target, i) }

  /** When no finite bucket reaches it, the result is the largest finite bound. */
  lemma {:induction false} ScanBeyond(bs: seq<Bucket>, target: real, prevLe: real, prevCount: real)
    requires Unreached(bs, target)
    ensures Scan(bs, target, prevLe, prevCount) == LargestBound(bs, prevLe)
    decreases |bs|
  {
    hide Interpolate;
    if bs != [] && bs[0].le != SENTINEL {
      assert !Reaches(bs, target, 0);
      forall i ensures !Reaches(bs[1..], target, i) {
        assert Reaches(bs[1..], target, i) ==> Reaches(bs, target, i + 1) by {
          assert forall j :: 1 <= j < |bs| ==> bs[j] == bs[1..][j - 1];
        }
      }
      ScanBeyond(bs[1..], target, bs[0].le, bs[0].count);
    }
  }

  lemma QuantileIsScan(bs: seq<Bucket>, q: real)
    requires Cumulative(bs, 0.0, 0.0) && 0.0 <= q <= 1.0 && bs != [] && bs[|bs| - 1].count != 0.0
    ensures var target := TargetOf(q, bs[|bs| - 1].count); 0.0 <= target && Quantile(bs, q) == Scan(bs, target, 0.0, 0.0)
  {
    TotalNonNegative(bs, 0.0, 0.0);
    TargetBounds(q, q, bs[|bs| - 1].count);
    hide Cumulative, Scan, TargetOf;
  }

  /** The quantile lies in the first finite bucket whose count reaches q times the
      total, and is the largest finite bound when none does. */
  lemma QuantileLands(bs: seq<Bucket>, q: real)
    requires Cumulative(bs, 0.0, 0.0) && 0.0 <= q <= 1.0 && bs != [] && bs[|bs| - 1].count != 0.0
    ensures var target := TargetOf(q, bs[|bs| - 1].count);
            && (forall i :: Reaches(bs, target, i) ==> (if i == 0 then 0.0 else bs[i - 1].le) <= Quantile(bs, q) <= bs[i].le)
            && (Unreached(bs, target) ==> Quantile(bs, q) == LargestBound(bs, 0.0))
  {
    var target := TargetOf(q, bs[|bs| - 1].count);
    QuantileIsScan(bs, q);
    hide Scan, TargetOf, Cumulative, LargestBound, Quantile, Reaches, Unreached;
    forall i | Reaches(bs, target, i)
      ensures 0 <= i < |bs| && (if i == 0 then 0.0 else bs[i - 1].le) <= Quantile(bs, q) <= bs[i].le
    {
      ReachesInside(bs, target, i);
      ScanLands(bs, target, 0.0, 0.0, i);
    }
    if Unreached(bs, target) { ScanBeyond(bs, target, 0.0, 0.0); }
  }

  lemma ReachesInside(bs: seq<Bucket>, target: real, i: int)
    requires Reaches(bs, target, i)
    ensures 0 <= i < |bs|
  {}

  lemma ScanInFirst(bs: seq<Bucket>, target: real, prevLe: real, prevCount: real)
    requires Cumulative(bs, prevLe, prevCount) && prevCount <= target
    requires bs != [] && bs[0].le != SENTINEL && bs[0].count >= target
    ensures prevLe <= Scan(bs, target, prevLe, prevCount) <= bs[0].le
  {
    hide Interpolate;
    if bs[0].count != prevCount { InterpolationBounds(prevLe, bs[0].le, target, prevCount, bs[0].count); }
  }

  // ---- monotone in q ----

  lemma {:induction false} ScanRises(bs: seq<Bucket>, s: real, t: real, prevLe: real, prevCount: real)
    requires Cumulative(bs, prevLe, prevCount) && prevCount <= s <= t
    ensures Scan(bs, s, prevLe, prevCount) <= Scan(bs, t, prevLe, prevCount)
  {
    hide Interpolate;
    if bs != [] && bs[0].le != SENTINEL {
      var b := bs[0];
      if b.count >= t {
        if b.count != prevCount { InterpolationRises(prevLe, b.le, s, t, prevCount, b.count); }
      } else if b.count >= s {
        ScanInFirst(bs, s, prevLe, prevCount);
        ScanBounds(bs[1..], t, b.le, b.count);
      } else {
        ScanRises(bs[1..], s, t, b.le, b.count);
      }
    }
  }

  /** A higher quantile is never smaller. */
  lemma QuantileRises(bs: seq<Bucket>, p: real, q: real)
    requires Cumulative(bs, 0.0, 0.0) && 0.0 <= p <= q <= 1.0
    ensures Quantile(bs, p) <= Quantile(bs, q)
  {
    if bs != [] && bs[|bs| - 1].count != 0.0 {
      var total := bs[|bs| - 1].count;
      TotalNonNegative(bs, 0.0, 0.0);
      TargetBounds(p, q, total);
      hide TargetOf, Scan, Cumulative;
      ScanRises(bs, TargetOf(p, total), TargetOf(q, total), 0.0, 0.0);
    }
  }

  // ---- from the metrics to the scan ----

  /** What a cumulative histogram is, in whatever order its series come: bounds
      are not negative, each has one count, and counts rise with them. */
  predicate Regular(bs: seq<Bucket>) {
    && (forall i :: 0 <= i < |bs| ==> bs[i].count >= 0.0 && (bs[i].le == SENTINEL || bs[i].le >= 0.0))
    && forall i, j :: 0 <= i < |bs| && 0 <= j < |bs| ==> Agree(bs[i], bs[j])
  }

  predicate Agree(x: Bucket, y: Bucket) { (Before(x, y) ==> x.count <= y.count) && (x.le == y.le ==> x == y) }

  lemma RegularPermuted(a: seq<Bucket>, b: seq<Bucket>)
    requires multiset(a) == multiset(b) && Regular(a)
    ensures Regular(b)
  {
    hide Agree;
    forall i | 0 <= i < |b| ensures exists k :: 0 <= k < |a| && a[k] == b[i] {
      assert b[i] in multiset(a);
    }
    forall i, j | 0 <= i < |b| && 0 <= j < |b| ensures Agree(b[i], b[j]) {
      var k :| 0 <= k < |a| && a[k] == b[i];
      var l :| 0 <= l < |a| && a[l] == b[j];
      assert Agree(a[k], a[l]);
    }
  }

  predicate AtLeast(bs: seq<Bucket>, le: real, count: real) {
    forall i :: 0 <= i < |bs| ==> count <= bs[i].count && (bs[i].le == SENTINEL || le <= bs[i].le)
  }

  /** The first bucket bounds the rest; nothing but itself follows the sentinel. */
  lemma FirstBounds(bs: seq<Bucket>)
    requires bs != [] && Ordered(bs) && Regular(bs)
    ensures Ordered(bs[1..]) && Regular(bs[1..])
    ensures if bs[0].le == SENTINEL then forall j :: 0 <= j < |bs| ==> bs[j] == bs[0] else AtLeast(bs[1..], bs[0].le, bs[0].count)
  {
    forall j | 0 < j < |bs|
      ensures if bs[0].le == SENTINEL then bs[j] == bs[0] else bs[0].count <= bs[j].count && (bs[j].le == SENTINEL || bs[0].le <= bs[j].le)
    {
      assert !Before(bs[j], bs[0]) && Agree(bs[0], bs[j]);
    }
  }

  lemma {:induction false} OrderedIsCumulative(bs: seq<Bucket>, le: real, count: real)
    requires Ordered(bs) && Regular(bs) && AtLeast(bs, le, count)
    ensures Cumulative(bs, le, count)
    decreases |bs|
  {
    if bs != [] {
      FirstBounds(bs);
      hide Ordered, Regular;
      if bs[0].le != SENTINEL { OrderedIsCumulative(bs[1..], bs[0].le, bs[0].count); }
    }
  }

  /** Whatever order the buckets of a cumulative histogram are collected in, those
      the scan sees are in the order its guarantees ask for. */
  lemma SortedIsCumulative(collected: seq<Bucket>, sorted: seq<Bucket>)
    requires Ordered(sorted) && multiset(sorted) == multiset(collected) && Regular(collected)
    ensures Cumulative(sorted, 0.0, 0.0)
  {
    RegularPermuted(collected, sorted);
    OrderedIsCumulative(sorted, 0.0, 0.0);
  }
}
