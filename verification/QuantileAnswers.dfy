/** What the latency quantile is, told from the scraped text and the bounds and
    counts, without the scan. */
module QuantileAnswers {
  import opened Histogram
  import H = HistogramSeries

  // ---- which series have a bucket ----

  /** The metric is the name, `_bucket{le="` and the bound, usually closed by a
      quotation mark and a brace. */
  predicate Bounds(name: string, metric: string, le: string) {
    || metric == name + "_bucket{le=\"" + le + "\"}"
    || (metric == name + "_bucket{le=\"" + le && !H.EndsWith(le, "\"}"))
  }

  predicate IsBound(parse: H.Parser, le: string, bound: real) {
    if le == "+Inf" then bound == -1.0 else parse(le) == H.Just(bound)
  }

  lemma Trimmed(name: string, metric: string, le: string)
    ensures Bounds(name, metric, le) <==>
            && H.StartsWith(metric, H.SeriesPrefix(name))
            && le == H.TrimSuffix(H.TrimPrefix(metric, H.SeriesPrefix(name)), H.SERIES_SUFFIX)
  {
    var p := H.SeriesPrefix(name);
    if H.StartsWith(metric, p) {
      var rest := metric[|p|..];
      assert metric == p + rest;
      if H.EndsWith(rest, "\"}") {
        var cut := rest[..|rest| - 2];
        assert rest == cut + "\"}" && metric == p + cut + "\"}";
        if Bounds(name, metric, le) { TrimmedOnce(p, metric, rest, le); }
      } else if Bounds(name, metric, le) {
        TrimmedOnce(p, metric, rest, le);
      }
    } else if Bounds(name, metric, le) {
      BoundsStart(name, metric, le);
    }
  }

  lemma BoundsStart(name: string, metric: string, le: string)
    requires Bounds(name, metric, le)
    ensures H.StartsWith(metric, H.SeriesPrefix(name))
  {
    var p := H.SeriesPrefix(name);
    assert metric[..|p|] == p;
  }

  lemma TrimmedOnce(p: string, metric: string, rest: string, le: string)
    requires metric == p + rest
    requires metric == p + le + "\"}" || (metric == p + le && !H.EndsWith(le, "\"}"))
    ensures le == H.TrimSuffix(rest, "\"}")
  {
    if metric == p + le + "\"}" {
      assert metric == p + (le + "\"}");
      assert rest == metric[|p|..] == le + "\"}";
      assert rest[|le|..] == "\"}" && rest[..|le|] == le;
    } else {
      assert rest == metric[|p|..] == le;
    }
  }

  /** A metric gives at most one bucket, of its own value: that of its bound, if its
      text names one that is +Inf or a number. */
  lemma BucketExactly(parse: H.Parser, name: string, metric: string, value: real)
    ensures |H.BucketOf(parse, name, metric, value)| <= 1
    ensures forall b :: b in H.BucketOf(parse, name, metric, value) <==>
              b.count == value && exists le: string :: Bounds(name, metric, le) && IsBound(parse, le, b.le)
  {
    var le := H.TrimSuffix(H.TrimPrefix(metric, H.SeriesPrefix(name)), H.SERIES_SUFFIX);
    forall other: string ensures Bounds(name, metric, other) <==> H.StartsWith(metric, H.SeriesPrefix(name)) && other == le {
      Trimmed(name, metric, other);
    }
    hide Bounds, H.StartsWith, H.TrimPrefix, H.TrimSuffix, H.SeriesPrefix;
    forall b ensures b in H.BucketOf(parse, name, metric, value) <==>
              b.count == value && exists le: string :: Bounds(name, metric, le) && IsBound(parse, le, b.le)
    {
      assert IsBound(parse, le, b.le) ==> Bounds(name, metric, le) || !H.StartsWith(metric, H.SeriesPrefix(name));
    }
  }

  // ---- where the quantile lies ----

  /** The first bucket that is +Inf or whose count reaches the target. */
  predicate Stops(bs: seq<Bucket>, target: real, i: int) {
    && 0 <= i <= |bs|
    && (forall j :: 0 <= j < i ==> bs[j].le != -1.0 && bs[j].count < target)
    && (i < |bs| ==> bs[i].le == -1.0 || bs[i].count >= target)
  }

  /** x divides the bucket from low to high as the target divides its counts. */
  predicate Divides(x: real, low: real, high: real, target: real, before: real, after: real) {
    (x - low) * (after - before) == (target - before) * (high - low)
  }

  /** At the bound before a +Inf bucket or the end; at a bucket's bound when it adds
      no count; else on the line between its bounds. */
  predicate Lies(x: real, bs: seq<Bucket>, i: nat, target: real, low: real, before: real)
    requires i <= |bs|
  {
    if i == |bs| || bs[i].le == -1.0 then x == low
    else if bs[i].count == before then x == bs[i].le
    else Divides(x, low, bs[i].le, target, before, bs[i].count)
  }

  lemma InterpolationDivides(low: real, high: real, target: real, before: real, after: real)
    requires before != after
    ensures Divides(Interpolate(low, high, target, before, after), low, high, target, before, after)
  {
    var n, w := (high - low) * (target - before), after - before;
    assert n / w * w == n;
    assert Interpolate(low, high, target, before, after) == low + n / w;
  }

  lemma {:induction false} ScanExactly(bs: seq<Bucket>, target: real, low: real, before: real, i: nat)
    requires Stops(bs, target, i)
    ensures Lies(Scan(bs, target, low, before), bs, i, target,
                 if i == 0 then low else bs[i - 1].le, if i == 0 then before else bs[i - 1].count)
    decreases |bs|
  {
    hide Interpolate, Divides;
    if i == 0 {
      if bs != [] && bs[0].le != -1.0 && bs[0].count != before {
        InterpolationDivides(low, bs[0].le, target, before, bs[0].count);
      }
    } else {
      assert forall j :: 0 <= j < |bs| - 1 ==> bs[1..][j] == bs[j + 1];
      assert bs[0].le != -1.0 && bs[0].count < target;
      ScanExactly(bs[1..], target, bs[0].le, bs[0].count, i - 1);
    }
  }

  lemma {:induction false} StopsOnce(bs: seq<Bucket>, target: real)
    ensures exists i :: Stops(bs, target, i)
  {
    var i := 0;
    while i < |bs| && bs[i].le != -1.0 && bs[i].count < target
      invariant 0 <= i <= |bs|
      invariant forall j :: 0 <= j < i ==> bs[j].le != -1.0 && bs[j].count < target
    {
      i := i + 1;
    }
    assert Stops(bs, target, i);
  }

  /** The quantile of any buckets: -1 when there is nothing to count, else it lies
      where the first bucket that reaches q times the last count puts it. */
  lemma QuantileExactly(bs: seq<Bucket>, q: real)
    ensures bs == [] || bs[|bs| - 1].count == 0.0 ==> Quantile(bs, q) == -1.0
    ensures bs != [] && bs[|bs| - 1].count != 0.0 ==>
              var target := q * bs[|bs| - 1].count;
              exists i :: Stops(bs, target, i) &&
                Lies(Quantile(bs, q), bs, i, target, if i == 0 then 0.0 else bs[i - 1].le, if i == 0 then 0.0 else bs[i - 1].count)
  {
    if bs != [] && bs[|bs| - 1].count != 0.0 {
      var target := q * bs[|bs| - 1].count;
      StopsOnce(bs, target);
      var i :| Stops(bs, target, i);
      ScanExactly(bs, target, 0.0, 0.0, i);
      assert TargetOf(q, bs[|bs| - 1].count) == target;
      assert Quantile(bs, q) == Scan(bs, TargetOf(q, bs[|bs| - 1].count), 0.0, 0.0) by { hide Scan, TargetOf; }
    }
  }
}
