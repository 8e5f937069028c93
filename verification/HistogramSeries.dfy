/** From scraped metrics to the quantile: which series belong to a histogram, in
    what order their buckets are collected, and the sort and scan that follow. */
module HistogramSeries {
  import opened Histogram

  // ---- the series of a metric ----

  predicate StartsWith(t: string, p: string) { |p| <= |t| && t[..|p|] == p }

  predicate EndsWith(t: string, p: string) { |p| <= |t| && t[|t| - |p|..] == p }

  /** strings.TrimPrefix and strings.TrimSuffix */
  function TrimPrefix(t: string, p: string): string { if StartsWith(t, p) then t[|p|..] else t }

  function TrimSuffix(t: string, p: string): string { if EndsWith(t, p) then t[..|t| - |p|] else t }

  function SeriesPrefix(name: string): string { name + "_bucket{le=\"" }

  const SERIES_SUFFIX := "\"}"
  const INFINITY := "+Inf"

  datatype Maybe<+T> = Nothing | Just(value: T)

  /** strconv.ParseFloat, Nothing for an error. */
  type Parser = string -> Maybe<real>

  /** The bucket of one metric, if it is a series of this name with a bound. */
  function BucketOf(parse: Parser, name: string, metric: string, value: real): seq<Bucket> {
    if !StartsWith(metric, SeriesPrefix(name)) then []
    else
      var le := TrimSuffix(TrimPrefix(metric, SeriesPrefix(name)), SERIES_SUFFIX);
      if le == INFINITY then [Bucket(SENTINEL, value)]
      else match parse(le) case Nothing => [] case Just(x) => [Bucket(x, value)]
  }

  /** The buckets collected while the metrics are visited in an order. */
  function Collected(parse: Parser, name: string, metrics: map<string, real>, order: seq<string>): seq<Bucket>
    requires forall i :: 0 <= i < |order| ==> order[i] in metrics
  {
    if order == [] then []
    else
      var n := |order| - 1;
      Collected(parse, name, metrics, order[..n]) + BucketOf(parse, name, order[n], metrics[order[n]])
  }

  /** A Go map is visited in some order of its keys, each once. */
  predicate Visits(order: seq<string>, metrics: map<string, real>) {
    && (forall i :: 0 <= i < |order| ==> order[i] in metrics)
    && (forall k :: k in metrics ==> k in order)
    && forall i, j :: 0 <= i < j < |order| ==> order[i] != order[j]
  }

  /** A series with a bound has the text le="..." between its name and a brace. */
  function SeriesText(name: string, le: string): string { SeriesPrefix(name) + le + SERIES_SUFFIX }

  lemma TrimSeries(name: string, le: string)
    ensures StartsWith(SeriesText(name, le), SeriesPrefix(name))
    ensures TrimSuffix(TrimPrefix(SeriesText(name, le), SeriesPrefix(name)), SERIES_SUFFIX) == le
  {
    var t, p := SeriesText(name, le), SeriesPrefix(name);
    assert t == p + (le + SERIES_SUFFIX);
    assert t[..|p|] == p && t[|p|..] == le + SERIES_SUFFIX;
    var rest := le + SERIES_SUFFIX;
    assert rest[|le|..] == SERIES_SUFFIX && rest[..|le|] == le;
  }

  /** The series written for a bound gives the bucket of that bound. */
  lemma SeriesRead(parse: Parser, name: string, le: string, value: real)
    ensures BucketOf(parse, name, SeriesText(name, le), value)
         == if le == INFINITY then [Bucket(SENTINEL, value)]
            else match parse(le) case Nothing => [] case Just(x) => [Bucket(x, value)]
  {
    TrimSeries(name, le);
    hide StartsWith, TrimPrefix, TrimSuffix, SeriesText, SeriesPrefix;
  }

  lemma CollectedStep(parse: Parser, name: string, metrics: map<string, real>, front: seq<string>, last: string)
    requires forall i :: 0 <= i < |front + [last]| ==> (front + [last])[i] in metrics
    ensures (forall i :: 0 <= i < |front| ==> front[i] in metrics) && last in metrics
    ensures Collected(parse, name, metrics, front + [last])
         == Collected(parse, name, metrics, front) + BucketOf(parse, name, last, metrics[last])
  {
    hide BucketOf;
    var order := front + [last];
    assert order[..|front|] == front && order[|front|] == last;
    forall i | 0 <= i < |front| ensures front[i] in metrics { assert order[i] == front[i]; }
  }

  // ---- the quantile ----

  /** The first loop: the buckets of the metric, in the order the map is visited. */
  method Collect(metrics: map<string, real>, order: seq<string>, name: string, parse: Parser) returns (collected: seq<Bucket>)
    requires Visits(order, metrics)
    ensures collected == Collected(parse, name, metrics, order)
  {
    hide StartsWith, TrimPrefix, TrimSuffix, SeriesPrefix, Collected, INFINITY, SERIES_SUFFIX;
    collected := [];
    var k := 0;
    assert Collected(parse, name, metrics, order[..0]) == [] by { NothingCollected(parse, name, metrics); }
    while k < |order|
      invariant 0 <= k <= |order| && collected == Collected(parse, name, metrics, order[..k])
    {
      var metric := order[k];
      assert order[..k + 1] == order[..k] + [metric];
      CollectedStep(parse, name, metrics, order[..k], metric);
      if StartsWith(metric, SeriesPrefix(name)) {
        var le := TrimSuffix(TrimPrefix(metric, SeriesPrefix(name)), SERIES_SUFFIX);
        if le == INFINITY {
          collected := collected + [Bucket(SENTINEL, metrics[metric])];
        } else {
          var bound := parse(le);
          if bound.Just? {
            collected := collected + [Bucket(bound.value, metrics[metric])];
          }
        }
      }
      k := k + 1;
    }
    assert order[..k] == order;
  }

  lemma NothingCollected(parse: Parser, name: string, metrics: map<string, real>)
    ensures Collected(parse, name, metrics, []) == []
  {}

  /** histogramQuantile: collects the buckets, sorts them in place and scans them. */
  method HistogramQuantile(metrics: map<string, real>, order: seq<string>, name: string, q: real, parse: Parser)
    returns (r: real, sorted: seq<Bucket>)
    requires Visits(order, metrics)
    ensures Ordered(sorted) && multiset(sorted) == multiset(Collected(parse, name, metrics, order))
    ensures r == Quantile(sorted, q)
  {
    hide Collected, Ordered;
    var collected := Collect(metrics, order, name, parse);
    var buckets := new Bucket[|collected|](i requires 0 <= i < |collected| => collected[i]);
    assert buckets[..] == collected;
    SortBuckets(buckets);
    sorted := buckets[..];
    if buckets.Length == 0 {
      return -1.0, sorted;
    }
    var total := buckets[buckets.Length - 1].count;
    if total == 0.0 {
      return -1.0, sorted;
    }
    var target := TargetOf(q, total);
    var prevLe, prevCount := 0.0, 0.0;
    var i := 0;
    assert sorted[0..] == sorted;
    while i < buckets.Length
      invariant 0 <= i <= buckets.Length && sorted == buckets[..]
      invariant Quantile(sorted, q) == Scan(sorted[i..], target, prevLe, prevCount)
    {
      var b := buckets[i];
      assert b == sorted[i..][0] && sorted[i..][1..] == sorted[i + 1..];
      if b.le == SENTINEL {
        return prevLe, sorted;
      }
      if b.count >= target {
        if b.count == prevCount {
          return b.le, sorted;
        }
        return Interpolate(prevLe, b.le, target, prevCount, b.count), sorted;
      }
      prevLe, prevCount := b.le, b.count;
      i := i + 1;
    }
    return prevLe, sorted;
  }
}
