/** Map keys joined from parts by a separator, and exactly when such a key
    belongs to one list of parts only. */
module JoinedKeys {

  function Join<T>(a: seq<T>, separator: T, b: seq<T>): seq<T> { a + ([separator] + b) }

  /** Two different splits of one key: the longer first part goes on from the
      shorter one with a separator. */
  lemma Resplit<T>(a: seq<T>, b: seq<T>, c: seq<T>, d: seq<T>, separator: T)
    requires Join(a, separator, b) == Join(c, separator, d) && |a| < |c|
    ensures c[|a|] == separator && c[..|a|] == a
    ensures |d| < |b| && b[|b| - |d| - 1] == separator && b[|b| - |d|..] == d
  {
    var x, y := Join(a, separator, b), Join(c, separator, d);
    assert forall i :: 0 <= i < |c| ==> x[i] == c[i];
    assert a == x[..|a|] && c[..|a|] == y[..|a|];
    assert x[|a|] == separator;
    assert |x| == |a| + 1 + |b| && |y| == |c| + 1 + |d|;
    var k := |b| - |d|;
    assert b == x[|a| + 1..];
    assert y[|c|] == separator && b[k - 1] == x[|c|];
    assert b[k..] == x[|a| + 1 + k..] && d == y[|c| + 1..];
  }

  lemma SplitInFirst<T>(a: seq<T>, b: seq<T>, separator: T, p: nat)
    requires p < |a| && a[p] == separator
    ensures Join(a[..p], separator, Join(a[p + 1..], separator, b)) == Join(a, separator, b)
  {
    assert a == a[..p] + [separator] + a[p + 1..];
  }

  lemma SplitInSecond<T>(a: seq<T>, b: seq<T>, separator: T, p: nat)
    requires p < |b| && b[p] == separator
    ensures Join(Join(a, separator, b[..p]), separator, b[p + 1..]) == Join(a, separator, b)
  {
    assert b == b[..p] + [separator] + b[p + 1..];
  }

  /** No other two parts give the same key. */
  ghost predicate Alone<T(!new)>(a: seq<T>, b: seq<T>, separator: T) {
    forall c, d :: Join(c, separator, d) == Join(a, separator, b) ==> c == a && d == b
  }

  lemma SameLength<T>(a: seq<T>, b: seq<T>, c: seq<T>, d: seq<T>, separator: T)
    requires Join(a, separator, b) == Join(c, separator, d) && |a| == |c|
    ensures a == c && b == d
  {
    var x, y := Join(a, separator, b), Join(c, separator, d);
    assert a == x[..|a|] && c == y[..|c|] && b == x[|a| + 1..] && d == y[|c| + 1..];
  }

  /** A key belongs to its two parts alone exactly when the separator is in neither. */
  lemma AloneExactly<T(!new)>(a: seq<T>, b: seq<T>, separator: T)
    ensures Alone(a, b, separator) <==> separator !in a && separator !in b
  {
    if separator in a {
      var p :| 0 <= p < |a| && a[p] == separator;
      SplitInFirst(a, b, separator, p);
      assert |a[..p]| < |a|;
    } else if separator in b {
      var p :| 0 <= p < |b| && b[p] == separator;
      SplitInSecond(a, b, separator, p);
      assert |Join(a, separator, b[..p])| > |a|;
    } else {
      forall c, d | Join(c, separator, d) == Join(a, separator, b) ensures c == a && d == b {
        if |c| < |a| {
          Resplit(c, d, a, b, separator);
        } else if |a| < |c| {
          Resplit(a, b, c, d, separator);
        } else {
          SameLength(a, b, c, d, separator);
        }
      }
    }
  }

  // ---- parts that are not empty ----

  /** The same among non-empty parts: a leading separator of the first part and a
      trailing one of the second do no harm. */
  ghost predicate AloneNonEmpty<T(!new)>(a: seq<T>, b: seq<T>, separator: T) {
    forall c, d :: c != [] && d != [] && Join(c, separator, d) == Join(a, separator, b) ==> c == a && d == b
  }

  predicate ClearInside<T(==)>(a: seq<T>, b: seq<T>, separator: T) {
    (a == [] || separator !in a[1..]) && (b == [] || separator !in b[..|b| - 1])
  }

  lemma TailHolds<T>(a: seq<T>, p: int, x: T)
    requires 0 < p < |a| && a[p] == x
    ensures x in a[1..]
  {
    assert a[1..][p - 1] == x;
  }

  lemma FrontHolds<T>(b: seq<T>, p: int, x: T)
    requires 0 <= p < |b| - 1 && b[p] == x
    ensures x in b[..|b| - 1]
  {
    assert b[..|b| - 1][p] == x;
  }

  lemma AloneNonEmptyExactly<T(!new)>(a: seq<T>, b: seq<T>, separator: T)
    ensures AloneNonEmpty(a, b, separator) <==> ClearInside(a, b, separator)
  {
    if a != [] && separator in a[1..] {
      var q :| 0 <= q < |a[1..]| && a[1..][q] == separator;
      SplitInFirst(a, b, separator, q + 1);
      assert |a[..q + 1]| < |a|;
    } else if b != [] && separator in b[..|b| - 1] {
      var p :| 0 <= p < |b| - 1 && b[..|b| - 1][p] == separator;
      SplitInSecond(a, b, separator, p);
      assert |Join(a, separator, b[..p])| > |a|;
    } else {
      forall c, d | c != [] && d != [] && Join(c, separator, d) == Join(a, separator, b) ensures c == a && d == b {
        if |c| < |a| {
          Resplit(c, d, a, b, separator);
          TailHolds(a, |c|, separator);
        } else if |a| < |c| {
          Resplit(a, b, c, d, separator);
          FrontHolds(b, |b| - |d| - 1, separator);
        } else {
          SameLength(a, b, c, d, separator);
        }
      }
    }
  }

  // ---- a word between two separators ----

  /** The separator, a word free of it, and the separator again. */
  function Infix<T>(word: seq<T>, separator: T): seq<T> { [separator] + word + [separator] }

  predicate OccursAt<T(==)>(m: seq<T>, t: seq<T>, p: int) {
    0 <= p && p + |m| <= |t| && forall i :: 0 <= i < |m| ==> m[i] == t[p + i]
  }

  predicate Occurs<T(==)>(m: seq<T>, t: seq<T>) { exists p :: 0 <= p <= |t| && OccursAt(m, t, p) }

  ghost predicate AloneAround<T(!new)>(a: seq<T>, m: seq<T>, b: seq<T>) {
    forall c, d :: c != [] && d != [] && c + m + d == a + m + b ==> c == a && d == b
  }

  /** The infix occurs neither in what follows the first unit of the first part,
      closed by a separator, nor in what precedes the last unit of the second. */
  predicate ClearAround<T(==)>(a: seq<T>, word: seq<T>, b: seq<T>, separator: T)
    requires a != [] && b != []
  {
    var m := Infix(word, separator);
    !Occurs(m, a[1..] + [separator]) && !Occurs(m, [separator] + b[..|b| - 1])
  }

  lemma InfixEnds<T>(word: seq<T>, separator: T, i: nat)
    requires separator !in word && i < |Infix(word, separator)| && Infix(word, separator)[i] == separator
    ensures i == 0 || i == |word| + 1
  {
    if 0 < i <= |word| { WordUnit(word, separator, i); }
  }

  lemma WordUnit<T>(word: seq<T>, separator: T, i: nat)
    requires 0 < i <= |word|
    ensures Infix(word, separator)[i] in word
  {
    assert Infix(word, separator)[i] == word[i - 1];
  }

  /** An occurrence that starts in the first part ends by its separator. */
  lemma EarlierOccurrence<T>(a: seq<T>, word: seq<T>, b: seq<T>, separator: T, p: nat)
    requires separator !in word && 0 < p < |a| && OccursAt(Infix(word, separator), a + Infix(word, separator) + b, p)
    ensures OccursAt(Infix(word, separator), a[1..] + [separator], p - 1)
  {
    var m := Infix(word, separator);
    var t := a + m + b;
    assert t[|a|] == separator;
    if |a| < p + |m| {
      assert m[|a| - p] == t[p + (|a| - p)];
      InfixEnds(word, separator, |a| - p);
    }
    var u := a[1..] + [separator];
    assert forall k :: 0 <= k < |u| ==> u[k] == t[k + 1];
  }

  lemma LaterOccurrence<T>(a: seq<T>, word: seq<T>, b: seq<T>, separator: T, p: nat)
    requires separator !in word && |a| < p && b != []
    requires p + |word| + 2 < |a + Infix(word, separator) + b| && OccursAt(Infix(word, separator), a + Infix(word, separator) + b, p)
    ensures Occurs(Infix(word, separator), [separator] + b[..|b| - 1])
  {
    var m := Infix(word, separator);
    var t := a + m + b;
    var last := |a| + |m| - 1;
    assert m[0] == t[p + 0];
    if p <= last {
      assert t[p] == m[p - |a|];
      InfixEnds(word, separator, p - |a|);
    }
    var u := [separator] + b[..|b| - 1];
    assert forall k :: 0 <= k < |u| ==> u[k] == t[last + k];
    assert OccursAt(m, u, p - last);
  }

  lemma AnotherSplit<T>(a: seq<T>, m: seq<T>, b: seq<T>, p: nat)
    requires OccursAt(m, a + m + b, p)
    ensures var t := a + m + b; t[..p] + m + t[p + |m|..] == t
  {
    var t := a + m + b;
    assert t[p..p + |m|] == m;
    assert t == t[..p] + t[p..p + |m|] + t[p + |m|..];
  }

  lemma OccursWithin<T>(a: seq<T>, word: seq<T>, b: seq<T>, separator: T) returns (p: nat)
    requires a != [] && b != [] && !ClearAround(a, word, b, separator)
    ensures var m := Infix(word, separator);
            0 < p && p != |a| && p + |m| < |a + m + b| && OccursAt(m, a + m + b, p)
  {
    var m := Infix(word, separator);
    var t := a + m + b;
    if Occurs(m, a[1..] + [separator]) {
      var u := a[1..] + [separator];
      var q :| 0 <= q <= |u| && OccursAt(m, u, q);
      p := q + 1;
      assert forall k :: 0 <= k < |u| ==> u[k] == t[k + 1];
    } else {
      var u := [separator] + b[..|b| - 1];
      var q :| 0 <= q <= |u| && OccursAt(m, u, q);
      p := |a| + |m| - 1 + q;
      assert forall k :: 0 <= k < |u| ==> u[k] == t[|a| + |m| - 1 + k];
    }
  }

  lemma SplitPlace<T>(a: seq<T>, m: seq<T>, b: seq<T>, c: seq<T>, d: seq<T>)
    requires c + m + d == a + m + b
    ensures OccursAt(m, a + m + b, |c|) && (|c| == |a| ==> c == a && d == b)
  {
    var t := a + m + b;
    assert t == c + m + d;
    assert t[|c|..|c| + |m|] == m;
    assert c == t[..|c|] && a == t[..|a|];
    assert d == t[|c| + |m|..] && b == t[|a| + |m|..];
  }

  /** Among non-empty parts, a key around an infix belongs to its two parts alone
      exactly when the infix occurs nowhere else in it. */
  lemma AloneAroundExactly<T(!new)>(a: seq<T>, word: seq<T>, b: seq<T>, separator: T)
    requires a != [] && b != [] && separator !in word
    ensures AloneAround(a, Infix(word, separator), b) <==> ClearAround(a, word, b, separator)
  {
    var m := Infix(word, separator);
    var t := a + m + b;
    if !ClearAround(a, word, b, separator) {
      var p := OccursWithin(a, word, b, separator);
      AnotherSplit(a, m, b, p);
      assert |t[..p]| != |a| && t[..p] != [] && t[p + |m|..] != [];
    } else {
      forall c, d | c != [] && d != [] && c + m + d == a + m + b ensures c == a && d == b {
        SplitPlace(a, m, b, c, d);
        if |c| < |a| {
          EarlierOccurrence(a, word, b, separator, |c|);
        } else if |a| < |c| {
          assert |c + m + d| == |a + m + b|;
          LaterOccurrence(a, word, b, separator, |c|);
        }
      }
    }
  }

  /** In particular when neither part holds the separator. */
  lemma FreeIsClear<T>(a: seq<T>, word: seq<T>, b: seq<T>, separator: T)
    requires a != [] && b != [] && separator !in a && separator !in b
    ensures ClearAround(a, word, b, separator)
  {
    var m := Infix(word, separator);
    var u, v := a[1..] + [separator], [separator] + b[..|b| - 1];
    forall p | 0 <= p <= |u| ensures !OccursAt(m, u, p) {
      if p + |m| <= |u| {
        assert u[p] == a[p + 1] && u[p] in a;
        assert m[0] == separator && u[p] != m[0] && u[p] == u[p + 0];
      }
    }
    forall p | 0 <= p <= |v| ensures !OccursAt(m, v, p) {
      if p + |m| <= |v| {
        var last := |m| - 1;
        assert v[p + last] == b[p + last - 1] && v[p + last] in b;
        assert m[last] == separator && v[p + last] != m[last];
      }
    }
  }
}
