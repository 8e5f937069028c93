/** Decimal notation of naturals, as fmt's %d and template literals write it. */
module Decimal {

  type Digit = d: int | 0 <= d < 10

  function Digits(n: nat): (ds: seq<Digit>)
    ensures ds != []
    decreases n
  {
    if n < 10 then [n] else Digits(n / 10) + [n % 10]
  }

  function Value(ds: seq<Digit>): nat {
    if ds == [] then 0 else Value(ds[..|ds| - 1]) * 10 + ds[|ds| - 1]
  }

  lemma {:induction false} ValueOfDigits(n: nat)
    ensures Value(Digits(n)) == n
    decreases n
  {
    if n >= 10 {
      ValueOfDigits(n / 10);
      assert Digits(n)[..|Digits(n)| - 1] == Digits(n / 10);
    } else {
      assert Value([n][..0]) == 0;
    }
  }

  lemma DigitsInjective(m: nat, n: nat)
    requires Digits(m) == Digits(n)
    ensures m == n
  {
    ValueOfDigits(m);
    ValueOfDigits(n);
  }

  function Text(n: nat): (s: string)
    ensures |s| == |Digits(n)| && forall i :: 0 <= i < |s| ==> s[i] == '0' + Digits(n)[i] as char
  {
    var ds := Digits(n);
    seq(|ds|, i requires 0 <= i < |ds| => '0' + ds[i] as char)
  }

  lemma TextInjective(m: nat, n: nat)
    requires Text(m) == Text(n)
    ensures m == n
  {
    forall i | 0 <= i < |Digits(m)| ensures Digits(m)[i] == Digits(n)[i] {
      assert Text(m)[i] == Text(n)[i];
      assert ('0' + Digits(m)[i] as char) as int == '0' as int + Digits(m)[i];
      assert ('0' + Digits(n)[i] as char) as int == '0' as int + Digits(n)[i];
    }
    DigitsInjective(m, n);
  }

  // ---- exactly the decimal numerals ----

  /** No leading zero but in zero itself, and worth n. */
  predicate NumeralOf(ds: seq<Digit>, n: nat) {
    ds != [] && (|ds| > 1 ==> ds[0] != 0) && Value(ds) == n
  }

  lemma {:induction false} ValuePositive(ds: seq<Digit>)
    requires ds != [] && ds[0] != 0
    ensures Value(ds) > 0
    decreases |ds|
  {
    if |ds| == 1 {
      assert Value(ds) == Value([]) * 10 + ds[0];
    } else {
      ValuePositive(ds[..|ds| - 1]);
    }
  }

  lemma {:induction false} NumeralIsDigits(ds: seq<Digit>, n: nat)
    requires NumeralOf(ds, n)
    ensures ds == Digits(n)
    decreases |ds|
  {
    var front := ds[..|ds| - 1];
    if |ds| == 1 {
      assert Value(front) == 0;
    } else {
      ValuePositive(front);
      NumeralIsDigits(front, Value(front));
      assert n / 10 == Value(front) && n % 10 == ds[|ds| - 1];
      assert ds == front + [ds[|ds| - 1]];
    }
  }

  lemma {:induction false} NoLeadingZero(n: nat)
    ensures n > 0 ==> Digits(n)[0] != 0
    ensures |Digits(n)| > 1 ==> Digits(n)[0] != 0
    decreases n
  {
    if n >= 10 { NoLeadingZero(n / 10); }
  }

  lemma DigitsExactly(ds: seq<Digit>, n: nat)
    ensures ds == Digits(n) <==> NumeralOf(ds, n)
  {
    ValueOfDigits(n);
    NoLeadingZero(n);
    if NumeralOf(ds, n) { NumeralIsDigits(ds, n); }
  }

  /** The digits a text is written with. */
  predicate Spells(s: string, ds: seq<Digit>) {
    |s| == |ds| && forall i :: 0 <= i < |s| ==> s[i] as int == '0' as int + ds[i]
  }

  /** The text is the decimal numeral of n. */
  ghost predicate Numeral(s: string, n: nat) { exists ds: seq<Digit> :: Spells(s, ds) && NumeralOf(ds, n) }

  lemma TextExactly(s: string, n: nat)
    ensures s == Text(n) <==> Numeral(s, n)
  {
    DigitsExactly(Digits(n), n);
    assert Spells(Text(n), Digits(n));
    if Numeral(s, n) {
      var ds: seq<Digit> :| Spells(s, ds) && NumeralOf(ds, n);
      DigitsExactly(ds, n);
      assert forall i :: 0 <= i < |s| ==> s[i] as int == Text(n)[i] as int;
    }
  }
}
