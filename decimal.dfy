/**
 * The numbers lib/index.js reads out of digit strings: `parseInt(digits, 10)` for
 * Content-Length and `parseFloat(weight)` for an Accept weight. Both are exact here: a
 * length is a `nat` and a weight a `real`.
 */
module Decimal {
  import opened Lexical

  function DigitValue(c: char): (d: nat)
    requires IsDigit(c)
    ensures d < 10
  {
    c as int - '0' as int
  }

  function DigitChar(d: nat): (c: char)
    requires d < 10
    ensures IsDigit(c) && DigitValue(c) == d
  {
    ('0' as int + d) as char
  }

  /** The value of a string of decimal digits, most significant first. */
  function NatValue(ds: string): (n: nat)
    requires AllDigits(ds)
    ensures n == 0 <==> forall i :: 0 <= i < |ds| ==> ds[i] == '0'
  {
    if ds == [] then 0 else 10 * NatValue(ds[..|ds| - 1]) + DigitValue(ds[|ds| - 1])
  }

  /** The shortest decimal representation of `n` (`"0"` for zero). */
  function Digits(n: nat): (ds: string)
    ensures AllDigits(ds) && |ds| > 0
  {
    if n < 10 then [DigitChar(n)] else Digits(n / 10) + [DigitChar(n % 10)]
  }

  /** Reading back the decimal representation of a number gives the number. */
  lemma {:induction false} NatValueOfDigits(n: nat)
    ensures NatValue(Digits(n)) == n
  {
    var ds := Digits(n);
    if n >= 10 {
      NatValueOfDigits(n / 10);
      assert ds[..|ds| - 1] == Digits(n / 10);
    }
  }

  /** Leading zeros do not change the value, which is why the length parser may accept them. */
  lemma {:induction false} NatValueLeadingZero(ds: string)
    requires AllDigits(ds)
    ensures AllDigits("0" + ds) && NatValue("0" + ds) == NatValue(ds)
  {
    if ds != [] {
      var zs := "0" + ds;
      assert zs[..|zs| - 1] == "0" + ds[..|ds| - 1];
      NatValueLeadingZero(ds[..|ds| - 1]);
    }
  }

  /** `x * 10^n`. */
  function Scale(x: real, n: nat): real
  {
    if n == 0 then x else 10.0 * Scale(x, n - 1)
  }

  lemma {:induction false} ScaleAdd(x: real, y: real, n: nat)
    ensures Scale(x + y, n) == Scale(x, n) + Scale(y, n)
  {
    if n > 0 {
      ScaleAdd(x, y, n - 1);
    }
  }

  lemma {:induction false} ScaleTenth(x: real, n: nat)
    ensures Scale(x / 10.0, n + 1) == Scale(x, n)
  {
    if n > 0 {
      ScaleTenth(x, n - 1);
    }
  }

  /** Read from the front, the first digit weighs `10^(|ds| - 1)`. */
  lemma {:induction false} NatValueFront(ds: string)
    requires AllDigits(ds) && ds != []
    ensures NatValue(ds) as real == Scale(DigitValue(ds[0]) as real, |ds| - 1) + NatValue(ds[1..]) as real
    decreases |ds|
  {
    var n := |ds|;
    if n > 1 {
      var init := ds[..n - 1];
      NatValueFront(init);
      assert init[1..] == ds[1..][..n - 2];
      assert ds[1..][n - 2] == ds[n - 1];
    }
  }

  /** The value of the digits after a decimal point: `0.d1d2...` */
  function FractionValue(ds: string): real
    requires AllDigits(ds)
  {
    if ds == [] then 0.0 else (DigitValue(ds[0]) as real + FractionValue(ds[1..])) / 10.0
  }

  lemma {:induction false} FractionBounds(ds: string)
    requires AllDigits(ds)
    ensures 0.0 <= FractionValue(ds) < 1.0
  {
    if ds != [] {
      FractionBounds(ds[1..]);
    }
  }

  /** `0.d1...dn` is the whole number `d1...dn` over `10^n`. */
  lemma {:induction false} FractionDigits(ds: string)
    requires AllDigits(ds)
    ensures Scale(FractionValue(ds), |ds|) == NatValue(ds) as real
    decreases |ds|
  {
    if ds != [] {
      var rest := ds[1..];
      var d := DigitValue(ds[0]) as real;
      FractionDigits(rest);
      NatValueFront(ds);
      ScaleTenth(d + FractionValue(rest), |rest|);
      ScaleAdd(d, FractionValue(rest), |rest|);
    }
  }

  /** `[0-1](?:\.\d*)?`: the shape an Accept weight must have. */
  predicate IsWeight(w: string)
  {
    && |w| >= 1
    && (w[0] == '0' || w[0] == '1')
    && (|w| == 1 || (w[1] == '.' && AllDigits(w[2..])))
  }

  /** `parseFloat` of a weight, as an exact number. */
  function WeightValue(w: string): (q: real)
    requires IsWeight(w)
    ensures 0.0 <= q < 2.0
    ensures w[0] == '0' <==> q < 1.0
  {
    FractionBounds(if |w| == 1 then "" else w[2..]);
    DigitValue(w[0]) as real + (if |w| == 1 then 0.0 else FractionValue(w[2..]))
  }

  /**
   * `parseFloat` of a weight is the decimal reading of its digits: the number they spell
   * without the point, over ten to the number of digits after it.
   */
  lemma WeightDigits(w: string)
    requires IsWeight(w)
    ensures var frac := if |w| == 1 then "" else w[2..];
      AllDigits([w[0]] + frac) && Scale(WeightValue(w), |frac|) == NatValue([w[0]] + frac) as real
  {
    var frac := if |w| == 1 then "" else w[2..];
    var ds := [w[0]] + frac;
    assert ds[1..] == frac;
    NatValueFront(ds);
    FractionDigits(frac);
    ScaleAdd(DigitValue(w[0]) as real, FractionValue(frac), |frac|);
  }
}
