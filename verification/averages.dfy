/**
 * The "mean of the filled-in values" computation that the impact-driver,
 * eNPS and criteria-distribution totals all share: keep the strictly positive
 * values, average them, and round to two decimals with `Math.round(x * 100) / 100`.
 * Arithmetic is exact (`real`); `Math.round` rounds halves upwards, which is
 * `Floor(y + 1/2)`.
 */
module Averages {

  /** The strictly positive values, in order (`values.filter(v => v > 0)`). */
  function Positives(xs: seq<int>): (ps: seq<int>)
    ensures |ps| <= |xs|
    ensures forall i :: 0 <= i < |ps| ==> ps[i] > 0 && ps[i] in xs
    ensures forall v :: v > 0 ==> multiset(ps)[v] == multiset(xs)[v]
    ensures forall v :: v <= 0 ==> multiset(ps)[v] == 0
  {
    if xs == [] then []
    else
      assert xs == [xs[0]] + xs[1..];
      if xs[0] > 0 then [xs[0]] + Positives(xs[1..]) else Positives(xs[1..])
  }

  /** There is no positive value exactly when `Positives` is empty. */
  lemma {:induction false} PositivesEmpty(xs: seq<int>)
    ensures Positives(xs) == [] <==> forall i :: 0 <= i < |xs| ==> xs[i] <= 0
  {
    if xs != [] {
      PositivesEmpty(xs[1..]);
      if xs[0] <= 0 {
        assert forall i :: 1 <= i < |xs| ==> xs[i] == xs[1..][i - 1];
      }
    }
  }

  /** `values.reduce((sum, v) => sum + v, 0)`. */
  function Sum(xs: seq<int>): int {
    if xs == [] then 0 else xs[0] + Sum(xs[1..])
  }

  /** If every value is at least `lo`, the sum is at least `lo` times the count. */
  lemma {:induction false} SumAtLeast(xs: seq<int>, lo: int)
    requires forall i :: 0 <= i < |xs| ==> lo <= xs[i]
    ensures lo * |xs| <= Sum(xs)
  {
    if xs != [] {
      SumAtLeast(xs[1..], lo);
    }
  }

  /** If every value is at most `hi`, the sum is at most `hi` times the count. */
  lemma {:induction false} SumAtMost(xs: seq<int>, hi: int)
    requires forall i :: 0 <= i < |xs| ==> xs[i] <= hi
    ensures Sum(xs) <= hi * |xs|
  {
    if xs != [] {
      SumAtMost(xs[1..], hi);
    }
  }

  /** Multiplication commutes with the conversion to `real`. */
  lemma MulAsReal(a: int, b: int)
    ensures (a * b) as real == a as real * b as real
  {
  }

  /** Dividing bounds by a positive count. */
  lemma DivideBounds(s: real, n: real, lo: real, hi: real)
    requires n > 0.0
    requires lo * n <= s <= hi * n
    ensures lo <= s / n <= hi
  {
    var q := s / n;
    assert q * n == s;
    assert (q - lo) * n >= 0.0;
    assert (hi - q) * n >= 0.0;
  }

  /** `Math.round(x * 100) / 100` on exact reals. The result is a whole number
      of hundredths within half a hundredth of `x`. */
  function Round2(x: real): (r: real)
    ensures x - 0.005 < r <= x + 0.005
    ensures (r * 100.0).Floor as real == r * 100.0
  {
    var n := (x * 100.0 + 0.5).Floor;
    assert n as real <= x * 100.0 + 0.5 < n as real + 1.0;
    (n as real) / 100.0
  }

  /** Rounding leaves whole numbers alone. */
  lemma Round2Whole(n: int)
    ensures Round2(n as real) == n as real
  {
    var y := n as real * 100.0 + 0.5;
    assert y.Floor == n * 100;
  }

  /** Rounding is monotone. */
  lemma Round2Monotone(x: real, y: real)
    requires x <= y
    ensures Round2(x) <= Round2(y)
  {
    var a := (x * 100.0 + 0.5).Floor;
    var b := (y * 100.0 + 0.5).Floor;
    assert a as real <= x * 100.0 + 0.5 <= y * 100.0 + 0.5 < b as real + 1.0;
    assert a <= b;
  }

  /** The total shown for a list of fields: the 2-decimal mean of the strictly
      positive values, or 0 when there is none. */
  function MeanOfPositives(xs: seq<int>): (r: real)
    ensures r >= 0.0
    ensures r == 0.0 <==> Positives(xs) == []
  {
    var ps := Positives(xs);
    if |ps| == 0 then 0.0
    else
      var m := Sum(ps) as real / |ps| as real;
      MeanAtLeastOne(ps);
      Round2Whole(1);
      Round2Monotone(1.0, m);
      Round2(m)
  }

  /** Helper: the mean of positive integers is at least 1. */
  lemma MeanAtLeastOne(ps: seq<int>)
    requires |ps| > 0
    requires forall i :: 0 <= i < |ps| ==> ps[i] > 0
    ensures Sum(ps) as real / |ps| as real >= 1.0
  {
    SumAtLeast(ps, 1);
    MulAsReal(1, |ps|);
    DivideBounds(Sum(ps) as real, |ps| as real, 1.0, Sum(ps) as real);
  }

  /** When every positive value lies in `[lo, hi]`, so does the total; with
      values that are percentages (`hi == 100`) the total never exceeds 100. */
  lemma MeanWithin(xs: seq<int>, lo: int, hi: int)
    requires Positives(xs) != []
    requires forall i :: 0 <= i < |xs| && xs[i] > 0 ==> lo <= xs[i] <= hi
    ensures lo as real <= MeanOfPositives(xs) <= hi as real
  {
    var ps := Positives(xs);
    forall i | 0 <= i < |ps| ensures lo <= ps[i] <= hi {
      var j :| 0 <= j < |xs| && xs[j] == ps[i];
    }
    RawMeanWithin(ps, lo, hi);
    var m := Sum(ps) as real / |ps| as real;
    assert MeanOfPositives(xs) == Round2(m);
    Round2Within(m, lo, hi);
  }

  /** The unrounded mean of values in `[lo, hi]` lies in `[lo, hi]`. */
  lemma RawMeanWithin(ps: seq<int>, lo: int, hi: int)
    requires |ps| > 0
    requires forall i :: 0 <= i < |ps| ==> lo <= ps[i] <= hi
    ensures lo as real <= Sum(ps) as real / |ps| as real <= hi as real
  {
    SumAtLeast(ps, lo);
    SumAtMost(ps, hi);
    var s, n := Sum(ps), |ps|;
    assert lo * n <= s <= hi * n;
    MulAsReal(lo, n);
    MulAsReal(hi, n);
    assert lo as real * n as real <= s as real <= hi as real * n as real;
    DivideBounds(s as real, n as real, lo as real, hi as real);
  }

  /** Rounding a value between two whole numbers stays between them. */
  lemma Round2Within(m: real, lo: int, hi: int)
    requires lo as real <= m <= hi as real
    ensures lo as real <= Round2(m) <= hi as real
  {
    Round2Monotone(lo as real, m);
    Round2Monotone(m, hi as real);
    Round2Whole(lo);
    Round2Whole(hi);
  }

  /** Worked examples: {60, 40} gives 50 (criteria-distribution.spec.ts:195-207);
      an unfilled 0 beside 75 gives 75, since only positive values count. */
  lemma MeanExamples()
    ensures MeanOfPositives([60, 40]) == 50.0
    ensures MeanOfPositives([0, 75]) == 75.0
  {
    assert Positives([60, 40]) == [60, 40];
    assert Positives([0, 75]) == [75];
    Round2Whole(50);
    Round2Whole(75);
  }

  /** Zero and negative fields change neither the sum nor the count. */
  lemma NonPositiveIgnored(xs: seq<int>, v: int)
    requires v <= 0
    ensures MeanOfPositives(xs + [v]) == MeanOfPositives(xs)
  {
    PositivesAppend(xs, [v]);
    assert [v][1..] == [];
    assert Positives([v]) == [];
    assert Positives(xs + [v]) == Positives(xs);
  }

  /** `Positives` distributes over concatenation. */
  lemma {:induction false} PositivesAppend(xs: seq<int>, ys: seq<int>)
    ensures Positives(xs + ys) == Positives(xs) + Positives(ys)
  {
    if xs == [] {
      assert xs + ys == ys;
    } else {
      assert (xs + ys)[1..] == xs[1..] + ys;
      PositivesAppend(xs[1..], ys);
    }
  }
}
