/** Weighted geometric and arithmetic means of confidence components, over exact reals. `Math.log`
    and `Math.exp` are parameters that obey the laws of `Logarithm`. */
module Confidence {
  import opened RealFacts

  const EPSILON: real := 0.000001

  datatype Components = Components(modelLogprob: real, crossValidation: real, peerZscore: real,
                                   schemaValidation: real, crossSource: real)

  datatype Weights = Weights(modelLogprob: real, crossValidation: real, peerZscore: real,
                             schemaValidation: real, crossSource: real)

  const DEFAULT_WEIGHTS := Weights(0.25, 0.2, 0.15, 0.2, 0.2)

  datatype Entry = Entry(value: real, weight: real)

  function Clamp01(x: real): (r: real)
    ensures EPSILON <= r <= 1.0
    ensures EPSILON <= x <= 1.0 ==> r == x
  {
    if x < EPSILON then EPSILON else if x > 1.0 then 1.0 else x
  }

  function Entries(c: Components, w: Weights): seq<Entry> {
    [Entry(Clamp01(c.modelLogprob), w.modelLogprob),
     Entry(Clamp01(c.crossValidation), w.crossValidation),
     Entry(Clamp01(c.peerZscore), w.peerZscore),
     Entry(Clamp01(c.schemaValidation), w.schemaValidation),
     Entry(Clamp01(c.crossSource), w.crossSource)]
  }

  // ---------------------------------------------------------------------------------------------
  // Logarithms

  /** Four facts about the natural logarithm and the exponential that fix what is needed here. */
  ghost predicate Logarithm(ln: real -> real, exp: real -> real) {
    && (forall x, y :: x > 0.0 && y > 0.0 ==> ln(Times(x, y)) == ln(x) + ln(y))
    && (forall x :: x > 0.0 ==> ln(x) <= x - 1.0)
    && (forall v :: exp(v) > 0.0 && ln(exp(v)) == v)
  }

  lemma LnProduct(ln: real -> real, exp: real -> real, x: real, y: real)
    requires Logarithm(ln, exp) && x > 0.0 && y > 0.0
    ensures ln(Times(x, y)) == ln(x) + ln(y)
  {
  }

  lemma LnTangent(ln: real -> real, exp: real -> real, x: real)
    requires Logarithm(ln, exp) && x > 0.0
    ensures ln(x) <= x - 1.0
  {
  }

  lemma LnExp(ln: real -> real, exp: real -> real, v: real)
    requires Logarithm(ln, exp)
    ensures exp(v) > 0.0 && ln(exp(v)) == v
  {
  }

  lemma LnIncreases(ln: real -> real, exp: real -> real, x: real, y: real)
    requires Logarithm(ln, exp) && 0.0 < x < y
    ensures ln(x) < ln(y)
  {
    hide Logarithm, Times;
    var q := x / y;
    Quotient(x, y);
    QuotientSign(x, y, q);
    LnProduct(ln, exp, q, y);
    LnTangent(ln, exp, q);
  }

  lemma ExpLn(ln: real -> real, exp: real -> real, x: real)
    requires Logarithm(ln, exp) && x > 0.0
    ensures exp(ln(x)) == x
  {
    hide Logarithm, Times;
    var y := exp(ln(x));
    LnExp(ln, exp, ln(x));
    if x < y { LnIncreases(ln, exp, x, y); }
    if y < x { LnIncreases(ln, exp, y, x); }
  }

  lemma ExpIncreases(ln: real -> real, exp: real -> real, u: real, v: real)
    requires Logarithm(ln, exp)
    ensures u < v <==> exp(u) < exp(v)
  {
    hide Logarithm, Times;
    LnExp(ln, exp, u);
    LnExp(ln, exp, v);
    if exp(u) < exp(v) { LnIncreases(ln, exp, exp(u), exp(v)); }
    if exp(v) < exp(u) { LnIncreases(ln, exp, exp(v), exp(u)); }
  }

  lemma LnSquare(ln: real -> real, exp: real -> real, s: real)
    requires Logarithm(ln, exp) && s > 0.0
    ensures ln(Times(s, s)) == 2.0 * ln(s)
  {
    hide Logarithm, Times;
    LnProduct(ln, exp, s, s);
  }

  /** Every positive number is a square, by way of half its logarithm. */
  lemma SquareRoot(ln: real -> real, exp: real -> real, q: real) returns (s: real)
    requires Logarithm(ln, exp) && q > 0.0
    ensures s > 0.0 && Times(s, s) == q && ln(q) == 2.0 * ln(s)
  {
    hide Logarithm, Times;
    var half := ln(q) / 2.0;
    s := exp(half);
    LnExp(ln, exp, half);
    SquareIsPositive(s);
    LnSquare(ln, exp, s);
    SameLogarithm(ln, exp, Times(s, s), q);
  }

  lemma SameLogarithm(ln: real -> real, exp: real -> real, x: real, y: real)
    requires Logarithm(ln, exp) && x > 0.0 && y > 0.0 && ln(x) == ln(y)
    ensures x == y
  {
    hide Logarithm, Times;
    ExpLn(ln, exp, x);
    ExpLn(ln, exp, y);
  }

  /** The logarithm lies below its tangent at 1, and touches it only there: the square root of `q`
      gives ln q == 2 ln s <= 2 (s - 1) <= q - 1. */
  lemma LnTouchesTangent(ln: real -> real, exp: real -> real, q: real)
    requires Logarithm(ln, exp) && q > 0.0
    ensures ln(q) <= q - 1.0
    ensures ln(q) == q - 1.0 ==> q == 1.0
  {
    hide Logarithm, Times;
    var s := SquareRoot(ln, exp, q);
    LnTangent(ln, exp, s);
    SquareAboveTangent(s);
    Units(s);
  }

  // ---------------------------------------------------------------------------------------------
  // The two means, entries of no positive weight left out

  function WeightSum(es: seq<Entry>): real {
    if es == [] then 0.0
    else WeightSum(es[..|es| - 1]) + if es[|es| - 1].weight <= 0.0 then 0.0 else es[|es| - 1].weight
  }

  function LogSum(es: seq<Entry>, ln: real -> real): real {
    if es == [] then 0.0
    else LogSum(es[..|es| - 1], ln)
         + if es[|es| - 1].weight <= 0.0 then 0.0 else Times(es[|es| - 1].weight, ln(es[|es| - 1].value))
  }

  function ValueSum(es: seq<Entry>): real {
    if es == [] then 0.0
    else ValueSum(es[..|es| - 1])
         + if es[|es| - 1].weight <= 0.0 then 0.0 else Times(es[|es| - 1].weight, es[|es| - 1].value)
  }

  function GeometricMean(es: seq<Entry>, ln: real -> real, exp: real -> real): real {
    if WeightSum(es) == 0.0 then 0.0 else exp(LogSum(es, ln) / WeightSum(es))
  }

  function ArithmeticMean(es: seq<Entry>): real {
    if WeightSum(es) == 0.0 then 0.0 else ValueSum(es) / WeightSum(es)
  }

  method CompositeConfidence(c: Components, weights: Weights, ln: real -> real, exp: real -> real) returns (r: real)
    ensures r == GeometricMean(Entries(c, weights), ln, exp)
  {
    hide Entries;
    var entries := Entries(c, weights);
    var weightSum, logSum := 0.0, 0.0;
    for i := 0 to |entries|
      invariant weightSum == WeightSum(entries[..i])
      invariant logSum == LogSum(entries[..i], ln)
    {
      assert entries[..i + 1][..i] == entries[..i];
      var value, weight := entries[i].value, entries[i].weight;
      if weight <= 0.0 { continue; }
      weightSum := weightSum + weight;
      logSum := logSum + weight * ln(value);
    }
    assert entries[..|entries|] == entries;
    if weightSum == 0.0 { return 0.0; }
    return exp(logSum / weightSum);
  }

  method WeightedArithmeticConfidence(c: Components, weights: Weights) returns (r: real)
    ensures r == ArithmeticMean(Entries(c, weights))
  {
    hide Entries;
    var entries := Entries(c, weights);
    var weightSum, weighted := 0.0, 0.0;
    for i := 0 to |entries|
      invariant weightSum == WeightSum(entries[..i])
      invariant weighted == ValueSum(entries[..i])
    {
      assert entries[..i + 1][..i] == entries[..i];
      var value, weight := entries[i].value, entries[i].weight;
      if weight <= 0.0 { continue; }
      weightSum := weightSum + weight;
      weighted := weighted + weight * value;
    }
    assert entries[..|entries|] == entries;
    if weightSum == 0.0 { return 0.0; }
    return weighted / weightSum;
  }

  /** Every value is positive. */
  ghost predicate PositiveValues(es: seq<Entry>) {
    forall i :: 0 <= i < |es| ==> es[i].value > 0.0
  }

  /** Some entry has positive weight. */
  ghost predicate Weighty(es: seq<Entry>) {
    exists i :: 0 <= i < |es| && es[i].weight > 0.0
  }

  /** Every value of positive weight lies from `lo` to `hi`. */
  ghost predicate ValuesWithin(es: seq<Entry>, lo: real, hi: real) {
    forall i :: 0 <= i < |es| && es[i].weight > 0.0 ==> lo <= es[i].value <= hi
  }

  lemma {:induction false} WeightSumSign(es: seq<Entry>)
    ensures WeightSum(es) >= 0.0
    ensures Weighty(es) <==> WeightSum(es) > 0.0
  {
    if es != [] {
      var init := es[..|es| - 1];
      WeightSumSign(init);
      assert Weighty(init) || es[|es| - 1].weight > 0.0 <==> Weighty(es) by {
        if Weighty(init) {
          var i :| 0 <= i < |init| && init[i].weight > 0.0;
          assert es[i].weight > 0.0;
        }
      }
    }
  }

  /** The means, by what they are when multiplied out. */
  lemma MeansMultiplied(es: seq<Entry>, ln: real -> real, exp: real -> real) returns (g: real)
    requires WeightSum(es) > 0.0
    ensures GeometricMean(es, ln, exp) == exp(g) && Times(g, WeightSum(es)) == LogSum(es, ln)
    ensures Times(ArithmeticMean(es), WeightSum(es)) == ValueSum(es)
  {
    hide Times, WeightSum, LogSum, ValueSum;
    g := LogSum(es, ln) / WeightSum(es);
    Quotient(LogSum(es, ln), WeightSum(es));
    Quotient(ValueSum(es), WeightSum(es));
  }

  /** Weights times logarithms against the tangent at `a`: the sum of the ratios `value / a`,
      weighted, is returned as `ratios`. */
  lemma {:induction false} SumBelowTangent(es: seq<Entry>, ln: real -> real, exp: real -> real, a: real)
      returns (ratios: real)
    requires Logarithm(ln, exp) && a > 0.0 && PositiveValues(es)
    ensures Times(ratios, a) == ValueSum(es)
    ensures LogSum(es, ln) <= Times(WeightSum(es), ln(a)) + ratios - WeightSum(es)
    ensures LogSum(es, ln) == Times(WeightSum(es), ln(a)) + ratios - WeightSum(es) <==> ValuesWithin(es, a, a)
  {
    hide Times, Logarithm;
    if es == [] {
      Units(a);
      Units(ln(a));
      return 0.0;
    }
    var init, e := es[..|es| - 1], es[|es| - 1];
    var before := SumBelowTangent(init, ln, exp, a);
    WithinSplits(es, a, a);
    if e.weight <= 0.0 {
      return before;
    }
    var q := e.value / a;
    Quotient(e.value, a);
    QuotientSign(e.value, a, q);
    LnProduct(ln, exp, q, a);
    LnTouchesTangent(ln, exp, q);
    // weight * ln value <= weight * (ln a + q - 1)
    Grows(ln(e.value), ln(a) + q - 1.0, e.weight);
    Cancels(ln(e.value), ln(a) + q - 1.0, e.weight);
    Commutes(ln(e.value), e.weight);
    Distributes(ln(a) + q, 1.0, e.weight);
    Distributes(ln(a), q, e.weight);
    Units(e.weight);
    Commutes(ln(a), e.weight);
    Distributes(WeightSum(init), e.weight, ln(a));
    ratios := before + Times(q, e.weight);
    Distributes(before, Times(q, e.weight), a);
    Commutes(q, e.weight);
    Associates(e.weight, q, a);
    // equality at q == 1, that is value == a
    Units(a);
    Cancels(q, 1.0, a);
    LnAtOne(ln, exp);
  }

  lemma LnAtOne(ln: real -> real, exp: real -> real)
    requires Logarithm(ln, exp)
    ensures ln(1.0) == 0.0
  {
    hide Logarithm, Times;
    LnProduct(ln, exp, 1.0, 1.0);
    Units(1.0);
  }

  lemma WithinSplits(es: seq<Entry>, lo: real, hi: real)
    requires es != []
    ensures var e := es[|es| - 1];
            ValuesWithin(es, lo, hi) <==>
              ValuesWithin(es[..|es| - 1], lo, hi) && (e.weight > 0.0 ==> lo <= e.value <= hi)
  {
    var init := es[..|es| - 1];
    if ValuesWithin(es, lo, hi) {
      assert forall i :: 0 <= i < |init| ==> init[i] == es[i];
    }
    if ValuesWithin(init, lo, hi) {
      assert forall i :: 0 <= i < |es| - 1 ==> es[i] == init[i];
    }
  }

  /** The value sum of values within bounds. */
  lemma {:induction false} SumsWithin(es: seq<Entry>, ln: real -> real, exp: real -> real, lo: real, hi: real)
    requires Logarithm(ln, exp) && 0.0 < lo <= hi && PositiveValues(es) && ValuesWithin(es, lo, hi)
    ensures Times(lo, WeightSum(es)) <= ValueSum(es) <= Times(hi, WeightSum(es))
    ensures Times(ln(lo), WeightSum(es)) <= LogSum(es, ln) <= Times(ln(hi), WeightSum(es))
  {
    hide Times, Logarithm;
    Units(lo);
    Units(hi);
    Units(ln(lo));
    Units(ln(hi));
    if es != [] {
      var init, e := es[..|es| - 1], es[|es| - 1];
      WithinSplits(es, lo, hi);
      SumsWithin(init, ln, exp, lo, hi);
      if e.weight > 0.0 {
        SumStep(lo, WeightSum(init), e.weight, e.value);
        SumStep(hi, WeightSum(init), e.weight, e.value);
        LnMonotone(ln, exp, lo, e.value);
        LnMonotone(ln, exp, e.value, hi);
        SumStep(ln(lo), WeightSum(init), e.weight, ln(e.value));
        SumStep(ln(hi), WeightSum(init), e.weight, ln(e.value));
      }
    }
  }

  lemma LnMonotone(ln: real -> real, exp: real -> real, x: real, y: real)
    requires Logarithm(ln, exp) && 0.0 < x <= y
    ensures ln(x) <= ln(y)
  {
    hide Logarithm;
    if x < y { LnIncreases(ln, exp, x, y); }
  }

  lemma SumStep(bound: real, sum: real, weight: real, value: real)
    requires weight > 0.0
    ensures Times(bound, sum + weight) == Times(bound, sum) + Times(bound, weight)
    ensures bound <= value ==> Times(bound, weight) <= Times(weight, value)
    ensures value <= bound ==> Times(weight, value) <= Times(bound, weight)
  {
    hide Times;
    Commutes(bound, sum + weight);
    Commutes(bound, sum);
    Commutes(bound, weight);
    Commutes(value, weight);
    Distributes(sum, weight, bound);
    if bound <= value { Grows(bound, value, weight); }
    if value <= bound { Grows(value, bound, weight); }
  }

  // ---------------------------------------------------------------------------------------------
  // The laws of the means

  /** Both means lie between any bounds of the values that carry weight. */
  lemma MeansAreWithin(es: seq<Entry>, ln: real -> real, exp: real -> real, lo: real, hi: real)
    requires Logarithm(ln, exp) && 0.0 < lo <= hi && PositiveValues(es) && Weighty(es) && ValuesWithin(es, lo, hi)
    ensures lo <= GeometricMean(es, ln, exp) <= hi
    ensures lo <= ArithmeticMean(es) <= hi
  {
    hide Times, Logarithm, GeometricMean, ArithmeticMean;
    WeightSumSign(es);
    var g := MeansMultiplied(es, ln, exp);
    SumsWithin(es, ln, exp, lo, hi);
    Cancels(lo, ArithmeticMean(es), WeightSum(es));
    Cancels(ArithmeticMean(es), hi, WeightSum(es));
    Cancels(ln(lo), g, WeightSum(es));
    Cancels(g, ln(hi), WeightSum(es));
    ExpLn(ln, exp, lo);
    ExpLn(ln, exp, hi);
    ExpIncreases(ln, exp, g, ln(lo));
    ExpIncreases(ln, exp, ln(hi), g);
  }

  /** The geometric mean never exceeds the arithmetic mean, and equals it exactly when the values
      that carry weight all agree. */
  lemma GeometricBelowArithmetic(es: seq<Entry>, ln: real -> real, exp: real -> real)
    requires Logarithm(ln, exp) && PositiveValues(es) && Weighty(es)
    ensures GeometricMean(es, ln, exp) <= ArithmeticMean(es)
    ensures GeometricMean(es, ln, exp) == ArithmeticMean(es) <==> exists v :: ValuesWithin(es, v, v)
  {
    hide Times, Logarithm, GeometricMean, ArithmeticMean, WeightSum, LogSum, ValueSum, ValuesWithin;
    WeightSumSign(es);
    var g := MeansMultiplied(es, ln, exp);
    var a, w := ArithmeticMean(es), WeightSum(es);
    ArithmeticIsPositive(es);
    var ratios := SumBelowTangent(es, ln, exp, a);
    Commutes(a, w);
    Cancels(ratios, w, a);
    Commutes(ln(a), w);
    Cancels(g, ln(a), w);
    ExpLn(ln, exp, a);
    ExpIncreases(ln, exp, ln(a), g);
    ExpIncreases(ln, exp, g, ln(a));
    if v :| ValuesWithin(es, v, v) {
      CommonValue(es, v);
      MeansAreWithin(es, ln, exp, v, v);
    }
  }

  lemma CommonValue(es: seq<Entry>, v: real)
    requires PositiveValues(es) && Weighty(es) && ValuesWithin(es, v, v)
    ensures v > 0.0
  {
  }

  lemma ArithmeticIsPositive(es: seq<Entry>)
    requires PositiveValues(es) && Weighty(es)
    ensures ArithmeticMean(es) > 0.0
  {
    hide Times;
    WeightSumSign(es);
    ValueSumIsPositive(es);
    Quotient(ValueSum(es), WeightSum(es));
    QuotientSign(ValueSum(es), WeightSum(es), ArithmeticMean(es));
  }

  lemma {:induction false} ValueSumIsPositive(es: seq<Entry>)
    requires PositiveValues(es)
    ensures ValueSum(es) >= 0.0
    ensures WeightSum(es) > 0.0 ==> ValueSum(es) > 0.0
  {
    hide Times;
    if es != [] {
      var init, e := es[..|es| - 1], es[|es| - 1];
      ValueSumIsPositive(init);
      WeightSumSign(init);
      if e.weight > 0.0 {
        Positive(e.weight, e.value);
      }
    }
  }

  /** Raising values never lowers either mean. */
  lemma MeansAreMonotone(es: seq<Entry>, fs: seq<Entry>, ln: real -> real, exp: real -> real)
    requires Logarithm(ln, exp) && PositiveValues(es) && Raised(es, fs)
    ensures GeometricMean(es, ln, exp) <= GeometricMean(fs, ln, exp)
    ensures ArithmeticMean(es) <= ArithmeticMean(fs)
  {
    hide Times, Logarithm, GeometricMean, ArithmeticMean, LogSum, ValueSum;
    SumsAreMonotone(es, fs, ln, exp);
    WeightSumSign(es);
    if WeightSum(es) > 0.0 {
      var g := MeansMultiplied(es, ln, exp);
      var h := MeansMultiplied(fs, ln, exp);
      Cancels(g, h, WeightSum(es));
      Cancels(ArithmeticMean(es), ArithmeticMean(fs), WeightSum(es));
      ExpIncreases(ln, exp, h, g);
    } else {
      NoMeans(es, ln, exp);
      NoMeans(fs, ln, exp);
    }
  }

  lemma NoMeans(es: seq<Entry>, ln: real -> real, exp: real -> real)
    requires WeightSum(es) == 0.0
    ensures GeometricMean(es, ln, exp) == 0.0 && ArithmeticMean(es) == 0.0
  {
  }

  /** The same weights, no value lower. */
  ghost predicate Raised(es: seq<Entry>, fs: seq<Entry>) {
    |es| == |fs| && forall i :: 0 <= i < |es| ==> es[i].weight == fs[i].weight && es[i].value <= fs[i].value
  }

  lemma {:induction false} SumsAreMonotone(es: seq<Entry>, fs: seq<Entry>, ln: real -> real, exp: real -> real)
    requires Logarithm(ln, exp) && PositiveValues(es) && Raised(es, fs)
    ensures WeightSum(es) == WeightSum(fs)
    ensures LogSum(es, ln) <= LogSum(fs, ln) && ValueSum(es) <= ValueSum(fs)
  {
    hide Times, Logarithm;
    if es != [] {
      var e, f := es[|es| - 1], fs[|fs| - 1];
      SumsAreMonotone(es[..|es| - 1], fs[..|fs| - 1], ln, exp);
      if e.weight > 0.0 {
        LnMonotone(ln, exp, e.value, f.value);
        Grows(e.value, f.value, e.weight);
        Grows(ln(e.value), ln(f.value), e.weight);
        Commutes(e.value, e.weight);
        Commutes(f.value, e.weight);
        Commutes(ln(e.value), e.weight);
        Commutes(ln(f.value), e.weight);
      }
    }
  }

  function Scaled(es: seq<Entry>, k: real): (r: seq<Entry>) {
    seq(|es|, i requires 0 <= i < |es| => Entry(es[i].value, Times(k, es[i].weight)))
  }

  /** Only the proportions of the weights matter. */
  lemma MeansIgnoreScale(es: seq<Entry>, k: real, ln: real -> real, exp: real -> real)
    requires k > 0.0
    ensures GeometricMean(Scaled(es, k), ln, exp) == GeometricMean(es, ln, exp)
    ensures ArithmeticMean(Scaled(es, k)) == ArithmeticMean(es)
  {
    hide Times, LogSum, ValueSum, Scaled;
    SumsScale(es, k, ln);
    WeightSumSign(es);
    var w := WeightSum(es);
    Units(k);
    if w > 0.0 {
      Positive(k, w);
      SameQuotient(k, LogSum(es, ln), w);
      SameQuotient(k, ValueSum(es), w);
    }
  }

  lemma SameQuotient(k: real, x: real, w: real)
    requires k > 0.0 && w > 0.0 && Times(k, w) > 0.0
    ensures Times(k, x) / Times(k, w) == x / w
  {
    hide Times;
    var q := x / w;
    Quotient(x, w);
    Quotient(Times(k, x), Times(k, w));
    Commutes(k, x);
    Commutes(k, w);
    Associates(q, w, k);
    Cancels(q, Times(k, x) / Times(k, w), Times(k, w));
  }

  lemma {:induction false} SumsScale(es: seq<Entry>, k: real, ln: real -> real)
    requires k > 0.0
    ensures WeightSum(Scaled(es, k)) == Times(k, WeightSum(es))
    ensures LogSum(Scaled(es, k), ln) == Times(k, LogSum(es, ln))
    ensures ValueSum(Scaled(es, k)) == Times(k, ValueSum(es))
  {
    hide Times;
    Units(k);
    if es != [] {
      var init, e := es[..|es| - 1], es[|es| - 1];
      SumsScale(init, k, ln);
      assert Scaled(es, k)[..|es| - 1] == Scaled(init, k);
      Cancels(e.weight, 0.0, k);
      Commutes(e.weight, k);
      Units(k);
      Cancels(0.0, e.weight, k);
      if e.weight > 0.0 {
        ScaleStep(k, WeightSum(init), e.weight);
        ScaleStep(k, LogSum(init, ln), Times(e.weight, ln(e.value)));
        ScaleStep(k, ValueSum(init), Times(e.weight, e.value));
        Associates(k, e.weight, ln(e.value));
        Associates(k, e.weight, e.value);
      }
    }
  }

  lemma ScaleStep(k: real, x: real, y: real)
    ensures Times(k, x + y) == Times(k, x) + Times(k, y)
  {
    hide Times;
    Commutes(k, x + y);
    Commutes(k, x);
    Commutes(k, y);
    Distributes(x, y, k);
  }

  /** No component of `c` exceeds that of `d`. */
  predicate AtMost(c: Components, d: Components) {
    && c.modelLogprob <= d.modelLogprob && c.crossValidation <= d.crossValidation && c.peerZscore <= d.peerZscore
    && c.schemaValidation <= d.schemaValidation && c.crossSource <= d.crossSource
  }

  /** The laws for the five clamped components, under any weights. */
  lemma CompositeLaws(c: Components, d: Components, weights: Weights, ln: real -> real, exp: real -> real)
    requires Logarithm(ln, exp)
    ensures var es := Entries(c, weights);
            if Weighty(es) then 0.000001 <= GeometricMean(es, ln, exp) <= ArithmeticMean(es) <= 1.0
            else GeometricMean(es, ln, exp) == ArithmeticMean(es) == 0.0
    ensures AtMost(c, d) ==>
              && GeometricMean(Entries(c, weights), ln, exp) <= GeometricMean(Entries(d, weights), ln, exp)
              && ArithmeticMean(Entries(c, weights)) <= ArithmeticMean(Entries(d, weights))
  {
    hide Logarithm, GeometricMean, ArithmeticMean, WeightSum, LogSum, ValueSum;
    var es := Entries(c, weights);
    EntriesAreClamped(c, weights);
    WeightSumSign(es);
    if Weighty(es) {
      MeansAreWithin(es, ln, exp, EPSILON, 1.0);
      GeometricBelowArithmetic(es, ln, exp);
    } else {
      NoMeans(es, ln, exp);
    }
    if AtMost(c, d) {
      MeansAreMonotone(es, Entries(d, weights), ln, exp);
    }
  }

  lemma EntriesAreClamped(c: Components, weights: Weights)
    ensures PositiveValues(Entries(c, weights)) && ValuesWithin(Entries(c, weights), EPSILON, 1.0)
  {
  }

  // ---------------------------------------------------------------------------------------------
  // Whole-number weights: the geometric mean is a root of a product of powers

  function Total(ns: seq<nat>): nat {
    if ns == [] then 0 else Total(ns[..|ns| - 1]) + ns[|ns| - 1]
  }

  function ProductOfPowers(xs: seq<real>, ns: seq<nat>): real
    requires |xs| == |ns|
  {
    if xs == [] then 1.0
    else Times(ProductOfPowers(xs[..|xs| - 1], ns[..|ns| - 1]), Pow(xs[|xs| - 1], ns[|ns| - 1]))
  }

  function NatEntries(xs: seq<real>, ns: seq<nat>): seq<Entry>
    requires |xs| == |ns|
  {
    seq(|xs|, i requires 0 <= i < |xs| => Entry(xs[i], ns[i] as real))
  }

  lemma {:induction false} LnPow(ln: real -> real, exp: real -> real, x: real, n: nat)
    requires Logarithm(ln, exp) && x > 0.0
    ensures Pow(x, n) > 0.0 && ln(Pow(x, n)) == Times(n as real, ln(x))
  {
    hide Logarithm, Times;
    PowIsPositive(x, n);
    if n == 0 {
      LnAtOne(ln, exp);
      Units(ln(x));
    } else {
      LnPow(ln, exp, x, n - 1);
      LnProduct(ln, exp, x, Pow(x, n - 1));
      Distributes((n - 1) as real, 1.0, ln(x));
      Units(ln(x));
    }
  }

  lemma {:induction false} LnOfProduct(ln: real -> real, exp: real -> real, xs: seq<real>, ns: seq<nat>)
    requires Logarithm(ln, exp) && |xs| == |ns| && forall i :: 0 <= i < |xs| ==> xs[i] > 0.0
    ensures ProductOfPowers(xs, ns) > 0.0
    ensures ln(ProductOfPowers(xs, ns)) == LogSum(NatEntries(xs, ns), ln)
    ensures WeightSum(NatEntries(xs, ns)) == Total(ns) as real
  {
    hide Logarithm, Times;
    if xs == [] {
      LnAtOne(ln, exp);
    } else {
      var last := |xs| - 1;
      LnOfProduct(ln, exp, xs[..last], ns[..last]);
      LnPow(ln, exp, xs[last], ns[last]);
      Positive(ProductOfPowers(xs[..last], ns[..last]), Pow(xs[last], ns[last]));
      LnProduct(ln, exp, ProductOfPowers(xs[..last], ns[..last]), Pow(xs[last], ns[last]));
      assert NatEntries(xs, ns)[..last] == NatEntries(xs[..last], ns[..last]);
      Units(ln(xs[last]));
    }
  }

  /** With whole-number weights that add up to `n`, the composite is the positive n-th root of the
      product of the values raised to their weights. */
  lemma CompositeIsRoot(ln: real -> real, exp: real -> real, xs: seq<real>, ns: seq<nat>)
    requires Logarithm(ln, exp) && |xs| == |ns| && Total(ns) > 0 && forall i :: 0 <= i < |xs| ==> xs[i] > 0.0
    ensures var g := GeometricMean(NatEntries(xs, ns), ln, exp);
            g > 0.0 && Pow(g, Total(ns)) == ProductOfPowers(xs, ns)
  {
    hide Logarithm, Times, GeometricMean, NatEntries, LogSum, WeightSum, ProductOfPowers, Pow, Total;
    var es, n := NatEntries(xs, ns), Total(ns);
    LnOfProduct(ln, exp, xs, ns);
    var g := MeansMultiplied(es, ln, exp);
    LnExp(ln, exp, g);
    LnPow(ln, exp, exp(g), n);
    Commutes(g, n as real);
    SameLogarithm(ln, exp, Pow(exp(g), n), ProductOfPowers(xs, ns));
  }

  function ClampedValues(c: Components): seq<real> {
    [Clamp01(c.modelLogprob), Clamp01(c.crossValidation), Clamp01(c.peerZscore),
     Clamp01(c.schemaValidation), Clamp01(c.crossSource)]
  }

  /** Weights that are whole numbers of some unit `k`. */
  function WeightsOf(ns: seq<nat>, k: real): Weights
    requires |ns| == 5
  {
    Weights(Times(k, ns[0] as real), Times(k, ns[1] as real), Times(k, ns[2] as real),
            Times(k, ns[3] as real), Times(k, ns[4] as real))
  }

  /** The composite of clamped components is the root of the product of their powers, each with
      its own weight, whatever the unit of the weights. */
  lemma CompositeOfComponentsIsRoot(c: Components, ns: seq<nat>, k: real, ln: real -> real, exp: real -> real)
    requires Logarithm(ln, exp) && |ns| == 5 && Total(ns) > 0 && k > 0.0
    ensures var g := GeometricMean(Entries(c, WeightsOf(ns, k)), ln, exp);
            g > 0.0 && Pow(g, Total(ns)) == ProductOfPowers(ClampedValues(c), ns)
  {
    hide Logarithm, GeometricMean, ProductOfPowers, Pow, Clamp01, Total, Times;
    var xs := ClampedValues(c);
    assert Entries(c, WeightsOf(ns, k)) == Scaled(NatEntries(xs, ns), k);
    MeansIgnoreScale(NatEntries(xs, ns), k, ln, exp);
    CompositeIsRoot(ln, exp, xs, ns);
  }

  /** The default weights are 5, 4, 3, 4 and 4 twentieths. */
  lemma DefaultCompositeIsRoot(c: Components, ln: real -> real, exp: real -> real)
    requires Logarithm(ln, exp)
    ensures var g := GeometricMean(Entries(c, DEFAULT_WEIGHTS), ln, exp);
            g > 0.0 && Pow(g, 20) == ProductOfPowers(ClampedValues(c), [5, 4, 3, 4, 4])
  {
    hide Logarithm, GeometricMean, ProductOfPowers, Pow, Clamp01, Total;
    DefaultTotal();
    assert WeightsOf([5, 4, 3, 4, 4], 0.05) == DEFAULT_WEIGHTS;
    CompositeOfComponentsIsRoot(c, [5, 4, 3, 4, 4], 0.05, ln, exp);
  }

  lemma DefaultTotal()
    ensures Total([5, 4, 3, 4, 4]) == 20
  {
    hide Total;
    TotalOfOneMore([], 5);
    TotalOfOneMore([5], 4);
    TotalOfOneMore([5, 4], 3);
    TotalOfOneMore([5, 4, 3], 4);
    TotalOfOneMore([5, 4, 3, 4], 4);
    assert [] + [5] == [5] && [5] + [4] == [5, 4] && [5, 4] + [3] == [5, 4, 3];
    assert [5, 4, 3] + [4] == [5, 4, 3, 4] && [5, 4, 3, 4] + [4] == [5, 4, 3, 4, 4];
  }

  lemma TotalOfOneMore(ns: seq<nat>, n: nat)
    ensures Total(ns + [n]) == Total(ns) + n && Total([]) == 0
  {
    assert (ns + [n])[..|ns|] == ns;
  }

  // ---------------------------------------------------------------------------------------------
  // Chained confidences and bands

  datatype Band = LOW | MEDIUM | HIGH | VERIFIED {
    function Rank(): nat {
      match this case LOW => 0 case MEDIUM => 1 case HIGH => 2 case VERIFIED => 3
    }
  }

  function ConfidenceBand(score: real): Band {
    if score < 0.5 then LOW else if score < 0.75 then MEDIUM else if score < 0.9 then HIGH else VERIFIED
  }

  function CombineConfidences(a: real, b: real): real {
    Times(Clamp01(a), Clamp01(b))
  }

  /** Chaining never raises confidence: neither the score nor the band of either part is exceeded. */
  lemma CombiningOnlyLowers(a: real, b: real)
    ensures var r := CombineConfidences(a, b);
            && 0.0 < r <= Clamp01(a) && r <= Clamp01(b)
            && ConfidenceBand(r).Rank() <= ConfidenceBand(Clamp01(a)).Rank()
            && ConfidenceBand(r).Rank() <= ConfidenceBand(Clamp01(b)).Rank()
            && r == CombineConfidences(b, a)
  {
    hide Times;
    var x, y := Clamp01(a), Clamp01(b);
    Positive(x, y);
    Commutes(x, y);
    Grows(x, 1.0, y);
    Grows(y, 1.0, x);
    Units(x);
    Units(y);
  }
}
