/** One broken link: what a single component near zero does to the two means under the default weights,
    and to the band. */
module WeakLinks {
  import opened Confidence
  import opened RealFacts

  /** The band counts the thresholds that the score reaches. */
  lemma BandCountsThresholds(score: real)
    ensures ConfidenceBand(score).Rank()
         == (if score >= 0.5 then 1 else 0) + (if score >= 0.75 then 1 else 0) + (if score >= 0.9 then 1 else 0)
  {
  }

  /** A product of powers of values up to one is at most each of the powers. */
  lemma {:induction false} ProductBelowPower(xs: seq<real>, ns: seq<nat>, k: int)
    requires |xs| == |ns| && forall i :: 0 <= i < |xs| ==> 0.0 < xs[i] <= 1.0
    ensures 0.0 < ProductOfPowers(xs, ns) <= 1.0
    ensures 0 <= k < |xs| ==> ProductOfPowers(xs, ns) <= Pow(xs[k], ns[k])
  {
    hide Times, Pow;
    if xs != [] {
      var last := |xs| - 1;
      ProductBelowPower(xs[..last], ns[..last], k);
      var p, q := ProductOfPowers(xs[..last], ns[..last]), Pow(xs[last], ns[last]);
      PowIsPositive(xs[last], ns[last]);
      PowGrows(xs[last], 1.0, ns[last]);
      PowOfOne(ns[last]);
      Positive(p, q);
      Grows(p, 1.0, q);
      Grows(q, 1.0, p);
      Commutes(p, q);
      Units(p);
      Units(q);
    }
  }

  lemma {:induction false} PowOfOne(n: nat)
    ensures Pow(1.0, n) == 1.0
  {
    if n > 0 { PowOfOne(n - 1); }
  }

  /** The greater of two exponents gives the lesser power of a value up to one. */
  lemma {:induction false} HigherPowerIsLess(x: real, m: nat, n: nat)
    requires 0.0 < x <= 1.0 && m <= n
    ensures Pow(x, n) <= Pow(x, m)
    decreases n
  {
    hide Times;
    if m < n {
      HigherPowerIsLess(x, m, n - 1);
      PowIsPositive(x, n - 1);
      Grows(x, 1.0, Pow(x, n - 1));
      Units(Pow(x, n - 1));
    }
  }

  lemma SmallPower()
    ensures Pow(0.000001, 3) < Pow(0.126, 20)
  {
    assert Pow(0.126, 1) == 0.126;
    assert Pow(0.126, 2) == 0.015876;
    assert Pow(0.126, 3) == 0.002000376;
    assert Pow(0.126, 5) == 0.126 * (0.126 * 0.002000376);
    PowSum(0.126, 5, 5);
    PowSum(0.126, 10, 10);
    assert Pow(0.000001, 1) == 0.000001;
    assert Pow(0.000001, 2) == 0.000000000001;
  }

  /** Some component is at most the smallest that counts. */
  predicate Broken(c: Components) {
    || c.modelLogprob <= 0.000001 || c.crossValidation <= 0.000001 || c.peerZscore <= 0.000001
    || c.schemaValidation <= 0.000001 || c.crossSource <= 0.000001
  }

  lemma BrokenIsClamped(c: Components) returns (k: int)
    requires Broken(c)
    ensures 0 <= k < 5 && ClampedValues(c)[k] == 0.000001
    ensures forall i :: 0 <= i < 5 ==> 0.0 < ClampedValues(c)[i] <= 1.0
  {
    k := if c.modelLogprob <= 0.000001 then 0 else if c.crossValidation <= 0.000001 then 1
         else if c.peerZscore <= 0.000001 then 2 else if c.schemaValidation <= 0.000001 then 3 else 4;
  }

  /** A single broken link brings the composite under 0.126, whatever the other components: the band is
      LOW. */
  lemma BrokenLinkIsLow(c: Components, ln: real -> real, exp: real -> real)
    requires Logarithm(ln, exp) && Broken(c)
    ensures var g := GeometricMean(Entries(c, DEFAULT_WEIGHTS), ln, exp);
            0.0 < g < 0.126 && ConfidenceBand(g) == LOW
  {
    hide Logarithm, GeometricMean, ProductOfPowers, Pow, Times, Clamp01;
    var g := GeometricMean(Entries(c, DEFAULT_WEIGHTS), ln, exp);
    var ns: seq<nat> := [5, 4, 3, 4, 4];
    var k := BrokenIsClamped(c);
    DefaultCompositeIsRoot(c, ln, exp);
    ProductBelowPower(ClampedValues(c), ns, k);
    HigherPowerIsLess(0.000001, 3, ns[k]);
    SmallPower();
    if g >= 0.126 {
      PowGrows(0.126, g, 20);
    }
  }

  /** One component is broken, and the others are full. */
  predicate OnlyOneBroken(c: Components) {
    var xs := [c.modelLogprob, c.crossValidation, c.peerZscore, c.schemaValidation, c.crossSource];
    exists k :: 0 <= k < 5 && xs[k] <= 0.000001 && forall i :: 0 <= i < 5 && i != k ==> xs[i] >= 1.0
  }

  /** The arithmetic mean masks such a link: it calls HIGH what the composite calls LOW. */
  lemma ArithmeticMeanMasks(c: Components, ln: real -> real, exp: real -> real)
    requires Logarithm(ln, exp) && OnlyOneBroken(c)
    ensures ConfidenceBand(ArithmeticMean(Entries(c, DEFAULT_WEIGHTS))) == HIGH
    ensures ConfidenceBand(GeometricMean(Entries(c, DEFAULT_WEIGHTS), ln, exp)) == LOW
  {
    hide Logarithm, GeometricMean, ArithmeticMean, Clamp01, Weighed;
    OneIsBroken(c);
    BrokenLinkIsLow(c, ln, exp);
    DefaultMean(c);
    Shares(c);
  }

  lemma OneIsBroken(c: Components)
    requires OnlyOneBroken(c)
    ensures Broken(c)
  {
  }

  function Weighed(xs: seq<real>): real
    requires |xs| == 5
  {
    0.25 * xs[0] + 0.2 * xs[1] + 0.15 * xs[2] + 0.2 * xs[3] + 0.2 * xs[4]
  }

  lemma DefaultMean(c: Components)
    ensures ArithmeticMean(Entries(c, DEFAULT_WEIGHTS)) == Weighed(ClampedValues(c))
  {
    hide Clamp01;
    var es := Entries(c, DEFAULT_WEIGHTS);
    assert es[..4][..3] == es[..3] && es[..3][..2] == es[..2] && es[..2][..1] == es[..1] && es[..1][..0] == [];
    assert WeightSum(es[..1]) == 0.25 && ValueSum(es[..1]) == 0.25 * es[0].value;
    assert WeightSum(es[..2]) == 0.45 && ValueSum(es[..2]) == ValueSum(es[..1]) + 0.2 * es[1].value;
    assert WeightSum(es[..3]) == 0.6 && ValueSum(es[..3]) == ValueSum(es[..2]) + 0.15 * es[2].value;
    assert WeightSum(es[..4]) == 0.8 && ValueSum(es[..4]) == ValueSum(es[..3]) + 0.2 * es[3].value;
  }

  lemma Shares(c: Components)
    requires OnlyOneBroken(c)
    ensures 0.75 <= Weighed(ClampedValues(c)) < 0.9
  {
    var raw, xs := [c.modelLogprob, c.crossValidation, c.peerZscore, c.schemaValidation, c.crossSource],
                   ClampedValues(c);
    var k :| 0 <= k < 5 && raw[k] <= 0.000001 && forall i :: 0 <= i < 5 && i != k ==> raw[i] >= 1.0;
    assert forall i :: 0 <= i < 5 ==> xs[i] == Clamp01(raw[i]);
    forall i | 0 <= i < 5
      ensures xs[i] == if i == k then 0.000001 else 1.0
    {
      assert i != k ==> raw[i] >= 1.0;
    }
  }
}
