/** The weighted geometric mean with whole-number weights, as a root of a product of powers: its laws
    proved from arithmetic alone, without a logarithm. */
module RootMeans {
  import opened Confidence
  import opened RealFacts

  /** `g` is the geometric mean of the values with these weights. */
  predicate Root(g: real, xs: seq<real>, ns: seq<nat>)
    requires |xs| == |ns|
  {
    g > 0.0 && Pow(g, Total(ns)) == ProductOfPowers(xs, ns)
  }

  predicate Positives(xs: seq<real>) {
    forall i :: 0 <= i < |xs| ==> xs[i] > 0.0
  }

  // ---------------------------------------------------------------------------------------------
  // Powers

  /** Bernoulli's inequality, with `d` for the excess over 1. */
  lemma {:induction false} Bernoulli(d: real, n: nat)
    requires d > -1.0
    ensures Pow(1.0 + d, n) >= 1.0 + Times(n as real, d)
  {
    hide Times;
    if n == 0 {
      Units(d);
    } else {
      Bernoulli(d, n - 1);
      var r, before := 1.0 + d, 1.0 + Times((n - 1) as real, d);
      Grows(before, Pow(r, n - 1), r);
      Commutes(Pow(r, n - 1), r);
      // before * (1 + d) == 1 + n * d + (n - 1) * d * d
      Commutes(before, r);
      Distributes(1.0, d, before);
      Units(before);
      Commutes(d, before);
      Distributes(1.0, Times((n - 1) as real, d), d);
      Units(d);
      Associates((n - 1) as real, d, d);
      Distributes((n - 1) as real, 1.0, d);
      Squares(d);
      Units(Times(d, d));
      Grows(0.0, (n - 1) as real, Times(d, d));
    }
  }

  lemma Squares(d: real)
    ensures Times(d, d) >= 0.0
  {
    hide Times;
    if d == 0.0 {
      Units(d);
    } else {
      SquareIsPositive(d);
    }
  }

  // ---------------------------------------------------------------------------------------------
  // Adding values one at a time

  /** One more value `x` to `n` values of mean `a` makes mean `b`: the power of the mean gains at
      least the factor `x`. */
  lemma MeanStep(a: real, n: nat, x: real, b: real)
    requires a > 0.0 && x > 0.0 && Times((n + 1) as real, b) == Times(n as real, a) + x
    ensures b > 0.0 && Times(Pow(a, n), x) <= Pow(b, n + 1)
  {
    hide Times, Pow;
    var k := (n + 1) as real;
    // b / a == 1 + d, where k * d * a == x - a
    var d := b / a - 1.0;
    Quotient(b, a);
    Distributes(1.0, d, a);
    Units(a);
    MeanIsPositive(a, n, x, b);
    QuotientSign(b, a, b / a);
    Bernoulli(d, n + 1);
    Distributes(n as real, 1.0, a);
    Distributes(b, a, k);
    Commutes(b, k);
    Commutes(a, k);
    Commutes(Times(d, a), k);
    Associates(k, d, a);
    Distributes(1.0, Times(k, d), a);
    assert Times(1.0 + Times(k, d), a) == x;
    // Pow(b, n + 1) == Pow(1 + d, n + 1) * a * Pow(a, n) >= x * Pow(a, n)
    PowProduct(1.0 + d, a, n + 1);
    PowIsPositive(a, n);
    NextPow(a, n);
    Associates(Pow(1.0 + d, n + 1), a, Pow(a, n));
    Grows(1.0 + Times(k, d), Pow(1.0 + d, n + 1), a);
    Grows(x, Times(Pow(1.0 + d, n + 1), a), Pow(a, n));
    Commutes(x, Pow(a, n));
  }

  lemma MeanIsPositive(a: real, n: nat, x: real, b: real)
    requires a > 0.0 && x > 0.0 && Times((n + 1) as real, b) == Times(n as real, a) + x
    ensures b > 0.0
  {
    hide Times;
    Units(a);
    Grows(0.0, n as real, a);
    Commutes((n + 1) as real, b);
    Units((n + 1) as real);
    Cancels(b, 0.0, (n + 1) as real);
  }

  lemma NextPow(x: real, n: nat)
    ensures Pow(x, n + 1) == Times(x, Pow(x, n))
  {
  }

  /** `n` copies of `x` added to `k` values of mean `a` whose product is at most `p`, making mean `b`. */
  lemma {:induction false} AddCopies(p: real, a: real, k: nat, x: real, n: nat, b: real)
    requires p > 0.0 && a > 0.0 && x > 0.0 && p <= Pow(a, k) && k + n > 0
    requires Times((k + n) as real, b) == Times(k as real, a) + Times(n as real, x)
    ensures b > 0.0 && Times(p, Pow(x, n)) <= Pow(b, k + n)
    decreases n
  {
    hide Times, Pow;
    if n == 0 {
      NoPow(x);
      Units(p);
      Units(x);
      Commutes(k as real, a);
      Commutes(k as real, b);
      Cancels(a, b, k as real);
    } else {
      var m := k + n - 1;
      var sum := Times(k as real, a) + Times((n - 1) as real, x);
      var c := if m == 0 then 1.0 else sum / m as real;
      if m == 0 {
        NoPow(a);
        NoPow(c);
        Units(a);
        Units(c);
        Units(x);
        NoPow(x);
        Units(p);
      } else {
        Quotient(sum, m as real);
        Commutes(c, m as real);
        AddCopies(p, a, k, x, n - 1, c);
      }
      Distributes((n - 1) as real, 1.0, x);
      Units(x);
      assert Times(m as real, c) == sum;
      MeanStep(c, m, x, b);
      // p * x^n == p * x^(n-1) * x <= c^m * x <= b^(m+1)
      NextPow(x, n - 1);
      Commutes(x, Pow(x, n - 1));
      Associates(p, Pow(x, n - 1), x);
      Grows(Times(p, Pow(x, n - 1)), Pow(c, m), x);
    }
  }

  lemma NoPow(x: real)
    ensures Pow(x, 0) == 1.0
  {
  }

  // ---------------------------------------------------------------------------------------------
  // The product of powers against the arithmetic mean

  /** The sums of entries, one fewer. */
  lemma NatSums(xs: seq<real>, ns: seq<nat>)
    requires |xs| == |ns| > 0
    ensures var last := |xs| - 1;
            && ValueSum(NatEntries(xs, ns))
                 == ValueSum(NatEntries(xs[..last], ns[..last])) + Times(ns[last] as real, xs[last])
            && WeightSum(NatEntries(xs, ns)) == WeightSum(NatEntries(xs[..last], ns[..last])) + ns[last] as real
  {
    hide Times, ValueSum, WeightSum;
    var last := |xs| - 1;
    assert NatEntries(xs, ns)[..last] == NatEntries(xs[..last], ns[..last]);
    assert NatEntries(xs, ns)[last] == Entry(xs[last], ns[last] as real);
    Units(xs[last]);
    SumsOfLast(NatEntries(xs, ns));
  }

  lemma SumsOfLast(es: seq<Entry>)
    requires es != [] && es[|es| - 1].weight >= 0.0
    ensures var init, e := es[..|es| - 1], es[|es| - 1];
            && WeightSum(es) == WeightSum(init) + e.weight
            && ValueSum(es) == ValueSum(init) + Times(e.weight, e.value)
  {
    hide Times;
    Units(es[|es| - 1].value);
  }

  lemma OneMorePower(xs: seq<real>, ns: seq<nat>)
    requires |xs| == |ns| > 0
    ensures var last := |xs| - 1;
            && Total(ns) == Total(ns[..last]) + ns[last]
            && ProductOfPowers(xs, ns) == Times(ProductOfPowers(xs[..last], ns[..last]), Pow(xs[last], ns[last]))
  {
    hide Times, Pow;
  }

  lemma {:induction false} WeightsAdd(xs: seq<real>, ns: seq<nat>)
    requires |xs| == |ns|
    ensures WeightSum(NatEntries(xs, ns)) == Total(ns) as real
  {
    hide ProductOfPowers, ValueSum;
    if xs != [] {
      NatSums(xs, ns);
      WeightsAdd(xs[..|xs| - 1], ns[..|xs| - 1]);
    }
  }

  lemma {:induction false} ProductIsPositive(xs: seq<real>, ns: seq<nat>)
    requires |xs| == |ns| && Positives(xs)
    ensures ProductOfPowers(xs, ns) > 0.0
  {
    hide Times, Pow;
    if xs != [] {
      var last := |xs| - 1;
      ProductIsPositive(xs[..last], ns[..last]);
      PowIsPositive(xs[last], ns[last]);
      Positive(ProductOfPowers(xs[..last], ns[..last]), Pow(xs[last], ns[last]));
    }
  }

  /** The mean `m` of the values, by what it is multiplied out, has at least their product for its
      power. */
  lemma {:induction false} ProductBelowPowerOfMean(xs: seq<real>, ns: seq<nat>, m: real)
    requires |xs| == |ns| && Positives(xs) && m > 0.0
    requires Times(Total(ns) as real, m) == ValueSum(NatEntries(xs, ns))
    ensures ProductOfPowers(xs, ns) <= Pow(m, Total(ns))
  {
    hide Times, Pow, Total, ProductOfPowers, ValueSum, WeightSum, NatEntries;
    if xs == [] {
      NothingSums(xs, ns, m);
    } else {
      var last := |xs| - 1;
      var init, inits := xs[..last], ns[..last];
      var k, n, sum := Total(inits), ns[last], ValueSum(NatEntries(init, inits));
      NatSums(xs, ns);
      OneMorePower(xs, ns);
      ProductIsPositive(init, inits);
      SumIsPositive(init, inits);
      var a := if k == 0 then 1.0 else sum / k as real;
      if k == 0 {
        Units(a);
      } else {
        Quotient(sum, k as real);
        Commutes(a, k as real);
        QuotientSign(sum, k as real, a);
      }
      ProductBelowPowerOfMean(init, inits, a);
      if k + n == 0 {
        NoPow(xs[last]);
        Units(ProductOfPowers(init, inits));
        NoPow(m);
        NoPow(a);
      } else {
        AddCopies(ProductOfPowers(init, inits), a, k, xs[last], n, m);
      }
    }
  }

  lemma NothingSums(xs: seq<real>, ns: seq<nat>, m: real)
    requires xs == [] && ns == []
    ensures ProductOfPowers(xs, ns) == 1.0 && Total(ns) == 0 && Pow(m, 0) == 1.0
  {
  }

  lemma {:induction false} SumIsPositive(xs: seq<real>, ns: seq<nat>)
    requires |xs| == |ns| && Positives(xs)
    ensures Total(ns) > 0 ==> ValueSum(NatEntries(xs, ns)) > 0.0
    ensures Total(ns) == 0 ==> ValueSum(NatEntries(xs, ns)) == 0.0
  {
    hide Times, Pow, ProductOfPowers, WeightSum;
    if xs != [] {
      var last := |xs| - 1;
      NatSums(xs, ns);
      SumIsPositive(xs[..last], ns[..last]);
      Units(xs[last]);
      if ns[last] > 0 { Positive(ns[last] as real, xs[last]); }
    }
  }

  /** Weighted AM-GM: the root of the product of powers does not exceed the arithmetic mean. */
  lemma RootBelowArithmetic(xs: seq<real>, ns: seq<nat>, g: real)
    requires |xs| == |ns| && Positives(xs) && Total(ns) > 0 && Root(g, xs, ns)
    ensures g <= ArithmeticMean(NatEntries(xs, ns))
    ensures Times(Total(ns) as real, g) <= ValueSum(NatEntries(xs, ns))
  {
    hide Times, Pow, Total, ProductOfPowers, ValueSum, WeightSum, NatEntries;
    var n, sum := Total(ns) as real, ValueSum(NatEntries(xs, ns));
    var m := ArithmeticMean(NatEntries(xs, ns));
    WeightsAdd(xs, ns);
    SumIsPositive(xs, ns);
    Quotient(sum, n);
    QuotientSign(sum, n, m);
    Commutes(m, n);
    Commutes(g, n);
    ProductBelowPowerOfMean(xs, ns, m);
    if m < g {
      PowGrows(m, g, Total(ns));
    }
    Cancels(g, m, n);
  }

  // ---------------------------------------------------------------------------------------------
  // Order

  lemma {:induction false} ProductGrows(xs: seq<real>, ys: seq<real>, ns: seq<nat>)
    requires |xs| == |ys| == |ns| && Positives(xs) && forall i :: 0 <= i < |xs| ==> xs[i] <= ys[i]
    ensures 0.0 < ProductOfPowers(xs, ns) <= ProductOfPowers(ys, ns)
  {
    hide Times, Pow;
    if xs != [] {
      var last := |xs| - 1;
      ProductGrows(xs[..last], ys[..last], ns[..last]);
      var p, q := ProductOfPowers(xs[..last], ns[..last]), ProductOfPowers(ys[..last], ns[..last]);
      var u, v := Pow(xs[last], ns[last]), Pow(ys[last], ns[last]);
      PowIsPositive(xs[last], ns[last]);
      PowGrows(xs[last], ys[last], ns[last]);
      Positive(p, u);
      Grows(p, q, u);
      Grows(u, v, q);
      Commutes(q, u);
      Commutes(q, v);
    }
  }

  /** Raising values never lowers the root; equal values have equal roots. */
  lemma RootIsMonotone(xs: seq<real>, ys: seq<real>, ns: seq<nat>, g: real, h: real)
    requires |xs| == |ys| == |ns| && Positives(xs) && Total(ns) > 0
    requires forall i :: 0 <= i < |xs| ==> xs[i] <= ys[i]
    requires Root(g, xs, ns) && Root(h, ys, ns)
    ensures g <= h
  {
    hide Times, Pow, Total, ProductOfPowers;
    ProductGrows(xs, ys, ns);
    if h < g {
      PowGrows(h, g, Total(ns));
    }
  }

  lemma {:induction false} ProductOfOneValue(x: real, ns: seq<nat>)
    ensures ProductOfPowers(seq(|ns|, _ => x), ns) == Pow(x, Total(ns))
  {
    hide Times, Pow;
    if ns == [] {
      NoPow(x);
    } else {
      var last := |ns| - 1;
      ProductOfOneValue(x, ns[..last]);
      assert seq(|ns|, _ => x)[..last] == seq(last, _ => x);
      PowSum(x, Total(ns[..last]), ns[last]);
    }
  }

  /** The root lies between any positive bounds of the values. */
  lemma RootIsWithin(xs: seq<real>, ns: seq<nat>, g: real, lo: real, hi: real)
    requires |xs| == |ns| && 0.0 < lo && Total(ns) > 0 && Root(g, xs, ns)
    requires forall i :: 0 <= i < |xs| ==> lo <= xs[i] <= hi
    ensures lo <= g <= hi
  {
    hide Times, Pow, Total, ProductOfPowers;
    var los, his := seq(|ns|, _ => lo), seq(|ns|, _ => hi);
    ProductOfOneValue(lo, ns);
    ProductOfOneValue(hi, ns);
    TotalIsOfSome(ns);
    assert lo <= xs[0] <= hi;
    RootIsMonotone(los, xs, ns, lo, g);
    RootIsMonotone(xs, his, ns, g, hi);
  }

  lemma TotalIsOfSome(ns: seq<nat>)
    requires Total(ns) > 0
    ensures ns != []
  {
  }
}
