/** What the comparisons of the scorer measure: agreement by relative differences, the peer score by
    distance from the mean in standard deviations. */
module Comparisons {
  import opened Metrics
  import opened RealFacts
  import opened Scorer
  import opened Siblings
  import opened Wrappers

  // ---------------------------------------------------------------------------------------------
  // Agreement

  predicate Within(x: real, y: real, t: real) {
    var d := Abs(x - y);
    d <= Times(t, Abs(x)) || d <= Times(t, Abs(y)) || d <= Times(t, 0.000000001)
  }

  lemma DifferenceAtMost(x: real, y: real, t: real)
    requires t >= 0.0
    ensures Difference(x, y) <= t <==> Within(x, y, t)
  {
    hide Times;
    var base := Base(x, y);
    Quotient(Abs(x - y), base);
    Cancels(Difference(x, y), t, base);
    ProductsWithin(x, y, t);
  }

  /** A share of the base is the greatest of the three shares. */
  lemma ProductsWithin(x: real, y: real, t: real)
    requires t >= 0.0
    ensures Abs(x - y) <= Times(t, Base(x, y)) <==> Within(x, y, t)
  {
    hide Times;
    Commutes(t, Abs(x));
    Commutes(t, Abs(y));
    Commutes(t, 0.000000001);
    Commutes(t, Base(x, y));
    Grows(Abs(x), Base(x, y), t);
    Grows(Abs(y), Base(x, y), t);
    Grows(0.000000001, Base(x, y), t);
  }

  /** With numeric siblings the agreement reaches exp(-6 t) exactly if each of them differs from the
      value by at most the share `t` of one of the two. */
  lemma AgreementReaches(v: real, siblings: seq<Option<real>>, t: real, exp: real -> real)
    requires Exponential(exp) && t >= 0.0 && siblings != [] && AllNumbers(siblings)
    ensures Agreement(Some(v), siblings, exp) >= Sanitize(exp(-6.0 * t)) <==>
            forall s :: s in siblings ==> Within(v, s.value, t)
  {
    hide Difference, Differences, Within;
    NumbersDiffer(v, siblings);
    var ds := Differences(v, siblings);
    WorstSign(v, siblings);
    DecayFalls(exp, Worst(ds), t);
    forall s | s in siblings
      ensures Difference(v, s.value) in ds && (Difference(v, s.value) <= t <==> Within(v, s.value, t))
    {
      DifferenceAtMost(v, s.value, t);
    }
    var w :| w in siblings && Worst(ds) == Difference(v, w.value);
  }

  lemma DecayFalls(exp: real -> real, p: real, q: real)
    requires Exponential(exp) && p >= 0.0 && q >= 0.0
    ensures Sanitize(exp(-p * 6.0)) >= Sanitize(exp(-6.0 * q)) <==> p <= q
  {
    assert -p * 6.0 == -6.0 * p && -6.0 * q == -q * 6.0;
    assert exp(-p * 6.0) > 0.0 && exp(-q * 6.0) > 0.0;
    assert p > 0.0 ==> exp(-p * 6.0) < exp(0.0);
    assert q > 0.0 ==> exp(-q * 6.0) < exp(0.0);
    assert p < q ==> exp(-q * 6.0) < exp(-p * 6.0);
    assert q < p ==> exp(-p * 6.0) < exp(-q * 6.0);
  }

  /** Siblings of which none carries a number say nothing either way. */
  lemma NoNumbersAreNeutral(v: real, siblings: seq<Option<real>>, exp: real -> real)
    requires siblings != [] && forall s :: s in siblings ==> s == None
    ensures Agreement(Some(v), siblings, exp) == 0.5
  {
    hide Difference;
    DifferencesAre(v, siblings);
  }

  function ScaledBy(siblings: seq<Option<real>>, a: real): seq<Option<real>> {
    seq(|siblings|, i requires 0 <= i < |siblings| =>
      if siblings[i].Some? then Some(Times(siblings[i].value, a)) else None)
  }

  /** Neither of two values, before or after scaling, falls under the floor of the base. */
  predicate Sizeable(x: real, y: real, a: real) {
    && (Abs(x) >= 0.000000001 || Abs(y) >= 0.000000001)
    && (Times(Abs(x), a) >= 0.000000001 || Times(Abs(y), a) >= 0.000000001)
  }

  lemma DifferenceScales(x: real, y: real, a: real)
    requires a > 0.0 && Sizeable(x, y, a)
    ensures Difference(Times(x, a), Times(y, a)) == Difference(x, y)
  {
    hide Times, Abs;
    Distributes(x, y, a);
    ScaledAbs(x, a);
    ScaledAbs(y, a);
    ScaledAbs(x - y, a);
    ScaledBase(x, y, a);
    SameQuotient(Abs(x - y), Base(x, y), a);
  }

  lemma ScaledAbs(x: real, a: real)
    requires a > 0.0
    ensures Abs(Times(x, a)) == Times(Abs(x), a)
  {
    hide Times;
    Distributes(0.0, x, a);
    Units(a);
    Cancels(0.0, x, a);
  }

  lemma ScaledBase(x: real, y: real, a: real)
    requires a > 0.0 && Sizeable(x, y, a)
    requires Abs(Times(x, a)) == Times(Abs(x), a) && Abs(Times(y, a)) == Times(Abs(y), a)
    ensures Base(Times(x, a), Times(y, a)) == Times(Base(x, y), a)
  {
    hide Times, Abs;
    Cancels(Abs(x), Abs(y), a);
    Cancels(Abs(y), Abs(x), a);
  }

  lemma SameQuotient(d: real, b: real, a: real)
    requires a > 0.0 && b > 0.0 && Times(b, a) > 0.0
    ensures Times(d, a) / Times(b, a) == d / b
  {
    hide Times;
    var q := d / b;
    Quotient(d, b);
    Associates(q, b, a);
    Quotient(Times(d, a), Times(b, a));
    Cancels(Times(d, a) / Times(b, a), q, Times(b, a));
  }

  /** Agreement does not depend on the unit of the values. */
  lemma {:induction false} AgreementIgnoresScale(v: real, siblings: seq<Option<real>>, a: real, exp: real -> real)
    requires a > 0.0 && forall s :: s in siblings && s.Some? ==> Sizeable(v, s.value, a)
    ensures Agreement(Some(Times(v, a)), ScaledBy(siblings, a), exp) == Agreement(Some(v), siblings, exp)
  {
    hide Times, Sizeable, Difference, Worst;
    DifferencesScale(v, siblings, a);
  }

  lemma {:induction false} DifferencesScale(v: real, siblings: seq<Option<real>>, a: real)
    requires a > 0.0 && forall s :: s in siblings && s.Some? ==> Sizeable(v, s.value, a)
    ensures Differences(Times(v, a), ScaledBy(siblings, a)) == Differences(v, siblings)
  {
    hide Times, Sizeable, Difference;
    if siblings != [] {
      var init, last := siblings[..|siblings| - 1], siblings[|siblings| - 1];
      DifferencesScale(v, init, a);
      assert ScaledBy(siblings, a)[..|siblings| - 1] == ScaledBy(init, a);
      assert last in siblings;
      if last.Some? { DifferenceScales(v, last.value, a); }
    }
  }

  // ---------------------------------------------------------------------------------------------
  // The peer score

  /** `Sum` adds up, and `SquaredDeviations` adds up squares. */
  lemma {:induction false} SumsAdd(xs: seq<real>, ys: seq<real>, mu: real)
    ensures Sum(xs + ys) == Sum(xs) + Sum(ys)
    ensures SquaredDeviations(xs + ys, mu) == SquaredDeviations(xs, mu) + SquaredDeviations(ys, mu)
  {
    if ys == [] {
      assert xs + ys == xs;
    } else {
      var init := ys[..|ys| - 1];
      SumsAdd(xs, init, mu);
      assert (xs + ys)[..|xs + ys| - 1] == xs + init;
    }
  }

  lemma SumsOfOne(x: real, mu: real)
    ensures Sum([x]) == x && SquaredDeviations([x], mu) == (x - mu) * (x - mu)
  {
    assert [x][..0] == [];
  }

  function Mean(priors: seq<real>): real
    requires priors != []
  {
    Sum(priors) / |priors| as real
  }

  function PeerOf(value: real, priors: seq<real>, m: MathLib): real {
    PeerScore(ZScoreOf(Some(value), priors, m.sqrt), 1.0, m.exp)
  }

  /** The peer score reaches exp(-t * t / 4.5) exactly within `t` standard deviations of the mean; with
      hardly any deviation it is full at the mean and nothing elsewhere, and for a single prior the
      deviation is half the prior. */
  lemma PeerReaches(value: real, priors: seq<real>, t: real, m: MathLib)
    requires Exponential(m.exp) && t >= 0.0 && priors != []
    ensures var d, n, mu := Abs(value - Mean(priors)), |priors| as real, Mean(priors);
            var reached := PeerOf(value, priors, m) >= m.exp(-Times(t, t) / 4.5);
            && (|priors| == 1 ==> (reached <==> d * 2.0 <= Times(t, Abs(mu) + 0.000000001)))
            && (|priors| > 1 ==>
                var sd := m.sqrt(SquaredDeviations(priors, mu) / (n - 1.0));
                && (sd >= 0.000000001 ==> (reached <==> d <= Times(t, sd)))
                && (sd < 0.000000001 ==> PeerOf(value, priors, m) == if d < 0.000000001 then 1.0 else 0.0))
  {
    hide Times, Abs, Sum, SquaredDeviations, Decay;
    var mu := Mean(priors);
    var d := AbsDistance(value, mu);
    DecayAtZero(m.exp);
    AbsSign(mu);
    if |priors| == 1 {
      var b := Abs(mu) + 0.000000001;
      var z := d / b * 2.0;
      RatioReaches(d * 2.0, b, t, m.exp);
      assert z == d * 2.0 / b;
    } else {
      var sd := m.sqrt(SquaredDeviations(priors, mu) / (|priors| as real - 1.0));
      if sd >= 0.000000001 {
        RatioReaches(d, sd, t, m.exp);
      }
    }
  }

  lemma AbsDistance(x: real, y: real) returns (d: real)
    ensures d == Abs(x - y) >= 0.0
  {
    d := Abs(x - y);
  }

  lemma AbsSign(x: real)
    ensures Abs(x) >= 0.0
  {
  }

  lemma DecayAtZero(exp: real -> real)
    requires Exponential(exp)
    ensures Decay(0.0, exp) == 1.0
  {
    assert -(0.0 * 0.0) / 4.5 == 0.0;
  }

  lemma RatioReaches(d: real, b: real, t: real, exp: real -> real)
    requires Exponential(exp) && d >= 0.0 && b > 0.0 && t >= 0.0
    ensures Decay(d / b, exp) >= exp(-Times(t, t) / 4.5) <==> d <= Times(t, b)
  {
    hide Times;
    var z := d / b;
    Quotient(d, b);
    Cancels(z, t, b);
    Units(b);
    Cancels(0.0, z, b);
    DecayReaches(z, t, exp);
  }

  /** The decay falls as the z-score grows. */
  lemma DecayReaches(z: real, t: real, exp: real -> real)
    requires Exponential(exp) && z >= 0.0 && t >= 0.0
    ensures Decay(z, exp) >= exp(-Times(t, t) / 4.5) <==> z <= t
    ensures Decay(z, exp) == exp(-Times(z, z) / 4.5)
  {
    var u, v := -Times(z, z) / 4.5, -Times(t, t) / 4.5;
    SquaresOrder(z, t);
    SquaresOrder(0.0, z);
    assert u == -(z * z) / 4.5;
    assert exp(u) > 0.0 && (u < 0.0 ==> exp(u) < exp(0.0));
    assert (u < v ==> exp(u) < exp(v)) && (v < u ==> exp(v) < exp(u));
  }

  lemma SquaresOrder(a: real, b: real)
    requires a >= 0.0 && b >= 0.0
    ensures a < b <==> Times(a, a) < Times(b, b)
    ensures a == b <==> Times(a, a) == Times(b, b)
    ensures Times(b, b) >= 0.0
  {
    hide Times;
    Units(b);
    Units(a);
    Grows(0.0, b, b);
    if a < b { SquareGrows(a, b); }
    if b < a { SquareGrows(b, a); }
  }

  lemma SquareGrows(a: real, b: real)
    requires 0.0 <= a < b
    ensures Times(a, a) < Times(b, b)
  {
    hide Times;
    Grows(a, b, a);
    Commutes(a, b);
    Grows(a, b, b);
  }

  /** Farther from the mean of the priors the peer score is no higher. */
  lemma PeerFalls(v: real, w: real, priors: seq<real>, m: MathLib)
    requires Exponential(m.exp) && priors != [] && Abs(v - Mean(priors)) <= Abs(w - Mean(priors))
    ensures PeerOf(w, priors, m) <= PeerOf(v, priors, m)
  {
    hide Times, Abs, Sum, SquaredDeviations, Decay;
    var mu := Mean(priors);
    var a := AbsDistance(v, mu);
    var b := AbsDistance(w, mu);
    DecayAtZero(m.exp);
    AbsSign(mu);
    if |priors| == 1 {
      var base := Abs(mu) + 0.000000001;
      DecayOfRatio(a, b, base, m.exp);
    } else {
      var sd := m.sqrt(SquaredDeviations(priors, mu) / (|priors| as real - 1.0));
      if sd >= 0.000000001 {
        DecayOfRatio(a, b, sd, m.exp);
      }
    }
  }

  lemma DecayOfRatio(a: real, b: real, base: real, exp: real -> real)
    requires Exponential(exp) && 0.0 <= a <= b && base > 0.0
    ensures Decay(b / base * 2.0, exp) <= Decay(a / base * 2.0, exp)
    ensures Decay(b / base, exp) <= Decay(a / base, exp)
  {
    hide Times, Decay;
    var p, q := a / base, b / base;
    Quotient(a, base);
    Quotient(b, base);
    Cancels(p, q, base);
    Units(base);
    Cancels(0.0, p, base);
    DecayReaches(p, q, exp);
    DecayReaches(q, q, exp);
    DecayReaches(p * 2.0, q * 2.0, exp);
    DecayReaches(q * 2.0, q * 2.0, exp);
  }

  /** Three priors 0, 2 and 4 have mean 2 and standard deviation 2: the value 8 is three deviations off. */
  lemma ThreeDeviationsOff(m: MathLib)
    requires m.sqrt(4.0) == 2.0 && Exponential(m.exp)
    ensures PeerOf(8.0, [0.0, 2.0, 4.0], m) == m.exp(-2.0)
  {
    hide Decay;
    var priors := [0.0, 2.0, 4.0];
    SumsOfThree(0.0, 2.0, 4.0, 2.0);
    assert Sum(priors) == 6.0 && SquaredDeviations(priors, 2.0) == 8.0;
    assert ZScoreOf(Some(8.0), priors, m.sqrt) == Z(3.0);
    DecayReaches(3.0, 3.0, m.exp);
  }

  lemma SumsOfThree(x: real, y: real, z: real, mu: real)
    ensures Sum([x, y, z]) == x + y + z
    ensures SquaredDeviations([x, y, z], mu) == (x - mu) * (x - mu) + (y - mu) * (y - mu) + (z - mu) * (z - mu)
  {
    SumsOfOne(x, mu);
    SumsOfOne(y, mu);
    SumsOfOne(z, mu);
    SumsAdd([x], [y], mu);
    SumsAdd([x] + [y], [z], mu);
    assert [x] + [y] + [z] == [x, y, z];
  }
}
