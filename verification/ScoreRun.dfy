/** A run of the scorer in plain terms: what each component of a scored field says, what the composite
    is, and what a HIGH one rules out. */
module ScoreRun {
  import opened Comparisons
  import opened Metrics
  import opened RealFacts
  import opened Rounding
  import opened Scorer
  import opened Siblings
  import opened Wrappers

  // ---------------------------------------------------------------------------------------------
  // Components

  /** The value breaks the range of a metric. */
  predicate OutOfRange(v: real, metric: Metric) {
    (metric.min.Some? && v < metric.min.value) || (metric.max.Some? && v > metric.max.value)
  }

  /** The validity components: 1 or 0 by the metric's range, 1 or 0.4 by the unit, 1, 0.5 or 0 by the
      number of errors, and the log-probability, 0.85 for one out of range. */
  lemma ValidityIsScored(f: Field, rs: seq<Reading>, registry: map<string, Metric>, priors: map<string, seq<real>>,
                         m: MathLib)
    ensures var key, v := f.reading.key, f.valueNum;
            var s := Score(f, ContextAmong(f.reading, rs, registry, priors), m).scores;
            && (v == None ==> s.crossValidation == 0.0)
            && (v.Some? && key !in registry && 0.0 <= f.scores.crossValidation <= 1.0 ==>
                s.crossValidation == f.scores.crossValidation)
            && (v.Some? && key in registry ==>
                s.crossValidation == if OutOfRange(v.value, registry[key]) then 0.0 else 1.0)
            && s.schemaValidation == (if f.unitResolves then 1.0 else 0.4)
            && (f.errors == 0 ==> s.validation == 1.0) && (f.errors == 1 ==> s.validation == 0.5)
            && (f.errors >= 2 ==> s.validation == 0.0)
            && s.modelLogprob == (if f.scores.modelLogprob < 0.0 || f.scores.modelLogprob > 1.0 then 0.85
                                  else f.scores.modelLogprob)
  {
    hide ZScoreOf, PeerScore, Agreement, CompositeOf, Others, ValuesOf;
  }

  /** The peer score is that of the priors of the field's own metric, and stays without any. */
  lemma PeersAreScored(f: Field, rs: seq<Reading>, registry: map<string, Metric>, priors: map<string, seq<real>>,
                       m: MathLib)
    requires f.reading.value.Some? && 0.0 <= f.scores.peerZscore <= 1.0
    ensures var key := f.reading.key;
            Score(f, ContextAmong(f.reading, rs, registry, priors), m).scores.peerZscore
              == if key in priors && priors[key] != [] then PeerOf(f.reading.value.value, priors[key], m)
                 else f.scores.peerZscore
  {
    hide ZScoreOf, Decay, Agreement, CompositeOf, Others, ValuesOf, PassesConstraints;
    var key := f.reading.key;
    if key in priors && priors[key] != [] {
      SomeScore(f.reading.value.value, priors[key], m);
    }
  }

  lemma SomeScore(v: real, priors: seq<real>, m: MathLib)
    requires priors != []
    ensures ZScoreOf(Some(v), priors, m.sqrt) != NoScore
  {
    hide Sum, SquaredDeviations;
  }

  /** The reading counts as a source beside `r`: one of its metric with another number. */
  predicate OtherSource(r: Reading, s: Reading) {
    s.key == r.key && s.value.Some? && s.value != r.value
  }

  /** The cross-source component of a field with a value: as it came without other sources, else at
      least exp(-6 t) if and only if each of them differs by at most the share `t` of one of the two. */
  lemma SourcesAreScored(f: Field, rs: seq<Reading>, registry: map<string, Metric>, priors: map<string, seq<real>>,
                         t: real, m: MathLib)
    requires Exponential(m.exp) && t >= 0.0 && f.reading.value.Some? && 0.0 <= f.scores.crossSource <= 1.0
    ensures var crossSource := Score(f, ContextAmong(f.reading, rs, registry, priors), m).scores.crossSource;
            && ((forall s :: s in rs ==> !OtherSource(f.reading, s)) ==> crossSource == f.scores.crossSource)
            && ((exists s :: s in rs && OtherSource(f.reading, s)) ==>
                (crossSource >= Sanitize(m.exp(-6.0 * t)) <==>
                 forall s :: s in rs && OtherSource(f.reading, s) ==> Within(f.reading.value.value, s.value.value, t)))
  {
    hide ZScoreOf, PeerScore, Agreement, CompositeOf, Others, ValuesOf, PassesConstraints, Within;
    var r := f.reading;
    var others := Others(ValuesOf(rs, r.key), r.value);
    ValuesAre(rs, r.key);
    OthersAre(ValuesOf(rs, r.key), r.value);
    forall s | s in rs && OtherSource(r, s)
      ensures s.value in others
    {
      assert Reads(rs, r.key, s.value.value);
    }
    forall o | o in others
      ensures o.Some? && exists s :: s in rs && OtherSource(r, s) && s.value == o
    {
      assert Reads(rs, r.key, o.value);
      var s :| s in rs && s.key == r.key && s.value == Some(o.value);
      assert OtherSource(r, s);
    }
    if others == [] {
      assert forall s :: s in rs ==> !OtherSource(r, s);
    } else {
      assert others[0] in others;
      AgreementReaches(r.value.value, others, t, m.exp);
    }
  }

  // ---------------------------------------------------------------------------------------------
  // The composite

  function AtLeast(x: real): real {
    if x < 0.001 then 0.001 else x
  }

  ghost predicate SixthRootOf(x: real, s: Scores) {
    && x >= 0.0
    && Pow(x, 6)
       == Times(Times(Times(Times(Times(AtLeast(s.modelLogprob), AtLeast(s.crossValidation)),
                                  AtLeast(s.peerZscore)), AtLeast(s.schemaValidation)),
                      AtLeast(s.crossSource)), AtLeast(s.validation))
  }

  lemma ProductOfSix(a: real, b: real, c: real, d: real, e: real, f: real)
    ensures Product([a, b, c, d, e, f]) == Times(Times(Times(Times(Times(a, b), c), d), e), f)
  {
    hide Times, Product;
    ProductOfOne(a);
    ProductSnoc([a], b);
    ProductSnoc([a, b], c);
    ProductSnoc([a, b, c], d);
    ProductSnoc([a, b, c, d], e);
    ProductSnoc([a, b, c, d, e], f);
    assert [a] + [b] == [a, b] && [a, b] + [c] == [a, b, c] && [a, b, c] + [d] == [a, b, c, d];
    assert [a, b, c, d] + [e] == [a, b, c, d, e] && [a, b, c, d, e] + [f] == [a, b, c, d, e, f];
  }

  lemma ValuesOfAssessed(f: Field, c: Context, m: MathLib)
    ensures var s := Assess(f, c, m);
            Values(s) == [AtLeast(s.modelLogprob), AtLeast(s.crossValidation), AtLeast(s.peerZscore),
                          AtLeast(s.schemaValidation), AtLeast(s.crossSource), AtLeast(s.validation)]
  {
    hide Adjusted;
  }

  /** The composite of a scored field is the geometric mean of its six components, none of them counted
      as less than 0.001, rounded to four decimals; the level tells where it lies. */
  lemma CompositeIsGeometricMean(f: Field, c: Context, m: MathLib)
    requires SixthRoot(m.root)
    ensures var g := Score(f, c, m);
            && 0.001 <= g.composite <= 1.0
            && (g.level == HIGH <==> g.composite >= 0.85) && (g.level == LOW <==> g.composite < 0.65)
            && exists x :: SixthRootOf(x, g.scores) && g.composite == Round4(x)
  {
    hide Times, Pow, SixthRoot, Product, Values, Round4, CompositeOf, Assess, AtLeast;
    var s := Assess(f, c, m);
    ValuesOfAssessed(f, c, m);
    ProductOfSix(AtLeast(s.modelLogprob), AtLeast(s.crossValidation), AtLeast(s.peerZscore),
                 AtLeast(s.schemaValidation), AtLeast(s.crossSource), AtLeast(s.validation));
    CompositeIsRoundedRoot(s, m.root);
    CompositeIsBounded(s, m.root);
    assert SixthRootOf(m.root(Product(Values(s))), s);
  }

  /** A HIGH field has no component below 0.377. */
  lemma HighComponents(f: Field, c: Context, m: MathLib)
    requires SixthRoot(m.root) && Score(f, c, m).level == HIGH
    ensures var s := Score(f, c, m).scores;
            && s.modelLogprob >= 0.377 && s.crossValidation >= 0.377 && s.peerZscore >= 0.377
            && s.schemaValidation >= 0.377 && s.crossSource >= 0.377 && s.validation >= 0.377
  {
    hide Times, Pow, SixthRoot, Product, Values, Round4, CompositeOf, Assess;
    var s := Assess(f, c, m);
    ValuesOfAssessed(f, c, m);
    HighHasNoWeakLink(s, m.root);
    var vs := Values(s);
    assert vs[0] >= 0.377 && vs[1] >= 0.377 && vs[2] >= 0.377 && vs[3] >= 0.377 && vs[4] >= 0.377 && vs[5] >= 0.377;
  }

  /** A scored field goes to review if it did before, if it has no number, or one out of its metric's
      range, an unknown unit or any error, and else exactly if its peer score, its agreement with other
      sources, its composite or, for an unknown metric, the cross-validation it came with is too low. */
  lemma ReviewIsRaised(f: Field, rs: seq<Reading>, registry: map<string, Metric>, priors: map<string, seq<real>>,
                       m: MathLib)
    ensures var g, key, v := Score(f, ContextAmong(f.reading, rs, registry, priors), m), f.reading.key, f.valueNum;
            g.needsReview <==>
            || f.needsReview || v == None || !f.unitResolves || f.errors >= 1
            || (if key in registry then OutOfRange(v.value, registry[key]) else f.scores.crossValidation < 0.55)
            || g.scores.peerZscore < 0.4 || g.scores.crossSource < 0.55 || g.composite < 0.65
  {
    hide ZScoreOf, PeerScore, Agreement, CompositeOf, Others, ValuesOf;
  }
}
