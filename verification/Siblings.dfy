/** Cross-source agreement against its description, which is that of readings of one metric in one
    period: `score_many` mixes periods, and leaves out the readings that equal the field's own. */
module Siblings {
  import opened Metrics
  import opened RealFacts
  import opened Scorer
  import opened Wrappers

  // ---------------------------------------------------------------------------------------------
  // Which readings are compared

  /** Those readings that an agreement within the period would look at. */
  function OfPeriod(rs: seq<Reading>, period: string): seq<Reading> {
    if rs == [] then []
    else OfPeriod(rs[..|rs| - 1], period) + if rs[|rs| - 1].period == period then [rs[|rs| - 1]] else []
  }

  lemma ValuesSnoc(rs: seq<Reading>, r: Reading, key: string, value: Option<real>)
    ensures Others(ValuesOf(rs + [r], key), value)
         == Others(ValuesOf(rs, key), value)
          + if r.key == key && r.value.Some? && r.value != value then [r.value] else []
  {
    var vs := ValuesOf(rs, key);
    assert (rs + [r])[..|rs|] == rs;
    if r.key == key && r.value.Some? {
      assert (vs + [r.value.value])[..|vs|] == vs && Some(r.value.value) == r.value;
    } else {
      assert vs + [] == vs;
    }
  }

  /** Of the different values of a metric, those of other periods are siblings as well: all are of the
      same period exactly if no other period has a different value. */
  lemma {:induction false} SiblingsAgainstDescription(r: Reading, rs: seq<Reading>)
    ensures |Others(ValuesOf(OfPeriod(rs, r.period), r.key), r.value)| <= |Others(ValuesOf(rs, r.key), r.value)|
    ensures Others(ValuesOf(rs, r.key), r.value) == Others(ValuesOf(OfPeriod(rs, r.period), r.key), r.value) <==>
            forall s :: s in rs && s.key == r.key && s.value.Some? && s.value != r.value ==> s.period == r.period
  {
    hide ValuesOf, Others;
    if rs != [] {
      var init, last := rs[..|rs| - 1], rs[|rs| - 1];
      SiblingsAgainstDescription(r, init);
      ValuesSnoc(init, last, r.key, r.value);
      ValuesSnoc(OfPeriod(init, r.period), last, r.key, r.value);
      assert rs == init + [last];
      assert last in rs && forall s :: s in rs <==> s in init || s == last;
      assert OfPeriod(init, r.period) + [] == OfPeriod(init, r.period);
      var a, b := Others(ValuesOf(init, r.key), r.value), Others(ValuesOf(OfPeriod(init, r.period), r.key), r.value);
      assert a + [] == a && b + [] == b && (a + [last.value])[..|a|] == a && (b + [last.value])[..|b|] == b;
    }
  }

  /** The same metric in two periods: no sibling is described, yet the value of the other period
      lowers the agreement. */
  lemma OtherPeriodsCount(f: Field, m: MathLib)
    requires f.reading == Reading("energy", "2023", Some(100.0)) && Exponential(m.exp)
    ensures var rs := [f.reading, Reading("energy", "2024", Some(200.0))];
            && Others(ValuesOf(OfPeriod(rs, "2023"), "energy"), Some(100.0)) == []
            && Assess(f, ContextAmong(f.reading, rs, map[], map[]), m).crossSource < 1.0
  {
    hide ValuesOf, Others, Agreement, OfPeriod;
    var r, s := f.reading, Reading("energy", "2024", Some(200.0));
    NoValues("energy", Some(100.0));
    ValuesSnoc([], r, "energy", Some(100.0));
    ValuesSnoc([r], s, "energy", Some(100.0));
    PeriodOfTwo(r, s);
    assert [] + [r] == [r] && [r] + [s] == [r, s] && [] + [Some(200.0)] == [Some(200.0)];
    AgreementIsFull(100.0, [Some(200.0)], m.exp);
    assert Some(200.0) in [Some(200.0)];
  }

  lemma NoValues(key: string, value: Option<real>)
    ensures Others(ValuesOf([], key), value) == []
  {
  }

  lemma PeriodOfTwo(r: Reading, s: Reading)
    requires r.period != s.period
    ensures OfPeriod([r, s], r.period) == [r]
  {
    assert [r, s][..1] == [r] && [r][..0] == [];
    assert OfPeriod([r], r.period) == OfPeriod([], r.period) + [r] == [r];
    assert OfPeriod([r, s], r.period) == OfPeriod([r], r.period) + [];
  }

  lemma {:induction false} OfPeriodAre(rs: seq<Reading>, period: string)
    ensures forall r :: r in OfPeriod(rs, period) <==> r in rs && r.period == period
  {
    if rs != [] {
      OfPeriodAre(rs[..|rs| - 1], period);
      assert rs == rs[..|rs| - 1] + [rs[|rs| - 1]];
    }
  }

  lemma {:induction false} ValuesAre(rs: seq<Reading>, key: string)
    ensures forall x :: x in ValuesOf(rs, key) <==> Reads(rs, key, x)
  {
    if rs != [] {
      var init, last := rs[..|rs| - 1], rs[|rs| - 1];
      ValuesAre(init, key);
      assert rs == init + [last];
      assert last in rs && forall r :: r in rs <==> r in init || r == last;
    }
  }

  /** Some reading of the metric has this value. */
  ghost predicate Reads(rs: seq<Reading>, key: string, x: real) {
    exists r :: r in rs && r.key == key && r.value == Some(x)
  }

  lemma {:induction false} OthersAre(vs: seq<real>, value: Option<real>)
    ensures forall o :: o in Others(vs, value) <==> o.Some? && o.value in vs && o != value
  {
    if vs != [] {
      OthersAre(vs[..|vs| - 1], value);
      assert vs == vs[..|vs| - 1] + [vs[|vs| - 1]];
    }
  }

  function Somes(vs: seq<real>): seq<Option<real>> {
    seq(|vs|, i requires 0 <= i < |vs| => Some(vs[i]))
  }

  lemma SomesAre(vs: seq<real>)
    ensures forall o :: o in Somes(vs) <==> o.Some? && o.value in vs
  {
    forall o: Option<real> | o.Some? && o.value in vs
      ensures o in Somes(vs)
    {
      var i :| 0 <= i < |vs| && vs[i] == o.value;
      assert Somes(vs)[i] == o;
    }
  }

  /** What the description compares reading `i` with: the other readings of its metric and period. */
  function PeriodSiblings(rs: seq<Reading>, i: int): seq<Option<real>>
    requires 0 <= i < |rs|
  {
    Somes(ValuesOf(OfPeriod(rs[..i] + rs[i + 1..], rs[i].period), rs[i].key))
  }

  /** What the code compares it with. */
  function KeySiblings(rs: seq<Reading>, i: int): seq<Option<real>>
    requires 0 <= i < |rs|
  {
    Others(ValuesOf(rs, rs[i].key), rs[i].value)
  }

  predicate AllNumbers(os: seq<Option<real>>) {
    forall o :: o in os ==> o.Some?
  }

  /** All compared values are numbers, and the described ones that differ are among the code's. */
  lemma SiblingsAre(rs: seq<Reading>, i: int)
    requires 0 <= i < |rs|
    ensures AllNumbers(KeySiblings(rs, i)) && AllNumbers(PeriodSiblings(rs, i))
    ensures rs[i].value !in KeySiblings(rs, i)
    ensures forall o :: o in PeriodSiblings(rs, i) && o != rs[i].value ==> o in KeySiblings(rs, i)
  {
    hide ValuesOf, Others, OfPeriod, Somes;
    var r, rest := rs[i], rs[..i] + rs[i + 1..];
    var vs := ValuesOf(OfPeriod(rest, r.period), r.key);
    OfPeriodAre(rest, r.period);
    ValuesAre(OfPeriod(rest, r.period), r.key);
    ValuesAre(rs, r.key);
    OthersAre(ValuesOf(rs, r.key), r.value);
    SomesAre(vs);
    forall x | x in vs
      ensures x in ValuesOf(rs, r.key)
    {
      var s :| s in OfPeriod(rest, r.period) && s.key == r.key && s.value == Some(x);
      assert s in rs;
    }
  }

  // ---------------------------------------------------------------------------------------------
  // How two comparisons compare

  /** Nothing in `a` is farther from `v` than everything in `b`. */
  ghost predicate NoFarther(v: real, a: seq<Option<real>>, b: seq<Option<real>>)
    requires AllNumbers(a) && AllNumbers(b)
  {
    forall x :: x in a ==> exists y :: y in b && Difference(v, x.value) <= Difference(v, y.value)
  }

  lemma NumbersDiffer(v: real, a: seq<Option<real>>)
    requires AllNumbers(a) && a != []
    ensures Differences(v, a) != []
    ensures forall d :: d in Differences(v, a) <==> exists x :: x in a && d == Difference(v, x.value)
  {
    hide Difference, Differences;
    DifferencesAre(v, a);
    assert a[0] in a;
  }

  lemma NoFartherIsByWorst(v: real, a: seq<Option<real>>, b: seq<Option<real>>)
    requires AllNumbers(a) && AllNumbers(b) && a != [] && b != []
    ensures Differences(v, a) != [] && Differences(v, b) != []
    ensures NoFarther(v, a, b) <==> Worst(Differences(v, a)) <= Worst(Differences(v, b))
  {
    hide Difference, Differences;
    NumbersDiffer(v, a);
    NumbersDiffer(v, b);
    var p, q := Worst(Differences(v, a)), Worst(Differences(v, b));
    var x :| x in a && p == Difference(v, x.value);
    var y :| y in b && q == Difference(v, y.value);
    assert forall z :: z in a ==> Difference(v, z.value) in Differences(v, a);
    assert forall z :: z in b ==> Difference(v, z.value) in Differences(v, b);
  }

  /** Agreement is a strictly falling function of the worst difference. */
  lemma AgreementFalls(v: real, a: seq<Option<real>>, b: seq<Option<real>>, exp: real -> real)
    requires Exponential(exp) && AllNumbers(a) && AllNumbers(b) && a != [] && b != []
    ensures Differences(v, a) != [] && Differences(v, b) != []
    ensures Agreement(Some(v), a, exp) == Agreement(Some(v), b, exp) <==>
            Worst(Differences(v, a)) == Worst(Differences(v, b))
  {
    hide Difference, Differences;
    NumbersDiffer(v, a);
    NumbersDiffer(v, b);
    var p, q := Worst(Differences(v, a)), Worst(Differences(v, b));
    WorstSign(v, a);
    WorstSign(v, b);
    DecayIsInjective(exp, p, q);
  }

  lemma WorstSign(v: real, a: seq<Option<real>>)
    requires AllNumbers(a) && a != []
    ensures Differences(v, a) != [] && Worst(Differences(v, a)) >= 0.0
  {
    hide Difference, Differences;
    NumbersDiffer(v, a);
    var w := Worst(Differences(v, a));
    var x :| x in a && w == Difference(v, x.value);
    DifferenceSign(v, x.value);
  }

  lemma DecayIsInjective(exp: real -> real, p: real, q: real)
    requires Exponential(exp) && p >= 0.0 && q >= 0.0
    ensures Sanitize(exp(-p * 6.0)) == Sanitize(exp(-q * 6.0)) <==> p == q
  {
    assert exp(-p * 6.0) > 0.0 && exp(-q * 6.0) > 0.0;
    assert p > 0.0 ==> exp(-p * 6.0) < exp(0.0);
    assert q > 0.0 ==> exp(-q * 6.0) < exp(0.0);
    assert p < q ==> exp(-q * 6.0) < exp(-p * 6.0);
    assert q < p ==> exp(-p * 6.0) < exp(-q * 6.0);
  }

  // ---------------------------------------------------------------------------------------------
  // The component that comes out

  /** When leaving out the values equal to the field's own, and keeping the component if none is left,
      gives the agreement with all of them: if some value differs, or the component was full. */
  lemma EqualValuesLeftOut(before: real, v: real, vs: seq<real>, exp: real -> real)
    requires Exponential(exp) && vs != []
    ensures CrossSource(before, Some(v), Others(vs, Some(v)), exp) == CrossSource(before, Some(v), Somes(vs), exp) <==>
            (exists x :: x in vs && x != v) || before == 1.0
  {
    hide Others, Somes, Agreement, Differences, Difference, NoFarther;
    var others, all := Others(vs, Some(v)), Somes(vs);
    OthersLeft(v, vs);
    if others == [] {
      AgreementIsFull(v, all, exp);
    } else {
      AgreementFalls(v, others, all, exp);
      NoFartherIsByWorst(v, others, all);
      NoFartherIsByWorst(v, all, others);
      OwnValueIsNearest(v, all, others);
      OwnValueIsNearest(v, others, all);
    }
  }

  lemma OthersLeft(v: real, vs: seq<real>)
    requires vs != []
    ensures var others, all := Others(vs, Some(v)), Somes(vs);
            && AllNumbers(others) && AllNumbers(all) && all != []
            && (others == [] <==> forall x :: x in vs ==> x == v)
            && (others == [] ==> (exists o :: o in all && o.Some?) && forall o :: o in all ==> o == Some(v))
            && (forall o :: o in all && o != Some(v) ==> o in others)
            && (forall o :: o in others ==> o in all)
  {
    hide Others, Somes;
    OthersAre(vs, Some(v));
    SomesAre(vs);
    assert Some(vs[0]) in Somes(vs);
    var others := Others(vs, Some(v));
    if others != [] {
      assert others[0] in others && others[0].value != v;
    } else {
      forall x | x in vs
        ensures x == v
      {
        assert Some(x) !in others;
      }
    }
  }

  /** Adding the own value to the others puts nothing farther. */
  lemma OwnValueIsNearest(v: real, all: seq<Option<real>>, others: seq<Option<real>>)
    requires AllNumbers(all) && AllNumbers(others) && others != []
    requires forall o :: o in all && o != Some(v) ==> o in others
    ensures NoFarther(v, all, others)
  {
    hide Difference;
    forall x | x in all
      ensures exists y :: y in others && Difference(v, x.value) <= Difference(v, y.value)
    {
      var y := if x == Some(v) then others[0] else x;
      DifferenceSign(v, x.value);
      DifferenceSign(v, y.value);
      assert y in others;
    }
  }

  /** The component is as described, `before` being the one that came in. */
  ghost predicate AsDescribed(before: real, rs: seq<Reading>, i: int, exp: real -> real)
    requires 0 <= i < |rs| && AllNumbers(KeySiblings(rs, i)) && AllNumbers(PeriodSiblings(rs, i))
  {
    var value, compared, described := rs[i].value, KeySiblings(rs, i), PeriodSiblings(rs, i);
    if compared == [] then described == [] || before == 1.0
    else if described == [] then before == Agreement(value, compared, exp)
    else value == None || NoFarther(value.value, compared, described)
  }

  /** Cross-source agreement is described as agreement with the other readings of the metric in the
      period. Without any different reading of the metric it is if there is no other reading, or the
      component came in full; with no other reading in the period only if what came in is what the
      other periods give; else exactly if no other period is farther off than the period itself. */
  lemma CrossSourceAgainstDescription(f: Field, rs: seq<Reading>, i: int, registry: map<string, Metric>,
                                      priors: map<string, seq<real>>, m: MathLib)
    requires Exponential(m.exp) && 0 <= i < |rs| && f.reading == rs[i]
    ensures AllNumbers(KeySiblings(rs, i)) && AllNumbers(PeriodSiblings(rs, i))
    ensures var before := Sanitize(f.scores.crossSource);
            Assess(f, ContextAmong(f.reading, rs, registry, priors), m).crossSource
              == CrossSource(before, f.reading.value, PeriodSiblings(rs, i), m.exp)
            <==> AsDescribed(before, rs, i, m.exp)
  {
    hide Others, ValuesOf, PeriodSiblings, KeySiblings, Agreement, Differences, Difference, Adjusted, NoFarther;
    SiblingsAre(rs, i);
    var value, compared, described := rs[i].value, KeySiblings(rs, i), PeriodSiblings(rs, i);
    var before := Sanitize(f.scores.crossSource);
    AssessedCrossSource(f, rs, i, registry, priors, m);
    if value == None {
      NoValueAgrees(compared, m.exp);
      NoValueAgrees(described, m.exp);
      assert described != [] ==> described[0] in described && described[0] in compared;
    } else if compared == [] && described != [] {
      assert described[0] in described;
      AgreementIsFull(value.value, described, m.exp);
    } else if compared != [] && described != [] {
      AgreementFalls(value.value, compared, described, m.exp);
      NoFartherIsByWorst(value.value, compared, described);
      OwnValueIsNearest(value.value, described, compared);
      NoFartherIsByWorst(value.value, described, compared);
    }
  }

  lemma NoValueAgrees(siblings: seq<Option<real>>, exp: real -> real)
    ensures Agreement(None, siblings, exp) == 1.0
  {
  }

  lemma AssessedCrossSource(f: Field, rs: seq<Reading>, i: int, registry: map<string, Metric>,
                            priors: map<string, seq<real>>, m: MathLib)
    requires 0 <= i < |rs| && f.reading == rs[i]
    ensures Assess(f, ContextAmong(f.reading, rs, registry, priors), m).crossSource
         == CrossSource(Sanitize(f.scores.crossSource), f.reading.value, KeySiblings(rs, i), m.exp)
  {
    hide Others, ValuesOf, Agreement, ZScoreOf, PeerScore, PassesConstraints, ValidationScore;
  }

  /** One reading twice, marked as conflicting before: the code keeps the mark, though the described
      agreement is full. */
  lemma EqualReadingsStayMarked(f: Field, m: MathLib)
    requires f.reading == Reading("energy", "2024", Some(1000.0)) && f.scores.crossSource == 0.6 && Exponential(m.exp)
    ensures var rs := [f.reading, f.reading];
            && Assess(f, ContextAmong(f.reading, rs, map[], map[]), m).crossSource == 0.6
            && CrossSource(0.6, f.reading.value, PeriodSiblings(rs, 0), m.exp) == 1.0
  {
    hide ValuesOf, Others, Agreement, OfPeriod, Somes, Adjusted;
    var r := f.reading;
    var rs := [r, r];
    assert rs[..0] + rs[1..] == [r];
    NoValues("energy", r.value);
    ValuesSnoc([], r, "energy", r.value);
    ValuesSnoc([r], r, "energy", r.value);
    assert [] + [r] == [r] && [r] + [r] == rs;
    AssessedCrossSource(f, rs, 0, map[], map[], m);
    OneReading(r);
    AgreementIsFull(1000.0, [Some(1000.0)], m.exp);
    assert Some(1000.0) in [Some(1000.0)];
  }

  lemma OneReading(r: Reading)
    requires r.value.Some?
    ensures Somes(ValuesOf(OfPeriod([r], r.period), r.key)) == [r.value]
  {
    assert [r][..0] == [] && [r][0] == r;
    assert OfPeriod([r], r.period) == OfPeriod([], r.period) + [r] == [r];
    assert ValuesOf([r], r.key) == ValuesOf([], r.key) + [r.value.value] == [r.value.value];
  }
}
