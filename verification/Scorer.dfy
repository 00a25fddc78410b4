/** The extraction scorer: six sanitised components, their geometric mean rounded to four decimals,
    a level, and a review flag that is only ever raised. Exact reals; the exponential, the square root
    and the sixth root are parameters. */
module Scorer {
  import opened Metrics
  import opened RealFacts
  import opened Rounding
  import opened Wrappers

  const NEUTRAL_LOGPROB: real := 0.85
  const NEUTRAL_COMPONENT: real := 0.5
  const COMPONENT_FLOOR: real := 0.001
  const REVIEW_THRESHOLD: real := 0.65
  const HIGH_THRESHOLD: real := 0.85

  datatype Level = LOW | MEDIUM | HIGH

  datatype Scores = Scores(modelLogprob: real, crossValidation: real, peerZscore: real,
                           schemaValidation: real, crossSource: real, validation: real)

  /** The z-score against prior values: none could be computed, or a value that may be infinite. */
  datatype ZScore = NoScore | Infinite | Z(z: real)

  /** What a field says: a metric, by its key, in a period, and its value in the metric's unit. */
  datatype Reading = Reading(key: string, period: string, value: Option<real>)

  /** What `score_field` reads and writes of a field. `errors` counts its ERROR issues;
      `unitResolves` says whether its unit has a canonical form. */
  datatype Field = Field(reading: Reading, valueNum: Option<real>, unitResolves: bool, errors: nat,
                         scores: Scores, composite: real, level: Level, needsReview: bool)

  /** What else it reads: the metric of the field's key, if known, the values of prior periods, and
      those of the siblings (empty when none are given). */
  datatype Context = Context(metric: Option<Metric>, priors: seq<real>, siblings: seq<Option<real>>)

  /** The functions it takes from `math`, and the sixth root. */
  datatype MathLib = MathLib(exp: real -> real, sqrt: real -> real, root: real -> real)

  // ---------------------------------------------------------------------------------------------
  // Scoring

  function Sanitize(x: real): (r: real)
    ensures 0.0 <= r <= 1.0
    ensures 0.0 <= x <= 1.0 ==> r == x
  {
    if x < 0.0 then 0.0 else if x > 1.0 then 1.0 else x
  }

  function ValidationScore(errors: nat): (r: real)
    ensures 0.0 <= r <= 1.0
  {
    if errors == 0 then 1.0 else if errors == 1 then 0.5 else 0.0
  }

  function Sum(xs: seq<real>): real {
    if xs == [] then 0.0 else Sum(xs[..|xs| - 1]) + xs[|xs| - 1]
  }

  function SquaredDeviations(xs: seq<real>, mu: real): real {
    if xs == [] then 0.0
    else
      var d := xs[|xs| - 1] - mu;
      SquaredDeviations(xs[..|xs| - 1], mu) + d * d
  }

  /** Distance from the mean in standard deviations; in halves of the mean for a single prior. */
  function ZScoreOf(value: Option<real>, priors: seq<real>, sqrt: real -> real): ZScore {
    if value == None || priors == [] then NoScore
    else
      var n := |priors| as real;
      var mu := Sum(priors) / n;
      var distance := Abs(value.value - mu);
      if |priors| < 2 then Z(distance / (Abs(mu) + 0.000000001) * 2.0)
      else
        var sd := sqrt(SquaredDeviations(priors, mu) / (n - 1.0));
        if sd < 0.000000001 then if distance < 0.000000001 then Z(0.0) else Infinite
        else Z(distance / sd)
  }

  /** Gaussian decay of a finite z-score. */
  function Decay(z: real, exp: real -> real): (r: real)
    ensures 0.0 <= r <= 1.0
  {
    Sanitize(exp(-(z * z) / 4.5))
  }

  /** The decay of the z-score; what was there stays where none could be computed. */
  function PeerScore(z: ZScore, before: real, exp: real -> real): (r: real)
    ensures z != NoScore ==> 0.0 <= r <= 1.0
  {
    match z
    case NoScore => before
    case Infinite => 0.0
    case Z(z) => Decay(z, exp)
  }

  /** The difference of two values, relative to the larger. */
  function Difference(x: real, y: real): real {
    Abs(x - y) / Base(x, y)
  }

  function Base(x: real, y: real): (b: real)
    ensures b > 0.0
  {
    var larger := if Abs(x) < Abs(y) then Abs(y) else Abs(x);
    if larger < 0.000000001 then 0.000000001 else larger
  }

  function Differences(value: real, siblings: seq<Option<real>>): seq<real> {
    if siblings == [] then []
    else
      var last := siblings[|siblings| - 1];
      Differences(value, siblings[..|siblings| - 1]) + if last.Some? then [Difference(value, last.value)] else []
  }

  function Worst(xs: seq<real>): (r: real)
    requires xs != []
    ensures r in xs && forall x :: x in xs ==> x <= r
  {
    if |xs| == 1 then xs[0]
    else
      var rest, x := Worst(xs[..|xs| - 1]), xs[|xs| - 1];
      assert xs == xs[..|xs| - 1] + [x];
      if rest < x then x else rest
  }

  /** Decay of the worst difference; neutral when no sibling carries a number. */
  function Agreement(value: Option<real>, siblings: seq<Option<real>>, exp: real -> real): (r: real)
    ensures 0.0 <= r <= 1.0
  {
    if value == None || siblings == [] then 1.0
    else
      var diffs := Differences(value.value, siblings);
      if diffs == [] then NEUTRAL_COMPONENT else Sanitize(exp(-Worst(diffs) * 6.0))
  }

  /** The cross-source component: what was there stays where there are no siblings. */
  function CrossSource(before: real, value: Option<real>, siblings: seq<Option<real>>, exp: real -> real): real {
    if siblings == [] then before else Agreement(value, siblings, exp)
  }

  /** The components as adjusted from the field and the comparisons. */
  function Adjusted(f: Field, c: Context, m: MathLib): Scores {
    var s := f.scores;
    Scores(
      if 0.0 <= s.modelLogprob <= 1.0 then s.modelLogprob else NEUTRAL_LOGPROB,
      if c.metric.Some? && f.valueNum.Some? then
        if PassesConstraints(f.valueNum, c.metric.value) then 1.0 else 0.0
      else if f.valueNum == None then 0.0
      else s.crossValidation,
      if c.priors == [] then s.peerZscore
      else PeerScore(ZScoreOf(f.reading.value, c.priors, m.sqrt), s.peerZscore, m.exp),
      if f.unitResolves then 1.0 else 0.4,
      CrossSource(s.crossSource, f.reading.value, c.siblings, m.exp),
      ValidationScore(f.errors))
  }

  function Sanitized(s: Scores): Scores {
    Scores(Sanitize(s.modelLogprob), Sanitize(s.crossValidation), Sanitize(s.peerZscore),
           Sanitize(s.schemaValidation), Sanitize(s.crossSource), Sanitize(s.validation))
  }

  function Assess(f: Field, c: Context, m: MathLib): Scores {
    Sanitized(Adjusted(f, c, m))
  }

  function Floored(x: real): (r: real)
    ensures COMPONENT_FLOOR <= r <= 1.0 && Sanitize(x) <= r
  {
    if Sanitize(x) < COMPONENT_FLOOR then COMPONENT_FLOOR else Sanitize(x)
  }

  function Values(s: Scores): seq<real> {
    [Floored(s.modelLogprob), Floored(s.crossValidation), Floored(s.peerZscore),
     Floored(s.schemaValidation), Floored(s.crossSource), Floored(s.validation)]
  }

  function Product(xs: seq<real>): real {
    if xs == [] then 1.0 else Times(Product(xs[..|xs| - 1]), xs[|xs| - 1])
  }

  /** `root` takes non-negative sixth roots. */
  ghost predicate SixthRoot(root: real -> real) {
    forall p :: p >= 0.0 ==> root(p) >= 0.0 && Pow(root(p), 6) == p
  }

  function CompositeOf(s: Scores, root: real -> real): real {
    var prod := Product(Values(s));
    if prod <= 0.0 then COMPONENT_FLOOR else Round4(Sanitize(root(prod)))
  }

  function LevelFrom(score: real): Level {
    if score >= HIGH_THRESHOLD then HIGH else if score >= REVIEW_THRESHOLD then MEDIUM else LOW
  }

  predicate Suspicious(s: Scores, composite: real) {
    || composite < REVIEW_THRESHOLD
    || s.crossValidation < 0.55 || s.schemaValidation < 0.55 || s.peerZscore < 0.4
    || s.crossSource < 0.55 || s.validation < 0.55
  }

  /** The field after scoring. */
  function Score(f: Field, c: Context, m: MathLib): Field {
    var s := Assess(f, c, m);
    var composite := CompositeOf(s, m.root);
    f.(scores := s, composite := composite, level := LevelFrom(composite),
       needsReview := f.needsReview || Suspicious(s, composite))
  }

  method Composite(s: Scores, root: real -> real) returns (r: real)
    ensures r == CompositeOf(s, root)
  {
    hide Values, Round4;
    var vals := Values(s);
    var prod := 1.0;
    for i := 0 to |vals|
      invariant prod == Product(vals[..i])
    {
      assert vals[..i + 1][..i] == vals[..i];
      prod := prod * vals[i];
    }
    assert vals[..|vals|] == vals;
    if prod <= 0.0 { return COMPONENT_FLOOR; }
    var composite := root(prod);
    composite := if composite > 1.0 then 1.0 else composite;
    composite := if composite < 0.0 then 0.0 else composite;
    return Round4(composite);
  }

  method WithinConstraints(value: real, metric: Metric) returns (ok: bool)
    ensures ok == PassesConstraints(Some(value), metric)
  {
    ok := true;
    if metric.min.Some? && value < metric.min.value { ok := false; }
    if metric.max.Some? && value > metric.max.value { ok := false; }
  }

  method AgreementScore(value: Option<real>, siblings: seq<Option<real>>, exp: real -> real) returns (r: real)
    ensures r == Agreement(value, siblings, exp)
  {
    hide Difference, Worst, Sanitize;
    if value == None || siblings == [] { return 1.0; }
    var diffs := [];
    for i := 0 to |siblings|
      invariant diffs == Differences(value.value, siblings[..i])
    {
      assert siblings[..i + 1][..i] == siblings[..i];
      if siblings[i] == None { continue; }
      diffs := diffs + [Difference(value.value, siblings[i].value)];
    }
    assert siblings[..|siblings|] == siblings;
    if diffs == [] { return NEUTRAL_COMPONENT; }
    return Sanitize(exp(-Worst(diffs) * 6.0));
  }

  /** A field object, scored in place. */
  class ExtractedField {
    const reading: Reading
    const valueNum: Option<real>
    const unitResolves: bool
    const errors: nat
    var modelLogprob: real
    var crossValidation: real
    var peerZscore: real
    var schemaValidation: real
    var crossSource: real
    var validation: real
    var composite: real
    var level: Level
    var needsReview: bool

    constructor (f: Field)
      ensures State() == f
    {
      reading, valueNum, unitResolves, errors := f.reading, f.valueNum, f.unitResolves, f.errors;
      modelLogprob, crossValidation, peerZscore := f.scores.modelLogprob, f.scores.crossValidation, f.scores.peerZscore;
      schemaValidation, crossSource, validation := f.scores.schemaValidation, f.scores.crossSource, f.scores.validation;
      composite, level, needsReview := f.composite, f.level, f.needsReview;
    }

    function Components(): Scores
      reads this
    {
      Scores(modelLogprob, crossValidation, peerZscore, schemaValidation, crossSource, validation)
    }

    function State(): Field
      reads this
    {
      Field(reading, valueNum, unitResolves, errors, Components(), composite, level, needsReview)
    }

    method AdjustValidity(c: Context)
      modifies this`modelLogprob, this`crossValidation, this`schemaValidation, this`validation
      ensures modelLogprob == if 0.0 <= old(modelLogprob) <= 1.0 then old(modelLogprob) else NEUTRAL_LOGPROB
      ensures crossValidation ==
              if c.metric.Some? && valueNum.Some? then
                if PassesConstraints(valueNum, c.metric.value) then 1.0 else 0.0
              else if valueNum == None then 0.0
              else old(crossValidation)
      ensures schemaValidation == if unitResolves then 1.0 else 0.4
      ensures validation == ValidationScore(errors)
    {
      if !(0.0 <= modelLogprob <= 1.0) {
        modelLogprob := NEUTRAL_LOGPROB;
      }
      if c.metric.Some? && valueNum.Some? {
        var ok := WithinConstraints(valueNum.value, c.metric.value);
        crossValidation := if ok then 1.0 else 0.0;
      } else if valueNum == None {
        crossValidation := 0.0;
      }
      schemaValidation := if unitResolves then 1.0 else 0.4;
      validation := ValidationScore(errors);
    }

    method AdjustComparisons(c: Context, m: MathLib)
      modifies this`peerZscore, this`crossSource
      ensures peerZscore == if c.priors == [] then old(peerZscore)
                            else PeerScore(ZScoreOf(reading.value, c.priors, m.sqrt), old(peerZscore), m.exp)
      ensures crossSource == CrossSource(old(crossSource), reading.value, c.siblings, m.exp)
    {
      hide ZScoreOf, Agreement, Decay;
      if c.priors != [] {
        var z := ZScoreOf(reading.value, c.priors, m.sqrt);
        if z.Z? {
          peerZscore := Decay(z.z, m.exp);
        } else if z.Infinite? {
          peerZscore := 0.0;
        }
      }
      if c.siblings != [] {
        var agreement := AgreementScore(reading.value, c.siblings, m.exp);
        crossSource := agreement;
      }
    }

    method SanitizeComponents()
      modifies this`modelLogprob, this`crossValidation, this`peerZscore, this`schemaValidation, this`crossSource,
        this`validation
      ensures Components() == Sanitized(old(Components()))
    {
      hide Sanitize;
      modelLogprob := Sanitize(modelLogprob);
      crossValidation := Sanitize(crossValidation);
      peerZscore := Sanitize(peerZscore);
      schemaValidation := Sanitize(schemaValidation);
      crossSource := Sanitize(crossSource);
      validation := Sanitize(validation);
    }

    method AssessComponents(c: Context, m: MathLib)
      modifies this`modelLogprob, this`crossValidation, this`peerZscore, this`schemaValidation, this`crossSource,
        this`validation
      ensures Components() == Assess(old(State()), c, m)
    {
      hide Sanitized, PeerScore, ZScoreOf, Agreement, PassesConstraints, ValidationScore;
      AdjustValidity(c);
      AdjustComparisons(c, m);
      assert Components() == Adjusted(old(State()), c, m);
      SanitizeComponents();
    }

    method ScoreField(c: Context, m: MathLib)
      modifies this
      ensures State() == Score(old(State()), c, m)
    {
      hide CompositeOf, Assess;
      AssessComponents(c, m);
      ghost var s := Components();
      composite := Composite(Components(), m.root);
      level := LevelFrom(composite);
      if composite < REVIEW_THRESHOLD
        || crossValidation < 0.55 || schemaValidation < 0.55 || peerZscore < 0.4
        || crossSource < 0.55 || validation < 0.55
      {
        needsReview := true;
      }
      assert Components() == s;
    }
  }

  // ---------------------------------------------------------------------------------------------
  // Scoring many fields

  function ValueOf(r: Reading, key: string): seq<real> {
    if r.key == key && r.value.Some? then [r.value.value] else []
  }

  /** The values read for a key, in order. */
  function ValuesOf(rs: seq<Reading>, key: string): seq<real> {
    if rs == [] then [] else ValuesOf(rs[..|rs| - 1], key) + ValueOf(rs[|rs| - 1], key)
  }

  function Others(vs: seq<real>, value: Option<real>): seq<Option<real>> {
    if vs == [] then []
    else
      var v := Some(vs[|vs| - 1]);
      Others(vs[..|vs| - 1], value) + if v != value then [v] else []
  }

  function ListAt<T>(lists: map<string, seq<T>>, key: string): seq<T> {
    if key in lists then lists[key] else []
  }

  /** The context of a reading among others: the siblings are the different values of its key. */
  function ContextAmong(r: Reading, rs: seq<Reading>, registry: map<string, Metric>,
                        priors: map<string, seq<real>>): Context {
    Context(if r.key in registry then Some(registry[r.key]) else None,
            ListAt(priors, r.key),
            Others(ValuesOf(rs, r.key), r.value))
  }

  function Readings(fields: seq<ExtractedField>): seq<Reading> {
    seq(|fields|, i requires 0 <= i < |fields| => fields[i].reading)
  }

  /** Groups the values by key. */
  method GroupValues(fields: seq<ExtractedField>) returns (siblings: map<string, seq<real>>)
    ensures forall key :: ListAt(siblings, key) == ValuesOf(Readings(fields), key)
  {
    hide ValuesOf;
    siblings := map[];
    NothingRead(fields[..0]);
    for i := 0 to |fields|
      invariant forall key :: ListAt(siblings, key) == ValuesOf(Readings(fields[..i]), key)
    {
      var r := fields[i].reading;
      ReadingsSnoc(fields[..i], fields[i]);
      assert fields[..i + 1] == fields[..i] + [fields[i]];
      if r.value.Some? {
        siblings := siblings[r.key := ListAt(siblings, r.key) + [r.value.value]];
      }
    }
    assert fields[..|fields|] == fields;
  }

  lemma NothingRead(fields: seq<ExtractedField>)
    ensures fields == [] ==> forall key :: ValuesOf(Readings(fields), key) == []
  {
  }

  /** What one more field adds to the values of each key. */
  lemma ReadingsSnoc(fields: seq<ExtractedField>, f: ExtractedField)
    ensures forall key :: ValuesOf(Readings(fields + [f]), key)
              == ValuesOf(Readings(fields), key) + ValueOf(f.reading, key)
  {
    assert Readings(fields + [f])[..|fields|] == Readings(fields);
  }

  /** Scores fields in place, each in the context of all; one that is listed twice comes out as if it
      were listed once. */
  method ScoreMany(fields: seq<ExtractedField>, registry: map<string, Metric>, priors: map<string, seq<real>>,
                   m: MathLib)
    modifies fields
    ensures forall i :: 0 <= i < |fields| ==>
              fields[i].State() ==
              Score(old(fields[i].State()), ContextAmong(fields[i].reading, Readings(fields), registry, priors), m)
  {
    hide Score, ValuesOf, Others, Readings;
    var siblings := GroupValues(fields);
    for i := 0 to |fields|
      invariant forall j :: 0 <= j < i ==>
                  fields[j].State() ==
                  Score(old(fields[j].State()), ContextAmong(fields[j].reading, Readings(fields), registry, priors), m)
      invariant forall j :: i <= j < |fields| && fields[j] !in fields[..i] ==>
                  fields[j].State() == old(fields[j].State())
    {
      var f := fields[i];
      var c := Context(if f.reading.key in registry then Some(registry[f.reading.key]) else None,
                       ListAt(priors, f.reading.key),
                       Others(ListAt(siblings, f.reading.key), f.reading.value));
      ScoringIsIdempotent(old(f.State()), c, m);
      assert f in fields[..i] || f.State() == old(f.State());
      f.ScoreField(c, m);
      assert f.State() == Score(old(f.State()), c, m);
    }
  }

  // ---------------------------------------------------------------------------------------------
  // The geometric mean

  lemma {:induction false} ProductBelowFactor(xs: seq<real>, k: int)
    requires forall i :: 0 <= i < |xs| ==> 0.0 < xs[i] <= 1.0
    ensures 0.0 < Product(xs) <= 1.0
    ensures 0 <= k < |xs| ==> Product(xs) <= xs[k]
  {
    hide Times;
    if xs != [] {
      var init, x := xs[..|xs| - 1], xs[|xs| - 1];
      ProductBelowFactor(init, k);
      var p := Product(init);
      Positive(p, x);
      Grows(p, 1.0, x);
      Grows(x, 1.0, p);
      Commutes(p, x);
      Units(x);
      Units(p);
    }
  }

  lemma {:induction false} ProductIsMonotone(xs: seq<real>, ys: seq<real>)
    requires |xs| == |ys| && forall i :: 0 <= i < |xs| ==> 0.0 < xs[i] <= ys[i]
    ensures 0.0 < Product(xs) <= Product(ys)
  {
    hide Times;
    if xs != [] {
      var n := |xs| - 1;
      ProductIsMonotone(xs[..n], ys[..n]);
      var p, q := Product(xs[..n]), Product(ys[..n]);
      Positive(p, xs[n]);
      Grows(p, q, xs[n]);
      Grows(xs[n], ys[n], q);
      Commutes(q, xs[n]);
      Commutes(q, ys[n]);
    }
  }

  lemma {:induction false} ProductOfEqual(x: real, n: nat)
    ensures Product(seq(n, _ => x)) == Pow(x, n)
  {
    hide Times;
    if n > 0 {
      ProductOfEqual(x, n - 1);
      assert seq(n, _ => x)[..n - 1] == seq(n - 1, _ => x);
      Commutes(Pow(x, n - 1), x);
    }
  }

  lemma RootIs(root: real -> real, p: real)
    requires SixthRoot(root) && p >= 0.0
    ensures root(p) >= 0.0 && Pow(root(p), 6) == p
  {
    hide Pow;
  }

  /** A sixth root lies on the side of `x` that its argument lies of `x`'s sixth power. */
  lemma RootOrder(root: real -> real, p: real, x: real)
    requires SixthRoot(root) && p >= 0.0 && x >= 0.0
    ensures root(p) < x <==> p < Pow(x, 6)
    ensures root(p) == x <==> p == Pow(x, 6)
  {
    hide Pow, SixthRoot;
    RootIs(root, p);
    if root(p) <= x { PowGrows(root(p), x, 6); }
    if x <= root(p) { PowGrows(x, root(p), 6); }
  }

  lemma ValuesAreFloored(s: Scores)
    ensures |Values(s)| == 6 && forall i :: 0 <= i < 6 ==> COMPONENT_FLOOR <= Values(s)[i] <= 1.0
  {
  }

  /** The product of the floored components, and the composite as its rounded root. */
  lemma CompositeIsRoundedRoot(s: Scores, root: real -> real)
    requires SixthRoot(root)
    ensures var prod := Product(Values(s));
            && 0.0 < prod <= 1.0
            && 0.0 <= root(prod) <= 1.0 && Pow(root(prod), 6) == prod
            && CompositeOf(s, root) == Round4(root(prod))
            && forall i :: 0 <= i < 6 ==> prod <= Values(s)[i]
  {
    hide Times, Pow, SixthRoot, Values, Round4, Product;
    var prod := Product(Values(s));
    ValuesAreFloored(s);
    ProductBelowFactor(Values(s), 0);
    forall i | 0 <= i < 6
      ensures prod <= Values(s)[i]
    {
      ProductBelowFactor(Values(s), i);
    }
    RootIs(root, prod);
    PowOfOne();
    RootOrder(root, prod, 1.0);
  }

  lemma PowOfOne()
    ensures Pow(1.0, 6) == 1.0
  {
    assert Pow(1.0, 3) == 1.0;
  }

  lemma SixthPower(x: real)
    ensures Pow(x, 6) == (x * x * x) * (x * x * x)
  {
    assert Pow(x, 1) == x;
    assert Pow(x, 2) == x * x;
    assert Pow(x, 3) == x * (x * x) == x * x * x;
    PowSum(x, 3, 3);
  }

  /** The composite stays from the floor to one. */
  lemma CompositeIsBounded(s: Scores, root: real -> real)
    requires SixthRoot(root)
    ensures COMPONENT_FLOOR <= CompositeOf(s, root) <= 1.0
  {
    hide Times, Pow, SixthRoot, Values, Round4, CompositeOf, Product;
    var prod := Product(Values(s));
    CompositeIsRoundedRoot(s, root);
    ValuesAreFloored(s);
    ProductIsMonotone(seq(6, _ => COMPONENT_FLOOR), Values(s));
    ProductOfEqual(COMPONENT_FLOOR, 6);
    RootOrder(root, prod, COMPONENT_FLOOR);
    Round4IsMonotone(COMPONENT_FLOOR, root(prod));
    Round4IsMonotone(root(prod), 1.0);
    RoundedBounds();
  }

  lemma RoundedBounds()
    ensures Round4(COMPONENT_FLOOR) == COMPONENT_FLOOR && Round4(1.0) == 1.0
  {
    assert (10000.0).Floor == 10000 && (10.0).Floor == 10;
  }

  predicate NoWorse(s: Scores, t: Scores) {
    && s.modelLogprob <= t.modelLogprob && s.crossValidation <= t.crossValidation && s.peerZscore <= t.peerZscore
    && s.schemaValidation <= t.schemaValidation && s.crossSource <= t.crossSource && s.validation <= t.validation
  }

  /** Raising components never lowers the composite or the level. */
  lemma CompositeIsMonotone(s: Scores, t: Scores, root: real -> real)
    requires SixthRoot(root) && NoWorse(s, t)
    ensures CompositeOf(s, root) <= CompositeOf(t, root)
    ensures LevelFrom(CompositeOf(s, root)) == HIGH ==> LevelFrom(CompositeOf(t, root)) == HIGH
    ensures LevelFrom(CompositeOf(t, root)) == LOW ==> LevelFrom(CompositeOf(s, root)) == LOW
  {
    hide Times, Pow, SixthRoot, Round4, CompositeOf, Product;
    CompositeIsRoundedRoot(s, root);
    CompositeIsRoundedRoot(t, root);
    ProductIsMonotone(Values(s), Values(t));
    RootOrder(root, Product(Values(s)), root(Product(Values(t))));
    Round4IsMonotone(root(Product(Values(s))), root(Product(Values(t))));
  }

  // ---------------------------------------------------------------------------------------------
  // Weakest links

  /** The rounded root of a product below a bound. */
  lemma RoundedBelow(s: Scores, root: real -> real, bound: real, x: real)
    requires SixthRoot(root) && x >= 0.0 && Product(Values(s)) <= bound < Pow(x, 6)
    ensures CompositeOf(s, root) < x + 0.00005
  {
    hide Times, Pow, SixthRoot, Values, Round4, CompositeOf, Product;
    CompositeIsRoundedRoot(s, root);
    RootOrder(root, Product(Values(s)), x);
    Round4Error(root(Product(Values(s))));
  }

  /** A single component at the floor or below drags the composite under 0.3167. */
  lemma OneZeroIsLow(s: Scores, root: real -> real, k: int)
    requires SixthRoot(root) && 0 <= k < 6 && Values(s)[k] == COMPONENT_FLOOR
    ensures CompositeOf(s, root) < 0.3167
    ensures LevelFrom(CompositeOf(s, root)) == LOW
  {
    hide Times, Pow, SixthRoot, Values, Round4, CompositeOf, Product;
    CompositeIsRoundedRoot(s, root);
    SixthPower(0.3166);
    RoundedBelow(s, root, COMPONENT_FLOOR, 0.3166);
  }

  /** A field without a number, or outside its known metric's range, ends LOW and for review. */
  lemma InvalidValuesAreLow(f: Field, c: Context, m: MathLib)
    requires SixthRoot(m.root)
    requires f.valueNum == None || (c.metric.Some? && !PassesConstraints(f.valueNum, c.metric.value))
    ensures var g := Score(f, c, m); g.level == LOW && g.needsReview && g.composite < 0.3167
  {
    hide Times, Pow, SixthRoot, CompositeOf, Product, PeerScore, ZScoreOf, Agreement;
    var s := Assess(f, c, m);
    assert s.crossValidation == 0.0;
    OneZeroIsLow(s, m.root, 1);
  }

  /** A HIGH field has no component below 0.377, rounding notwithstanding. */
  lemma HighHasNoWeakLink(s: Scores, root: real -> real)
    requires SixthRoot(root) && LevelFrom(CompositeOf(s, root)) == HIGH
    ensures forall i :: 0 <= i < 6 ==> Values(s)[i] >= 0.377
  {
    hide Times, Pow, SixthRoot, Values, Round4, CompositeOf, Product;
    CompositeIsRoundedRoot(s, root);
    SixthPower(0.84995);
    if Product(Values(s)) < 0.377 {
      RoundedBelow(s, root, 0.377, 0.84995);
    }
  }

  /** The bound is nearly sharp: one component at 0.3772 among ones is HIGH. */
  lemma HighWithOneWeakLink(root: real -> real)
    requires SixthRoot(root)
    ensures LevelFrom(CompositeOf(Scores(0.3772, 1.0, 1.0, 1.0, 1.0, 1.0), root)) == HIGH
  {
    hide Times, Pow, SixthRoot, Round4, CompositeOf, Product;
    var s := Scores(0.3772, 1.0, 1.0, 1.0, 1.0, 1.0);
    CompositeIsRoundedRoot(s, root);
    ProductWithOnes(0.3772);
    SixthPower(0.85);
    RootOrder(root, Product(Values(s)), 0.85);
    Round4IsMonotone(0.85, root(Product(Values(s))));
    RoundedThreshold();
  }

  lemma RoundedThreshold()
    ensures Round4(0.85) == 0.85
  {
    assert (8500.0).Floor == 8500;
  }

  lemma ProductWithOne(xs: seq<real>)
    ensures Product(xs + [1.0]) == Product(xs)
  {
    hide Times;
    assert (xs + [1.0])[..|xs|] == xs;
    Units(Product(xs));
  }

  lemma ProductWithOnes(x: real)
    ensures Product([x, 1.0, 1.0, 1.0, 1.0, 1.0]) == x
  {
    hide Product;
    ProductOfOne(x);
    ProductWithOne([x]);
    ProductWithOne([x, 1.0]);
    ProductWithOne([x, 1.0, 1.0]);
    ProductWithOne([x, 1.0, 1.0, 1.0]);
    ProductWithOne([x, 1.0, 1.0, 1.0, 1.0]);
    assert [x] + [1.0] == [x, 1.0] && [x, 1.0] + [1.0] == [x, 1.0, 1.0] && [x, 1.0, 1.0] + [1.0] == [x, 1.0, 1.0, 1.0];
    assert [x, 1.0, 1.0, 1.0] + [1.0] == [x, 1.0, 1.0, 1.0, 1.0];
    assert [x, 1.0, 1.0, 1.0, 1.0] + [1.0] == [x, 1.0, 1.0, 1.0, 1.0, 1.0];
  }

  lemma ProductOfOne(x: real)
    ensures Product([x]) == x
  {
    assert [x][..0] == [];
    Units(x);
  }

  // ---------------------------------------------------------------------------------------------
  // The comparisons

  /** What is needed of the exponential. */
  ghost predicate Exponential(exp: real -> real) {
    && exp(0.0) == 1.0
    && (forall v :: exp(v) > 0.0)
    && (forall u, v :: u < v ==> exp(u) < exp(v))
  }

  lemma DifferenceSign(x: real, y: real)
    ensures Difference(x, y) >= 0.0 && (Difference(x, y) == 0.0 <==> x == y)
  {
    hide Times, Base;
    var base := Base(x, y);
    Quotient(Abs(x - y), base);
    QuotientSign(Abs(x - y), base, Abs(x - y) / base);
    Units(base);
  }

  lemma {:induction false} DifferencesAre(value: real, siblings: seq<Option<real>>)
    ensures forall d :: d in Differences(value, siblings) <==>
                        exists s :: s in siblings && s.Some? && d == Difference(value, s.value)
    ensures Differences(value, siblings) == [] <==> forall s :: s in siblings ==> s == None
  {
    hide Difference;
    if siblings != [] {
      var init, last := siblings[..|siblings| - 1], siblings[|siblings| - 1];
      DifferencesAre(value, init);
      assert siblings == init + [last];
      assert last in siblings && forall s :: s in siblings <==> s in init || s == last;
    }
  }

  /** Agreement is full exactly when some sibling carries a number and all numbers are the value. */
  lemma AgreementIsFull(value: real, siblings: seq<Option<real>>, exp: real -> real)
    requires Exponential(exp) && siblings != []
    ensures Agreement(Some(value), siblings, exp) == 1.0 <==>
            (exists s :: s in siblings && s.Some?) && (forall s :: s in siblings && s.Some? ==> s.value == value)
  {
    hide Difference, Differences;
    var ds := Differences(value, siblings);
    DifferencesAre(value, siblings);
    if ds != [] {
      var w := Worst(ds);
      var s :| s in siblings && s.Some? && w == Difference(value, s.value);
      forall t | t in siblings && t.Some?
        ensures 0.0 <= Difference(value, t.value) <= w && (Difference(value, t.value) == 0.0 <==> t.value == value)
      {
        DifferenceSign(value, t.value);
        assert Difference(value, t.value) in ds;
      }
      assert exp(-w * 6.0) == 1.0 <==> w == 0.0;
    }
  }

  /** Further siblings never raise the agreement once one carries a number. */
  lemma MoreSiblingsAgreeLess(value: real, siblings: seq<Option<real>>, more: seq<Option<real>>, exp: real -> real)
    requires Exponential(exp) && exists s :: s in siblings && s.Some?
    ensures Agreement(Some(value), siblings + more, exp) <= Agreement(Some(value), siblings, exp)
  {
    hide Difference, Differences;
    var ds, es := Differences(value, siblings), Differences(value, siblings + more);
    DifferencesAre(value, siblings);
    DifferencesAre(value, siblings + more);
    var s :| s in siblings && s.Some?;
    assert Difference(value, s.value) in ds;
    assert forall d :: d in ds ==> d in es;
    assert Worst(ds) in es;
    assert -Worst(es) * 6.0 <= -Worst(ds) * 6.0;
    if Worst(ds) < Worst(es) {
      assert exp(-Worst(es) * 6.0) < exp(-Worst(ds) * 6.0);
    }
  }

  /** Scoring a scored field again in the same context changes nothing. */
  lemma ScoringIsIdempotent(f: Field, c: Context, m: MathLib)
    ensures Score(Score(f, c, m), c, m) == Score(f, c, m)
  {
    hide CompositeOf, Agreement, ZScoreOf, PassesConstraints;
    assert Assess(Score(f, c, m), c, m) == Assess(f, c, m);
  }

  // ---------------------------------------------------------------------------------------------
  // Values outside [0,1] against the module's own description

  predicate InRange(x: real) {
    0.0 <= x <= 1.0
  }

  /** The described substitution: whatever is out of range becomes the neutral value. */
  function Neutral(x: real): real {
    if InRange(x) then x else NEUTRAL_COMPONENT
  }

  function Neutralized(s: Scores): Scores {
    Scores(Neutral(s.modelLogprob), Neutral(s.crossValidation), Neutral(s.peerZscore),
           Neutral(s.schemaValidation), Neutral(s.crossSource), Neutral(s.validation))
  }

  /** The components that survive adjustment as they came are in range: cross-validation of a number
      of no known metric, the peer score when no z-score can be had, cross-source without siblings. */
  predicate SurvivorsInRange(f: Field, c: Context) {
    && (f.valueNum.Some? && c.metric == None ==> InRange(f.scores.crossValidation))
    && (f.reading.value == None || c.priors == [] ==> InRange(f.scores.peerZscore))
    && (c.siblings == [] ==> InRange(f.scores.crossSource))
  }

  /** The code meets the described substitution exactly when nothing out of range survives; if the
      description is held to cover what comes in, exactly when the log-probability, which the code
      replaces by 0.85, is in range too. */
  lemma SubstitutionAgainstDescription(f: Field, c: Context, m: MathLib)
    ensures Assess(f, c, m) == Neutralized(Adjusted(f, c, m)) <==> SurvivorsInRange(f, c)
    ensures Assess(f, c, m) == Adjusted(f.(scores := Neutralized(f.scores)), c, m) <==>
            SurvivorsInRange(f, c) && InRange(f.scores.modelLogprob)
  {
    hide PassesConstraints, ValidationScore, Agreement;
    var s := Adjusted(f, c, m);
    assert InRange(s.modelLogprob) && InRange(s.schemaValidation) && InRange(s.validation);
    assert SurvivorsInRange(f, c) <==> InRange(s.crossValidation) && InRange(s.peerZscore) && InRange(s.crossSource);
  }

  /** A field with a number and a known unit, before scoring. */
  function Unscored(s: Scores): Field {
    Field(Reading("", "", None), Some(1.0), true, 0, s, 0.0, MEDIUM, false)
  }

  /** Out-of-range values that are not replaced by 0.5. The components model admits none when it is
      built, so they can only be assigned afterwards. */
  lemma NotReplacedByNeutral(m: MathLib)
    ensures var f := Unscored(Scores(1.0, 1.0, 1.5, 1.0, 1.0, 1.0));
            Assess(f, Context(None, [], []), m).peerZscore == 1.0
    ensures var f := Unscored(Scores(-1.0, 1.0, 1.0, 1.0, 1.0, 1.0));
            Assess(f, Context(None, [], []), m).modelLogprob == 0.85
  {
  }

  // ---------------------------------------------------------------------------------------------
  // The review flag against the rule in the module's own description

  /** The described rule: review below HIGH, or with any component below 0.55. */
  predicate DescribedReview(s: Scores, composite: real) {
    || LevelFrom(composite) != HIGH
    || s.modelLogprob < 0.55 || s.crossValidation < 0.55 || s.peerZscore < 0.55
    || s.schemaValidation < 0.55 || s.crossSource < 0.55 || s.validation < 0.55
  }

  /** Every component is above the threshold the code has for it. */
  predicate Passable(s: Scores) {
    && s.crossValidation >= 0.55 && s.schemaValidation >= 0.55 && s.peerZscore >= 0.4
    && s.crossSource >= 0.55 && s.validation >= 0.55
  }

  /** The composite reaches a threshold of an even number of ten-thousandths exactly when the product
      of the components reaches the sixth power of half a ten-thousandth less. */
  lemma ThresholdOnProduct(s: Scores, root: real -> real, k: nat)
    requires SixthRoot(root) && k > 0 && k % 2 == 0
    ensures CompositeOf(s, root) >= k as real / 10000.0 <==> Product(Values(s)) >= Pow((k as real - 0.5) / 10000.0, 6)
  {
    hide Times, Pow, SixthRoot, Values, CompositeOf, Product, RoundHalfEven;
    var prod := Product(Values(s));
    CompositeIsRoundedRoot(s, root);
    RootOrder(root, prod, (k as real - 0.5) / 10000.0);
    RoundsUpTo(root(prod) * 10000.0, k);
  }

  lemma RoundsUpTo(y: real, k: int)
    requires k % 2 == 0
    ensures RoundHalfEven(y) >= k <==> y >= k as real - 0.5
  {
  }

  /** The code flags nothing the description would not. It misses what is described exactly when its
      own thresholds are all met although the field is MEDIUM, or its log-probability is below 0.55,
      or its peer score is. */
  lemma ReviewAgainstDescription(f: Field, c: Context, m: MathLib)
    requires SixthRoot(m.root) && !f.needsReview
    ensures var s, g := Assess(f, c, m), Score(f, c, m);
            var prod := Product(Values(s));
            && (g.needsReview ==> DescribedReview(g.scores, g.composite))
            && ((g.needsReview <==> DescribedReview(g.scores, g.composite)) <==>
                !(&& Passable(s) && prod >= Pow(0.64995, 6)
                  && (prod < Pow(0.84995, 6) || s.modelLogprob < 0.55 || s.peerZscore < 0.55)))
  {
    hide Times, Pow, SixthRoot, Values, CompositeOf, Product, Assess;
    var s := Assess(f, c, m);
    ThresholdOnProduct(s, m.root, 6500);
    ThresholdOnProduct(s, m.root, 8500);
  }

  /** A MEDIUM field, a HIGH one with a weak log-probability and a HIGH one with a weak peer score,
      all described as needing review, that scoring leaves unflagged. */
  lemma UnflaggedAgainstDescription(m: MathLib)
    requires SixthRoot(m.root)
    ensures var g := Score(Unscored(Scores(0.3772, 1.0, 1.0, 1.0, 1.0, 1.0)), Context(None, [], []), m);
            !g.needsReview && g.level == HIGH && DescribedReview(g.scores, g.composite)
    ensures var g := Score(Unscored(Scores(0.2, 1.0, 1.0, 1.0, 1.0, 1.0)), Context(None, [], []), m);
            !g.needsReview && g.level == MEDIUM && DescribedReview(g.scores, g.composite)
    ensures var g := Score(Unscored(Scores(1.0, 1.0, 0.45, 1.0, 1.0, 1.0)), Context(None, [], []), m);
            !g.needsReview && g.level == HIGH && DescribedReview(g.scores, g.composite)
  {
    hide Times, Pow, SixthRoot, Round4, CompositeOf, Product;
    HighWithOneWeakLink(m.root);
    var s := Scores(0.2, 1.0, 1.0, 1.0, 1.0, 1.0);
    var t := Scores(1.0, 1.0, 0.45, 1.0, 1.0, 1.0);
    ProductWithOnes(0.2);
    ProductWithPeer(0.45);
    assert Values(s) == [0.2, 1.0, 1.0, 1.0, 1.0, 1.0] && Values(t) == [1.0, 1.0, 0.45, 1.0, 1.0, 1.0];
    SixthPower(0.64995);
    SixthPower(0.84995);
    ThresholdOnProduct(s, m.root, 6500);
    ThresholdOnProduct(s, m.root, 8500);
    ThresholdOnProduct(t, m.root, 8500);
  }

  lemma ProductWithPeer(x: real)
    ensures Product([1.0, 1.0, x, 1.0, 1.0, 1.0]) == x
  {
    hide Product, Times;
    ProductOfOne(1.0);
    ProductWithOne([1.0]);
    assert [1.0] + [1.0] == [1.0, 1.0];
    ProductSnoc([1.0, 1.0], x);
    Units(x);
    assert [1.0, 1.0] + [x] == [1.0, 1.0, x];
    ProductWithOne([1.0, 1.0, x]);
    ProductWithOne([1.0, 1.0, x, 1.0]);
    ProductWithOne([1.0, 1.0, x, 1.0, 1.0]);
    assert [1.0, 1.0, x] + [1.0] == [1.0, 1.0, x, 1.0] && [1.0, 1.0, x, 1.0] + [1.0] == [1.0, 1.0, x, 1.0, 1.0];
    assert [1.0, 1.0, x, 1.0, 1.0] + [1.0] == [1.0, 1.0, x, 1.0, 1.0, 1.0];
  }

  lemma ProductSnoc(xs: seq<real>, x: real)
    ensures Product(xs + [x]) == Times(Product(xs), x)
  {
    hide Times;
    assert (xs + [x])[..|xs|] == xs;
  }
}
