/** The verdict of the aggregation node on bare numbers against the one on amounts, that is, numbers
    times the sizes of their units. */
module Amounts {
  import opened Aggregator
  import opened Metrics
  import opened RealFacts
  import opened Wrappers

  lemma AgreesMultiplied(x: real, pivot: real)
    requires pivot != 0.0
    ensures Agrees(x, pivot) <==> Abs(x - pivot) <= Times(TOLERANCE, Abs(pivot))
  {
    hide Times;
    var p := Abs(pivot);
    Quotient(Abs(x - pivot), p);
    Cancels(Abs(x - pivot) / p, TOLERANCE, p);
  }

  lemma AbsScales(x: real, a: real)
    requires a > 0.0
    ensures Abs(Times(x, a)) == Times(Abs(x), a)
    ensures x != 0.0 ==> Times(x, a) != 0.0
  {
    hide Times;
    Distributes(0.0, x, a);
    Units(a);
    Cancels(0.0, x, a);
  }

  /** Scaling both numbers alike leaves the verdict as it is. */
  lemma AgreementScales(x: real, pivot: real, a: real)
    requires a > 0.0 && pivot != 0.0
    ensures Agrees(Times(x, a), Times(pivot, a)) <==> Agrees(x, pivot)
  {
    hide Times, Agrees, Abs;
    AbsScales(pivot, a);
    AbsScales(x - pivot, a);
    Distributes(x, pivot, a);
    AgreesMultiplied(x, pivot);
    AgreesMultiplied(Times(x, a), Times(pivot, a));
    Associates(TOLERANCE, Abs(pivot), a);
    Cancels(Abs(x - pivot), Times(TOLERANCE, Abs(pivot)), a);
  }

  /** Comparing numbers in units of sizes `b` and `a` is comparing amounts. */
  ghost predicate VerdictsMatch(a: real, b: real) {
    forall x, pivot :: pivot != 0.0 ==> (Agrees(x, pivot) <==> Agrees(Times(x, b), Times(pivot, a)))
  }

  /** The verdict on numbers is the verdict on amounts exactly if the units have the same size. */
  lemma SizesDecide(a: real, b: real)
    requires a > 0.0 && b > 0.0
    ensures VerdictsMatch(a, b) <==> a == b
  {
    hide Times, Agrees;
    if a == b {
      forall x, pivot | pivot != 0.0
        ensures Agrees(x, pivot) <==> Agrees(Times(x, b), Times(pivot, a))
      {
        AgreementScales(x, pivot, a);
      }
    } else {
      SizesDiffer(a, b);
    }
  }

  /** The bound just reached by a number in the unit of the pivot is missed in another unit: by the
      upper one in a larger unit, by the lower one in a smaller. */
  lemma SizesDiffer(a: real, b: real)
    requires a > 0.0 && b > 0.0 && a != b
    ensures !VerdictsMatch(a, b)
  {
    hide Times, Agrees;
    var x := if b > a then 1.02 else 0.98;
    AgreesMultiplied(x, 1.0);
    Units(TOLERANCE);
    assert Abs(x - 1.0) == 0.02 && Abs(1.0) == 1.0;
    Units(a);
    AgreesMultiplied(Times(x, b), a);
    Commutes(TOLERANCE, a);
    Shares(x, a, b);
    assert Agrees(x, 1.0) && !Agrees(Times(x, b), Times(1.0, a));
  }

  lemma Shares(x: real, a: real, b: real)
    requires a > 0.0 && b > 0.0
    ensures b > a ==> Times(1.02, b) - a > Times(TOLERANCE, a)
    ensures b < a ==> a - Times(0.98, b) > Times(TOLERANCE, a)
  {
  }

  function AmountOf(rf: RawField, size: Option<string> -> real): real
    requires rf.valueNum.Some?
  {
    Times(rf.valueNum.value, size(rf.unit))
  }

  /** The amounts of the first of its key at index `k` and of the pivot, at index `p`, disagree. */
  ghost predicate AmountsDisagree(ms: seq<RawField>, p: int, k: int, fmt: real -> string,
                                  size: Option<string> -> real) {
    && Pivot(ms, p, fmt) && FirstOfKey(ms, k, fmt) && ms[k].valueNum.Some?
    && !Agrees(AmountOf(ms[k], size), AmountOf(ms[p], size))
  }

  /** A group whose units all have one size conflicts exactly if its amounts do, unless it is measured
      by zero, where the tolerance is absolute. */
  lemma OneSizeConflicts(ms: seq<RawField>, fmt: real -> string, size: Option<string> -> real, a: real)
    requires a > 0.0 && forall i :: 0 <= i < |ms| ==> size(ms[i].unit) == a
    requires forall p :: Pivot(ms, p, fmt) ==> ms[p].valueNum != Some(0.0)
    ensures Conflicting(ms, fmt) <==> exists p, k :: AmountsDisagree(ms, p, k, fmt, size)
  {
    hide Conflicting, Agrees, Times;
    ConflictExactly(ms, fmt);
    forall p, k | Pivot(ms, p, fmt) && FirstOfKey(ms, k, fmt) && ms[k].valueNum.Some?
      ensures Disagree(ms, p, k, fmt) <==> AmountsDisagree(ms, p, k, fmt, size)
    {
      assert ms[p].valueNum.value != 0.0;
      AgreementScales(ms[k].valueNum.value, ms[p].valueNum.value, a);
    }
  }

  // ---------------------------------------------------------------------------------------------
  // Canonical values

  /** A converted number, in sizes of its new unit, is the number in sizes of its old one. */
  ghost predicate Measures(tools: Tools, size: string -> real) {
    forall v, a, b :: tools.convert(v, a, b).Some? ==>
      Times(tools.convert(v, a, b).value, size(b)) == Times(v, size(a))
  }

  /** The amount stays what it was when a field gets its canonical value, and it gets one exactly for a
      number whose unit, or the metric's for want of one, is known and is or converts to the metric's. */
  ghost predicate KeepsAmount(e: Extracted, metric: Metric, tools: Tools, size: string -> real) {
    var given := if e.source.unit == None || e.source.unit.value == "" then metric.unit else e.source.unit.value;
    var unit, own := tools.canonicalUnit(given), tools.canonicalUnit(metric.unit);
    var target := if own == None || own.value == "" then metric.unit else own.value;
    var v, w := e.source.valueNum, e.valueCanonical;
    && e.unitCanonical == unit
    && (w.Some? <==>
        && v.Some? && unit.Some? && unit.value != "" && target != ""
        && (unit.value == target || tools.convert(v.value, unit.value, target).Some?))
    && (w.Some? ==> Times(w.value, size(target)) == Times(v.value, size(unit.value)))
  }

  lemma EmissionKeepsAmount(ms: seq<RawField>, key: string, registry: map<string, Metric>, tools: Tools,
                            size: string -> real, e: Extracted)
    requires Measures(tools, size)
    requires ms != [] && Emitted(ms, key, registry, tools).Success? && e in Emitted(ms, key, registry, tools).value
    ensures key in registry && KeepsAmount(e, registry[key], tools, size)
  {
    hide Chosen, Conflicting, Fields, Times, PassesConstraints;
    var chosen := Chosen(ms, tools.fmt);
    FieldsAre(chosen, registry[key], Conflicting(ms, tools.fmt), tools);
    assert forall i :: 0 <= i < |chosen| ==> chosen[i] in chosen;
    var i :| 0 <= i < |chosen| && e == FieldOf(chosen[i], registry[key], Conflicting(ms, tools.fmt), tools);
  }

  /** No field that the node emits changes its amount on the way to the metric's unit. */
  lemma NodeKeepsAmounts(raw: seq<RawField>, registry: map<string, Metric>, tools: Tools, size: string -> real)
    requires Measures(tools, size)
    ensures forall i :: 0 <= i < |Signatures(raw)| ==> Members(raw, Signatures(raw)[i]) != []
    ensures var out := Aggregated(raw, Signatures(raw), registry, tools);
            out.Success? ==> forall e :: e in out.value ==>
              e.source in raw && e.source.canonicalKey.Some? && e.source.canonicalKey.value in registry
              && KeepsAmount(e, registry[e.source.canonicalKey.value], tools, size)
  {
    hide Members, Signatures, Aggregated, Emitted, KeepsAmount, Measures, Chosen, Conflicting;
    GroupsAreNotEmpty(raw);
    AggregationIsByGroup(raw, Signatures(raw), registry, tools);
    var out := Aggregated(raw, Signatures(raw), registry, tools);
    if out.Success? {
      forall e | e in out.value
        ensures e.source in raw && e.source.canonicalKey.Some? && e.source.canonicalKey.value in registry
          && KeepsAmount(e, registry[e.source.canonicalKey.value], tools, size)
      {
        assert FromItsGroup(raw, registry, tools, e);
        var sig := SignatureOf(e.source);
        MembersAre(raw, sig);
        EmissionKeepsAmount(Members(raw, sig), sig.key, registry, tools, size, e);
      }
    }
  }
}
