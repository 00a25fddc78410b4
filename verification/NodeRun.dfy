/** The aggregation node in plain terms: which raw fields belong together, what counts as one value, when
    values conflict, which field is kept, and when the node fails. */
module NodeRun {
  import opened Aggregator
  import opened Metrics
  import opened RealFacts
  import opened Rounding
  import opened Wrappers

  // ---------------------------------------------------------------------------------------------
  // What belongs together

  /** Both texts are the same, or each is missing or empty. */
  predicate SameText(a: Option<string>, b: Option<string>) {
    a == b || (a in {None, Some("")} && b in {None, Some("")})
  }

  /** Two raw fields share a group exactly if they name one metric, period and combination of
      dimensions; a field that names no metric is in none. */
  lemma GroupsAreKinds(raw: seq<RawField>, a: RawField, b: RawField)
    requires a in raw && b in raw
    ensures (exists sig :: a in Members(raw, sig) && b in Members(raw, sig)) <==>
            && a.canonicalKey !in {None, Some("")} && a.canonicalKey == b.canonicalKey
            && SameText(a.periodText, b.periodText) && a.dimensions == b.dimensions
  {
    hide Members;
    forall sig
      ensures a in Members(raw, sig) <==> Keyed(a) && SignatureOf(a) == sig
      ensures b in Members(raw, sig) <==> Keyed(b) && SignatureOf(b) == sig
    {
      MembersAre(raw, sig);
    }
    assert Keyed(a) ==> a in Members(raw, SignatureOf(a));
  }

  // ---------------------------------------------------------------------------------------------
  // What counts as one value

  /** Two numbers are one value exactly if they agree to four decimals and their units are written
      alike. */
  lemma NumbersAreOneValue(a: RawField, b: RawField, fmt: real -> string)
    requires Prints(fmt) && a.valueNum.Some? && b.valueNum.Some?
    ensures ValueKey(a, fmt) == ValueKey(b, fmt) <==>
            Round4(a.valueNum.value) == Round4(b.valueNum.value) && SameText(a.unit, b.unit)
  {
    hide Round4;
    var x, y := fmt(Round4(a.valueNum.value)), fmt(Round4(b.valueNum.value));
    var u, v := a.unit.GetOr(""), b.unit.GetOr("");
    if ValueKey(a, fmt) == ValueKey(b, fmt) {
      assert x + "|" + u == y + "|" + v;
      BarSplits(x, y, u, v);
      SameHead(x + "|", u, v);
    }
  }

  /** Two texts without a bar, where there is no number, are one value exactly if they and their units
      are written alike; a missing text counts as `None`. */
  lemma TextsAreOneValue(a: RawField, b: RawField, s: string, t: string, fmt: real -> string)
    requires a.valueNum == None && b.valueNum == None && '|' !in s && '|' !in t
    requires a.rawValue == Some(s) || (a.rawValue == None && s == "None")
    requires b.rawValue == Some(t) || (b.rawValue == None && t == "None")
    ensures ValueKey(a, fmt) == ValueKey(b, fmt) <==> s == t && SameText(a.unit, b.unit)
  {
    var u, v := a.unit.GetOr(""), b.unit.GetOr("");
    if ValueKey(a, fmt) == ValueKey(b, fmt) {
      assert s + "|" + u == t + "|" + v;
      BarSplits(s, t, u, v);
      SameHead(s + "|", u, v);
    }
  }

  lemma SameHead(p: string, x: string, y: string)
    requires p + x == p + y
    ensures x == y
  {
    assert (p + x)[|p|..] == x && (p + y)[|p|..] == y;
  }

  // ---------------------------------------------------------------------------------------------
  // When values conflict

  /** `x` is within two per cent of `pivot`, or next to nothing where that is zero. */
  predicate Near(x: real, pivot: real) {
    if pivot == 0.0 then -0.000000001 < x < 0.000000001 else 50.0 * Abs(x - pivot) <= Abs(pivot)
  }

  lemma AgreesIsNear(x: real, pivot: real)
    ensures Agrees(x, pivot) <==> Near(x, pivot)
  {
    if pivot != 0.0 {
      var d, p := Abs(x - pivot), Abs(pivot);
      hide Times;
      Quotient(d, p);
      Cancels(d / p, 0.02, p);
      FiftiethOf(p);
    }
  }

  lemma FiftiethOf(p: real)
    ensures Times(0.02, p) == p / 50.0
  {
  }

  /** The number of the first of its value at index `k` is not near the first such number, at `p`. */
  ghost predicate FarFrom(ms: seq<RawField>, p: int, k: int, fmt: real -> string) {
    && Pivot(ms, p, fmt) && FirstOfKey(ms, k, fmt) && ms[k].valueNum.Some?
    && !Near(ms[k].valueNum.value, ms[p].valueNum.value)
  }

  /** Number `i` is at least as good as number `k`: a higher log-probability, none counting as zero, or
      the same and a raw value no longer. */
  ghost predicate Outranks(ms: seq<RawField>, k: int, i: int)
    requires 0 <= k < |ms| && 0 <= i < |ms|
  {
    var p := if ms[k].modelLogprob == None then 0.0 else ms[k].modelLogprob.value;
    var q := if ms[i].modelLogprob == None then 0.0 else ms[i].modelLogprob.value;
    p > q || (p == q && LengthOf(ms[k].rawValue) <= LengthOf(ms[i].rawValue))
  }

  function LengthOf(s: Option<string>): nat {
    match s case None => 0 case Some(t) => |t|
  }

  /** What a group keeps: on conflict its first field and the first of another value, else the field
      that outranks all, the first of those. */
  lemma PlainChoice(ms: seq<RawField>, fmt: real -> string)
    requires ms != []
    ensures (exists p, k :: FarFrom(ms, p, k, fmt)) ==>
              |Chosen(ms, fmt)| == 2 && Chosen(ms, fmt)[0] == ms[0]
              && exists j :: FirstOther(ms, j, fmt) && Chosen(ms, fmt)[1] == ms[j]
    ensures !(exists p, k :: FarFrom(ms, p, k, fmt)) ==>
              exists k :: 0 <= k < |ms| && Chosen(ms, fmt) == [ms[k]]
                && (forall i :: 0 <= i < |ms| ==> Outranks(ms, k, i))
                && forall i :: 0 <= i < k ==> !Outranks(ms, i, k)
    ensures Conflicting(ms, fmt) <==> exists p, k :: FarFrom(ms, p, k, fmt)
  {
    hide Conflicting, Agrees, Near, Pivot, FirstOfKey, FirstOther, ValueKey;
    ConflictExactly(ms, fmt);
    forall p, k
      ensures Disagree(ms, p, k, fmt) <==> FarFrom(ms, p, k, fmt)
    {
      AgreesWhereRead(ms, p, k, fmt);
    }
    hide Chosen, FirstBest, FarFrom;
    ChosenAre(ms, fmt);
    if !Conflicting(ms, fmt) {
      var k :| FirstBest(ms, k) && Chosen(ms, fmt)[0] == ms[k];
      BestOutranks(ms, k);
      assert Chosen(ms, fmt) == [ms[k]];
    }
  }

  lemma BestOutranks(ms: seq<RawField>, k: int)
    requires FirstBest(ms, k)
    ensures 0 <= k < |ms| && (forall i :: 0 <= i < |ms| ==> Outranks(ms, k, i))
    ensures forall i :: 0 <= i < k ==> !Outranks(ms, i, k)
  {
  }

  lemma AgreesWhereRead(ms: seq<RawField>, p: int, k: int, fmt: real -> string)
    ensures Disagree(ms, p, k, fmt) <==> FarFrom(ms, p, k, fmt)
  {
    hide Agrees, Near, FirstOfKey;
    FirstsAreIndices(ms, fmt);
    if Pivot(ms, p, fmt) && FirstOfKey(ms, k, fmt) && ms[k].valueNum.Some? {
      AgreesIsNear(ms[k].valueNum.value, ms[p].valueNum.value);
    }
  }

  /** A field that the data model refuses: a period text that names no date, or a log-probability that
      is not from 0 to 1. */
  ghost predicate Refused(rf: RawField, tools: Tools) {
    || tools.parsePeriod(match rf.periodText case None => "" case Some(t) => t) == Exception
    || (rf.modelLogprob.Some? && !(0.0 <= rf.modelLogprob.value <= 1.0))
  }

  /** The node fails exactly if a field that it keeps, in a group of a known metric, is refused. */
  lemma NodeFails(raw: seq<RawField>, registry: map<string, Metric>, tools: Tools)
    ensures forall i :: 0 <= i < |Signatures(raw)| ==> Members(raw, Signatures(raw)[i]) != []
    ensures Aggregated(raw, Signatures(raw), registry, tools) == Exception <==>
            exists i, rf ::
              0 <= i < |Signatures(raw)| && Signatures(raw)[i].key in registry
              && rf in Chosen(Members(raw, Signatures(raw)[i]), tools.fmt) && Refused(rf, tools)
  {
    hide Chosen, Members, Signatures, Aggregated, Accepted, Refused;
    GroupsAreNotEmpty(raw);
    AggregationIsByGroup(raw, Signatures(raw), registry, tools);
    forall rf
      ensures Accepted(rf, tools) <==> !Refused(rf, tools)
    {
      RefusedIsNotAccepted(rf, tools);
    }
  }

  lemma RefusedIsNotAccepted(rf: RawField, tools: Tools)
    ensures Accepted(rf, tools) <==> !Refused(rf, tools)
  {
  }
}
