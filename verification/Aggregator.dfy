/** The aggregation node: raw fields are grouped, each group is checked for conflicting values, and
    one field, or two for review, come out of it. */
module Aggregator {
  import opened Metrics
  import opened RealFacts
  import opened Rounding
  import opened Wrappers

  /** `dimensions` stands for the JSON text of the field's dimensions with sorted keys. */
  datatype RawField = RawField(canonicalKey: Option<string>, periodText: Option<string>, dimensions: string,
                               valueNum: Option<real>, rawValue: Option<string>, unit: Option<string>,
                               modelLogprob: Option<real>)

  datatype Signature = Signature(key: string, period: string, dimensions: string)

  /** A reported period: its first and last day, where known. */
  datatype Period = Period(start: Option<int>, end: Option<int>)

  /** An extracted field: the raw field it was made from, and what was derived from it. */
  datatype Extracted = Extracted(source: RawField, unitCanonical: Option<string>, valueCanonical: Option<real>,
                                 period: Period, modelLogprob: real, crossValidation: real, schemaValidation: real,
                                 crossSource: real, needsReview: bool)

  /** Code called by the node: printing of rounded numbers, the unit graph, and the period parser,
      which fails on texts that name no date. */
  datatype Tools = Tools(fmt: real -> string, canonicalUnit: string -> Option<string>,
                         convert: (real, string, string) -> Option<real>, parsePeriod: string -> Result<Period>)

  const TOLERANCE: real := 0.02

  // ---------------------------------------------------------------------------------------------
  // Groups

  predicate Keyed(rf: RawField) {
    rf.canonicalKey.Some? && rf.canonicalKey.value != ""
  }

  function SignatureOf(rf: RawField): Signature {
    Signature(rf.canonicalKey.GetOr(""), rf.periodText.GetOr(""), rf.dimensions)
  }

  function KeyedFields(raw: seq<RawField>): seq<RawField> {
    if raw == [] then []
    else KeyedFields(raw[..|raw| - 1]) + if Keyed(raw[|raw| - 1]) then [raw[|raw| - 1]] else []
  }

  /** The keyed fields with a signature, in order. */
  function Members(raw: seq<RawField>, sig: Signature): seq<RawField> {
    if raw == [] then []
    else
      var rf := raw[|raw| - 1];
      Members(raw[..|raw| - 1], sig) + if Keyed(rf) && SignatureOf(rf) == sig then [rf] else []
  }

  /** The signatures of the keyed fields, each where it first appears. */
  function Signatures(raw: seq<RawField>): seq<Signature> {
    if raw == [] then []
    else
      var before, rf := Signatures(raw[..|raw| - 1]), raw[|raw| - 1];
      if !Keyed(rf) || SignatureOf(rf) in before then before else before + [SignatureOf(rf)]
  }

  /** The groups of some signatures, laid end to end. */
  function AllMembers(raw: seq<RawField>, sigs: seq<Signature>): seq<RawField> {
    if sigs == [] then [] else AllMembers(raw, sigs[..|sigs| - 1]) + Members(raw, sigs[|sigs| - 1])
  }

  lemma {:induction false} MembersAre(raw: seq<RawField>, sig: Signature)
    ensures forall rf :: rf in Members(raw, sig) <==> rf in raw && Keyed(rf) && SignatureOf(rf) == sig
    ensures sig in Signatures(raw) <==> Members(raw, sig) != []
  {
    if raw != [] {
      var init, last := raw[..|raw| - 1], raw[|raw| - 1];
      MembersAre(init, sig);
      assert raw == init + [last];
    }
  }

  lemma {:induction false} SignaturesAreDistinct(raw: seq<RawField>)
    ensures forall i, j :: 0 <= i < j < |Signatures(raw)| ==> Signatures(raw)[i] != Signatures(raw)[j]
  {
    if raw != [] {
      SignaturesAreDistinct(raw[..|raw| - 1]);
    }
  }

  lemma MembersExtend(raw: seq<RawField>, rf: RawField, sig: Signature)
    ensures Members(raw + [rf], sig) == Members(raw, sig) + if Keyed(rf) && SignatureOf(rf) == sig then [rf] else []
  {
    assert (raw + [rf])[..|raw|] == raw;
  }

  /** One more field lands in one group if its signature is among them, else nowhere. */
  lemma {:induction false} OneMoreMember(raw: seq<RawField>, rf: RawField, sigs: seq<Signature>)
    requires forall i, j :: 0 <= i < j < |sigs| ==> sigs[i] != sigs[j]
    ensures multiset(AllMembers(raw + [rf], sigs)) ==
            multiset(AllMembers(raw, sigs)) + if Keyed(rf) && SignatureOf(rf) in sigs then multiset{rf} else multiset{}
  {
    hide Members, Keyed, SignatureOf;
    if sigs != [] {
      var init, last := sigs[..|sigs| - 1], sigs[|sigs| - 1];
      OneMoreMember(raw, rf, init);
      MembersExtend(raw, rf, last);
      assert sigs == init + [last];
      var more := if Keyed(rf) && SignatureOf(rf) == last then [rf] else [];
      assert AllMembers(raw + [rf], sigs) == AllMembers(raw + [rf], init) + (Members(raw, last) + more);
      assert AllMembers(raw, sigs) == AllMembers(raw, init) + Members(raw, last);
    }
  }

  /** Grouping conserves: the groups together hold every keyed field exactly as often as it came. */
  lemma {:induction false} GroupsPartition(raw: seq<RawField>)
    ensures multiset(AllMembers(raw, Signatures(raw))) == multiset(KeyedFields(raw))
  {
    hide Members, Keyed, SignatureOf;
    if raw != [] {
      var init, rf := raw[..|raw| - 1], raw[|raw| - 1];
      var before, sigs := Signatures(init), Signatures(raw);
      assert raw == init + [rf];
      GroupsPartition(init);
      SignaturesAreDistinct(init);
      OneMoreMember(init, rf, before);
      if sigs != before {
        NewGroup(init, rf);
        assert sigs[..|sigs| - 1] == before;
      }
    }
  }

  lemma NewGroup(raw: seq<RawField>, rf: RawField)
    requires Keyed(rf) && SignatureOf(rf) !in Signatures(raw)
    ensures Members(raw + [rf], SignatureOf(rf)) == [rf]
  {
    hide Members;
    MembersAre(raw, SignatureOf(rf));
    MembersExtend(raw, rf, SignatureOf(rf));
  }

  /** Builds the groups as an insertion-ordered dictionary. */
  method GroupFields(raw: seq<RawField>) returns (order: seq<Signature>, groups: map<Signature, seq<RawField>>)
    ensures order == Signatures(raw)
    ensures forall sig :: sig in order <==> sig in groups
    ensures forall sig :: sig in groups ==> groups[sig] == Members(raw, sig)
  {
    order, groups := [], map[];
    for i := 0 to |raw|
      invariant order == Signatures(raw[..i])
      invariant forall sig :: sig in order <==> sig in groups
      invariant forall sig :: sig in groups ==> groups[sig] == Members(raw[..i], sig)
    {
      var rf := raw[i];
      assert raw[..i + 1][..i] == raw[..i];
      var sig := SignatureOf(rf);
      MembersAre(raw[..i], sig);
      if !Keyed(rf) { continue; }
      if sig !in groups {
        order, groups := order + [sig], groups[sig := []];
      }
      groups := groups[sig := groups[sig] + [rf]];
    }
    assert raw[..|raw|] == raw;
  }

  // ---------------------------------------------------------------------------------------------
  // Distinct values

  /** Printing of rounded numbers: different ones print differently, and without a bar. */
  ghost predicate Prints(fmt: real -> string) {
    && (forall x, y :: fmt(Round4(x)) == fmt(Round4(y)) ==> Round4(x) == Round4(y))
    && (forall x :: '|' !in fmt(Round4(x)))
  }

  function ValueKey(rf: RawField, fmt: real -> string): string {
    (if rf.valueNum.Some? then fmt(Round4(rf.valueNum.value)) else rf.rawValue.GetOr("None")) + "|" + rf.unit.GetOr("")
  }

  function ValueKeys(ms: seq<RawField>, fmt: real -> string): set<string> {
    set i | 0 <= i < |ms| :: ValueKey(ms[i], fmt)
  }

  /** The first member with each value key, in order. */
  function Distinct(ms: seq<RawField>, fmt: real -> string): seq<RawField> {
    if ms == [] then []
    else
      var before, rf := Distinct(ms[..|ms| - 1], fmt), ms[|ms| - 1];
      if ValueKey(rf, fmt) in ValueKeys(before, fmt) then before else before + [rf]
  }

  lemma {:induction false} DistinctAre(ms: seq<RawField>, fmt: real -> string)
    ensures ValueKeys(Distinct(ms, fmt), fmt) == ValueKeys(ms, fmt)
    ensures forall rf :: rf in Distinct(ms, fmt) ==> rf in ms
    ensures ms != [] ==> Distinct(ms, fmt) != [] && Distinct(ms, fmt)[0] == ms[0]
    ensures forall i, j :: 0 <= i < j < |Distinct(ms, fmt)| ==>
              ValueKey(Distinct(ms, fmt)[i], fmt) != ValueKey(Distinct(ms, fmt)[j], fmt)
  {
    hide ValueKey;
    if ms != [] {
      var init, rf := ms[..|ms| - 1], ms[|ms| - 1];
      DistinctAre(init, fmt);
      assert ms == init + [rf];
      KeysExtend(init, rf, fmt);
      KeysExtend(Distinct(init, fmt), rf, fmt);
    }
  }

  lemma KeysExtend(ms: seq<RawField>, rf: RawField, fmt: real -> string)
    ensures ValueKeys(ms + [rf], fmt) == ValueKeys(ms, fmt) + {ValueKey(rf, fmt)}
  {
    hide ValueKey;
    var all := ms + [rf];
    forall k | k in ValueKeys(ms, fmt)
      ensures k in ValueKeys(all, fmt)
    {
      var i :| 0 <= i < |ms| && k == ValueKey(ms[i], fmt);
      assert all[i] == ms[i];
    }
    assert all[|ms|] == rf;
  }

  method DistinctValues(ms: seq<RawField>, fmt: real -> string) returns (distinct: seq<RawField>)
    ensures distinct == Distinct(ms, fmt)
  {
    hide ValueKey;
    distinct := [];
    var seen: set<string> := {};
    for i := 0 to |ms|
      invariant distinct == Distinct(ms[..i], fmt)
      invariant seen == ValueKeys(distinct, fmt)
    {
      assert ms[..i + 1][..i] == ms[..i];
      KeysExtend(distinct, ms[i], fmt);
      var key := ValueKey(ms[i], fmt);
      if key !in seen {
        seen, distinct := seen + {key}, distinct + [ms[i]];
      }
    }
    assert ms[..|ms|] == ms;
  }

  // ---------------------------------------------------------------------------------------------
  // Agreement

  function Numbers(ms: seq<RawField>): seq<real> {
    if ms == [] then [] else (if ms[0].valueNum.Some? then [ms[0].valueNum.value] else []) + Numbers(ms[1..])
  }

  predicate Agrees(x: real, pivot: real) {
    if pivot == 0.0 then Abs(x) < 0.000000001 else Abs(x - pivot) / Abs(pivot) <= TOLERANCE
  }

  predicate ValuesAgree(distinct: seq<RawField>) {
    var nums := Numbers(distinct);
    nums == [] || forall i :: 0 <= i < |nums| ==> Agrees(nums[i], nums[0])
  }

  lemma {:induction false} NumbersAre(ms: seq<RawField>)
    requires forall i :: 0 <= i < |ms| ==> ms[i].valueNum.Some?
    ensures |Numbers(ms)| == |ms| && forall i :: 0 <= i < |ms| ==> Numbers(ms)[i] == ms[i].valueNum.value
  {
    if ms != [] {
      NumbersAre(ms[1..]);
    }
  }

  // ---------------------------------------------------------------------------------------------
  // The best member

  /** Higher log-probability, or the same and a shorter raw value. */
  predicate Better(a: RawField, b: RawField) {
    var p, q := a.modelLogprob.GetOr(0.0), b.modelLogprob.GetOr(0.0);
    p > q || (p == q && |a.rawValue.GetOr("")| < |b.rawValue.GetOr("")|)
  }

  /** The first of a descending stable sort. */
  function Best(ms: seq<RawField>): RawField
    requires ms != []
  {
    if |ms| == 1 then ms[0]
    else
      var b := Best(ms[..|ms| - 1]);
      if Better(ms[|ms| - 1], b) then ms[|ms| - 1] else b
  }

  /** The best member: none is better, and those before it are worse. */
  lemma {:induction false} BestIsFirstMaximum(ms: seq<RawField>) returns (k: int)
    requires ms != []
    ensures FirstBest(ms, k) && ms[k] == Best(ms)
  {
    if |ms| == 1 {
      k := 0;
    } else {
      var last := |ms| - 1;
      k := BestIsFirstMaximum(ms[..last]);
      if Better(ms[last], Best(ms[..last])) {
        k := last;
      }
    }
  }

  // ---------------------------------------------------------------------------------------------
  // Emission

  predicate Filled(s: Option<string>) {
    s.Some? && s.value != ""
  }

  /** Python's `or` between texts. */
  function Or(s: Option<string>, default: string): string {
    if Filled(s) then s.value else default
  }

  /** The number of a raw field in the metric's unit, where the units are known and convertible. */
  function CanonicalValue(rf: RawField, metric: Metric, tools: Tools): Option<real> {
    var unit := tools.canonicalUnit(Or(rf.unit, metric.unit));
    var target := Or(tools.canonicalUnit(metric.unit), metric.unit);
    if rf.valueNum.Some? && Filled(unit) && target != "" then
      if unit.value == target then rf.valueNum else tools.convert(rf.valueNum.value, unit.value, target)
    else None
  }

  /** Nothing in the raw field makes building a field from it fail: its period text names dates, and
      its log-probability is one that the components model admits. */
  predicate Accepted(rf: RawField, tools: Tools) {
    && tools.parsePeriod(rf.periodText.GetOr("")).Success?
    && 0.0 <= rf.modelLogprob.GetOr(0.85) <= 1.0
  }

  function FieldOf(rf: RawField, metric: Metric, flagged: bool, tools: Tools): Extracted
    requires Accepted(rf, tools)
  {
    var unit := tools.canonicalUnit(Or(rf.unit, metric.unit));
    Extracted(rf, unit, CanonicalValue(rf, metric, tools), tools.parsePeriod(rf.periodText.GetOr("")).value,
              rf.modelLogprob.GetOr(0.85), if PassesConstraints(rf.valueNum, metric) then 1.0 else 0.0,
              if Filled(unit) then 1.0 else 0.4, if flagged then 0.6 else 1.0, flagged)
  }

  function ToField(rf: RawField, metric: Metric, flagged: bool, tools: Tools): Result<Extracted> {
    if Accepted(rf, tools) then Success(FieldOf(rf, metric, flagged, tools)) else Exception
  }

  predicate Conflicting(ms: seq<RawField>, fmt: real -> string) {
    |Distinct(ms, fmt)| >= 2 && !ValuesAgree(Distinct(ms, fmt))
  }

  /** The members of a group of a known metric that are kept: the first two distinct ones if values
      conflict, else the best. */
  function Chosen(ms: seq<RawField>, fmt: real -> string): seq<RawField>
    requires ms != []
  {
    if Conflicting(ms, fmt) then Distinct(ms, fmt)[..2] else [Best(ms)]
  }

  function Fields(rfs: seq<RawField>, metric: Metric, flagged: bool, tools: Tools): Result<seq<Extracted>> {
    if rfs == [] then Success([])
    else
      var before := Fields(rfs[..|rfs| - 1], metric, flagged, tools);
      var last := ToField(rfs[|rfs| - 1], metric, flagged, tools);
      if before.Success? && last.Success? then Success(before.value + [last.value]) else Exception
  }

  /** What one group yields. */
  function Emitted(ms: seq<RawField>, key: string, registry: map<string, Metric>, tools: Tools): Result<seq<Extracted>>
    requires ms != []
  {
    if key !in registry then Success([])
    else Fields(Chosen(ms, tools.fmt), registry[key], Conflicting(ms, tools.fmt), tools)
  }

  function Aggregated(raw: seq<RawField>, sigs: seq<Signature>, registry: map<string, Metric>,
                      tools: Tools): Result<seq<Extracted>>
    requires forall i :: 0 <= i < |sigs| ==> Members(raw, sigs[i]) != []
  {
    if sigs == [] then Success([])
    else
      var sig := sigs[|sigs| - 1];
      var before := Aggregated(raw, sigs[..|sigs| - 1], registry, tools);
      var more := Emitted(Members(raw, sig), sig.key, registry, tools);
      if before.Success? && more.Success? then Success(before.value + more.value) else Exception
  }

  lemma GroupsAreNotEmpty(raw: seq<RawField>)
    ensures forall i :: 0 <= i < |Signatures(raw)| ==> Members(raw, Signatures(raw)[i]) != []
  {
    forall i | 0 <= i < |Signatures(raw)|
      ensures Members(raw, Signatures(raw)[i]) != []
    {
      MembersAre(raw, Signatures(raw)[i]);
    }
  }

  method EmitGroup(members: seq<RawField>, key: string, registry: map<string, Metric>, tools: Tools)
      returns (out: Result<seq<Extracted>>)
    requires members != []
    ensures out == Emitted(members, key, registry, tools)
  {
    hide Distinct, ValuesAgree, Best, ToField;
    if key !in registry { return Success([]); }
    var metric := registry[key];
    var distinct := DistinctValues(members, tools.fmt);
    if |distinct| >= 2 && !ValuesAgree(distinct) {
      var first, second := ToField(distinct[0], metric, true, tools), ToField(distinct[1], metric, true, tools);
      FieldsOfTwo(distinct[0], distinct[1], metric, tools);
      assert distinct[..2] == [distinct[0], distinct[1]];
      return if first.Success? && second.Success? then Success([first.value, second.value]) else Exception;
    }
    var best := ToField(Best(members), metric, false, tools);
    FieldsOfOne(Best(members), metric, false, tools);
    return if best.Success? then Success([best.value]) else Exception;
  }

  lemma FieldsOfOne(rf: RawField, metric: Metric, flagged: bool, tools: Tools)
    ensures var f := ToField(rf, metric, flagged, tools);
            Fields([rf], metric, flagged, tools) == if f.Success? then Success([f.value]) else Exception
  {
    hide ToField;
    var f := ToField(rf, metric, flagged, tools);
    assert [rf][..0] == [];
    if f.Success? { assert [] + [f.value] == [f.value]; }
  }

  lemma FieldsOfTwo(a: RawField, b: RawField, metric: Metric, tools: Tools)
    ensures var f, g := ToField(a, metric, true, tools), ToField(b, metric, true, tools);
            Fields([a, b], metric, true, tools)
              == if f.Success? && g.Success? then Success([f.value, g.value]) else Exception
  {
    hide ToField;
    var f, g := ToField(a, metric, true, tools), ToField(b, metric, true, tools);
    FieldsOfOne(a, metric, true, tools);
    assert [a, b][..1] == [a];
    if f.Success? && g.Success? { assert [f.value] + [g.value] == [f.value, g.value]; }
  }

  /** Fails as soon as building a field does. */
  method NodeAggregator(raw: seq<RawField>, registry: map<string, Metric>, tools: Tools)
      returns (out: Result<seq<Extracted>>)
    ensures forall i :: 0 <= i < |Signatures(raw)| ==> Members(raw, Signatures(raw)[i]) != []
    ensures out == Aggregated(raw, Signatures(raw), registry, tools)
  {
    hide Emitted, Members, Signatures;
    GroupsAreNotEmpty(raw);
    var order, groups := GroupFields(raw);
    var extracted := [];
    for i := 0 to |order|
      invariant Aggregated(raw, order[..i], registry, tools) == Success(extracted)
    {
      assert order[..i + 1][..i] == order[..i];
      var sig := order[i];
      assert sig in order;
      var more := EmitGroup(groups[sig], sig.key, registry, tools);
      if more.Exception? {
        ExceptionStays(raw, order, registry, tools, i + 1);
        return Exception;
      }
      extracted := extracted + more.value;
    }
    assert order[..|order|] == order;
    return Success(extracted);
  }

  lemma {:induction false} ExceptionStays(raw: seq<RawField>, sigs: seq<Signature>, registry: map<string, Metric>,
                                          tools: Tools, i: nat)
    requires forall i :: 0 <= i < |sigs| ==> Members(raw, sigs[i]) != []
    requires i <= |sigs| && Aggregated(raw, sigs[..i], registry, tools).Exception?
    ensures Aggregated(raw, sigs, registry, tools).Exception?
  {
    hide Emitted, Members;
    if i == |sigs| {
      assert sigs[..i] == sigs;
    } else {
      assert sigs[..|sigs| - 1][..i] == sigs[..i];
      ExceptionStays(raw, sigs[..|sigs| - 1], registry, tools, i);
    }
  }

  /** Index `k` holds the best member: none is better, and those before it are worse. */
  ghost predicate FirstBest(ms: seq<RawField>, k: int) {
    && 0 <= k < |ms|
    && (forall i :: 0 <= i < |ms| ==> !Better(ms[i], ms[k]))
    && (forall i :: 0 <= i < k ==> Better(ms[k], ms[i]))
  }

  /** Index `k` holds the first member whose value differs from that of the first member. */
  ghost predicate FirstOther(ms: seq<RawField>, k: int, fmt: real -> string) {
    && 0 < k < |ms|
    && ValueKey(ms[k], fmt) != ValueKey(ms[0], fmt)
    && (forall i :: 0 <= i < k ==> ValueKey(ms[i], fmt) == ValueKey(ms[0], fmt))
  }

  lemma {:induction false} SecondDistinct(ms: seq<RawField>, fmt: real -> string) returns (k: int)
    requires |Distinct(ms, fmt)| >= 2
    ensures FirstOther(ms, k, fmt) && ms[k] == Distinct(ms, fmt)[1]
  {
    hide ValueKey;
    var n := |ms| - 1;
    var init := ms[..n];
    DistinctAre(init, fmt);
    if |Distinct(init, fmt)| >= 2 {
      k := SecondDistinct(init, fmt);
    } else {
      k := n;
      DistinctAre(ms, fmt);
      forall i | 0 <= i < n
        ensures ValueKey(ms[i], fmt) == ValueKey(ms[0], fmt)
      {
        KeyIsThere(init, init[i], fmt);
        assert Distinct(init, fmt) == [init[0]];
      }
    }
  }

  /** What a group keeps: its first best member, or, exactly when its distinct values disagree, its
      first member and the first that differs. */
  lemma ChosenAre(ms: seq<RawField>, fmt: real -> string)
    requires ms != []
    ensures var chosen := Chosen(ms, fmt);
            && (forall rf :: rf in chosen ==> rf in ms)
            && |chosen| == (if Conflicting(ms, fmt) then 2 else 1)
            && (|chosen| == 1 ==> exists k :: FirstBest(ms, k) && chosen[0] == ms[k])
            && (|chosen| == 2 ==> chosen[0] == ms[0] && exists k :: FirstOther(ms, k, fmt) && chosen[1] == ms[k])
  {
    hide Distinct, ValuesAgree, ValueKey, Better, Best;
    DistinctAre(ms, fmt);
    var k := BestIsFirstMaximum(ms);
    assert FirstBest(ms, k);
    if Conflicting(ms, fmt) {
      var j := SecondDistinct(ms, fmt);
    }
  }

  lemma {:induction false} FieldsAre(rfs: seq<RawField>, metric: Metric, flagged: bool, tools: Tools)
    ensures var out := Fields(rfs, metric, flagged, tools);
            && (out.Success? <==> forall rf :: rf in rfs ==> Accepted(rf, tools))
            && (out.Success? ==> |out.value| == |rfs|)
            && (out.Success? ==> forall i :: 0 <= i < |rfs| ==> out.value[i] == FieldOf(rfs[i], metric, flagged, tools))
  {
    hide Accepted, FieldOf;
    if rfs != [] {
      var init, last := rfs[..|rfs| - 1], rfs[|rfs| - 1];
      FieldsAre(init, metric, flagged, tools);
      assert rfs == init + [last];
      assert last in rfs && forall rf :: rf in rfs <==> rf in init || rf == last;
    }
  }

  /** A group of a known metric yields one field for each member kept, flagged for review exactly on
      conflict, and fails exactly if one of those is not accepted; any other group yields nothing. */
  lemma EmissionOfGroup(ms: seq<RawField>, key: string, registry: map<string, Metric>, tools: Tools)
    requires ms != []
    ensures var out, chosen := Emitted(ms, key, registry, tools), Chosen(ms, tools.fmt);
            && (key !in registry ==> out == Success([]))
            && (key in registry ==> (out.Success? <==> forall rf :: rf in chosen ==> Accepted(rf, tools)))
            && (key in registry && out.Success? ==> |out.value| == |chosen|)
            && (key in registry && out.Success? ==>
                forall i :: 0 <= i < |chosen| ==>
                  out.value[i].source == chosen[i] && (out.value[i].needsReview <==> Conflicting(ms, tools.fmt)))
  {
    hide Chosen, Conflicting, Accepted, Fields, PassesConstraints, CanonicalValue;
    if key in registry {
      FieldsAre(Chosen(ms, tools.fmt), registry[key], Conflicting(ms, tools.fmt), tools);
    }
  }

  /** The marks of an emitted field: full cross-validation exactly for a number within the metric's
      range, full cross-source agreement exactly without a conflict, and full schema validation
      exactly for a known unit, given or the metric's own; only then a canonical value. Without a
      log-probability it is 0.85. The period is what the period text names. */
  lemma MarksOfEmission(ms: seq<RawField>, key: string, registry: map<string, Metric>, tools: Tools, e: Extracted)
    requires ms != [] && Emitted(ms, key, registry, tools).Success? && e in Emitted(ms, key, registry, tools).value
    ensures key in registry
    ensures var v, m := e.source.valueNum, registry[key];
            && (e.crossValidation == 1.0 <==>
                v.Some? && !(m.min.Some? && v.value < m.min.value) && !(m.max.Some? && v.value > m.max.value))
            && (e.schemaValidation == 1.0 <==>
                exists u :: tools.canonicalUnit(Or(e.source.unit, m.unit)) == Some(u) && u != "")
            && (e.valueCanonical.Some? ==> v.Some? && e.schemaValidation == 1.0)
    ensures e.crossSource == 1.0 <==> !Conflicting(ms, tools.fmt)
    ensures e.crossValidation in {0.0, 1.0} && e.crossSource in {0.6, 1.0} && e.schemaValidation in {0.4, 1.0}
    ensures 0.0 <= e.modelLogprob <= 1.0
    ensures e.modelLogprob == if e.source.modelLogprob == None then 0.85 else e.source.modelLogprob.value
    ensures tools.parsePeriod(if e.source.periodText == None then "" else e.source.periodText.value)
         == Success(e.period)
  {
    hide Chosen, Conflicting, Fields, Or;
    var chosen := Chosen(ms, tools.fmt);
    FieldsAre(chosen, registry[key], Conflicting(ms, tools.fmt), tools);
    assert forall i :: 0 <= i < |chosen| ==> chosen[i] in chosen;
    var i :| 0 <= i < |chosen| && e == FieldOf(chosen[i], registry[key], Conflicting(ms, tools.fmt), tools);
  }

  function KnownGroups(sigs: seq<Signature>, registry: map<string, Metric>): nat {
    if sigs == [] then 0
    else KnownGroups(sigs[..|sigs| - 1], registry) + if sigs[|sigs| - 1].key in registry then 1 else 0
  }

  function Conflicts(raw: seq<RawField>, sigs: seq<Signature>, registry: map<string, Metric>,
                     fmt: real -> string): nat {
    if sigs == [] then 0
    else
      var sig := sigs[|sigs| - 1];
      Conflicts(raw, sigs[..|sigs| - 1], registry, fmt)
        + if sig.key in registry && Conflicting(Members(raw, sig), fmt) then 1 else 0
  }

  /** The number of extracted fields: one for each group of a known metric, one more for each
      conflict among them. */
  lemma {:induction false} ExtractedCount(raw: seq<RawField>, sigs: seq<Signature>, registry: map<string, Metric>,
                                          tools: Tools)
    requires forall i :: 0 <= i < |sigs| ==> Members(raw, sigs[i]) != []
    requires Aggregated(raw, sigs, registry, tools).Success?
    ensures |Aggregated(raw, sigs, registry, tools).value|
         == KnownGroups(sigs, registry) + Conflicts(raw, sigs, registry, tools.fmt)
  {
    hide Conflicting, Members, Emitted, Chosen, Accepted;
    if sigs != [] {
      var init, sig := sigs[..|sigs| - 1], sigs[|sigs| - 1];
      ExtractedCount(raw, init, registry, tools);
      EmissionOfGroup(Members(raw, sig), sig.key, registry, tools);
      ChosenAre(Members(raw, sig), tools.fmt);
    }
  }

  /** The field comes out of the group of its own signature. */
  ghost predicate FromItsGroup(raw: seq<RawField>, registry: map<string, Metric>, tools: Tools, e: Extracted) {
    var ms, key := Members(raw, SignatureOf(e.source)), SignatureOf(e.source).key;
    && e.source in ms && key in registry
    && (var out := Emitted(ms, key, registry, tools); out.Success? && e in out.value)
    && (e.needsReview <==> Conflicting(ms, tools.fmt))
    && e.source in Chosen(ms, tools.fmt)
  }

  lemma EmittedFromItsGroup(raw: seq<RawField>, sig: Signature, registry: map<string, Metric>, tools: Tools,
                            e: Extracted)
    requires Members(raw, sig) != [] && Emitted(Members(raw, sig), sig.key, registry, tools).Success?
    requires e in Emitted(Members(raw, sig), sig.key, registry, tools).value
    ensures FromItsGroup(raw, registry, tools, e)
  {
    hide Chosen, Conflicting, Emitted, Members, Accepted;
    var ms := Members(raw, sig);
    EmissionOfGroup(ms, sig.key, registry, tools);
    ChosenAre(ms, tools.fmt);
    MembersAre(raw, sig);
    assert e.source in ms;
  }

  /** Every field of a run of the node comes out of the group of its own signature, and the run fails
      exactly if some member kept in a group of a known metric is not accepted. */
  lemma {:induction false} AggregationIsByGroup(raw: seq<RawField>, sigs: seq<Signature>,
                                                registry: map<string, Metric>, tools: Tools)
    requires forall i :: 0 <= i < |sigs| ==> Members(raw, sigs[i]) != []
    ensures var out := Aggregated(raw, sigs, registry, tools);
            && (out.Success? ==> forall e :: e in out.value ==> FromItsGroup(raw, registry, tools, e))
            && (out.Success? <==>
                forall i, rf ::
                  0 <= i < |sigs| && sigs[i].key in registry && rf in Chosen(Members(raw, sigs[i]), tools.fmt)
                  ==> Accepted(rf, tools))
  {
    hide Chosen, Conflicting, Emitted, Members, Accepted, FromItsGroup;
    if sigs != [] {
      var init, sig := sigs[..|sigs| - 1], sigs[|sigs| - 1];
      AggregationIsByGroup(raw, init, registry, tools);
      var more := Emitted(Members(raw, sig), sig.key, registry, tools);
      EmissionOfGroup(Members(raw, sig), sig.key, registry, tools);
      if more.Success? {
        forall e | e in more.value
          ensures FromItsGroup(raw, registry, tools, e)
        {
          EmittedFromItsGroup(raw, sig, registry, tools, e);
        }
      }
      assert forall i :: 0 <= i < |init| ==> init[i] == sigs[i];
    }
  }

  // ---------------------------------------------------------------------------------------------
  // The error of choosing one value

  lemma {:induction false} BarSplits(a: string, b: string, x: string, y: string)
    requires '|' !in a && '|' !in b && a + "|" + x == b + "|" + y
    ensures a == b
  {
    var s, t := a + "|" + x, b + "|" + y;
    assert s[0] == if a == "" then '|' else a[0];
    assert t[0] == if b == "" then '|' else b[0];
    if a != "" && b != "" {
      assert s[1..] == a[1..] + "|" + x && t[1..] == b[1..] + "|" + y;
      BarSplits(a[1..], b[1..], x, y);
    }
  }

  /** Members with one value key have numbers within the slack of rounding. */
  lemma SameKeySameNumber(a: RawField, b: RawField, fmt: real -> string)
    requires Prints(fmt) && a.valueNum.Some? && b.valueNum.Some? && ValueKey(a, fmt) == ValueKey(b, fmt)
    ensures Abs(a.valueNum.value - b.valueNum.value) <= 0.0001
  {
    hide Round4;
    var x, y := a.valueNum.value, b.valueNum.value;
    BarSplits(fmt(Round4(x)), fmt(Round4(y)), a.unit.GetOr(""), b.unit.GetOr(""));
    Round4Error(x);
    Round4Error(y);
  }

  lemma AgreementBound(x: real, pivot: real)
    requires Agrees(x, pivot)
    ensures Abs(x - pivot) <= TOLERANCE * Abs(pivot) + 0.000000001
  {
    if pivot != 0.0 {
      var q := Abs(x - pivot) / Abs(pivot);
      Quotient(Abs(x - pivot), Abs(pivot));
      Grows(q, TOLERANCE, Abs(pivot));
    }
  }

  /** In a group without conflict whose members all carry numbers, every member, hence the one
      chosen, is within two per cent of the first, give or take the slack of rounding. */
  lemma AgreeingGroupsAreClose(ms: seq<RawField>, fmt: real -> string, m: RawField)
    requires Prints(fmt) && ms != [] && !Conflicting(ms, fmt) && m in ms
    requires forall i :: 0 <= i < |ms| ==> ms[i].valueNum.Some?
    ensures var pivot := ms[0].valueNum.value;
            Abs(m.valueNum.value - pivot) <= TOLERANCE * Abs(pivot) + 0.000000001 + 0.0001
  {
    hide Prints, ValueKey, Agrees, Distinct;
    var d := Distinct(ms, fmt);
    var pivot := ms[0].valueNum.value;
    DistinctAre(ms, fmt);
    forall i | 0 <= i < |d|
      ensures d[i].valueNum.Some?
    {
      assert d[i] in ms;
    }
    NumbersAre(d);
    KeyIsThere(ms, m, fmt);
    var i :| 0 <= i < |d| && ValueKey(d[i], fmt) == ValueKey(m, fmt);
    SameKeySameNumber(m, d[i], fmt);
    if |d| >= 2 {
      assert Agrees(Numbers(d)[i], Numbers(d)[0]);
      AgreementBound(d[i].valueNum.value, pivot);
    }
  }

  lemma KeyIsThere(ms: seq<RawField>, m: RawField, fmt: real -> string)
    requires m in ms
    ensures ValueKey(m, fmt) in ValueKeys(ms, fmt)
  {
    var i :| 0 <= i < |ms| && ms[i] == m;
  }

  /** Every field that the node emits unflagged, from a group whose members all carry numbers, is
      within two per cent of the first member of its group, give or take the slack of rounding. */
  lemma UnflaggedFieldsAreClose(raw: seq<RawField>, registry: map<string, Metric>, tools: Tools, e: Extracted)
    requires Prints(tools.fmt)
    requires forall i :: 0 <= i < |Signatures(raw)| ==> Members(raw, Signatures(raw)[i]) != []
    requires var out := Aggregated(raw, Signatures(raw), registry, tools);
             out.Success? && e in out.value && !e.needsReview
    requires forall rf :: rf in Members(raw, SignatureOf(e.source)) ==> rf.valueNum.Some?
    ensures var ms := Members(raw, SignatureOf(e.source));
            && e.source in ms
            && var pivot := ms[0].valueNum.value;
            Abs(e.source.valueNum.value - pivot) <= TOLERANCE * Abs(pivot) + 0.000000001 + 0.0001
  {
    hide Chosen, Conflicting, Aggregated, Members, Signatures, Prints;
    AggregationIsByGroup(raw, Signatures(raw), registry, tools);
    assert FromItsGroup(raw, registry, tools, e);
    AgreeingGroupsAreClose(Members(raw, SignatureOf(e.source)), tools.fmt, e.source);
  }

  // ---------------------------------------------------------------------------------------------
  // When values conflict

  /** Index `k` holds the first member with its value key. */
  ghost predicate FirstOfKey(ms: seq<RawField>, k: int, fmt: real -> string) {
    0 <= k < |ms| && forall i :: 0 <= i < k ==> ValueKey(ms[i], fmt) != ValueKey(ms[k], fmt)
  }

  /** Index `p` holds the number the others are measured by: the first among the firsts. */
  ghost predicate Pivot(ms: seq<RawField>, p: int, fmt: real -> string) {
    && FirstOfKey(ms, p, fmt) && ms[p].valueNum.Some?
    && forall i :: FirstOfKey(ms, i, fmt) && i < p ==> ms[i].valueNum == None
  }

  lemma {:induction false} NumbersSnoc(ms: seq<RawField>, rf: RawField)
    ensures Numbers(ms + [rf]) == Numbers(ms) + if rf.valueNum.Some? then [rf.valueNum.value] else []
  {
    if ms == [] {
      assert [] + [rf] == [rf] && [rf][1..] == [];
    } else {
      NumbersSnoc(ms[1..], rf);
      assert (ms + [rf])[1..] == ms[1..] + [rf];
    }
  }

  lemma FirstOfKeyExtends(ms: seq<RawField>, rf: RawField, fmt: real -> string)
    ensures forall k :: 0 <= k < |ms| ==> (FirstOfKey(ms + [rf], k, fmt) <==> FirstOfKey(ms, k, fmt))
    ensures FirstOfKey(ms + [rf], |ms|, fmt) <==> ValueKey(rf, fmt) !in ValueKeys(ms, fmt)
  {
    hide ValueKey;
    assert forall i :: 0 <= i < |ms| ==> (ms + [rf])[i] == ms[i];
    assert (ms + [rf])[|ms|] == rf;
  }

  /** The distinct numbers are those of the firsts. */
  lemma {:induction false} DistinctNumbersAre(ms: seq<RawField>, fmt: real -> string)
    ensures forall k :: FirstOfKey(ms, k, fmt) && ms[k].valueNum.Some? ==>
              ms[k].valueNum.value in Numbers(Distinct(ms, fmt))
    ensures forall x :: x in Numbers(Distinct(ms, fmt)) ==>
              exists k :: FirstOfKey(ms, k, fmt) && ms[k].valueNum == Some(x)
  {
    hide ValueKey, FirstOfKey, Numbers;
    FirstsAreIndices(ms, fmt);
    if ms == [] {
      NoFirsts(ms, fmt);
    } else {
      var n := |ms| - 1;
      var init, rf := ms[..n], ms[n];
      assert ms == init + [rf];
      DistinctNumbersAre(init, fmt);
      DistinctAre(init, fmt);
      NumbersSnoc(Distinct(init, fmt), rf);
      FirstOfKeyExtends(init, rf, fmt);
      FirstsAreIndices(init, fmt);
    }
  }

  /** The first of the distinct numbers is the pivot's. */
  lemma {:induction false} PivotComesFirst(ms: seq<RawField>, fmt: real -> string)
    ensures Numbers(Distinct(ms, fmt)) != [] ==>
              exists p :: Pivot(ms, p, fmt) && ms[p].valueNum == Some(Numbers(Distinct(ms, fmt))[0])
  {
    hide ValueKey, FirstOfKey, Numbers;
    FirstsAreIndices(ms, fmt);
    if ms == [] {
      NoFirsts(ms, fmt);
    } else {
      var n := |ms| - 1;
      var init, rf := ms[..n], ms[n];
      assert ms == init + [rf];
      PivotComesFirst(init, fmt);
      DistinctNumbersAre(init, fmt);
      DistinctAre(init, fmt);
      NumbersSnoc(Distinct(init, fmt), rf);
      FirstOfKeyExtends(init, rf, fmt);
      FirstsAreIndices(init, fmt);
      if Numbers(Distinct(init, fmt)) != [] {
        var p :| Pivot(init, p, fmt) && init[p].valueNum == Some(Numbers(Distinct(init, fmt))[0]);
        assert Pivot(ms, p, fmt);
      } else if Numbers(Distinct(ms, fmt)) != [] {
        assert Pivot(ms, n, fmt);
      }
    }
  }

  lemma NoFirsts(ms: seq<RawField>, fmt: real -> string)
    requires ms == []
    ensures Numbers(Distinct(ms, fmt)) == [] && forall k :: !FirstOfKey(ms, k, fmt)
  {
  }

  lemma FirstsAreIndices(ms: seq<RawField>, fmt: real -> string)
    ensures forall k :: FirstOfKey(ms, k, fmt) ==> 0 <= k < |ms|
  {
  }

  lemma AgreesWithItself(x: real)
    ensures Agrees(x, x)
  {
    if x != 0.0 {
      assert Abs(x - x) / Abs(x) == 0.0;
    }
  }

  /** The number of the first of its key at index `k` disagrees with the pivot, at index `p`. */
  ghost predicate Disagree(ms: seq<RawField>, p: int, k: int, fmt: real -> string) {
    Pivot(ms, p, fmt) && FirstOfKey(ms, k, fmt) && ms[k].valueNum.Some?
      && !Agrees(ms[k].valueNum.value, ms[p].valueNum.value)
  }

  lemma PivotIsUnique(ms: seq<RawField>, p: int, q: int, fmt: real -> string)
    requires Pivot(ms, p, fmt) && Pivot(ms, q, fmt)
    ensures p == q
  {
    hide FirstOfKey;
  }

  lemma ConflictHasWitness(ms: seq<RawField>, fmt: real -> string)
    requires Conflicting(ms, fmt)
    ensures exists p, k :: Disagree(ms, p, k, fmt)
  {
    hide ValueKey, FirstOfKey, Numbers, Agrees, Distinct;
    var nums := Numbers(Distinct(ms, fmt));
    PivotComesFirst(ms, fmt);
    DistinctNumbersAre(ms, fmt);
    FirstsAreIndices(ms, fmt);
    var p :| Pivot(ms, p, fmt) && ms[p].valueNum == Some(nums[0]);
    var i :| 0 <= i < |nums| && !Agrees(nums[i], nums[0]);
    assert nums[i] in nums;
    var k :| FirstOfKey(ms, k, fmt) && ms[k].valueNum == Some(nums[i]);
    assert Disagree(ms, p, k, fmt);
  }

  lemma WitnessIsConflict(ms: seq<RawField>, p: int, k: int, fmt: real -> string)
    requires Disagree(ms, p, k, fmt)
    ensures Conflicting(ms, fmt)
  {
    hide ValueKey, FirstOfKey, Numbers, Agrees, Distinct;
    var nums := Numbers(Distinct(ms, fmt));
    PivotComesFirst(ms, fmt);
    DistinctNumbersAre(ms, fmt);
    FirstsAreIndices(ms, fmt);
    var q :| Pivot(ms, q, fmt) && ms[q].valueNum == Some(nums[0]);
    PivotIsUnique(ms, p, q, fmt);
    AgreesWithItself(nums[0]);
    FewNumbers(Distinct(ms, fmt));
    var i :| 0 <= i < |nums| && nums[i] == ms[k].valueNum.value;
  }

  /** A group conflicts exactly when the number of some first of its value key disagrees with the
      pivot. Units enter only by way of the keys: of members with one number and one unit, only the
      first is looked at. */
  lemma ConflictExactly(ms: seq<RawField>, fmt: real -> string)
    ensures Conflicting(ms, fmt) <==> exists p, k :: Disagree(ms, p, k, fmt)
  {
    hide Conflicting, Disagree;
    if Conflicting(ms, fmt) {
      ConflictHasWitness(ms, fmt);
    }
    if p, k :| Disagree(ms, p, k, fmt) {
      WitnessIsConflict(ms, p, k, fmt);
    }
  }

  lemma FewNumbers(ms: seq<RawField>)
    ensures |ms| < 2 ==> |Numbers(ms)| < 2
  {
    if |ms| == 1 {
      assert Numbers(ms[1..]) == [];
    }
  }

  lemma FarApart()
    ensures !Agrees(1.0, 1000.0)
  {
  }

  /** One number in whatever units is no conflict. */
  lemma EqualNumbersAgree(ms: seq<RawField>, v: real, fmt: real -> string)
    requires forall i :: 0 <= i < |ms| ==> ms[i].valueNum == Some(v)
    ensures !Conflicting(ms, fmt)
  {
    hide ValueKey, Agrees, Distinct;
    ConflictExactly(ms, fmt);
    FirstsAreIndices(ms, fmt);
    AgreesWithItself(v);
  }

  /** A reported electricity figure. */
  function Figure(v: real, unit: string): RawField {
    RawField(Some("electricity"), None, "{}", Some(v), None, Some(unit), Some(0.9))
  }

  /** Five kWh and five MWh, a thousand times as much, are no conflict; a thousand kWh and one MWh, the
      same amount, are. */
  lemma UnitsAreIgnored(fmt: real -> string)
    requires Prints(fmt)
    ensures !Conflicting([Figure(5.0, "kWh"), Figure(5.0, "MWh")], fmt)
    ensures Conflicting([Figure(1000.0, "kWh"), Figure(1.0, "MWh")], fmt)
  {
    hide Agrees, Distinct, ValueKey, Prints, Conflicting;
    EqualNumbersAgree([Figure(5.0, "kWh"), Figure(5.0, "MWh")], 5.0, fmt);
    var ms := [Figure(1000.0, "kWh"), Figure(1.0, "MWh")];
    DifferentNumbersDiffer(ms[0], ms[1], fmt);
    assert FirstOfKey(ms, 0, fmt) && FirstOfKey(ms, 1, fmt);
    FarApart();
    assert Disagree(ms, 0, 1, fmt);
    ConflictExactly(ms, fmt);
  }

  lemma DifferentNumbersDiffer(a: RawField, b: RawField, fmt: real -> string)
    requires Prints(fmt) && a.valueNum.Some? && b.valueNum.Some? && Abs(a.valueNum.value - b.valueNum.value) > 0.0001
    ensures ValueKey(a, fmt) != ValueKey(b, fmt)
  {
    hide ValueKey, Prints;
    if ValueKey(a, fmt) == ValueKey(b, fmt) {
      SameKeySameNumber(a, b, fmt);
    }
  }
}
