/** The crosswalk: from canonical keys to the framework disclosures they satisfy, built by
    inverting disclosure lists and merging a golden table. */
module Crosswalk {
  import opened UniqueLists
  import opened ObjectKeys

  datatype Framework = BRSR | GRI | SASB | TCFD | IFRS_S1 | IFRS_S2 | CSRD_ESRS | CDP

  datatype Disclosure = Disclosure(sectionId: string, keys: seq<string>)

  datatype GoldenLine = GoldenLine(framework: Framework, ids: seq<string>)

  /** An entry of the golden table: the ids it lists for a key, framework by framework. */
  datatype Golden = Golden(key: string, lines: seq<GoldenLine>)

  /** The object of a key: a list for each framework, frameworks in the order they were first set. */
  datatype Entry = Entry(order: seq<Framework>, lists: map<Framework, seq<string>>) {
    function Get(framework: Framework): seq<string> {
      if framework in lists then lists[framework] else []
    }

    function Set(framework: Framework, ids: seq<string>): Entry {
      Entry(if framework in lists then order else order + [framework], lists[framework := ids])
    }

    predicate Valid() {
      NoDuplicates(order) && forall f :: f in order <==> f in lists
    }
  }

  const NO_LISTS := Entry([], map[])

  /** A `Map` in insertion order. */
  datatype Table = Table(order: seq<string>, entries: map<string, Entry>) {
    function Ids(key: string, framework: Framework): seq<string> {
      if key in entries then entries[key].Get(framework) else []
    }

    function Frameworks(key: string): seq<Framework> {
      if key in entries then entries[key].order else []
    }

    ghost predicate Valid() {
      && NoDuplicates(order)
      && (forall k :: k in order <==> k in entries)
      && (forall k :: k in entries ==> entries[k].Valid())
      && forall k, f :: NoDuplicates(Ids(k, f))
    }
  }

  const EMPTY := Table([], map[])

  /** What one build does to the map, step by step: making sure of a key, or merging ids into the
      list of a key and framework. */
  datatype Step = Touch(key: string) | Merge(key: string, framework: Framework, ids: seq<string>)

  const FRAMEWORKS := [BRSR, GRI, SASB, TCFD, IFRS_S1, IFRS_S2, CSRD_ESRS, CDP]

  // ---------------------------------------------------------------------------------------------
  // Steps

  function Touched(t: Table, key: string): Table {
    if key in t.entries then t else Table(t.order + [key], t.entries[key := NO_LISTS])
  }

  function Apply(t: Table, s: Step): Table {
    var u := Touched(t, s.key);
    match s
    case Touch(_) => u
    case Merge(key, framework, ids) =>
      u.(entries := u.entries[key := u.entries[key].Set(framework, Dedupe(t.Ids(key, framework) + ids))])
  }

  function Run(t: Table, steps: seq<Step>): Table {
    if steps == [] then t else Apply(Run(t, steps[..|steps| - 1]), steps[|steps| - 1])
  }

  lemma {:induction false} RunSplits(t: Table, a: seq<Step>, b: seq<Step>)
    ensures Run(t, a + b) == Run(Run(t, a), b)
  {
    hide Apply;
    if b == [] {
      assert a + b == a;
    } else {
      RunSplits(t, a, b[..|b| - 1]);
      assert (a + b)[..|a + b| - 1] == a + b[..|b| - 1];
    }
  }

  lemma RunOne(t: Table, s: Step)
    ensures Run(t, [s]) == Apply(t, s)
  {
    assert [s][..0] == [];
  }

  /** The ids a step merges into one list. */
  function IdsOfStep(s: Step, key: string, framework: Framework): seq<string> {
    if s.Merge? && s.key == key && s.framework == framework then s.ids else []
  }

  /** The ids that steps merge into one list, in order. */
  function IdsIn(steps: seq<Step>, key: string, framework: Framework): seq<string> {
    if steps == [] then []
    else IdsIn(steps[..|steps| - 1], key, framework) + IdsOfStep(steps[|steps| - 1], key, framework)
  }

  /** The frameworks that steps set in the object of a key, in order. */
  function FrameworksIn(steps: seq<Step>, key: string): seq<Framework> {
    if steps == [] then []
    else
      var s := steps[|steps| - 1];
      FrameworksIn(steps[..|steps| - 1], key) + if s.Merge? && s.key == key then [s.framework] else []
  }

  function KeysIn(steps: seq<Step>): seq<string> {
    if steps == [] then [] else KeysIn(steps[..|steps| - 1]) + [steps[|steps| - 1].key]
  }

  lemma {:induction false} IdsInSplits(a: seq<Step>, b: seq<Step>, key: string, framework: Framework)
    ensures IdsIn(a + b, key, framework) == IdsIn(a, key, framework) + IdsIn(b, key, framework)
  {
    hide IdsOfStep;
    if b == [] {
      assert a + b == a;
    } else {
      IdsInSplits(a, b[..|b| - 1], key, framework);
      assert (a + b)[..|a + b| - 1] == a + b[..|b| - 1];
    }
  }

  lemma {:induction false} FrameworksInSplits(a: seq<Step>, b: seq<Step>, key: string)
    ensures FrameworksIn(a + b, key) == FrameworksIn(a, key) + FrameworksIn(b, key)
  {
    if b == [] {
      assert a + b == a;
    } else {
      FrameworksInSplits(a, b[..|b| - 1], key);
      assert (a + b)[..|a + b| - 1] == a + b[..|b| - 1];
    }
  }

  lemma {:induction false} KeysInSplits(a: seq<Step>, b: seq<Step>)
    ensures KeysIn(a + b) == KeysIn(a) + KeysIn(b)
  {
    if b == [] {
      assert a + b == a;
    } else {
      KeysInSplits(a, b[..|b| - 1]);
      assert (a + b)[..|a + b| - 1] == a + b[..|b| - 1];
    }
  }

  /** What one step does to one list. */
  lemma ApplyIds(t: Table, s: Step, k: string, f: Framework)
    requires NoDuplicates(t.Ids(k, f))
    ensures Apply(t, s).Ids(k, f) == Dedupe(t.Ids(k, f) + IdsOfStep(s, k, f))
    ensures NoDuplicates(Apply(t, s).Ids(k, f))
  {
    hide Dedupe, NoDuplicates;
    DedupeFacts(t.Ids(k, f) + IdsOfStep(s, k, f));
    if !(s.Merge? && s.key == k && s.framework == f) {
      DedupeKeeps(t.Ids(k, f));
      assert IdsOfStep(s, k, f) == [] && t.Ids(k, f) + [] == t.Ids(k, f);
    }
  }

  /** What one step does to the order of a key's frameworks. */
  lemma ApplyFrameworks(t: Table, s: Step, k: string)
    requires k in t.entries ==> t.entries[k].Valid()
    ensures k in Apply(t, s).entries ==> Apply(t, s).entries[k].Valid()
    ensures Apply(t, s).Frameworks(k) == Dedupe(t.Frameworks(k) + if s.Merge? && s.key == k then [s.framework] else [])
  {
    hide Dedupe;
    DedupeNothing<Framework>();
    DedupeKeeps(t.Frameworks(k));
    assert t.Frameworks(k) + [] == t.Frameworks(k);
    if s.Merge? && s.key == k {
      DedupeSnoc(t.Frameworks(k), s.framework);
    }
  }

  /** What one step does to the keys. */
  lemma ApplyOrder(t: Table, s: Step)
    requires forall k :: k in t.order <==> k in t.entries
    ensures Apply(t, s).order == if s.key in t.order then t.order else t.order + [s.key]
    ensures forall k :: k in Apply(t, s).order <==> k in Apply(t, s).entries
  {
    hide Dedupe;
  }

  lemma ApplyKeepsValid(t: Table, s: Step)
    requires t.Valid()
    ensures Apply(t, s).Valid()
  {
    hide Apply, Dedupe;
    ApplyOrder(t, s);
    forall k, f
      ensures NoDuplicates(Apply(t, s).Ids(k, f))
    {
      ApplyIds(t, s, k, f);
    }
    forall k | k in Apply(t, s).entries
      ensures Apply(t, s).entries[k].Valid()
    {
      ApplyFrameworks(t, s, k);
    }
  }

  lemma {:induction false} RunIds(steps: seq<Step>, k: string, f: Framework)
    ensures Run(EMPTY, steps).Ids(k, f) == Dedupe(IdsIn(steps, k, f))
    ensures NoDuplicates(Run(EMPTY, steps).Ids(k, f))
  {
    hide Apply, IdsOfStep, NoDuplicates, Dedupe;
    if steps == [] {
      DedupeNothing<string>();
    } else {
      var init, s := steps[..|steps| - 1], steps[|steps| - 1];
      RunIds(init, k, f);
      ApplyIds(Run(EMPTY, init), s, k, f);
      DedupeTwice(IdsIn(init, k, f), IdsOfStep(s, k, f));
    }
  }

  lemma {:induction false} RunOrder(steps: seq<Step>)
    ensures Run(EMPTY, steps).order == Dedupe(KeysIn(steps))
    ensures forall k :: k in Run(EMPTY, steps).order <==> k in Run(EMPTY, steps).entries
  {
    hide Apply, Dedupe;
    if steps == [] {
      DedupeNothing<string>();
    } else {
      var init, s := steps[..|steps| - 1], steps[|steps| - 1];
      RunOrder(init);
      ApplyOrder(Run(EMPTY, init), s);
      DedupeSnoc(KeysIn(init), s.key);
    }
  }

  lemma {:induction false} RunFrameworks(steps: seq<Step>, k: string)
    ensures Run(EMPTY, steps).Frameworks(k) == Dedupe(FrameworksIn(steps, k))
    ensures k in Run(EMPTY, steps).entries ==> Run(EMPTY, steps).entries[k].Valid()
  {
    hide Apply, Dedupe, Entry.Valid;
    DedupeNothing<Framework>();
    if steps != [] {
      var init, s := steps[..|steps| - 1], steps[|steps| - 1];
      RunFrameworks(init, k);
      ApplyFrameworks(Run(EMPTY, init), s, k);
      DedupeTwice(FrameworksIn(init, k), if s.Merge? && s.key == k then [s.framework] else []);
    }
  }

  /** The map after a run: each list holds the ids merged into it, without duplicates and in order
      of first appearance, and the keys, and the frameworks of each key, stand in the order they
      were first met. */
  lemma RunCollects(steps: seq<Step>)
    ensures Run(EMPTY, steps).Valid()
    ensures Run(EMPTY, steps).order == Dedupe(KeysIn(steps))
    ensures forall k :: Run(EMPTY, steps).Frameworks(k) == Dedupe(FrameworksIn(steps, k))
    ensures forall k, f :: Run(EMPTY, steps).Ids(k, f) == Dedupe(IdsIn(steps, k, f))
  {
    hide Run, Dedupe, KeysIn, IdsIn, FrameworksIn, Entry.Valid;
    RunOrder(steps);
    DedupeFacts(KeysIn(steps));
    forall k
      ensures Run(EMPTY, steps).Frameworks(k) == Dedupe(FrameworksIn(steps, k))
      ensures k in Run(EMPTY, steps).entries ==> Run(EMPTY, steps).entries[k].Valid()
    {
      RunFrameworks(steps, k);
    }
    forall k, f
      ensures Run(EMPTY, steps).Ids(k, f) == Dedupe(IdsIn(steps, k, f))
      ensures NoDuplicates(Run(EMPTY, steps).Ids(k, f))
    {
      RunIds(steps, k, f);
    }
  }

  // ---------------------------------------------------------------------------------------------
  // The build

  function StepsOfKeys(keys: seq<string>, id: string, framework: Framework): seq<Step> {
    seq(|keys|, i requires 0 <= i < |keys| => Merge(keys[i], framework, [id]))
  }

  function StepsOfList(list: seq<Disclosure>, framework: Framework): seq<Step> {
    if list == [] then []
    else
      var d := list[|list| - 1];
      StepsOfList(list[..|list| - 1], framework) + StepsOfKeys(d.keys, d.sectionId, framework)
  }

  function StepsOfFrameworks(lists: Framework -> seq<Disclosure>, fs: seq<Framework>): seq<Step> {
    if fs == [] then []
    else StepsOfFrameworks(lists, fs[..|fs| - 1]) + StepsOfList(lists(fs[|fs| - 1]), fs[|fs| - 1])
  }

  function StepsOfCanonical(keys: seq<string>): seq<Step> {
    seq(|keys|, i requires 0 <= i < |keys| => Touch(keys[i]))
  }

  function StepsOfLines(lines: seq<GoldenLine>, key: string): seq<Step> {
    seq(|lines|, i requires 0 <= i < |lines| => Merge(key, lines[i].framework, lines[i].ids))
  }

  function StepsOfGolden(golden: seq<Golden>): seq<Step> {
    if golden == [] then []
    else
      var g := golden[|golden| - 1];
      StepsOfGolden(golden[..|golden| - 1]) + [Touch(g.key)] + StepsOfLines(g.lines, g.key)
  }

  function BuildSteps(lists: Framework -> seq<Disclosure>, canonicalKeys: seq<string>, golden: seq<Golden>): seq<Step> {
    StepsOfFrameworks(lists, FRAMEWORKS) + StepsOfCanonical(canonicalKeys) + StepsOfGolden(golden)
  }

  /** The accumulator, updated in place. */
  class Accumulator {
    var order: seq<string>
    var entries: map<string, Entry>

    constructor ()
      ensures Contents() == EMPTY
    {
      order, entries := [], map[];
    }

    function Contents(): Table
      reads this
    {
      Table(order, entries)
    }

    method EnsureKey(key: string)
      modifies this
      ensures Contents() == Apply(old(Contents()), Touch(key))
    {
      if key !in entries {
        order, entries := order + [key], entries[key := NO_LISTS];
      }
    }

    /** Appends an id to the list of a key and framework unless it is there. */
    method AddId(key: string, framework: Framework, id: string)
      requires Contents().Valid()
      modifies this
      ensures Contents() == Apply(old(Contents()), Merge(key, framework, [id]))
    {
      ghost var t := Contents();
      EnsureKey(key);
      var entry := entries[key];
      var existing := entry.Get(framework);
      assert existing == t.Ids(key, framework);
      DedupeSnoc(existing, id);
      DedupeKeeps(existing);
      if id !in existing {
        existing := existing + [id];
      }
      entries := entries[key := entry.Set(framework, existing)];
    }

    method AddDisclosure(disc: Disclosure, framework: Framework)
      requires Contents().Valid()
      modifies this
      ensures Contents().Valid()
      ensures Contents() == Run(old(Contents()), StepsOfKeys(disc.keys, disc.sectionId, framework))
    {
      hide Apply, Table.Valid;
      ghost var t := Contents();
      for j := 0 to |disc.keys|
        invariant Contents().Valid()
        invariant Contents() == Run(t, StepsOfKeys(disc.keys[..j], disc.sectionId, framework))
      {
        ghost var done := StepsOfKeys(disc.keys[..j], disc.sectionId, framework);
        ghost var step := Merge(disc.keys[j], framework, [disc.sectionId]);
        ApplyKeepsValid(Contents(), step);
        RunOneMore(t, done, step);
        AddId(disc.keys[j], framework, disc.sectionId);
        assert done + [step] == StepsOfKeys(disc.keys[..j + 1], disc.sectionId, framework);
      }
      assert disc.keys[..|disc.keys|] == disc.keys;
    }

    method InvertForFramework(list: seq<Disclosure>, framework: Framework)
      requires Contents().Valid()
      modifies this
      ensures Contents().Valid()
      ensures Contents() == Run(old(Contents()), StepsOfList(list, framework))
    {
      hide Run, StepsOfKeys, Table.Valid;
      ghost var t := Contents();
      NoSteps(t);
      for i := 0 to |list|
        invariant Contents().Valid() && Contents() == Run(t, StepsOfList(list[..i], framework))
      {
        assert list[..i + 1][..i] == list[..i];
        RunSplits(t, StepsOfList(list[..i], framework), StepsOfKeys(list[i].keys, list[i].sectionId, framework));
        AddDisclosure(list[i], framework);
      }
      assert list[..|list|] == list;
    }

    method MergeGolden(g: Golden)
      requires Contents().Valid()
      modifies this
      ensures Contents().Valid()
      ensures Contents() == Run(old(Contents()), [Touch(g.key)] + StepsOfLines(g.lines, g.key))
    {
      hide Apply, Dedupe, Run, Table.Valid;
      ghost var t := Contents();
      ApplyKeepsValid(t, Touch(g.key));
      RunOne(t, Touch(g.key));
      EnsureKey(g.key);
      assert [Touch(g.key)] + StepsOfLines(g.lines[..0], g.key) == [Touch(g.key)];
      for j := 0 to |g.lines|
        invariant Contents().Valid()
        invariant Contents() == Run(t, [Touch(g.key)] + StepsOfLines(g.lines[..j], g.key))
      {
        var fw, ids := g.lines[j].framework, g.lines[j].ids;
        ghost var done := [Touch(g.key)] + StepsOfLines(g.lines[..j], g.key);
        ApplyKeepsValid(Contents(), Merge(g.key, fw, ids));
        RunOneMore(t, done, Merge(g.key, fw, ids));
        MergeLine(g.key, fw, ids);
        assert done + [Merge(g.key, fw, ids)] == [Touch(g.key)] + StepsOfLines(g.lines[..j + 1], g.key);
      }
      assert g.lines[..|g.lines|] == g.lines;
    }

    /** The union of what a list holds and new ids, as a set in insertion order. */
    method MergeLine(key: string, framework: Framework, ids: seq<string>)
      modifies this
      ensures Contents() == Apply(old(Contents()), Merge(key, framework, ids))
    {
      ghost var t := Contents();
      EnsureKey(key);
      var existing := entries[key].Get(framework);
      assert existing == t.Ids(key, framework);
      entries := entries[key := entries[key].Set(framework, Dedupe(existing + ids))];
    }

    method InvertAll(lists: Framework -> seq<Disclosure>)
      requires Contents().Valid()
      modifies this
      ensures Contents().Valid()
      ensures Contents() == Run(old(Contents()), StepsOfFrameworks(lists, FRAMEWORKS))
    {
      hide Run, StepsOfList, Table.Valid;
      ghost var t := Contents();
      NoSteps(t);
      for i := 0 to |FRAMEWORKS|
        invariant Contents().Valid() && Contents() == Run(t, StepsOfFrameworks(lists, FRAMEWORKS[..i]))
      {
        assert FRAMEWORKS[..i + 1][..i] == FRAMEWORKS[..i];
        RunSplits(t, StepsOfFrameworks(lists, FRAMEWORKS[..i]), StepsOfList(lists(FRAMEWORKS[i]), FRAMEWORKS[i]));
        InvertForFramework(lists(FRAMEWORKS[i]), FRAMEWORKS[i]);
      }
      assert FRAMEWORKS[..|FRAMEWORKS|] == FRAMEWORKS;
    }

    method EnsureAll(keys: seq<string>)
      requires Contents().Valid()
      modifies this
      ensures Contents().Valid()
      ensures Contents() == Run(old(Contents()), StepsOfCanonical(keys))
    {
      hide Run, Apply, Table.Valid;
      ghost var t := Contents();
      NoSteps(t);
      assert StepsOfCanonical(keys[..0]) == [];
      for i := 0 to |keys|
        invariant Contents().Valid() && Contents() == Run(t, StepsOfCanonical(keys[..i]))
      {
        ApplyKeepsValid(Contents(), Touch(keys[i]));
        RunOneMore(t, StepsOfCanonical(keys[..i]), Touch(keys[i]));
        EnsureKey(keys[i]);
        assert StepsOfCanonical(keys[..i]) + [Touch(keys[i])] == StepsOfCanonical(keys[..i + 1]);
      }
      assert keys[..|keys|] == keys;
    }

    method MergeAll(golden: seq<Golden>)
      requires Contents().Valid()
      modifies this
      ensures Contents().Valid()
      ensures Contents() == Run(old(Contents()), StepsOfGolden(golden))
    {
      hide Run, StepsOfLines, Table.Valid;
      ghost var t := Contents();
      NoSteps(t);
      for i := 0 to |golden|
        invariant Contents().Valid() && Contents() == Run(t, StepsOfGolden(golden[..i]))
      {
        var g := golden[i];
        assert golden[..i + 1][..i] == golden[..i];
        ghost var more := [Touch(g.key)] + StepsOfLines(g.lines, g.key);
        RunSplits(t, StepsOfGolden(golden[..i]), more);
        MergeGolden(g);
        assert StepsOfGolden(golden[..i]) + more == StepsOfGolden(golden[..i + 1]);
      }
      assert golden[..|golden|] == golden;
    }

    method BuildCrosswalks(lists: Framework -> seq<Disclosure>, canonicalKeys: seq<string>, golden: seq<Golden>)
      requires Contents() == EMPTY
      modifies this
      ensures Contents().Valid()
      ensures Contents() == Run(EMPTY, BuildSteps(lists, canonicalKeys, golden))
    {
      hide Run, StepsOfFrameworks, StepsOfCanonical, StepsOfGolden;
      EmptyIsValid();
      RunSplits(EMPTY, StepsOfFrameworks(lists, FRAMEWORKS), StepsOfCanonical(canonicalKeys));
      RunSplits(EMPTY, StepsOfFrameworks(lists, FRAMEWORKS) + StepsOfCanonical(canonicalKeys), StepsOfGolden(golden));
      InvertAll(lists);
      EnsureAll(canonicalKeys);
      MergeAll(golden);
    }
  }

  lemma NoSteps(t: Table)
    ensures Run(t, []) == t
  {
  }

  lemma EmptyIsValid()
    ensures EMPTY.Valid()
  {
  }

  lemma RunOneMore(t: Table, done: seq<Step>, s: Step)
    ensures Run(t, done + [s]) == Apply(Run(t, done), s)
  {
    assert (done + [s])[..|done|] == done;
  }

  // ---------------------------------------------------------------------------------------------
  // Brute force

  /** The section id once for each time the disclosure maps the key. */
  function IdsOfKeys(keys: seq<string>, id: string, key: string): seq<string> {
    if keys == [] then []
    else IdsOfKeys(keys[..|keys| - 1], id, key) + if keys[|keys| - 1] == key then [id] else []
  }

  /** Ids of the disclosures of a list that map a key. */
  function DerivedIds(list: seq<Disclosure>, key: string): seq<string> {
    if list == [] then []
    else
      var d := list[|list| - 1];
      DerivedIds(list[..|list| - 1], key) + IdsOfKeys(d.keys, d.sectionId, key)
  }

  function IdsOfLines(lines: seq<GoldenLine>, framework: Framework): seq<string> {
    if lines == [] then []
    else
      var l := lines[|lines| - 1];
      IdsOfLines(lines[..|lines| - 1], framework) + if l.framework == framework then l.ids else []
  }

  /** Ids the golden table lists under a key and framework. */
  function GoldenIds(golden: seq<Golden>, key: string, framework: Framework): seq<string> {
    if golden == [] then []
    else
      var g := golden[|golden| - 1];
      GoldenIds(golden[..|golden| - 1], key, framework) + if g.key == key then IdsOfLines(g.lines, framework) else []
  }

  /** Some disclosure of the list has this id and maps this key. */
  ghost predicate Maps(list: seq<Disclosure>, key: string, id: string) {
    exists d :: d in list && d.sectionId == id && key in d.keys
  }

  /** The golden table lists this id under the key and framework. */
  ghost predicate Lists(golden: seq<Golden>, key: string, framework: Framework, id: string) {
    exists g, l :: g in golden && g.key == key && l in g.lines && l.framework == framework && id in l.ids
  }

  lemma {:induction false} IdsOfKeysMembers(keys: seq<string>, id: string, key: string, x: string)
    ensures x in IdsOfKeys(keys, id, key) <==> x == id && key in keys
  {
    if keys != [] {
      IdsOfKeysMembers(keys[..|keys| - 1], id, key, x);
      assert keys == keys[..|keys| - 1] + [keys[|keys| - 1]];
    }
  }

  lemma {:induction false} DerivedIdsMembers(list: seq<Disclosure>, key: string, x: string)
    ensures x in DerivedIds(list, key) <==> Maps(list, key, x)
  {
    if list != [] {
      var init, d := list[..|list| - 1], list[|list| - 1];
      DerivedIdsMembers(init, key, x);
      IdsOfKeysMembers(d.keys, d.sectionId, key, x);
      assert list == init + [d];
      assert forall e :: e in list <==> e in init || e == d;
    }
  }

  lemma {:induction false} IdsOfLinesMembers(lines: seq<GoldenLine>, framework: Framework, x: string)
    ensures x in IdsOfLines(lines, framework) <==> exists l :: l in lines && l.framework == framework && x in l.ids
  {
    if lines != [] {
      var init, l := lines[..|lines| - 1], lines[|lines| - 1];
      IdsOfLinesMembers(init, framework, x);
      assert lines == init + [l];
      assert forall e :: e in lines <==> e in init || e == l;
    }
  }

  lemma {:induction false} GoldenIdsMembers(golden: seq<Golden>, key: string, framework: Framework, x: string)
    ensures x in GoldenIds(golden, key, framework) <==> Lists(golden, key, framework, x)
  {
    if golden != [] {
      var init, g := golden[..|golden| - 1], golden[|golden| - 1];
      GoldenIdsMembers(init, key, framework, x);
      IdsOfLinesMembers(g.lines, framework, x);
      assert golden == init + [g];
      assert forall e :: e in golden <==> e in init || e == g;
    }
  }

  // What the steps of each phase merge

  lemma {:induction false} IdsInKeys(keys: seq<string>, id: string, fw: Framework, key: string, f: Framework)
    ensures IdsIn(StepsOfKeys(keys, id, fw), key, f) == if f == fw then IdsOfKeys(keys, id, key) else []
  {
    if keys != [] {
      var init := keys[..|keys| - 1];
      IdsInKeys(init, id, fw, key, f);
      assert StepsOfKeys(keys, id, fw)[..|keys| - 1] == StepsOfKeys(init, id, fw);
    }
  }

  lemma {:induction false} IdsInList(list: seq<Disclosure>, fw: Framework, key: string, f: Framework)
    ensures IdsIn(StepsOfList(list, fw), key, f) == if f == fw then DerivedIds(list, key) else []
  {
    if list != [] {
      var init, d := list[..|list| - 1], list[|list| - 1];
      IdsInList(init, fw, key, f);
      IdsInKeys(d.keys, d.sectionId, fw, key, f);
      IdsInSplits(StepsOfList(init, fw), StepsOfKeys(d.keys, d.sectionId, fw), key, f);
    }
  }

  /** With each framework listed at most once. */
  lemma {:induction false} IdsInFrameworks(lists: Framework -> seq<Disclosure>, fs: seq<Framework>, key: string,
                                           f: Framework)
    requires forall i, j :: 0 <= i < j < |fs| ==> fs[i] != fs[j]
    ensures IdsIn(StepsOfFrameworks(lists, fs), key, f) == if f in fs then DerivedIds(lists(f), key) else []
  {
    hide StepsOfList, DerivedIds, IdsIn;
    NoIds(key, f);
    if fs != [] {
      var init, last := fs[..|fs| - 1], fs[|fs| - 1];
      IdsInFrameworks(lists, init, key, f);
      IdsInList(lists(last), last, key, f);
      IdsInSplits(StepsOfFrameworks(lists, init), StepsOfList(lists(last), last), key, f);
      assert f in fs <==> f in init || f == last;
      assert !(f in init && f == last);
    }
  }

  lemma NoIds(key: string, f: Framework)
    ensures IdsIn([], key, f) == []
  {
  }

  lemma {:induction false} IdsInCanonical(keys: seq<string>, key: string, f: Framework)
    ensures IdsIn(StepsOfCanonical(keys), key, f) == []
    ensures KeysIn(StepsOfCanonical(keys)) == keys
  {
    if keys != [] {
      var init := keys[..|keys| - 1];
      IdsInCanonical(init, key, f);
      assert StepsOfCanonical(keys)[..|keys| - 1] == StepsOfCanonical(init);
      assert keys == init + [keys[|keys| - 1]];
    }
  }

  lemma {:induction false} IdsInLines(lines: seq<GoldenLine>, k: string, key: string, f: Framework)
    ensures IdsIn(StepsOfLines(lines, k), key, f) == if k == key then IdsOfLines(lines, f) else []
  {
    if lines != [] {
      var init := lines[..|lines| - 1];
      IdsInLines(init, k, key, f);
      assert StepsOfLines(lines, k)[..|lines| - 1] == StepsOfLines(init, k);
    }
  }

  lemma {:induction false} IdsInGolden(golden: seq<Golden>, key: string, f: Framework)
    ensures IdsIn(StepsOfGolden(golden), key, f) == GoldenIds(golden, key, f)
  {
    if golden != [] {
      var init, g := golden[..|golden| - 1], golden[|golden| - 1];
      IdsInGolden(init, key, f);
      IdsInLines(g.lines, g.key, key, f);
      IdsInSplits(StepsOfGolden(init) + [Touch(g.key)], StepsOfLines(g.lines, g.key), key, f);
      IdsInSplits(StepsOfGolden(init), [Touch(g.key)], key, f);
      assert [Touch(g.key)][..0] == [];
      assert IdsIn([Touch(g.key)], key, f) == [];
    }
  }

  /** Every list of the built crosswalk: derived ids first, then the golden ids not among them. */
  lemma ListsAreDerivedThenGolden(lists: Framework -> seq<Disclosure>, canonicalKeys: seq<string>, golden: seq<Golden>,
                                  key: string, f: Framework)
    ensures var t := Run(EMPTY, BuildSteps(lists, canonicalKeys, golden));
            && t.Ids(key, f) == Dedupe(DerivedIds(lists(f), key) + GoldenIds(golden, key, f))
            && NoDuplicates(t.Ids(key, f))
            && Dedupe(DerivedIds(lists(f), key)) <= t.Ids(key, f)
  {
    hide Run, Dedupe, IdsIn, StepsOfFrameworks, StepsOfCanonical, StepsOfGolden, Table.Ids;
    var a, b, c := StepsOfFrameworks(lists, FRAMEWORKS), StepsOfCanonical(canonicalKeys), StepsOfGolden(golden);
    AllFrameworks(f);
    FrameworksAreDistinct();
    IdsInFrameworks(lists, FRAMEWORKS, key, f);
    IdsInCanonical(canonicalKeys, key, f);
    IdsInGolden(golden, key, f);
    IdsInSplits(a + b, c, key, f);
    IdsInSplits(a, b, key, f);
    RunCollects(BuildSteps(lists, canonicalKeys, golden));
    assert DerivedIds(lists(f), key) + [] == DerivedIds(lists(f), key);
    DedupeFacts(DerivedIds(lists(f), key) + GoldenIds(golden, key, f));
    DedupeExtends(DerivedIds(lists(f), key), GoldenIds(golden, key, f));
  }

  /** The golden ids win a list when they head it: exactly when one of golden and derived ids starts
      with the other. */
  lemma GoldenWinsExactly(lists: Framework -> seq<Disclosure>, canonicalKeys: seq<string>, golden: seq<Golden>,
                          key: string, f: Framework)
    ensures var t := Run(EMPTY, BuildSteps(lists, canonicalKeys, golden));
            var derived, gold := Dedupe(DerivedIds(lists(f), key)), Dedupe(GoldenIds(golden, key, f));
            (gold <= t.Ids(key, f) <==> gold <= derived || derived <= gold)
  {
    hide *;
    var t := Run(EMPTY, BuildSteps(lists, canonicalKeys, golden));
    var derived, gold := Dedupe(DerivedIds(lists(f), key)), Dedupe(GoldenIds(golden, key, f));
    ListsAreDerivedThenGolden(lists, canonicalKeys, golden, key, f);
    if derived <= gold {
      DedupeOfPrefix(DerivedIds(lists(f), key), GoldenIds(golden, key, f));
    }
  }

  /** A golden id that does not win: it comes behind the derived one. */
  lemma GoldenComesLast(lists: Framework -> seq<Disclosure>)
    requires lists(GRI) == [Disclosure("302-1", ["energy"])]
    ensures var golden := [Golden("energy", [GoldenLine(GRI, ["302-4"])])];
            && Run(EMPTY, BuildSteps(lists, [], golden)).Ids("energy", GRI) == ["302-1", "302-4"]
            && !(Dedupe(GoldenIds(golden, "energy", GRI))
                 <= Run(EMPTY, BuildSteps(lists, [], golden)).Ids("energy", GRI))
  {
    hide Run, BuildSteps, Table.Ids, Dedupe, DerivedIds, GoldenIds;
    var golden := [Golden("energy", [GoldenLine(GRI, ["302-4"])])];
    ListsAreDerivedThenGolden(lists, [], golden, "energy", GRI);
    SingleIds(lists(GRI)[0], golden[0].lines[0], "energy");
    DedupeKeeps(["302-1", "302-4"]);
    DedupeKeeps(["302-4"]);
    assert ["302-1"] + ["302-4"] == ["302-1", "302-4"];
    assert "302-1"[4] != "302-4"[4];
    assert ["302-1", "302-4"][0] == "302-1" && ["302-4"][0] == "302-4";
  }

  lemma SingleIds(d: Disclosure, line: GoldenLine, key: string)
    requires d.keys == [key]
    ensures DerivedIds([d], key) == [d.sectionId]
    ensures GoldenIds([Golden(key, [line])], key, line.framework) == line.ids
  {
    assert [d][..0] == [] && [key][..0] == [] && [line][..0] == [] && [Golden(key, [line])][..0] == [];
    assert DerivedIds([d], key) == DerivedIds([], key) + IdsOfKeys([key], d.sectionId, key);
    assert IdsOfKeys([key], d.sectionId, key) == IdsOfKeys([], d.sectionId, key) + [d.sectionId];
    assert IdsOfLines([line], line.framework) == IdsOfLines([], line.framework) + line.ids;
    assert GoldenIds([Golden(key, [line])], key, line.framework) == GoldenIds([], key, line.framework) + line.ids;
  }

  lemma FrameworksAreDistinct()
    ensures forall i, j :: 0 <= i < j < |FRAMEWORKS| ==> FRAMEWORKS[i] != FRAMEWORKS[j]
  {
  }

  lemma AllFrameworks(f: Framework)
    ensures f in FRAMEWORKS
  {
  }

  /** Every canonical key is present. */
  lemma CanonicalKeysArePresent(lists: Framework -> seq<Disclosure>, canonicalKeys: seq<string>, golden: seq<Golden>,
                                key: string)
    requires key in canonicalKeys
    ensures key in Run(EMPTY, BuildSteps(lists, canonicalKeys, golden)).entries
  {
    var a, b, c := StepsOfFrameworks(lists, FRAMEWORKS), StepsOfCanonical(canonicalKeys), StepsOfGolden(golden);
    var steps := BuildSteps(lists, canonicalKeys, golden);
    RunCollects(steps);
    KeysInSplits(a + b, c);
    KeysInSplits(a, b);
    IdsInCanonical(canonicalKeys, key, BRSR);
    DedupeFacts(KeysIn(steps));
    assert key in KeysIn(steps);
  }

  // ---------------------------------------------------------------------------------------------
  // Lookups

  /** The keys in `order` whose list for the framework has the id. */
  function KeysWith(t: Table, order: seq<string>, framework: Framework, id: string): seq<string> {
    if order == [] then []
    else
      var key := order[|order| - 1];
      KeysWith(t, order[..|order| - 1], framework, id) + if id in t.Ids(key, framework) then [key] else []
  }

  lemma ObjectKeysArePresent(t: Table)
    requires t.Valid()
    ensures forall k :: k in KeysOf(t.order) ==> k in t.entries
  {
    hide KeysOf;
    KeysAreKept(t.order);
  }

  method GetCanonicalKeysForDisclosure(t: Table, framework: Framework, sectionId: string) returns (out: seq<string>)
    requires t.Valid()
    ensures out == KeysWith(t, KeysOf(t.order), framework, sectionId)
  {
    hide Table.Valid, KeysOf;
    var keys := KeysOf(t.order);
    ObjectKeysArePresent(t);
    out := [];
    for i := 0 to |keys|
      invariant out == KeysWith(t, keys[..i], framework, sectionId)
    {
      assert keys[..i + 1][..i] == keys[..i];
      assert keys[i] in keys;
      if sectionId in t.entries[keys[i]].Get(framework) {
        out := out + [keys[i]];
      }
    }
    assert keys[..|keys|] == keys;
  }

  lemma {:induction false} KeysWithMembers(t: Table, order: seq<string>, framework: Framework, id: string)
    requires NoDuplicates(order)
    ensures forall k :: k in KeysWith(t, order, framework, id) <==> k in order && id in t.Ids(k, framework)
    ensures NoDuplicates(KeysWith(t, order, framework, id))
  {
    if order != [] {
      var init := order[..|order| - 1];
      KeysWithMembers(t, init, framework, id);
      assert order == init + [order[|order| - 1]];
    }
  }

  /** The reverse lookup agrees with brute force over the disclosures and the golden table. */
  lemma ReverseLookupIsBruteForce(lists: Framework -> seq<Disclosure>, canonicalKeys: seq<string>, golden: seq<Golden>,
                                  f: Framework, id: string, key: string)
    ensures var t := Run(EMPTY, BuildSteps(lists, canonicalKeys, golden));
            && (key in KeysWith(t, KeysOf(t.order), f, id) <==> Maps(lists(f), key, id) || Lists(golden, key, f, id))
            && NoDuplicates(KeysWith(t, KeysOf(t.order), f, id))
  {
    hide KeysWith, Run, BuildSteps, Dedupe, KeysOf;
    var t := Run(EMPTY, BuildSteps(lists, canonicalKeys, golden));
    RunCollects(BuildSteps(lists, canonicalKeys, golden));
    KeysAreKept(t.order);
    KeysWithMembers(t, KeysOf(t.order), f, id);
    ListsAreDerivedThenGolden(lists, canonicalKeys, golden, key, f);
    DedupeFacts(DerivedIds(lists(f), key) + GoldenIds(golden, key, f));
    DerivedIdsMembers(lists(f), key, id);
    GoldenIdsMembers(golden, key, f, id);
  }

  /** The frameworks in `order` whose list for the key is not empty. */
  function Containing(t: Table, key: string, order: seq<Framework>): seq<Framework> {
    if order == [] then []
    else
      var f := order[|order| - 1];
      Containing(t, key, order[..|order| - 1]) + if t.Ids(key, f) != [] then [f] else []
  }

  /** The lists of a key for the frameworks in `order`, end to end. */
  function Answered(t: Table, key: string, order: seq<Framework>): seq<string> {
    if order == [] then [] else Answered(t, key, order[..|order| - 1]) + t.Ids(key, order[|order| - 1])
  }

  method GetFrameworksContainingMetric(t: Table, key: string) returns (out: seq<Framework>)
    requires t.Valid()
    ensures out == Containing(t, key, t.Frameworks(key))
  {
    if key !in t.entries { return []; }
    var xw := t.entries[key];
    out := [];
    for i := 0 to |xw.order|
      invariant out == Containing(t, key, xw.order[..i])
    {
      assert xw.order[..i + 1][..i] == xw.order[..i];
      assert xw.order[i] in xw.order;
      if |xw.lists[xw.order[i]]| > 0 {
        out := out + [xw.order[i]];
      }
    }
    assert xw.order[..|xw.order|] == xw.order;
  }

  /** `getDisclosuresAnsweredByMetric` */
  function DisclosuresAnswered(t: Table, key: string): seq<string> {
    Answered(t, key, t.Frameworks(key))
  }

  lemma {:induction false} ContainingMembers(t: Table, key: string, order: seq<Framework>, f: Framework)
    ensures f in Containing(t, key, order) <==> f in order && t.Ids(key, f) != []
  {
    if order != [] {
      ContainingMembers(t, key, order[..|order| - 1], f);
      assert order == order[..|order| - 1] + [order[|order| - 1]];
    }
  }

  /** An id is answered once for each framework whose list has it. */
  lemma {:induction false} AnsweredCounts(t: Table, key: string, order: seq<Framework>, id: string)
    requires forall f :: NoDuplicates(t.Ids(key, f))
    ensures multiset(Answered(t, key, order))[id] == |Having(t, key, order, id)|
  {
    hide NoDuplicates, Table.Ids;
    if order != [] {
      var init, f := order[..|order| - 1], order[|order| - 1];
      AnsweredCounts(t, key, init, id);
      CountInDistinct(t.Ids(key, f), id);
    }
  }

  /** The frameworks in `order` whose list for the key has the id. */
  function Having(t: Table, key: string, order: seq<Framework>, id: string): seq<Framework> {
    if order == [] then []
    else
      var f := order[|order| - 1];
      Having(t, key, order[..|order| - 1], id) + if id in t.Ids(key, f) then [f] else []
  }

  lemma {:induction false} HavingMembers(t: Table, key: string, order: seq<Framework>, id: string, f: Framework)
    ensures f in Having(t, key, order, id) <==> f in order && id in t.Ids(key, f)
  {
    if order != [] {
      HavingMembers(t, key, order[..|order| - 1], id, f);
      assert order == order[..|order| - 1] + [order[|order| - 1]];
    }
  }

  lemma KeysOfList(t: Table, key: string, f: Framework, id: string)
    requires t.Valid()
    ensures key in KeysWith(t, KeysOf(t.order), f, id) <==> id in t.Ids(key, f)
    ensures t.Ids(key, f) != [] ==> f in t.Frameworks(key)
  {
    hide KeysWith, KeysOf;
    KeysAreKept(t.order);
    KeysWithMembers(t, KeysOf(t.order), f, id);
  }

  /** The forward lookups are the other side of the same relation: a framework contains a key exactly
      when some disclosure of it answers the key, and an id is answered exactly as often as there
      are frameworks under which the reverse lookup of the id finds the key. */
  lemma ForwardLookupsAgree(t: Table, key: string, f: Framework, id: string)
    requires t.Valid()
    ensures f in Containing(t, key, t.Frameworks(key)) <==> exists x :: key in KeysWith(t, KeysOf(t.order), f, x)
    ensures multiset(DisclosuresAnswered(t, key))[id] == |Having(t, key, t.Frameworks(key), id)|
    ensures f in Having(t, key, t.Frameworks(key), id) <==> key in KeysWith(t, KeysOf(t.order), f, id)
  {
    hide KeysWith, KeysOf, Table.Valid, Having, Answered, Containing;
    KeysOfList(t, key, f, id);
    ContainingMembers(t, key, t.Frameworks(key), f);
    if f in Containing(t, key, t.Frameworks(key)) {
      KeysOfList(t, key, f, t.Ids(key, f)[0]);
    }
    forall x
      ensures key in KeysWith(t, KeysOf(t.order), f, x) <==> x in t.Ids(key, f)
    {
      KeysOfList(t, key, f, x);
    }
    ListsAreDistinct(t, key);
    AnsweredCounts(t, key, t.Frameworks(key), id);
    HavingMembers(t, key, t.Frameworks(key), id, f);
  }

  lemma ListsAreDistinct(t: Table, key: string)
    requires t.Valid()
    ensures forall f :: NoDuplicates(t.Ids(key, f))
  {
  }

  // ---------------------------------------------------------------------------------------------
  // The order of the forward lookups

  /** Those of `fs` with a disclosure that maps the key. */
  function DerivedFrameworks(lists: Framework -> seq<Disclosure>, fs: seq<Framework>, key: string): seq<Framework> {
    if fs == [] then []
    else
      var f := fs[|fs| - 1];
      DerivedFrameworks(lists, fs[..|fs| - 1], key) + if DerivedIds(lists(f), key) != [] then [f] else []
  }

  function FrameworksOfLines(lines: seq<GoldenLine>): seq<Framework> {
    seq(|lines|, i requires 0 <= i < |lines| => lines[i].framework)
  }

  /** The frameworks the golden table lists under a key. */
  function GoldenFrameworks(golden: seq<Golden>, key: string): seq<Framework> {
    if golden == [] then []
    else
      var g := golden[|golden| - 1];
      GoldenFrameworks(golden[..|golden| - 1], key) + if g.key == key then FrameworksOfLines(g.lines) else []
  }

  function OneIf(present: bool, f: Framework): seq<Framework> {
    if present then [f] else []
  }

  /** Setting one framework over and over counts once. */
  lemma SetAgain(before: seq<Framework>, had: seq<Framework>, more: seq<Framework>, f: Framework, a: bool, b: bool)
    requires Dedupe(before + had) == Dedupe(before + OneIf(a, f))
    requires Dedupe(before + had + more) == Dedupe(before + had + OneIf(b, f))
    ensures Dedupe(before + (had + more)) == Dedupe(before + OneIf(a || b, f))
  {
    hide Dedupe;
    assert before + (had + more) == before + had + more;
    assert before + had + [] == before + had;
    DedupeTwice(before + had, OneIf(b, f));
    DedupeTwice(before + OneIf(a, f), OneIf(b, f));
    if a && b {
      DedupeAbsorbs(before + [f], [f]);
    } else {
      assert before + OneIf(a, f) + OneIf(b, f) == before + OneIf(a || b, f);
    }
  }

  lemma FrameworkOfOneMore(keys: seq<string>, id: string, fw: Framework, key: string)
    requires keys != []
    ensures FrameworksIn(StepsOfKeys(keys, id, fw), key)
         == FrameworksIn(StepsOfKeys(keys[..|keys| - 1], id, fw), key) + OneIf(keys[|keys| - 1] == key, fw)
  {
    assert StepsOfKeys(keys, id, fw)[..|keys| - 1] == StepsOfKeys(keys[..|keys| - 1], id, fw);
  }

  lemma NoFrameworks(id: string, fw: Framework, key: string)
    ensures FrameworksIn(StepsOfKeys([], id, fw), key) == [] && OneIf(false, fw) == []
  {
  }

  lemma {:induction false} FrameworksInKeys(keys: seq<string>, id: string, fw: Framework, key: string,
                                            before: seq<Framework>)
    ensures Dedupe(before + FrameworksIn(StepsOfKeys(keys, id, fw), key))
         == Dedupe(before + OneIf(IdsOfKeys(keys, id, key) != [], fw))
  {
    hide Dedupe, FrameworksIn, StepsOfKeys, OneIf;
    NoFrameworks(id, fw, key);
    if keys != [] {
      var init, last := keys[..|keys| - 1], keys[|keys| - 1];
      FrameworksInKeys(init, id, fw, key, before);
      FrameworkOfOneMore(keys, id, fw, key);
      SetAgain(before, FrameworksIn(StepsOfKeys(init, id, fw), key), OneIf(last == key, fw), fw,
               IdsOfKeys(init, id, key) != [], last == key);
    }
  }

  lemma {:induction false} FrameworksInList(list: seq<Disclosure>, fw: Framework, key: string, before: seq<Framework>)
    ensures Dedupe(before + FrameworksIn(StepsOfList(list, fw), key))
         == Dedupe(before + OneIf(DerivedIds(list, key) != [], fw))
  {
    hide Dedupe, StepsOfKeys, IdsOfKeys;
    if list != [] {
      var init, d := list[..|list| - 1], list[|list| - 1];
      var had := FrameworksIn(StepsOfList(init, fw), key);
      var more := FrameworksIn(StepsOfKeys(d.keys, d.sectionId, fw), key);
      FrameworksInList(init, fw, key, before);
      FrameworksInSplits(StepsOfList(init, fw), StepsOfKeys(d.keys, d.sectionId, fw), key);
      FrameworksInKeys(d.keys, d.sectionId, fw, key, before + had);
      SetAgain(before, had, more, fw, DerivedIds(init, key) != [], IdsOfKeys(d.keys, d.sectionId, key) != []);
    }
  }

  lemma {:induction false} FrameworksInFrameworks(lists: Framework -> seq<Disclosure>, fs: seq<Framework>, key: string)
    ensures Dedupe(FrameworksIn(StepsOfFrameworks(lists, fs), key)) == Dedupe(DerivedFrameworks(lists, fs, key))
  {
    hide StepsOfList, DerivedIds, Dedupe;
    if fs != [] {
      var init, f := fs[..|fs| - 1], fs[|fs| - 1];
      FrameworksInFrameworks(lists, init, key);
      FrameworksInSplits(StepsOfFrameworks(lists, init), StepsOfList(lists(f), f), key);
      FrameworksInList(lists(f), f, key, FrameworksIn(StepsOfFrameworks(lists, init), key));
      var last := if DerivedIds(lists(f), key) != [] then [f] else [];
      DedupeTwice(FrameworksIn(StepsOfFrameworks(lists, init), key), last);
      DedupeTwice(DerivedFrameworks(lists, init, key), last);
    }
  }

  lemma {:induction false} FrameworksInCanonical(keys: seq<string>, key: string)
    ensures FrameworksIn(StepsOfCanonical(keys), key) == []
  {
    if keys != [] {
      FrameworksInCanonical(keys[..|keys| - 1], key);
      assert StepsOfCanonical(keys)[..|keys| - 1] == StepsOfCanonical(keys[..|keys| - 1]);
    }
  }

  lemma {:induction false} FrameworksInLines(lines: seq<GoldenLine>, k: string, key: string)
    ensures FrameworksIn(StepsOfLines(lines, k), key) == if k == key then FrameworksOfLines(lines) else []
  {
    if lines != [] {
      var init := lines[..|lines| - 1];
      FrameworksInLines(init, k, key);
      assert StepsOfLines(lines, k)[..|lines| - 1] == StepsOfLines(init, k);
      assert FrameworksOfLines(lines) == FrameworksOfLines(init) + [lines[|lines| - 1].framework];
    }
  }

  lemma {:induction false} FrameworksInGolden(golden: seq<Golden>, key: string)
    ensures FrameworksIn(StepsOfGolden(golden), key) == GoldenFrameworks(golden, key)
  {
    hide FrameworksOfLines, StepsOfLines;
    if golden != [] {
      var init, g := golden[..|golden| - 1], golden[|golden| - 1];
      FrameworksInGolden(init, key);
      FrameworksInLines(g.lines, g.key, key);
      FrameworksInSplits(StepsOfGolden(init) + [Touch(g.key)], StepsOfLines(g.lines, g.key), key);
      FrameworksInSplits(StepsOfGolden(init), [Touch(g.key)], key);
      assert [Touch(g.key)][..0] == [];
      assert FrameworksIn([Touch(g.key)], key) == [];
    }
  }

  /** The forward lookups of a built crosswalk list frameworks in the order of the inversions, then
      those that only the golden table names, in its order. */
  lemma FrameworkOrder(lists: Framework -> seq<Disclosure>, canonicalKeys: seq<string>, golden: seq<Golden>,
                       key: string)
    ensures Run(EMPTY, BuildSteps(lists, canonicalKeys, golden)).Frameworks(key)
         == Dedupe(DerivedFrameworks(lists, FRAMEWORKS, key) + GoldenFrameworks(golden, key))
  {
    hide Run, Dedupe, FrameworksIn, StepsOfFrameworks, StepsOfCanonical, StepsOfGolden, DerivedFrameworks,
      GoldenFrameworks, Table.Frameworks, Table.Valid;
    var a, b, c := StepsOfFrameworks(lists, FRAMEWORKS), StepsOfCanonical(canonicalKeys), StepsOfGolden(golden);
    RunCollects(BuildSteps(lists, canonicalKeys, golden));
    FrameworksInSplits(a + b, c, key);
    FrameworksInSplits(a, b, key);
    FrameworksInFrameworks(lists, FRAMEWORKS, key);
    FrameworksInCanonical(canonicalKeys, key);
    FrameworksInGolden(golden, key);
    assert FrameworksIn(a, key) + [] == FrameworksIn(a, key);
    DedupeTwice(FrameworksIn(a, key), GoldenFrameworks(golden, key));
    DedupeTwice(DerivedFrameworks(lists, FRAMEWORKS, key), GoldenFrameworks(golden, key));
  }
}
