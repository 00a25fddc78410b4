/** The metric alias index: an insertion-ordered dictionary, and lookup by longest alias. */
module AliasIndex {
  import opened Splitting
  import opened Wrappers

  datatype NamedMetric = NamedMetric(key: string, name: string, aliases: seq<string>)

  /** A Python dictionary: overwriting a key keeps its place. */
  datatype Dict = Dict(order: seq<string>, table: map<string, string>) {
    ghost predicate Valid() {
      && (forall k :: k in order <==> k in table)
      && (forall i, j :: 0 <= i < j < |order| ==> order[i] != order[j])
    }

    function Set(k: string, v: string): Dict {
      Dict(if k in table then order else order + [k], table[k := v])
    }
  }

  // ---------------------------------------------------------------------------------------------
  // Building

  /** The text under which an alias is declared, with the metric that declares it. */
  datatype Declaration = Declaration(text: string, key: string)

  function AliasDeclarations(aliases: seq<string>, key: string, lower: string -> string,
                             strip: string -> string): seq<Declaration> {
    seq(|aliases|, i requires 0 <= i < |aliases| => Declaration(strip(lower(aliases[i])), key))
  }

  /** A metric declares its name, its key, and its aliases, in that order. */
  function MetricDeclarations(m: NamedMetric, lower: string -> string, strip: string -> string): seq<Declaration> {
    [Declaration(lower(m.name), m.key), Declaration(lower(m.key), m.key)]
      + AliasDeclarations(m.aliases, m.key, lower, strip)
  }

  function Declarations(registry: seq<NamedMetric>, lower: string -> string,
                        strip: string -> string): seq<Declaration> {
    if registry == [] then []
    else Declarations(registry[..|registry| - 1], lower, strip)
         + MetricDeclarations(registry[|registry| - 1], lower, strip)
  }

  /** Declares texts one after the other. */
  function Declared(ds: seq<Declaration>): Dict {
    if ds == [] then Dict([], map[]) else Declared(ds[..|ds| - 1]).Set(ds[|ds| - 1].text, ds[|ds| - 1].key)
  }

  lemma DeclareOneMore(ds: seq<Declaration>, d: Declaration)
    ensures Declared(ds + [d]) == Declared(ds).Set(d.text, d.key)
  {
    assert (ds + [d])[..|ds|] == ds;
  }

  lemma AliasesExtend(aliases: seq<string>, j: nat, key: string, lower: string -> string, strip: string -> string)
    requires j < |aliases|
    ensures AliasDeclarations(aliases[..j + 1], key, lower, strip)
         == AliasDeclarations(aliases[..j], key, lower, strip) + [Declaration(strip(lower(aliases[j])), key)]
  {
  }

  /** Enters one metric into the index. */
  method AddMetric(before: Dict, ghost ds: seq<Declaration>, m: NamedMetric, lower: string -> string,
                   strip: string -> string)
      returns (idx: Dict)
    requires before == Declared(ds)
    ensures idx == Declared(ds + MetricDeclarations(m, lower, strip))
  {
    hide Declared, Dict.Set, AliasDeclarations;
    var byName, byKey := Declaration(lower(m.name), m.key), Declaration(lower(m.key), m.key);
    ghost var head := ds + [byName] + [byKey];
    DeclareOneMore(ds, byName);
    DeclareOneMore(ds + [byName], byKey);
    idx := before.Set(lower(m.name), m.key);
    idx := idx.Set(lower(m.key), m.key);
    NoAliases(m.key, lower, strip);
    assert head + [] == head;
    for j := 0 to |m.aliases|
      invariant idx == Declared(head + AliasDeclarations(m.aliases[..j], m.key, lower, strip))
    {
      var text := strip(lower(m.aliases[j]));
      AliasesExtend(m.aliases, j, m.key, lower, strip);
      ghost var done := head + AliasDeclarations(m.aliases[..j], m.key, lower, strip);
      DeclareOneMore(done, Declaration(text, m.key));
      idx := idx.Set(text, m.key);
      assert done + [Declaration(text, m.key)] == head + AliasDeclarations(m.aliases[..j + 1], m.key, lower, strip);
    }
    assert m.aliases[..|m.aliases|] == m.aliases;
    assert head + AliasDeclarations(m.aliases, m.key, lower, strip) == ds + MetricDeclarations(m, lower, strip);
  }

  lemma NoAliases(key: string, lower: string -> string, strip: string -> string)
    ensures AliasDeclarations([], key, lower, strip) == []
  {
  }

  method BuildAliasIndex(registry: seq<NamedMetric>, lower: string -> string, strip: string -> string)
      returns (idx: Dict)
    ensures idx == Declared(Declarations(registry, lower, strip))
  {
    hide MetricDeclarations;
    idx := Dict([], map[]);
    for i := 0 to |registry|
      invariant idx == Declared(Declarations(registry[..i], lower, strip))
    {
      assert registry[..i + 1][..i] == registry[..i];
      idx := AddMetric(idx, Declarations(registry[..i], lower, strip), registry[i], lower, strip);
    }
    assert registry[..|registry|] == registry;
  }

  /** The last declaration of a text, or none. */
  function LastDeclaring(ds: seq<Declaration>, text: string): Option<string> {
    if ds == [] then None
    else if ds[|ds| - 1].text == text then Some(ds[|ds| - 1].key)
    else LastDeclaring(ds[..|ds| - 1], text)
  }

  /** The texts declared, each where it was first declared. */
  function FirstDeclared(ds: seq<Declaration>): seq<string> {
    if ds == [] then []
    else
      var before, text := FirstDeclared(ds[..|ds| - 1]), ds[|ds| - 1].text;
      if text in before then before else before + [text]
  }

  /** Each alias belongs to the last metric that declared it, in the place of the first. */
  lemma {:induction false} IndexHoldsLastDeclarations(ds: seq<Declaration>)
    ensures Declared(ds).Valid()
    ensures Declared(ds).order == FirstDeclared(ds)
    ensures forall text :: text in Declared(ds).table <==> LastDeclaring(ds, text).Some?
    ensures forall text :: text in Declared(ds).table ==> LastDeclaring(ds, text) == Some(Declared(ds).table[text])
  {
    if ds != [] {
      IndexHoldsLastDeclarations(ds[..|ds| - 1]);
    }
  }

  /** A metric declares a text: its lower-cased name or key, or a lower-cased and stripped alias. */
  ghost predicate Declares(m: NamedMetric, text: string, lower: string -> string, strip: string -> string) {
    text == lower(m.name) || text == lower(m.key) || exists a :: a in m.aliases && text == strip(lower(a))
  }

  lemma {:induction false} LastDeclaringSplits(a: seq<Declaration>, b: seq<Declaration>, text: string)
    ensures LastDeclaring(a + b, text)
         == if LastDeclaring(b, text).Some? then LastDeclaring(b, text) else LastDeclaring(a, text)
  {
    if b == [] {
      assert a + b == a;
    } else {
      LastDeclaringSplits(a, b[..|b| - 1], text);
      assert (a + b)[..|a + b| - 1] == a + b[..|b| - 1];
    }
  }

  lemma {:induction false} LastDeclaringIs(ds: seq<Declaration>, text: string, key: string)
    requires forall i :: 0 <= i < |ds| ==> ds[i].key == key
    ensures LastDeclaring(ds, text) == if exists i :: 0 <= i < |ds| && ds[i].text == text then Some(key) else None
  {
    if ds != [] {
      var init := ds[..|ds| - 1];
      LastDeclaringIs(init, text, key);
      if i :| 0 <= i < |init| && init[i].text == text {
        assert ds[i].text == text;
      }
      if ds[|ds| - 1].text != text {
        assert forall i :: 0 <= i < |ds| && ds[i].text == text ==> i < |init| && init[i] == ds[i];
      }
    }
  }

  /** The declarations of a metric, one by one. */
  lemma MetricDeclarationsAre(m: NamedMetric, lower: string -> string, strip: string -> string)
    ensures var ds := MetricDeclarations(m, lower, strip);
            && |ds| == |m.aliases| + 2
            && (forall i :: 0 <= i < |ds| ==> ds[i].key == m.key)
            && ds[0].text == lower(m.name) && ds[1].text == lower(m.key)
            && (forall i :: 2 <= i < |ds| ==> ds[i].text == strip(lower(m.aliases[i - 2])))
  {
  }

  /** A text is among the declarations of a metric exactly if the metric declares it. */
  lemma DeclarationsDeclare(m: NamedMetric, text: string, lower: string -> string, strip: string -> string)
    ensures var ds := MetricDeclarations(m, lower, strip);
            (exists i :: 0 <= i < |ds| && ds[i].text == text) <==> Declares(m, text, lower, strip)
  {
    var ds := MetricDeclarations(m, lower, strip);
    MetricDeclarationsAre(m, lower, strip);
    hide MetricDeclarations;
    if i :| 0 <= i < |ds| && ds[i].text == text {
      if i >= 2 {
        assert m.aliases[i - 2] in m.aliases;
      }
    }
    if a :| a in m.aliases && text == strip(lower(a)) {
      var j :| 0 <= j < |m.aliases| && m.aliases[j] == a;
      assert ds[j + 2].text == text;
    }
  }

  lemma DeclarationsOfMetric(m: NamedMetric, text: string, lower: string -> string, strip: string -> string)
    ensures LastDeclaring(MetricDeclarations(m, lower, strip), text)
         == if Declares(m, text, lower, strip) then Some(m.key) else None
  {
    hide MetricDeclarations, Declares, LastDeclaring;
    MetricDeclarationsAre(m, lower, strip);
    DeclarationsDeclare(m, text, lower, strip);
    LastDeclaringIs(MetricDeclarations(m, lower, strip), text, m.key);
  }

  /** The key of the last metric of the registry that declares a text. */
  ghost function LastDeclarer(registry: seq<NamedMetric>, text: string, lower: string -> string,
                              strip: string -> string): Option<string> {
    if registry == [] then None
    else if Declares(registry[|registry| - 1], text, lower, strip) then Some(registry[|registry| - 1].key)
    else LastDeclarer(registry[..|registry| - 1], text, lower, strip)
  }

  lemma {:induction false} LastDeclarationIsLastDeclarer(registry: seq<NamedMetric>, text: string,
                                                         lower: string -> string, strip: string -> string)
    ensures LastDeclaring(Declarations(registry, lower, strip), text) == LastDeclarer(registry, text, lower, strip)
  {
    hide Declares, MetricDeclarations;
    if registry != [] {
      var init, m := registry[..|registry| - 1], registry[|registry| - 1];
      LastDeclarationIsLastDeclarer(init, text, lower, strip);
      DeclarationsOfMetric(m, text, lower, strip);
      LastDeclaringSplits(Declarations(init, lower, strip), MetricDeclarations(m, lower, strip), text);
    }
  }

  /** An alias leads to the last metric of the registry that declares it; a text that none
      declares is not in the index. */
  lemma AliasLeadsToLastMetric(registry: seq<NamedMetric>, text: string, lower: string -> string,
                               strip: string -> string)
    ensures var table := Declared(Declarations(registry, lower, strip)).table;
            match LastDeclarer(registry, text, lower, strip)
            case None => text !in table
            case Some(key) => text in table && table[text] == key
  {
    hide Declarations, Declared, LastDeclarer, LastDeclaring;
    IndexHoldsLastDeclarations(Declarations(registry, lower, strip));
    LastDeclarationIsLastDeclarer(registry, text, lower, strip);
  }

  // ---------------------------------------------------------------------------------------------
  // Stable sorting by decreasing length

  function Insert(x: string, xs: seq<string>): seq<string> {
    if xs != [] && |xs[0]| > |x| then [xs[0]] + Insert(x, xs[1..]) else [x] + xs
  }

  /** `sorted(xs, key=len, reverse=True)`: longest first, equal lengths in their given order. */
  function SortedByLength(xs: seq<string>): seq<string> {
    if xs == [] then [] else Insert(xs[0], SortedByLength(xs[1..]))
  }

  predicate LongestFirst(xs: seq<string>) {
    forall i, j :: 0 <= i < j < |xs| ==> |xs[i]| >= |xs[j]|
  }

  function OfLength(xs: seq<string>, n: nat): seq<string> {
    if xs == [] then [] else (if |xs[0]| == n then [xs[0]] else []) + OfLength(xs[1..], n)
  }

  lemma OfLengthCons(x: string, xs: seq<string>, n: nat)
    ensures OfLength([x] + xs, n) == (if |x| == n then [x] else []) + OfLength(xs, n)
  {
    assert ([x] + xs)[1..] == xs;
  }

  lemma {:induction false} InsertPermutes(x: string, xs: seq<string>)
    ensures multiset(Insert(x, xs)) == multiset{x} + multiset(xs)
  {
    if xs != [] && |xs[0]| > |x| {
      InsertPermutes(x, xs[1..]);
      assert xs == [xs[0]] + xs[1..];
    }
  }

  lemma {:induction false} InsertIsStable(x: string, xs: seq<string>, n: nat)
    ensures OfLength(Insert(x, xs), n) == (if |x| == n then [x] else []) + OfLength(xs, n)
  {
    if xs != [] && |xs[0]| > |x| {
      InsertIsStable(x, xs[1..], n);
      OfLengthCons(xs[0], Insert(x, xs[1..]), n);
    } else {
      OfLengthCons(x, xs, n);
    }
  }

  lemma {:induction false} InsertSorts(x: string, xs: seq<string>)
    requires LongestFirst(xs)
    ensures LongestFirst(Insert(x, xs))
    ensures Insert(x, xs)[0] == x || (xs != [] && Insert(x, xs)[0] == xs[0])
  {
    if xs != [] && |xs[0]| > |x| {
      var rest := Insert(x, xs[1..]);
      InsertSorts(x, xs[1..]);
      assert |rest[0]| <= |xs[0]|;
    }
  }

  /** The sort is one: a permutation, longest first ... */
  lemma {:induction false} SortingSorts(xs: seq<string>)
    ensures multiset(SortedByLength(xs)) == multiset(xs)
    ensures LongestFirst(SortedByLength(xs))
  {
    if xs != [] {
      hide Insert, LongestFirst;
      var rest := SortedByLength(xs[1..]);
      SortingSorts(xs[1..]);
      InsertPermutes(xs[0], rest);
      InsertSorts(xs[0], rest);
      assert xs == [xs[0]] + xs[1..];
    }
  }

  /** ... and stable among equal lengths. */
  lemma {:induction false} SortingIsStable(xs: seq<string>, n: nat)
    ensures OfLength(SortedByLength(xs), n) == OfLength(xs, n)
  {
    if xs != [] {
      hide Insert;
      SortingIsStable(xs[1..], n);
      InsertIsStable(xs[0], SortedByLength(xs[1..]), n);
      OfLengthCons(xs[0], xs[1..], n);
    }
  }

  // ---------------------------------------------------------------------------------------------
  // Lookup

  /** `a in t` for strings. */
  predicate Contains(a: string, t: string) {
    Occurs(a, t)
  }

  lemma {:induction false} ContainedIsShorter(a: string, t: string)
    ensures Contains(t, t)
    ensures Contains(a, t) ==> |a| <= |t| && (|a| == |t| ==> a == t)
  {
    if Contains(a, t) && !HasPrefix(t, a) {
      ContainedIsShorter(a, t[1..]);
    }
  }

  function FirstContained(aliases: seq<string>, t: string): Option<string> {
    if aliases == [] then None
    else if Contains(aliases[0], t) then Some(aliases[0])
    else FirstContained(aliases[1..], t)
  }

  /** The substring scan, longest alias first. */
  function Scan(idx: Dict, t: string): Option<string>
    requires idx.Valid()
  {
    match FirstContained(SortedByLength(idx.order), t)
    case None => None
    case Some(a) => ScannedIsIndexed(idx, t); Some(idx.table[a])
  }

  lemma ScannedIsIndexed(idx: Dict, t: string)
    requires idx.Valid()
    ensures var r := FirstContained(SortedByLength(idx.order), t); r.Some? ==> r.value in idx.table
  {
    FirstContainedIsFirst(SortedByLength(idx.order), t);
    SortKeepsMembers(idx.order);
  }

  lemma SortKeepsMembers(xs: seq<string>)
    ensures forall x :: x in SortedByLength(xs) <==> x in xs
  {
    SortingSorts(xs);
    forall x
      ensures x in SortedByLength(xs) <==> x in xs
    {
      assert x in multiset(SortedByLength(xs)) <==> x in multiset(xs);
    }
  }

  /** In `xs`, the first `a` stands before any `b`. */
  predicate Before(xs: seq<string>, a: string, b: string) {
    xs != [] && xs[0] != b && (if xs[0] == a then b in xs else Before(xs[1..], a, b))
  }

  lemma {:induction false} FirstContainedIsFirst(xs: seq<string>, t: string)
    ensures match FirstContained(xs, t)
            case None => forall b :: b in xs ==> !Contains(b, t)
            case Some(a) =>
              a in xs && Contains(a, t) && forall b :: b in xs && b != a && Contains(b, t) ==> Before(xs, a, b)
  {
    if xs != [] {
      FirstContainedIsFirst(xs[1..], t);
      assert xs == [xs[0]] + xs[1..];
    }
  }

  lemma {:induction false} BeforeAmongEqualLengths(xs: seq<string>, a: string, b: string, n: nat)
    requires a != b && |a| == n && |b| == n
    ensures Before(xs, a, b) <==> Before(OfLength(xs, n), a, b)
    ensures b in xs <==> b in OfLength(xs, n)
  {
    if xs != [] {
      var x, rest := xs[0], xs[1..];
      assert xs == [x] + rest;
      BeforeAmongEqualLengths(rest, a, b, n);
      assert b in xs <==> b == x || b in rest;
      if |x| == n {
        var some := OfLength(rest, n);
        assert OfLength(xs, n) == [x] + some;
        assert ([x] + some)[0] == x && ([x] + some)[1..] == some;
        assert b in [x] + some <==> b == x || b in some;
      } else {
        assert OfLength(xs, n) == OfLength(rest, n);
      }
    }
  }

  lemma {:induction false} BeforeInSortedIsLonger(xs: seq<string>, a: string, b: string)
    requires LongestFirst(xs) && Before(xs, a, b)
    ensures |a| >= |b|
  {
    if xs[0] == a {
      var k :| 0 <= k < |xs| && xs[k] == b;
    } else {
      BeforeInSortedIsLonger(xs[1..], a, b);
    }
  }

  /** `a` is the longest alias contained in `t`; among the longest, the first inserted. */
  ghost predicate IsBest(order: seq<string>, t: string, a: string) {
    && a in order && Contains(a, t)
    && forall b :: b in order && b != a && Contains(b, t) ==> |b| < |a| || (|b| == |a| && Before(order, a, b))
  }

  /** The scan answers with the metric of the best alias, and with none only if none is contained. */
  lemma ScanFindsBest(idx: Dict, t: string)
    requires idx.Valid()
    ensures Scan(idx, t) == None <==> forall b :: b in idx.order ==> !Contains(b, t)
    ensures forall a :: IsBest(idx.order, t, a) ==> Scan(idx, t) == Some(idx.table[a])
    ensures Scan(idx, t).Some? ==> exists a :: IsBest(idx.order, t, a)
  {
    var sorted := SortedByLength(idx.order);
    ScannedIsIndexed(idx, t);
    SortKeepsMembers(idx.order);
    SortingSorts(idx.order);
    FirstContainedIsFirst(sorted, t);
    match FirstContained(sorted, t)
    case None =>
    case Some(a) =>
      forall b | b in idx.order && b != a && Contains(b, t)
        ensures |b| < |a| || (|b| == |a| && Before(idx.order, a, b))
      {
        SortingIsStable(idx.order, |a|);
        BeforeInSortedIsLonger(sorted, a, b);
        if |b| == |a| {
          BeforeAmongEqualLengths(sorted, a, b, |a|);
          BeforeAmongEqualLengths(idx.order, a, b, |a|);
        }
      }
      assert IsBest(idx.order, t, a);
      forall c | IsBest(idx.order, t, c)
        ensures c == a
      {
        if c != a {
          BeforeIsOneWay(idx.order, a, c);
        }
      }
  }

  lemma {:induction false} BeforeIsOneWay(xs: seq<string>, a: string, b: string)
    ensures !(Before(xs, a, b) && Before(xs, b, a))
  {
    if xs != [] {
      BeforeIsOneWay(xs[1..], a, b);
    }
  }

  /** A text that is itself an alias is its own best alias. */
  lemma ExactMatchIsBest(order: seq<string>, t: string)
    requires t in order
    ensures IsBest(order, t, t)
  {
    hide Contains;
    ContainedIsShorter(t, t);
    forall b | b in order && b != t && Contains(b, t)
      ensures |b| < |t|
    {
      ContainedIsShorter(b, t);
    }
  }

  /** Lookup with its early return for an exact match gives what the scan alone would. */
  method FindByAlias(idx: Dict, text: string, lower: string -> string, strip: string -> string)
      returns (r: Option<string>)
    requires idx.Valid()
    ensures r == Scan(idx, strip(lower(text)))
  {
    var t := strip(lower(text));
    ScanFindsBest(idx, t);
    if t in idx.table {
      ExactMatchIsBest(idx.order, t);
      return Some(idx.table[t]);
    }
    var aliases := SortedByLength(idx.order);
    SortKeepsMembers(idx.order);
    var i := 0;
    while i < |aliases|
      invariant 0 <= i <= |aliases|
      invariant FirstContained(aliases, t) == FirstContained(aliases[i..], t)
    {
      if Contains(aliases[i], t) {
        return Some(idx.table[aliases[i]]);
      }
      i := i + 1;
    }
    return None;
  }
}
