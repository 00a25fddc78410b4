/** The unit registry: three tables filled together, and conversion by way of a base unit. */
module Units {
  import opened Wrappers

  datatype Family = ENERGY | MASS | VOLUME | AREA | DISTANCE | TIME | MONEY | POWER | EMISSION

  datatype Unit = Unit(symbol: string, family: Family)

  /** How symbols become table keys: lower-casing, trimming, and the alias table. */
  datatype Naming = Naming(lower: string -> string, trim: string -> string, aliases: map<string, string>) {
    function Normalize(symbol: string): string {
      var key := lower(trim(symbol));
      if key in aliases then aliases[key] else key
    }
  }

  datatype Registry = Registry(units: map<string, Unit>, toBase: map<string, real -> real>,
                               fromBase: map<string, real -> real>)

  datatype Registration = Registration(symbol: string, family: Family, toBase: real -> real, fromBase: real -> real)

  datatype Outcome =
    | Converted(value: real)
    | UnknownUnit(symbol: string)
    | FamilyMismatch(fromFamily: Family, toFamily: Family)
    | CurrencyRejected
    | MissingInRegistry

  const EMPTY := Registry(map[], map[], map[])

  function Register(r: Registry, g: Registration, n: Naming): Registry {
    var key := n.lower(g.symbol);
    Registry(r.units[key := Unit(g.symbol, g.family)], r.toBase[key := g.toBase], r.fromBase[key := g.fromBase])
  }

  function Lookup(r: Registry, symbol: string, n: Naming): Option<Unit> {
    var key := n.Normalize(symbol);
    if key in r.units then Some(r.units[key]) else None
  }

  function Convert(r: Registry, value: real, from: string, to: string, n: Naming): Outcome {
    var fromUnit, toUnit := Lookup(r, from, n), Lookup(r, to, n);
    if fromUnit == None then UnknownUnit(from)
    else if toUnit == None then UnknownUnit(to)
    else if fromUnit.value.family != toUnit.value.family then
      FamilyMismatch(fromUnit.value.family, toUnit.value.family)
    else if fromUnit.value.family == MONEY then CurrencyRejected
    else
      var fromKey, toKey := n.Normalize(from), n.Normalize(to);
      if fromKey !in r.toBase || toKey !in r.fromBase then MissingInRegistry
      else Converted(r.fromBase[toKey](r.toBase[fromKey](value)))
  }

  function CanConvert(r: Registry, from: string, to: string, n: Naming): bool {
    var fromUnit, toUnit := Lookup(r, from, n), Lookup(r, to, n);
    && fromUnit.Some? && toUnit.Some?
    && fromUnit.value.family == toUnit.value.family
    && fromUnit.value.family != MONEY
  }

  /** The registry after a sequence of registrations. */
  function Registered(gs: seq<Registration>, n: Naming): Registry {
    if gs == [] then EMPTY else Register(Registered(gs[..|gs| - 1], n), gs[|gs| - 1], n)
  }

  /** The three tables hold the same keys. */
  ghost predicate SameKeys(r: Registry) {
    r.units.Keys == r.toBase.Keys == r.fromBase.Keys
  }

  /** The tables hold a registration under a key: its unit as given, and its two functions. */
  ghost predicate Defines(r: Registry, key: string, g: Registration) {
    && key in r.units && r.units[key] == Unit(g.symbol, g.family)
    && key in r.toBase && r.toBase[key] == g.toBase
    && key in r.fromBase && r.fromBase[key] == g.fromBase
  }

  /** Two registries have the same entries, or none, under a key. */
  ghost predicate SameAt(r: Registry, q: Registry, key: string) {
    && (key in r.units <==> key in q.units) && (key in r.units ==> r.units[key] == q.units[key])
    && (key in r.toBase <==> key in q.toBase) && (key in r.toBase ==> r.toBase[key] == q.toBase[key])
    && (key in r.fromBase <==> key in q.fromBase) && (key in r.fromBase ==> r.fromBase[key] == q.fromBase[key])
  }

  /** The module-level tables, which registering updates in place. */
  class UnitTables {
    var units: map<string, Unit>
    var toBase: map<string, real -> real>
    var fromBase: map<string, real -> real>
    const naming: Naming

    constructor (naming: Naming)
      ensures State() == EMPTY && this.naming == naming
    {
      units, toBase, fromBase := map[], map[], map[];
      this.naming := naming;
    }

    function State(): Registry
      reads this
    {
      Registry(units, toBase, fromBase)
    }

    method RegisterUnit(g: Registration)
      modifies this
      ensures State() == Register(old(State()), g, naming)
      ensures var key := naming.lower(g.symbol);
              && Defines(State(), key, g)
              && (forall k :: k != key ==> SameAt(State(), old(State()), k))
      ensures SameKeys(old(State())) ==> SameKeys(State())
    {
      var key := naming.lower(g.symbol);
      units := units[key := Unit(g.symbol, g.family)];
      toBase := toBase[key := g.toBase];
      fromBase := fromBase[key := g.fromBase];
    }
  }

  // ---------------------------------------------------------------------------------------------
  // What every sequence of registrations keeps

  /** The three tables always hold the same keys: those of the registered symbols. */
  lemma {:induction false} TablesKeepSameKeys(gs: seq<Registration>, n: Naming)
    ensures SameKeys(Registered(gs, n))
    ensures forall key :: key in Registered(gs, n).units <==> exists i :: 0 <= i < |gs| && n.lower(gs[i].symbol) == key
  {
    if gs != [] {
      var init, last := gs[..|gs| - 1], gs[|gs| - 1];
      TablesKeepSameKeys(init, n);
      forall key
        ensures key in Registered(gs, n).units <==> exists i :: 0 <= i < |gs| && n.lower(gs[i].symbol) == key
      {
        if i :| 0 <= i < |gs| && n.lower(gs[i].symbol) == key {
          if i < |gs| - 1 {
            assert init[i] == gs[i];
          }
        }
        if key in Registered(gs, n).units {
          if key == n.lower(last.symbol) {
            assert gs[|gs| - 1] == last;
          } else {
            var i :| 0 <= i < |init| && n.lower(init[i].symbol) == key;
            assert gs[i] == init[i];
          }
        }
      }
    }
  }

  /** On every reachable registry the defensive branch is dead, and conversion succeeds exactly
      where it is announced. */
  lemma ConversionIsAnnounced(gs: seq<Registration>, value: real, from: string, to: string, n: Naming)
    ensures var r := Registered(gs, n);
            && Convert(r, value, from, to, n) != MissingInRegistry
            && (Convert(r, value, from, to, n).Converted? <==> CanConvert(r, from, to, n))
  {
    TablesKeepSameKeys(gs, n);
  }

  /** Every refusal names its reason, and nothing else is refused: a symbol that leads nowhere, the
      first of the two if both do; two families, in the order of the symbols; two kinds of money. */
  lemma RefusalsHaveReasons(gs: seq<Registration>, value: real, from: string, to: string, n: Naming)
    ensures var r := Registered(gs, n);
            var out, a, b := Convert(r, value, from, to, n), Lookup(r, from, n), Lookup(r, to, n);
            && (out.UnknownUnit? <==> a == None || b == None)
            && (out.UnknownUnit? ==> out.symbol == if a == None then from else to)
            && (forall f, g :: out == FamilyMismatch(f, g) <==>
                a.Some? && b.Some? && a.value.family == f && b.value.family == g && f != g)
            && (out == CurrencyRejected <==> a.Some? && b.Some? && a.value.family == b.value.family == MONEY)
            && (out.Converted? <==>
                a.Some? && b.Some? && a.value.family == b.value.family && a.value.family != MONEY)
  {
    TablesKeepSameKeys(gs, n);
  }

  ghost predicate InversePair(toBase: real -> real, fromBase: real -> real) {
    (forall v :: fromBase(toBase(v)) == v) && (forall v :: toBase(fromBase(v)) == v)
  }

  /** Every unit's two functions undo each other. */
  ghost predicate Invertible(r: Registry) {
    SameKeys(r) && forall key :: key in r.units ==> InversePair(r.toBase[key], r.fromBase[key])
  }

  lemma {:induction false} InversePairsStay(gs: seq<Registration>, n: Naming)
    requires forall i :: 0 <= i < |gs| ==> InversePair(gs[i].toBase, gs[i].fromBase)
    ensures Invertible(Registered(gs, n))
  {
    hide InversePair;
    TablesKeepSameKeys(gs, n);
    if gs != [] {
      InversePairsStay(gs[..|gs| - 1], n);
    }
  }

  /** The two functions of a unit that is `k` base units. */
  function FactorTo(k: real): real -> real {
    v => v * k
  }

  function FactorFrom(k: real): real -> real
    requires k != 0.0
  {
    v => v / k
  }

  lemma FactorsAreInverse(k: real)
    requires k != 0.0
    ensures InversePair(FactorTo(k), FactorFrom(k))
  {
    forall v: real
      ensures FactorFrom(k)(FactorTo(k)(v)) == v
    {
      assert v * k / k == v;
    }
    forall v: real
      ensures FactorTo(k)(FactorFrom(k)(v)) == v
    {
      assert v / k * k == v;
    }
  }

  // ---------------------------------------------------------------------------------------------
  // Conversions compose

  /** Converting over a middle unit is converting directly, and there and back is the identity. */
  lemma ConversionsCompose(gs: seq<Registration>, value: real, a: string, b: string, c: string, n: Naming)
    requires forall i :: 0 <= i < |gs| ==> InversePair(gs[i].toBase, gs[i].fromBase)
    requires var r := Registered(gs, n); CanConvert(r, a, b, n) && CanConvert(r, b, c, n)
    ensures var r := Registered(gs, n);
            var middle := Convert(r, value, a, b, n);
            middle.Converted? && Convert(r, middle.value, b, c, n) == Convert(r, value, a, c, n)
    ensures var r := Registered(gs, n);
            Convert(r, Convert(r, value, a, b, n).value, b, a, n) == Converted(value)
  {
    var r := Registered(gs, n);
    InversePairsStay(gs, n);
    hide Registered;
    var keyA, keyB := n.Normalize(a), n.Normalize(b);
    var base := r.toBase[keyA](value);
    assert InversePair(r.toBase[keyB], r.fromBase[keyB]);
    assert InversePair(r.toBase[keyA], r.fromBase[keyA]);
    assert r.toBase[keyB](r.fromBase[keyB](base)) == base;
  }

  /** Between units that are `j` and `k` base units, conversion multiplies by `j / k`: a quantity
      keeps its size in base units. */
  lemma FactorConversion(r: Registry, value: real, a: string, b: string, j: real, k: real, n: Naming)
    requires SameKeys(r) && CanConvert(r, a, b, n) && k != 0.0
    requires r.toBase[n.Normalize(a)] == FactorTo(j) && r.fromBase[n.Normalize(b)] == FactorFrom(k)
    ensures var out := Convert(r, value, a, b, n);
            out.Converted? && out.value == value * j / k && out.value * k == value * j
  {
    var x := value * j;
    assert x / k * k == x;
  }

  // ---------------------------------------------------------------------------------------------
  // What a registration changes

  /** A registration is seen through exactly the symbols that normalize to its lower-cased symbol;
      every other lookup, and every conversion between other symbols, stays as it was. */
  lemma RegistrationIsLocal(r: Registry, g: Registration, s: string, t: string, value: real, n: Naming)
    ensures var after, key := Register(r, g, n), n.lower(g.symbol);
            && (n.Normalize(s) == key ==> Lookup(after, s, n) == Some(Unit(g.symbol, g.family)))
            && (n.Normalize(s) != key ==> Lookup(after, s, n) == Lookup(r, s, n))
            && (n.Normalize(s) != key && n.Normalize(t) != key ==>
                Convert(after, value, s, t, n) == Convert(r, value, s, t, n))
  {
  }

  /** A registered symbol leads to its new unit exactly when it normalizes to its own lower-cased
      form, unless the unit was there before: an alias or surrounding white space hides it. */
  lemma ReachableByOwnName(r: Registry, g: Registration, n: Naming)
    ensures Lookup(Register(r, g, n), g.symbol, n) == Some(Unit(g.symbol, g.family)) <==>
            n.Normalize(g.symbol) == n.lower(g.symbol) || Lookup(r, g.symbol, n) == Some(Unit(g.symbol, g.family))
  {
  }

  /** Two registrations hidden by their names: `hectare`, which the alias table sends to the `ha`
      registered before it, and a symbol with white space around it, which no alias touches. */
  lemma HiddenRegistrations(n: Naming, ha: Registration, hectare: Registration, padded: Registration)
    requires ha.symbol == "ha" && hectare.symbol == "hectare" && padded.symbol == " x"
    requires n.lower("ha") == "ha" && n.lower("hectare") == "hectare" && n.trim("hectare") == "hectare"
    requires n.lower(" x") == " x" && n.lower("x") == "x" && n.trim(" x") == "x"
    requires n.aliases == map["hectare" := "ha"]
    ensures Lookup(Register(Register(EMPTY, ha, n), hectare, n), "hectare", n) == Some(Unit("ha", ha.family))
    ensures Lookup(Register(EMPTY, padded, n), " x", n) == None
  {
  }
}
