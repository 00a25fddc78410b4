/** The forms of a period, written out: which texts name a period, and which period each of them names. */
module PeriodForms {
  import opened Calendar
  import opened FiscalYears
  import opened Periods
  import opened PeriodText
  import opened Text

  /** A period in words. `fy` is the mark of a fiscal year, and the numbers are texts. */
  datatype Phrase =
    | Days(y: string, m: string, d: string, y2: string, m2: string, d2: string)
    | Label(fy: string, year: string, suffix: string)
    | Quarter(q: char, number: char, space: string, fy: string, year: string, suffix: string)
    | Named(name: string, month: string, space: string, year: string)
    | Month(year: string, month: string)

  predicate Digits(s: string, n: nat) {
    |s| == n && AllDigits(s)
  }

  predicate Spaces(s: string) {
    s != "" && AllSpaces(s)
  }

  /** The first three letters of `name` are those of `abbreviation`, in either case. */
  predicate Starts(name: string, abbreviation: string) {
    && |name| >= 3 && |abbreviation| == 3
    && forall i :: 0 <= i < 3 ==> name[i] == abbreviation[i] || name[i] as int + 32 == abbreviation[i] as int
  }

  /** The name starts like that of the month with this number. */
  predicate NamesMonth(name: string, month: string) {
    || (Starts(name, "jan") && month == "01") || (Starts(name, "feb") && month == "02")
    || (Starts(name, "mar") && month == "03") || (Starts(name, "apr") && month == "04")
    || (Starts(name, "may") && month == "05") || (Starts(name, "jun") && month == "06")
    || (Starts(name, "jul") && month == "07") || (Starts(name, "aug") && month == "08")
    || (Starts(name, "sep") && month == "09") || (Starts(name, "oct") && month == "10")
    || (Starts(name, "nov") && month == "11") || (Starts(name, "dec") && month == "12")
  }

  predicate IsLabel(fy: string, year: string, suffix: string) {
    fy in {"FY", "Fy", "fY", "fy"} && Digits(year, 4) && Digits(suffix, 2)
  }

  predicate WellFormed(p: Phrase) {
    match p
    case Days(y, m, d, y2, m2, d2) =>
      Digits(y, 4) && Digits(m, 2) && Digits(d, 2) && Digits(y2, 4) && Digits(m2, 2) && Digits(d2, 2)
    case Label(fy, year, suffix) => IsLabel(fy, year, suffix)
    case Quarter(q, number, space, fy, year, suffix) =>
      q in {'Q', 'q'} && number in {'1', '2', '3', '4'} && Spaces(space) && IsLabel(fy, year, suffix)
    case Named(name, month, space, year) =>
      && 3 <= |name| <= 9 && (forall i :: 0 <= i < |name| ==> 'a' <= name[i] <= 'z' || 'A' <= name[i] <= 'Z')
      && NamesMonth(name, month) && Spaces(space) && Digits(year, 4)
    case Month(year, month) => Digits(year, 4) && Digits(month, 2)
  }

  function Spelling(p: Phrase): string {
    match p
    case Days(y, m, d, y2, m2, d2) => y + "-" + m + "-" + d + ".." + y2 + "-" + m2 + "-" + d2
    case Label(fy, year, suffix) => fy + year + "-" + suffix
    case Quarter(q, number, space, fy, year, suffix) => [q, number] + space + (fy + year + "-" + suffix)
    case Named(name, _, space, year) => name + space + year
    case Month(year, month) => year + "-" + month
  }

  function Meaning(p: Phrase, config: FiscalConfig): Parsed
    requires WellFormed(p)
  {
    match p
    case Days(y, m, d, y2, m2, d2) =>
      var a, b := Civil(NumberOf(y), NumberOf(m), NumberOf(d)), Civil(NumberOf(y2), NumberOf(m2), NumberOf(d2));
      if a.Valid() && b.Valid() then Period(Range(DayOf(a) * MS_PER_DAY, EndOfDayUtc(DayOf(b) * MS_PER_DAY)))
      else HostDefined
    case Label(_, year, _) => Period(Range(FyStart(NumberOf(year), config), FyEnd(NumberOf(year), config)))
    case Quarter(_, number, _, _, year, _) =>
      Period(QuarterRange(if number == '1' then 1 else if number == '2' then 2 else if number == '3' then 3 else 4,
                          NumberOf(year), config))
    case Named(_, month, _, year) => MonthPeriod(NumberOf(year), NumberOf(month) - 1)
    case Month(year, month) => MonthPeriod(NumberOf(year), NumberOf(month) - 1)
  }

  // ---------------------------------------------------------------------------------------------
  // Every phrase is read as what it means

  /** The text needs no trimming and is read as what the phrase means. */
  ghost predicate Reads(p: Phrase, config: FiscalConfig)
    requires WellFormed(p)
  {
    Trimmed(Spelling(p)) && ParsePeriod(Spelling(p), config) == Meaning(p, config)
  }

  lemma DigitEnds(s: string)
    requires s != "" && IsDigit(s[|s| - 1]) && (IsDigit(s[0]) || IsLetter(s[0]))
    ensures Trimmed(s) && Trim(s) == s
  {
    TrimKeeps(s);
  }

  lemma DateSpells(y: string, m: string, d: string)
    requires Digits(y, 4) && Digits(m, 2) && Digits(d, 2)
    ensures var s := y + "-" + m + "-" + d;
            IsoDateShape(s) && |s| == 10 && CivilText(s) == Civil(NumberOf(y), NumberOf(m), NumberOf(d))
            && IsDigit(s[0]) && IsDigit(s[9])
  {
    hide NumberOf, IsDigit;
    ShapeOfParts(y, m, d);
    var s := y + "-" + m + "-" + d;
    assert s[0] == y[0] && s[9] == d[1];
  }

  lemma DaysRead(p: Phrase, config: FiscalConfig)
    requires p.Days? && WellFormed(p)
    ensures Reads(p, config)
  {
    hide IsoDateShape, NumberOf, CivilText, DayOf, EndOfDayUtc, Civil.Valid, Trim, IsDigit;
    var a, b := p.y + "-" + p.m + "-" + p.d, p.y2 + "-" + p.m2 + "-" + p.d2;
    DateSpells(p.y, p.m, p.d);
    DateSpells(p.y2, p.m2, p.d2);
    var s := Spelling(p);
    assert s == a + ".." + b;
    assert s[..10] == a && s[12..] == b && s[0] == a[0] && s[|s| - 1] == b[9];
    DigitEnds(s);
  }

  lemma LabelSpelt(fy: string, year: string, suffix: string)
    requires IsLabel(fy, year, suffix)
    ensures var s := fy + year + "-" + suffix;
            |s| == 9 && FyShape(s) && s[2..6] == year && IsLetter(s[0]) && IsDigit(s[8])
  {
    var s := fy + year + "-" + suffix;
    assert s[0] == fy[0] && s[1] == fy[1] && s[2..6] == year && s[7..] == suffix && s[8] == suffix[1];
  }

  lemma LabelIsRead(p: Phrase, config: FiscalConfig)
    requires p.Label? && WellFormed(p)
    ensures Reads(p, config)
  {
    hide NumberOf, ParsePeriod, FyStart, FyEnd, FyShape, Trim, IsDigit, IsLetter;
    LabelSpelt(p.fy, p.year, p.suffix);
    DigitEnds(Spelling(p));
    LabelReads(Spelling(p), config);
  }

  lemma QuarterIsRead(p: Phrase, config: FiscalConfig)
    requires p.Quarter? && WellFormed(p)
    ensures Reads(p, config)
  {
    hide NumberOf, ParsePeriod, QuarterRange, FyShape, Trim, IsDigit;
    var s, mark := Spelling(p), p.fy + p.year + "-" + p.suffix;
    LabelSpelt(p.fy, p.year, p.suffix);
    assert s == [p.q, p.number] + p.space + mark;
    assert s[2..|s| - 9] == p.space && s[|s| - 9..] == mark && s[|s| - 1] == mark[8];
    assert s[0] == p.q && s[1] == p.number;
    DigitEnds(s);
    QuarterReads(s, config);
  }

  lemma {:induction false} LettersOf(name: string, rest: string)
    requires forall i :: 0 <= i < |name| ==> IsLetter(name[i])
    requires rest != "" && !IsLetter(rest[0])
    ensures Letters(name + rest) == |name|
  {
    if name == "" {
      assert name + rest == rest;
    } else {
      assert (name + rest)[1..] == name[1..] + rest;
      LettersOf(name[1..], rest);
    }
  }

  /** The parser's search and the literal table agree. */
  lemma MonthIsFound(name: string, month: string)
    requires NamesMonth(name, month)
    ensures Digits(month, 2) && 1 <= NumberOf(month) <= 12
    ensures IndexOfMonth([LowerLetter(name[0]), LowerLetter(name[1]), LowerLetter(name[2])], 0) == NumberOf(month) - 1
  {
    MonthIsNumber(name, month);
    hide Starts, LowerLetter, IndexOfMonth, NumberOf, Digits;
    MonthsAreFound(name);
  }

  lemma MonthIsNumber(name: string, month: string)
    requires NamesMonth(name, month)
    ensures Digits(month, 2)
    ensures NumberOf(month) == 10 * (month[0] as int - '0' as int) + (month[1] as int - '0' as int)
  {
    hide Starts, NumberOf;
    TwoDigits(month);
  }

  lemma TwoDigits(s: string)
    requires Digits(s, 2)
    ensures NumberOf(s) == 10 * (s[0] as int - '0' as int) + (s[1] as int - '0' as int)
  {
    assert s[..1][..0] == "" && s[..1][0] == s[0];
    assert NumberOf(s[..1]) == s[0] as int - '0' as int;
  }

  lemma LoweredIs(name: string, m: string)
    requires Starts(name, m) && forall i :: 0 <= i < 3 ==> 'a' <= m[i] <= 'z'
    ensures [LowerLetter(name[0]), LowerLetter(name[1]), LowerLetter(name[2])] == m
  {
  }

  lemma MonthsAreFound(name: string)
    requires |name| >= 3
    ensures var i := IndexOfMonth([LowerLetter(name[0]), LowerLetter(name[1]), LowerLetter(name[2])], 0);
            && (Starts(name, "jan") ==> i == 0) && (Starts(name, "feb") ==> i == 1)
            && (Starts(name, "mar") ==> i == 2) && (Starts(name, "apr") ==> i == 3)
            && (Starts(name, "may") ==> i == 4) && (Starts(name, "jun") ==> i == 5)
            && (Starts(name, "jul") ==> i == 6) && (Starts(name, "aug") ==> i == 7)
            && (Starts(name, "sep") ==> i == 8) && (Starts(name, "oct") ==> i == 9)
            && (Starts(name, "nov") ==> i == 10) && (Starts(name, "dec") ==> i == 11)
  {
    hide Starts, LowerLetter, IndexOfMonth;
    forall m: string | Starts(name, m) && |m| == 3 && (forall i :: 0 <= i < 3 ==> 'a' <= m[i] <= 'z')
      ensures [LowerLetter(name[0]), LowerLetter(name[1]), LowerLetter(name[2])] == m
    {
      LoweredIs(name, m);
    }
    MonthsInOrder();
  }

  lemma MonthsInOrder()
    ensures IndexOfMonth("jan", 0) == 0 && IndexOfMonth("feb", 0) == 1 && IndexOfMonth("mar", 0) == 2
    ensures IndexOfMonth("apr", 0) == 3 && IndexOfMonth("may", 0) == 4 && IndexOfMonth("jun", 0) == 5
    ensures IndexOfMonth("jul", 0) == 6 && IndexOfMonth("aug", 0) == 7 && IndexOfMonth("sep", 0) == 8
    ensures IndexOfMonth("oct", 0) == 9 && IndexOfMonth("nov", 0) == 10 && IndexOfMonth("dec", 0) == 11
  {
    hide IndexOfMonth;
    MonthsDiffer();
    forall i | 0 <= i < 12
      ensures IndexOfMonth(MONTH_NAMES[i], 0) == i
    {
      FoundFrom(i, 0);
    }
    assert IndexOfMonth(MONTH_NAMES[0], 0) == 0 && IndexOfMonth(MONTH_NAMES[1], 0) == 1;
    assert IndexOfMonth(MONTH_NAMES[2], 0) == 2 && IndexOfMonth(MONTH_NAMES[3], 0) == 3;
    assert IndexOfMonth(MONTH_NAMES[4], 0) == 4 && IndexOfMonth(MONTH_NAMES[5], 0) == 5;
    assert IndexOfMonth(MONTH_NAMES[6], 0) == 6 && IndexOfMonth(MONTH_NAMES[7], 0) == 7;
    assert IndexOfMonth(MONTH_NAMES[8], 0) == 8 && IndexOfMonth(MONTH_NAMES[9], 0) == 9;
    assert IndexOfMonth(MONTH_NAMES[10], 0) == 10 && IndexOfMonth(MONTH_NAMES[11], 0) == 11;
  }

  /** Two months that share the third letter differ in the second. */
  lemma MonthsDiffer()
    ensures forall i, j :: 0 <= i < j < 12 ==> MONTH_NAMES[i] != MONTH_NAMES[j]
  {
    var second, third := "aeapauuuecoe", "nbrrynlgptvc";
    forall i | 0 <= i < 12
      ensures |MONTH_NAMES[i]| == 3 && MONTH_NAMES[i][1] == second[i] && MONTH_NAMES[i][2] == third[i]
    {
    }
    assert forall i, j :: 0 <= i < j < 12 ==> third[i] != third[j] || second[i] != second[j];
  }

  lemma {:induction false} FoundFrom(i: nat, from: nat)
    requires from <= i < 12 && forall i, j :: 0 <= i < j < 12 ==> MONTH_NAMES[i] != MONTH_NAMES[j]
    ensures IndexOfMonth(MONTH_NAMES[i], from) == i
    decreases i - from
  {
    if from < i {
      FoundFrom(i, from + 1);
    }
  }

  lemma NamedIsRead(p: Phrase, config: FiscalConfig)
    requires p.Named? && WellFormed(p)
    ensures Reads(p, config)
  {
    hide NumberOf, ParsePeriod, MonthPeriod, Trim, IndexOfMonth, NamesMonth, IsDigit, LowerLetter;
    var s := Spelling(p);
    assert s == p.name + (p.space + p.year);
    assert !IsLetter(p.space[0]);
    LettersOf(p.name, p.space + p.year);
    hide Letters;
    var k := |p.name|;
    assert s[k..|s| - 4] == p.space && s[|s| - 4..] == p.year && s[|s| - 1] == p.year[3];
    assert s[0] == p.name[0] && s[1] == p.name[1] && s[2] == p.name[2];
    MonthIsFound(p.name, p.month);
    assert NamedMonthShape(s);
    hide NamedMonthShape;
    DigitEnds(s);
    NamedMonthReads(s, config);
  }

  lemma MonthIsRead(p: Phrase, config: FiscalConfig)
    requires p.Month? && WellFormed(p)
    ensures Reads(p, config)
  {
    hide NumberOf, ParsePeriod, MonthPeriod, Trim, IsDigit;
    var s := Spelling(p);
    assert s[..4] == p.year && s[5..] == p.month && s[0] == p.year[0] && s[6] == p.month[1];
    DigitEnds(s);
    IsoMonthReads(s, config);
  }

  lemma AllRead(p: Phrase, config: FiscalConfig)
    requires WellFormed(p)
    ensures Reads(p, config)
  {
    hide WellFormed, Reads;
    match p
    case Days(_, _, _, _, _, _) => DaysRead(p, config);
    case Label(_, _, _) => LabelIsRead(p, config);
    case Quarter(_, _, _, _, _, _) => QuarterIsRead(p, config);
    case Named(_, _, _, _) => NamedIsRead(p, config);
    case Month(_, _) => MonthIsRead(p, config);
  }

  /** A phrase, with any white space around it, is read as what it means. */
  lemma PhraseReads(before: string, p: Phrase, after: string, config: FiscalConfig)
    requires AllSpaces(before) && AllSpaces(after) && WellFormed(p)
    ensures ParsePeriod(before + Spelling(p) + after, config) == Meaning(p, config)
  {
    hide WellFormed, Spelling, Meaning, ParsePeriod, IsSpace, TrimStart, TrimEnd;
    AllRead(p, config);
    TrimAround(before, Spelling(p), after);
    TrimAround("", Spelling(p), "");
    assert "" + Spelling(p) + "" == Spelling(p);
    TrimDecides(before + Spelling(p) + after, Spelling(p), config);
  }

  lemma TrimDecides(s: string, t: string, config: FiscalConfig)
    requires Trim(s) == Trim(t)
    ensures ParsePeriod(s, config) == ParsePeriod(t, config)
  {
    hide Trim, RangeShape, QuarterShape, FyShape, NamedMonthShape, IsoMonthShape, NamedMonth, NumberOf, FyFromLabel,
      QuarterRange, ParseRange, MonthPeriod;
  }

  // ---------------------------------------------------------------------------------------------
  // Nothing else is read

  /** The text is a phrase, with white space around it. */
  ghost predicate Spells(s: string, before: string, p: Phrase, after: string) {
    WellFormed(p) && AllSpaces(before) && AllSpaces(after) && s == before + Spelling(p) + after
  }

  /** A text names a period if and only if it is a phrase between white space, and then the one that
      the phrase means. */
  lemma OnlyPhrasesRead(s: string, config: FiscalConfig)
    ensures ParsePeriod(s, config) != Unrecognized <==> exists before, p, after :: Spells(s, before, p, after)
    ensures forall before, p, after :: Spells(s, before, p, after) ==> ParsePeriod(s, config) == Meaning(p, config)
  {
    hide WellFormed, Spelling, Meaning, ParsePeriod, IsSpace, AllSpaces, Trim;
    forall before, p, after | Spells(s, before, p, after)
      ensures ParsePeriod(s, config) == Meaning(p, config) != Unrecognized
    {
      PhraseReads(before, p, after, config);
      MeaningIsKnown(p, config);
    }
    if ParsePeriod(s, config) != Unrecognized {
      var before, after := TrimParts(s);
      var p := PhraseOf(s, config);
      assert Spells(s, before, p, after);
    }
  }

  lemma MeaningIsKnown(p: Phrase, config: FiscalConfig)
    requires WellFormed(p)
    ensures Meaning(p, config) != Unrecognized
  {
    hide NumberOf, DayOf, EndOfDayUtc, FyStart, FyEnd, QuarterRange;
  }

  lemma PhraseOf(s: string, config: FiscalConfig) returns (p: Phrase)
    requires ParsePeriod(s, config) != Unrecognized
    ensures WellFormed(p) && Spelling(p) == Trim(s)
  {
    hide WellFormed, Spelling, Trim, RangeShape, QuarterShape, FyShape, NamedMonthShape, IsoMonthShape, NamedMonth,
      NumberOf, MonthPeriod, QuarterRange, ParseRange;
    var raw := Trim(s);
    if RangeShape(raw) {
      p := DaysOf(raw);
    } else if QuarterShape(raw) {
      p := QuarterOf(raw);
    } else if FyShape(raw) {
      p := LabelOf(raw);
    } else if NamedMonthShape(raw) && NamedMonth(raw) >= 0 {
      p := NamedOf(raw);
    } else {
      ShapeOfMonth(raw);
      p := Month(raw[..4], raw[5..]);
    }
  }

  lemma ShapeOfMonth(s: string)
    requires IsoMonthShape(s)
    ensures |s| == 7 && WellFormed(Month(s[..4], s[5..])) && Spelling(Month(s[..4], s[5..])) == s
  {
    assert s == s[..4] + "-" + s[5..];
  }

  lemma DaysOf(s: string) returns (p: Phrase)
    requires RangeShape(s)
    ensures WellFormed(p) && Spelling(p) == s
  {
    var a, b := s[..10], s[12..];
    p := Days(a[..4], a[5..7], a[8..], b[..4], b[5..7], b[8..]);
    assert a == a[..4] + "-" + a[5..7] + "-" + a[8..] && b == b[..4] + "-" + b[5..7] + "-" + b[8..];
    assert s == a + ".." + b;
  }

  lemma LabelOf(s: string) returns (p: Phrase)
    requires FyShape(s)
    ensures p.Label? && WellFormed(p) && Spelling(p) == s
  {
    p := Label(s[..2], s[2..6], s[7..]);
    assert s[..2] == [s[0], s[1]];
    assert s == s[..2] + s[2..6] + "-" + s[7..];
  }

  lemma QuarterOf(s: string) returns (p: Phrase)
    requires QuarterShape(s)
    ensures WellFormed(p) && Spelling(p) == s
  {
    var l := LabelOf(s[|s| - 9..]);
    p := Quarter(s[0], s[1], s[2..|s| - 9], l.fy, l.year, l.suffix);
    hide FyShape;
    assert s == [s[0], s[1]] + s[2..|s| - 9] + s[|s| - 9..];
  }

  lemma NamedOf(s: string) returns (p: Phrase)
    requires NamedMonthShape(s) && NamedMonth(s) >= 0
    ensures WellFormed(p) && Spelling(p) == s
  {
    var k, i := Letters(s), NamedMonth(s);
    var name := s[..k];
    p := Named(name, Pad2(i + 1), s[k..|s| - 4], s[|s| - 4..]);
    NameOfIndex(name, i);
    assert s == name + s[k..|s| - 4] + s[|s| - 4..];
  }

  lemma NameOfIndex(name: string, i: int)
    requires |name| >= 3 && 0 <= i < 12
    requires [LowerLetter(name[0]), LowerLetter(name[1]), LowerLetter(name[2])] == MONTH_NAMES[i]
    ensures NamesMonth(name, Pad2(i + 1))
  {
    hide Starts, Pad2, LowerLetter;
    StartsLowered(name);
    PadsOfMonths();
  }

  lemma StartsLowered(name: string)
    requires |name| >= 3
    ensures Starts(name, [LowerLetter(name[0]), LowerLetter(name[1]), LowerLetter(name[2])])
  {
  }

  lemma PadsOfMonths()
    ensures Pad2(1) == "01" && Pad2(2) == "02" && Pad2(3) == "03" && Pad2(4) == "04" && Pad2(5) == "05"
    ensures Pad2(6) == "06" && Pad2(7) == "07" && Pad2(8) == "08" && Pad2(9) == "09"
    ensures Pad2(10) == "10" && Pad2(11) == "11" && Pad2(12) == "12"
  {
    assert PrintNat(10) == "1" + "0" && PrintNat(11) == "1" + "1" && PrintNat(12) == "1" + "2";
  }
}
