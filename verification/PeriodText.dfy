/** The period grammar: printing ranges and fiscal-year labels, and parsing them back. */
module PeriodText {
  import opened Calendar
  import opened Periods
  import opened FiscalYears
  import opened Text

  /** `HostDefined`: a date outside the calendar, such as month 13 or 31 February, whose reading
      ECMA-262 leaves to the host. `Unrecognized`: an exception. */
  datatype Parsed = Period(range: Range) | Unrecognized | HostDefined

  // ---------------------------------------------------------------------------------------------
  // Printing

  function IsoDate(t: Instant): string {
    Print(FullYear(t)) + "-" + Pad2(MonthOfYearAt(t)) + "-" + Pad2(DateAt(t))
  }

  function FormatPeriod(start: Instant, end: Instant): string {
    IsoDate(start) + ".." + IsoDate(end)
  }

  function StartOfDay(t: Instant): Instant {
    Day(t) * MS_PER_DAY
  }

  function EndOfDay(t: Instant): Instant {
    Day(t) * MS_PER_DAY + MS_PER_DAY - 1
  }

  /** 23:59:59.999 on the year, month and date of `t`, by way of `Date.UTC`. */
  function EndOfDayUtc(t: Instant): Instant {
    DayStamp(t) + MS_PER_DAY - 1
  }

  // ---------------------------------------------------------------------------------------------
  // Parsing

  predicate IsoDateShape(s: string) {
    && |s| == 10
    && AllDigits(s[..4]) && s[4] == '-' && AllDigits(s[5..7]) && s[7] == '-' && AllDigits(s[8..])
  }

  predicate RangeShape(s: string) {
    && |s| == 22
    && IsoDateShape(s[..10]) && s[10] == '.' && s[11] == '.' && IsoDateShape(s[12..])
  }

  /** The civil date an ISO date spells. */
  function CivilText(s: string): Civil
    requires IsoDateShape(s)
  {
    Civil(NumberOf(s[..4]), NumberOf(s[5..7]), NumberOf(s[8..]))
  }

  function ParseRange(s: string): Parsed
    requires RangeShape(s)
  {
    var a, b := CivilText(s[..10]), CivilText(s[12..]);
    if a.Valid() && b.Valid() then
      Period(Range(DayOf(a) * MS_PER_DAY, EndOfDayUtc(DayOf(b) * MS_PER_DAY)))
    else HostDefined
  }

  /** `FY` in either case, four digits, a dash, two digits. */
  predicate FyShape(s: string) {
    && |s| == 9
    && UpperLetter(s[0]) == 'F' && UpperLetter(s[1]) == 'Y'
    && AllDigits(s[2..6]) && s[6] == '-' && AllDigits(s[7..])
  }

  /** The two-digit suffix plays no part. */
  function FyFromLabel(s: string, config: FiscalConfig): FiscalYear
    requires FyShape(s)
  {
    FiscalYearOf(NumberOf(s[2..6]), config)
  }

  /** `Q`, a digit from 1 to 4, white space, a fiscal-year label. */
  predicate QuarterShape(s: string) {
    && |s| >= 12
    && UpperLetter(s[0]) == 'Q' && '1' <= s[1] <= '4'
    && AllSpaces(s[2..|s| - 9]) && FyShape(s[|s| - 9..])
  }

  const MONTH_NAMES: seq<string> :=
    ["jan", "feb", "mar", "apr", "may", "jun", "jul", "aug", "sep", "oct", "nov", "dec"]

  /** The first index of `name` in `MONTH_NAMES` from `from` on, or -1. */
  function IndexOfMonth(name: string, from: nat): (i: int)
    requires from <= 12
    ensures -1 <= i < 12
    ensures 0 <= i ==> MONTH_NAMES[i] == name
    decreases 12 - from
  {
    if from == 12 then -1
    else if MONTH_NAMES[from] == name then from
    else IndexOfMonth(name, from + 1)
  }

  /** How many letters `s` begins with. */
  function Letters(s: string): (k: nat)
    ensures k <= |s|
    ensures forall i :: 0 <= i < k ==> IsLetter(s[i])
    ensures k < |s| ==> !IsLetter(s[k])
  {
    if s != "" && IsLetter(s[0]) then 1 + Letters(s[1..]) else 0
  }

  /** Three to nine letters, white space, four digits. */
  predicate NamedMonthShape(s: string) {
    var k := Letters(s);
    && 3 <= k <= 9 && k + 5 <= |s|
    && AllSpaces(s[k..|s| - 4]) && AllDigits(s[|s| - 4..])
  }

  function NamedMonth(s: string): int
    requires NamedMonthShape(s)
  {
    IndexOfMonth([LowerLetter(s[0]), LowerLetter(s[1]), LowerLetter(s[2])], 0)
  }

  predicate IsoMonthShape(s: string) {
    |s| == 7 && AllDigits(s[..4]) && s[4] == '-' && AllDigits(s[5..])
  }

  /** From the first of zero-based month `month` to the millisecond before the first of the next. */
  function MonthPeriod(year: int, month: int): Parsed {
    Period(Range(DateUtc(year, month, 1), DateUtc(year, month + 1, 1) - 1))
  }

  function ParsePeriod(s: string, config: FiscalConfig): Parsed {
    var raw := Trim(s);
    if RangeShape(raw) then
      ParseRange(raw)
    else if QuarterShape(raw) then
      Period(QuarterRange(raw[1] as int - '0' as int, FyFromLabel(raw[|raw| - 9..], config).year, config))
    else if FyShape(raw) then
      var fy := FyFromLabel(raw, config);
      Period(Range(fy.startsAt, fy.endsAt))
    else if NamedMonthShape(raw) && NamedMonth(raw) >= 0 then
      MonthPeriod(NumberOf(raw[|raw| - 4..]), NamedMonth(raw))
    else if IsoMonthShape(raw) then
      MonthPeriod(NumberOf(raw[..4]), NumberOf(raw[5..]) - 1)
    else Unrecognized
  }

  // ---------------------------------------------------------------------------------------------
  // Ranges read back

  predicate FourDigitYear(y: int) {
    1000 <= y <= 9999
  }

  lemma PrintYear(n: int)
    ensures FourDigitYear(n) ==> |Print(n)| == 4 && AllDigits(Print(n)) && NumberOf(Print(n)) == n
    ensures n < 0 ==> |Print(n)| >= 2 && Print(n)[0] == '-'
    ensures 0 <= n < 1000 ==> 1 <= |Print(n)| <= 3
    ensures n > 9999 ==> |Print(n)| >= 5 && AllDigits(Print(n))
  {
    if n < 0 {
      PrintLength(-n);
    } else {
      PrintLength(n);
      NumberOfPrint(n);
    }
  }

  lemma ShapeOfParts(y: string, m: string, d: string)
    requires |y| == 4 && |m| == 2 && |d| == 2 && AllDigits(y) && AllDigits(m) && AllDigits(d)
    ensures var s := y + "-" + m + "-" + d; IsoDateShape(s) && s[..4] == y && s[5..7] == m && s[8..] == d
  {
  }

  /** The printed date of a year without four digits betrays itself in its first five characters. */
  predicate BadStart(s: string) {
    |s| >= 7 && (s[0] == '-' || s[1] == '-' || s[2] == '-' || s[3] == '-' || IsDigit(s[4]))
  }

  lemma BadStartOfParts(y: int, m: string, d: string)
    requires |m| == 2 && |d| == 2 && !FourDigitYear(y)
    ensures BadStart(Print(y) + "-" + m + "-" + d)
    ensures y > 9999 ==> |Print(y) + "-" + m + "-" + d| >= 11
  {
    hide Print, NumberOf;
    PrintYear(y);
    var s := Print(y) + "-" + m + "-" + d;
    if 0 <= y < 1000 {
      assert s[|Print(y)|] == '-';
    }
  }

  lemma IsoDateReads(t: Instant)
    requires FourDigitYear(FullYear(t))
    ensures IsoDateShape(IsoDate(t)) && CivilText(IsoDate(t)) == CivilOf(Day(t))
  {
    hide MonthNumber, MonthStart, MonthLength, Print, Pad2, NumberOf, IsoDateShape, MonthOfYearAt, DateAt, FullYear;
    FieldsAreCivil(t);
    DateIsPositive(t);
    MonthFits(t);
    PrintYear(FullYear(t));
    NumberOfPad2(MonthOfYearAt(t));
    NumberOfPad2(DateAt(t));
    ShapeOfParts(Print(FullYear(t)), Pad2(MonthOfYearAt(t)), Pad2(DateAt(t)));
  }

  lemma MonthFits(t: Instant)
    ensures 1 <= MonthOfYearAt(t) <= 12
  {
    hide MonthNumber;
  }

  lemma IsoDateFails(t: Instant)
    requires !FourDigitYear(FullYear(t))
    ensures BadStart(IsoDate(t)) && (FullYear(t) > 9999 ==> |IsoDate(t)| >= 11)
  {
    hide Print, Pad2, MonthOfYearAt, DateAt, FullYear;
    DateIsPositive(t);
    MonthFits(t);
    NumberOfPad2(MonthOfYearAt(t));
    NumberOfPad2(DateAt(t));
    BadStartOfParts(FullYear(t), Pad2(MonthOfYearAt(t)), Pad2(DateAt(t)));
  }

  lemma IsoDateEnds(t: Instant)
    ensures |IsoDate(t)| >= 7
    ensures IsoDate(t)[0] == '-' || IsDigit(IsoDate(t)[0])
    ensures IsDigit(IsoDate(t)[|IsoDate(t)| - 1])
  {
    hide PrintNat, Pad2, MonthOfYearAt, DateAt, FullYear;
    DateIsPositive(t);
    MonthFits(t);
    NumberOfPad2(MonthOfYearAt(t));
    NumberOfPad2(DateAt(t));
    var y := FullYear(t);
    NumberOfPrint(if y < 0 then -y else y);
    PrintLength(if y < 0 then -y else y);
  }

  lemma EndOfDayUtcIs(t: Instant)
    requires FullYear(t) >= 100
    ensures EndOfDayUtc(t) == EndOfDay(t)
  {
    hide MonthNumber, Shift;
    DayStampIs(t);
    ShiftValues(t);
  }

  /** A text that starts like a number is a date range or an ISO month, or nothing. */
  lemma NumericStart(s: string, config: FiscalConfig)
    requires |s| > 7 && (s[0] == '-' || IsDigit(s[0])) && IsDigit(s[|s| - 1])
    ensures ParsePeriod(s, config) == if RangeShape(s) then ParseRange(s) else Unrecognized
  {
    hide RangeShape, ParseRange;
    TrimKeeps(s);
  }

  lemma StartOfDayFields(t: Instant)
    ensures Day(StartOfDay(t)) == Day(EndOfDay(t)) == Day(t)
  {
  }

  /** Printing and parsing undo each other exactly on four-digit years: the period read back runs
      from the start of the first day to the last millisecond of the last. */
  lemma ParseUndoesFormat(start: Instant, end: Instant, config: FiscalConfig)
    ensures ParsePeriod(FormatPeriod(start, end), config) ==
            if FourDigitYear(FullYear(start)) && FourDigitYear(FullYear(end))
            then Period(Range(StartOfDay(start), EndOfDay(end)))
            else Unrecognized
  {
    hide MonthNumber, MonthStart, MonthLength, IsoDate, IsoDateShape, CivilText, ParsePeriod, FullYear, MakeDay,
      DayStamp, Civil.Valid;
    var s := FormatPeriod(start, end);
    IsoDateEnds(start);
    IsoDateEnds(end);
    NumericStart(s, config);
    if !FourDigitYear(FullYear(start)) {
      IsoDateFails(start);
      BadStartHasNoShape(s);
    } else {
      IsoDateReads(start);
      ShapeHasTen(IsoDate(start));
      assert s[..10] == IsoDate(start) && s[12..] == IsoDate(end);
      if !FourDigitYear(FullYear(end)) {
        IsoDateFails(end);
        BadStartHasNoShape(IsoDate(end));
      } else {
        IsoDateReads(end);
        ShapeHasTen(IsoDate(end));
        CivilRoundTrip(Day(start));
        CivilRoundTrip(Day(end));
        StartOfDayFields(end);
        SameDaySameYear(end, StartOfDay(end));
        EndOfDayUtcIs(StartOfDay(end));
      }
    }
  }

  lemma SameDaySameYear(t: Instant, u: Instant)
    requires Day(t) == Day(u)
    ensures FullYear(t) == FullYear(u) && IsoDate(t) == IsoDate(u)
  {
  }

  lemma ShapeHasTen(s: string)
    requires IsoDateShape(s)
    ensures |s| == 10
  {
  }

  lemma BadStartHasNoShape(s: string)
    requires BadStart(s)
    ensures !IsoDateShape(s) && !RangeShape(s)
  {
    if |s| >= 10 {
      assert forall i :: 0 <= i < 4 ==> s[..4][i] == s[i];
      assert forall i :: 0 <= i < 4 ==> s[..10][..4][i] == s[i];
    }
  }

  /** A printed range parses exactly if both years have four digits, and then to a period that prints
      as the same text. */
  lemma FormatUndoesParse(start: Instant, end: Instant, config: FiscalConfig)
    ensures var parsed := ParsePeriod(FormatPeriod(start, end), config);
            && (parsed.Period? <==> FourDigitYear(FullYear(start)) && FourDigitYear(FullYear(end)))
            && (parsed.Period? ==> FormatPeriod(parsed.range.start, parsed.range.end) == FormatPeriod(start, end))
  {
    hide IsoDate, ParsePeriod, FullYear, StartOfDay, EndOfDay;
    ParseUndoesFormat(start, end, config);
    StartOfDayFields(start);
    StartOfDayFields(end);
    SameDaySameYear(start, StartOfDay(start));
    SameDaySameYear(end, EndOfDay(end));
  }

  lemma IsoDateOfCivil(s: string, t: Instant)
    requires IsoDateShape(s) && s[0] != '0' && CivilText(s) == CivilOf(Day(t))
    ensures IsoDate(t) == s
  {
    hide MonthNumber, MonthStart, MonthLength, Print, Pad2, NumberOf, MonthOfYearAt, DateAt, FullYear;
    FieldsAreCivil(t);
    FourDigits(s[..4]);
    PrintOfNumber(s[..4]);
    Pad2OfNumber(s[5..7]);
    Pad2OfNumber(s[8..]);
    assert Print(NumberOf(s[..4])) == s[..4] by { hide *; PrintsNat(NumberOf(s[..4])); }
    assert s == s[..4] + "-" + s[5..7] + "-" + s[8..];
  }

  lemma PrintsNat(n: nat)
    ensures Print(n) == PrintNat(n)
  {
  }

  lemma DayOfText(s: string)
    requires IsoDateShape(s) && CivilText(s).Valid()
    ensures var t := DayOf(CivilText(s)) * MS_PER_DAY;
            && CivilOf(Day(t)) == CivilText(s)
            && FullYear(t) == NumberOf(s[..4])
            && (s[0] == '0' ==> 0 <= FullYear(t) < 1000)
            && (s[0] != '0' ==> FourDigitYear(FullYear(t)))
  {
    hide MonthNumber, MonthStart, MonthLength, DayOf, NumberOf, FullYear, MonthOfYearAt, DateAt, CivilOf, Civil.Valid;
    var t := DayOf(CivilText(s)) * MS_PER_DAY;
    DayRoundTrip(CivilText(s));
    FieldsAreCivil(t);
    FourDigits(s[..4]);
  }

  /** A range of proper dates prints back as it was written exactly when neither year starts with
      a zero. */
  lemma FormatReprintsRange(s: string)
    requires RangeShape(s) && CivilText(s[..10]).Valid() && CivilText(s[12..]).Valid()
    ensures ParseRange(s).Period?
    ensures var r := ParseRange(s).range; FormatPeriod(r.start, r.end) == s <==> s[0] != '0' && s[12] != '0'
  {
    hide MonthNumber, MonthStart, MonthLength, IsoDate, IsoDateShape, CivilText, FullYear, DayOf, DayStamp,
      Civil.Valid, NumberOf, CivilOf;
    var a, b := s[..10], s[12..];
    var r := ParseRange(s).range;
    var dayB := DayOf(CivilText(b)) * MS_PER_DAY;
    DayOfText(a);
    DayOfText(b);
    IsoDateEnds(r.start);
    if a[0] == '0' {
      IsoDateFails(r.start);
      BadStartHasNoShape(FormatPeriod(r.start, r.end));
    } else {
      IsoDateOfCivil(a, r.start);
      assert s == a + ".." + b;
      if b[0] != '0' {
        EndOfDayUtcIs(dayB);
        StartOfDayFields(dayB);
        IsoDateOfCivil(b, r.end);
      } else {
        assert FormatPeriod(r.start, r.end)[12..] == IsoDate(r.end);
        EarlyEndReprints(b, r.end, dayB);
      }
    }
  }

  /** An end date in a year below 1000 does not print back: its year prints without the leading
      zero, or was moved to the twentieth century. */
  lemma EarlyEndReprints(b: string, end: Instant, day: Instant)
    requires IsoDateShape(b) && b[0] == '0'
    requires 0 <= FullYear(day) < 1000 && end == EndOfDayUtc(day)
    ensures IsoDate(end) != b
  {
    hide MonthNumber, IsoDate, IsoDateShape, FullYear, DayStamp, NumberOf;
    if FullYear(day) >= 100 {
      EndOfDayUtcIs(day);
      StartOfDayFields(day);
      SameDaySameYear(day, end);
      IsoDateFails(end);
      BadStartHasNoShape(IsoDate(end));
    } else {
      EarlyEndIsLate(day);
      IsoDateReads(end);
      YearText(IsoDate(end), FullYear(end));
    }
  }

  lemma YearText(s: string, year: int)
    requires IsoDateShape(s) && NumberOf(s[..4]) == year && year >= 1000
    ensures s[0] != '0'
  {
    FourDigits(s[..4]);
  }

  lemma EarlyEndIsLate(day: Instant)
    requires 0 <= FullYear(day) <= 99
    ensures FourDigitYear(FullYear(EndOfDayUtc(day)))
    ensures CivilOf(Day(EndOfDayUtc(day))).year == FullYear(EndOfDayUtc(day))
  {
    hide MonthStart, MonthNumber, DayStamp;
    var n, end := MonthNumber(day), EndOfDayUtc(day);
    DayStampIs(day);
    MonthBounds(day);
    FieldsAreCivil(end);
    DateIsPositive(day);
    assert Day(end) == MonthStart(n + 22800) + DateAt(day) - 1;
    MonthStartIncreases(n + 22800, n + 22802);
    BeforeMonth(end, n + 22800);
    BeforeMonth(end, n + 22802);
  }

  // ---------------------------------------------------------------------------------------------
  // Fiscal-year labels and months read back

  /** A label spells its year and the last two digits of the next. */
  lemma LabelSpells(Y: int)
    requires Y >= 0
    ensures var s := FyLabel(Y);
            var k := |s| - 3;
            && k >= 3 && s[..2] == "FY" && s[k] == '-' && AllDigits(s[2..k]) && AllDigits(s[k + 1..])
            && NumberOf(s[2..k]) == Y && NumberOf(s[k + 1..]) == (Y + 1) % 100
    ensures FourDigitYear(Y) ==> |FyLabel(Y)| == 9
  {
    hide PrintNat, NumberOf, Pad2;
    NumberOfPrint(Y);
    PrintLength(Y);
    NumberOfPad2((Y + 1) % 100);
    var s, y, suffix := FyLabel(Y), PrintNat(Y), Pad2((Y + 1) % 100);
    assert s == "FY" + y + "-" + suffix;
    LabelLayout(y, suffix);
  }

  lemma LabelLayout(y: string, suffix: string)
    requires |suffix| == 2
    ensures var s := "FY" + y + "-" + suffix;
            s[..2] == "FY" && s[2..|s| - 3] == y && s[|s| - 3] == '-' && s[|s| - 2..] == suffix
  {
  }

  /** Before the year 0 it spells the remainder with its sign, of however many digits: FY-5--4. */
  lemma NegativeLabelSpells(Y: int)
    requires Y < 0
    ensures var n, k := -Y, (-Y - 1) % 100;
            && AllDigits(PrintNat(n)) && NumberOf(PrintNat(n)) == n
            && FyLabel(Y) == "FY-" + PrintNat(n) + "-" + if k == 0 then "00" else "-" + PrintNat(k)
    ensures FyLabel(-5) == "FY-5--4"
  {
    var n, k := -Y, (-Y - 1) % 100;
    NumberOfPrint(n);
    PrintLength(k);
    assert k == 0 ==> Pad2(0) == "00";
    assert PrintNat(5) == "5" && PrintNat(4) == "4" && Remainder(-4, 100) == -4;
    assert Pad2(-4) == "-4";
    hide PrintNat, NumberOf;
    assert Remainder(Y + 1, 100) == -k;
    assert "FY" + ("-" + PrintNat(n)) + "-" == "FY-" + PrintNat(n) + "-";
  }

  /** The label of a date's fiscal year spells the year it starts in and the last two digits of the year
      it ends in; at the turn of the century they wrap. */
  lemma LabelOfDate(d: Instant, config: FiscalConfig)
    requires StartYear(d, config) >= 0
    ensures var s, Y := GetFiscalYear(d, config).fyLabel, StartYear(d, config);
            var k := |s| - 3;
            && k >= 3 && s[..2] == "FY" && s[k] == '-' && AllDigits(s[2..k]) && AllDigits(s[k + 1..])
            && NumberOf(s[2..k]) == Y && NumberOf(s[k + 1..]) == (Y + 1) % 100
    ensures StartYear(d, config) == 1999 ==> GetFiscalYear(d, config).fyLabel == "FY1999-00"
  {
    hide StartYear, FyStart, FyEnd, FyLabel, NumberOf;
    LabelSpells(StartYear(d, config));
    CenturyWraps();
  }

  lemma CenturyWraps()
    ensures FyLabel(1999) == "FY1999-00"
  {
    assert PrintNat(199) == PrintNat(19) + ['9'] && PrintNat(19) == "1" + "9";
    assert PrintNat(1999) == "1999" && Remainder(2000, 100) == 0 && Pad2(0) == "00";
  }

  lemma LabelParts(y: string, suffix: string)
    requires y != "" && suffix != "" && IsDigit(suffix[|suffix| - 1])
    requires y[0] == '-' || IsDigit(y[0])
    ensures var s := "FY" + y + "-" + suffix;
            && Trim(s) == s && !RangeShape(s) && !QuarterShape(s) && !NamedMonthShape(s) && !IsoMonthShape(s)
  {
    hide AllDigits, AllSpaces;
    var s := "FY" + y + "-" + suffix;
    assert s[0] == 'F' && s[1] == 'Y' && s[2] == y[0];
    TrimKeeps(s);
    assert Letters(s) == 2 by {
      assert s[1..][0] == 'Y' && s[1..][1..][0] == y[0];
    }
    NoDigitStart(s);
  }

  lemma NoDigitStart(s: string)
    requires s != "" && !IsDigit(s[0])
    ensures !RangeShape(s) && !IsoMonthShape(s)
  {
    if |s| >= 10 {
      assert s[..10][..4][0] == s[0];
    }
    if |s| >= 4 {
      assert s[..4][0] == s[0];
    }
  }

  /** The label of a fiscal year reads back as exactly that year's span if the year has four
      digits, and is rejected otherwise. */
  lemma ParseUndoesFyLabel(Y: int, config: FiscalConfig)
    ensures ParsePeriod(FyLabel(Y), config) ==
            if FourDigitYear(Y) then Period(Range(FyStart(Y, config), FyEnd(Y, config))) else Unrecognized
  {
    hide DateUtc, NumberOf, RangeShape, QuarterShape, NamedMonthShape, IsoMonthShape, Trim;
    var y, rem := Print(Y), Remainder(Y + 1, 100);
    var suffix := Pad2(rem);
    PrintYear(Y);
    NumberOfPrint(if Y < 0 then -Y else Y);
    NumberOfPrint(if rem < 0 then -rem else rem);
    PrintLength(if rem < 0 then -rem else rem);
    LabelParts(y, suffix);
    var s := "FY" + y + "-" + suffix;
    assert FyLabel(Y) == s;
    if FourDigitYear(Y) {
      NumberOfPad2(rem);
      assert s[2..6] == y && s[7..] == suffix;
    } else {
      LabelHasNoShape(Y, suffix);
    }
  }

  lemma LabelHasNoShape(Y: int, suffix: string)
    requires !FourDigitYear(Y)
    ensures !FyShape("FY" + Print(Y) + "-" + suffix)
  {
    hide Print, NumberOf;
    PrintYear(Y);
    var y := Print(Y);
    var s := "FY" + y + "-" + suffix;
    assert s[2] == y[0] && s[2 + |y|] == '-';
    if |s| == 9 {
      assert forall i :: 0 <= i < 4 ==> s[2..6][i] == s[2 + i];
    }
  }

  /** The fiscal year of an instant, read back from its label. */
  lemma ParseUndoesFiscalYear(d: Instant, config: FiscalConfig)
    ensures var fy := GetFiscalYear(d, config);
            ParsePeriod(fy.fyLabel, config) ==
            if FourDigitYear(fy.year) then Period(Range(fy.startsAt, fy.endsAt)) else Unrecognized
  {
    hide ParsePeriod, FyLabel, FyStart, FyEnd, StartYear;
    ParseUndoesFyLabel(StartYear(d, config), config);
  }

  /** Every text the parser takes for a label, in whatever case, between white space and with whatever
      suffix, means the span of its four digits, as the printed label of that year does. */
  lemma LabelReads(s: string, config: FiscalConfig)
    requires FyShape(Trim(s))
    ensures var Y := NumberOf(Trim(s)[2..6]);
            && ParsePeriod(s, config) == Period(Range(FyStart(Y, config), FyEnd(Y, config)))
            && (FourDigitYear(Y) ==> ParsePeriod(s, config) == ParsePeriod(FyLabel(Y), config))
  {
    hide NumberOf, RangeShape, FyStart, FyEnd, FyLabel;
    NoDigitStart(Trim(s));
    ParseUndoesFyLabel(NumberOf(Trim(s)[2..6]), config);
  }

  /** The labels 0000 to 0098 mean the fiscal years of 1900 to 1998, and 0099 a reversed period. */
  lemma EarlyLabelReads(s: string, config: FiscalConfig)
    requires FyShape(Trim(s)) && NumberOf(Trim(s)[2..6]) <= 99
    ensures var Y := NumberOf(Trim(s)[2..6]);
            && (Y < 99 ==> ParsePeriod(s, config) == ParsePeriod(FyLabel(1900 + Y), config))
            && (Y == 99 && config.Valid() ==>
                ParsePeriod(s, config).Period? && ParsePeriod(s, config).range.end < ParsePeriod(s, config).range.start)
  {
    var Y := NumberOf(Trim(s)[2..6]);
    hide NumberOf, FyLabel, ParsePeriod, FyShape, MakeDay;
    LabelReads(s, config);
    ParseUndoesFyLabel(1900 + Y, config);
    if Y == 99 && config.Valid() {
      FiscalYearLength(99, config);
    }
  }

  lemma LabelIsShaped(Y: int)
    requires FourDigitYear(Y)
    ensures var s := FyLabel(Y); FyShape(s) && NumberOf(s[2..6]) == Y && IsDigit(s[8])
  {
    hide Print, Pad2, NumberOf;
    PrintYear(Y);
    NumberOfPad2(Remainder(Y + 1, 100));
    var s, y, suffix := FyLabel(Y), Print(Y), Pad2(Remainder(Y + 1, 100));
    assert s[2..6] == y && s[7..] == suffix;
    assert s[8] == suffix[1];
  }

  /** `Q` with a quarter's number before a fiscal-year label means that quarter. */
  function QuarterText(q: int, Y: int): string
    requires 1 <= q <= 4
  {
    ['Q', Digit(q), ' '] + FyLabel(Y)
  }

  lemma QuarterTextReads(q: int, Y: int, config: FiscalConfig)
    requires 1 <= q <= 4 && FourDigitYear(Y)
    ensures ParsePeriod(QuarterText(q, Y), config) == Period(QuarterRange(q, Y, config))
  {
    hide FyLabel, FyShape, QuarterRange, RangeShape, Trim, NumberOf;
    LabelIsShaped(Y);
    LabelHasNine(FyLabel(Y));
    var s := QuarterText(q, Y);
    assert s[3..] == FyLabel(Y) && s[2..3] == " ";
    assert s[11] == FyLabel(Y)[8];
    TrimKeeps(s);
    NoDigitStart(s);
  }

  /** Every text the parser takes for a quarter means that quarter of its four digits' year, as the
      plain text of the quarter does. */
  lemma QuarterReads(s: string, config: FiscalConfig)
    requires QuarterShape(Trim(s))
    ensures var raw := Trim(s);
            var q, Y := raw[1] as int - '0' as int, NumberOf(raw[|raw| - 9..][2..6]);
            && 1 <= q <= 4
            && ParsePeriod(s, config) == Period(QuarterRange(q, Y, config))
            && (FourDigitYear(Y) ==> ParsePeriod(s, config) == ParsePeriod(QuarterText(q, Y), config))
  {
    var raw := Trim(s);
    var q, Y := raw[1] as int - '0' as int, NumberOf(raw[|raw| - 9..][2..6]);
    hide NumberOf, RangeShape, FyShape, QuarterRange, QuarterText;
    LabelHasNine(raw[|raw| - 9..]);
    assert !IsDigit(raw[0]);
    NoDigitStart(raw);
    if FourDigitYear(Y) {
      QuarterTextReads(q, Y, config);
    }
  }

  lemma LabelHasNine(s: string)
    requires FyShape(s)
    ensures |s| == 9
  {
  }

  /** The four quarter texts of a year cover the period of its label exactly when the start day
      fits every quarter. */
  ghost predicate TextsTile(Y: int, config: FiscalConfig)
  {
    var fy := ParsePeriod(FyLabel(Y), config);
    var a, b := ParsePeriod(QuarterText(1, Y), config), ParsePeriod(QuarterText(2, Y), config);
    var c, d := ParsePeriod(QuarterText(3, Y), config), ParsePeriod(QuarterText(4, Y), config);
    && fy.Period? && a.Period? && b.Period? && c.Period? && d.Period?
    && a.range.start == fy.range.start && d.range.end == fy.range.end
    && a.range.end + 1 == b.range.start && b.range.end + 1 == c.range.start && c.range.end + 1 == d.range.start
  }

  lemma QuarterTextsTile(Y: int, config: FiscalConfig)
    requires FourDigitYear(Y) && config.Valid()
    ensures TextsTile(Y, config) <==> StartDayFits(Y, config)
  {
    hide ParsePeriod, QuarterText, FyLabel, QuarterRange, FyStart, StartDayFits;
    ParseUndoesFyLabel(Y, config);
    QuarterTextReads(1, Y, config);
    QuarterTextReads(2, Y, config);
    QuarterTextReads(3, Y, config);
    QuarterTextReads(4, Y, config);
    QuartersTileExactly(Y, config);
  }

  /** A month period holds exactly the instants of one calendar month. */
  lemma MonthPeriodCovers(year: int, month: int, t: Instant)
    ensures var r := MonthPeriod(year, month).range;
            r.start <= t <= r.end <==> MonthNumber(t) == 12 * ReadYear(year) + month
  {
    hide MonthStart, MonthNumber;
    var n := 12 * ReadYear(year) + month;
    assert DateUtc(year, month, 1) == MonthInstant(n) && DateUtc(year, month + 1, 1) == MonthInstant(n + 1);
    BeforeMonth(t, n);
    BeforeMonth(t, n + 1);
  }

  lemma LettersHaveNoOtherShape(s: string)
    requires Letters(s) >= 3
    ensures !QuarterShape(s) && !FyShape(s)
  {
    assert IsLetter(s[1]) && IsLetter(s[2]);
    if |s| == 9 {
      assert s[2..6][0] == s[2];
    }
  }

  lemma IsoMonthIsNoOtherShape(s: string)
    requires IsoMonthShape(s)
    ensures !RangeShape(s) && !QuarterShape(s) && !FyShape(s) && !NamedMonthShape(s) && Trim(s) == s
  {
    assert IsDigit(s[..4][0]) && IsDigit(s[5..][1]);
    TrimKeeps(s);
  }

  lemma NamedMonthReads(s: string, config: FiscalConfig)
    requires NamedMonthShape(s) && NamedMonth(s) >= 0
    ensures ParsePeriod(s, config) == MonthPeriod(NumberOf(s[|s| - 4..]), NamedMonth(s))
  {
    hide MonthPeriod, NumberOf, Letters, QuarterShape, FyShape, RangeShape, NamedMonth;
    assert IsDigit(s[|s| - 1]) by { assert IsDigit(s[|s| - 4..][3]); }
    assert IsLetter(s[0]);
    TrimKeeps(s);
    NoDigitStart(s);
    LettersHaveNoOtherShape(s);
  }

  lemma IsoMonthReads(s: string, config: FiscalConfig)
    requires IsoMonthShape(s)
    ensures ParsePeriod(s, config) == MonthPeriod(NumberOf(s[..4]), NumberOf(s[5..]) - 1)
  {
    hide MonthPeriod, NumberOf, QuarterShape, FyShape, RangeShape, NamedMonthShape;
    IsoMonthIsNoOtherShape(s);
  }

  /** A named month means the same as the ISO month with its number, whatever the config. */
  lemma NamedMonthIsIsoMonth(s: string, config: FiscalConfig)
    requires NamedMonthShape(s) && NamedMonth(s) >= 0
    ensures ParsePeriod(s, config) == ParsePeriod(s[|s| - 4..] + "-" + Pad2(NamedMonth(s) + 1), config)
    ensures ParsePeriod(s, config) == MonthPeriod(NumberOf(s[|s| - 4..]), NamedMonth(s))
  {
    var y, m := s[|s| - 4..], NamedMonth(s);
    hide NumberOf, Letters, ParsePeriod, NamedMonth, MonthPeriod;
    NamedMonthReads(s, config);
    NumberOfPad2(m + 1);
    var iso := y + "-" + Pad2(m + 1);
    assert iso[..4] == y && iso[5..] == Pad2(m + 1);
    IsoMonthReads(iso, config);
  }
}
