/** Fiscal years and their quarters for an arbitrary start month and day. */
module FiscalYears {
  import opened Calendar
  import opened Periods
  import opened Text

  datatype FiscalConfig = FiscalConfig(startMonth: int, startDay: int) {
    predicate Valid() {
      1 <= startMonth <= 12 && 1 <= startDay <= 31
    }
  }

  datatype FiscalYear = FiscalYear(fyLabel: string, startsAt: Instant, endsAt: Instant, year: int)

  // ---------------------------------------------------------------------------------------------
  // Fiscal years

  function FyStart(year: int, config: FiscalConfig): Instant {
    DateUtc(year, config.startMonth - 1, config.startDay)
  }

  function FyEnd(year: int, config: FiscalConfig): Instant {
    FyStart(year + 1, config) - 1
  }

  /** JavaScript's `%`: the remainder takes the sign of the dividend. */
  function Remainder(a: int, b: int): int
    requires b > 0
  {
    if a < 0 then -(-a % b) else a % b
  }

  function FyLabel(year: int): string {
    "FY" + Print(year) + "-" + Pad2(Remainder(year + 1, 100))
  }

  /** The fiscal year that starts in calendar year `year`. */
  function FiscalYearOf(year: int, config: FiscalConfig): FiscalYear {
    FiscalYear(FyLabel(year), FyStart(year, config), FyEnd(year, config), year)
  }

  function StartYear(d: Instant, config: FiscalConfig): int {
    var m, day, y := MonthOfYearAt(d), DateAt(d), FullYear(d);
    if m > config.startMonth || (m == config.startMonth && day >= config.startDay) then y else y - 1
  }

  function GetFiscalYear(d: Instant, config: FiscalConfig): FiscalYear {
    FiscalYearOf(StartYear(d, config), config)
  }

  /** The number of the month a fiscal year is meant to start in. */
  function StartMonthNumber(year: int, config: FiscalConfig): int {
    12 * year + config.startMonth - 1
  }

  /** 1 or 2 March before the day that 30 or 31 February rolls over to: `getFiscalYear` counts it to
      the year about to start, whose span it precedes. */
  predicate InGap(d: Instant, config: FiscalConfig) {
    && config.startMonth == 2
    && MonthOfYearAt(d) == 3
    && DateAt(d) + MonthLength(MonthNumber(d) - 1) < config.startDay
  }

  /** Calendar order of `d` against a month number and a date in it. */
  predicate AtOrAfter(d: Instant, n: int, date: int) {
    MonthNumber(d) > n || (MonthNumber(d) == n && DateAt(d) >= date)
  }

  lemma FyStartIs(year: int, config: FiscalConfig)
    ensures FyStart(year, config)
         == (MonthStart(StartMonthNumber(ReadYear(year), config)) + config.startDay - 1) * MS_PER_DAY
  {
    hide MonthStart;
  }

  /** When an instant is at or after the midnight of day `date` of month `n`, counted past the end
      of the month if need be. */
  lemma AtOrAfterDate(d: Instant, n: int, date: int)
    requires 1 <= date <= 31
    ensures (MonthStart(n) + date - 1) * MS_PER_DAY <= d <==>
            AtOrAfter(d, n, date) && !(MonthNumber(d) == n + 1 && DateAt(d) + MonthLength(n) < date)
  {
    hide MonthNumber, MonthStart, MonthLength;
    MonthBounds(d);
    var m := MonthNumber(d);
    NextMonthStart(n);
    NextMonthStart(n + 1);
    assert (MonthStart(n) + date - 1) * MS_PER_DAY <= d <==> MonthStart(n) + date - 1 <= Day(d);
    assert MonthStart(m) <= Day(d) < MonthStart(m + 1) by { hide MonthStart; }
    MonthStartOrder(m + 1, n);
    MonthStartOrder(n + 2, m);
  }

  /** The calendar year in which, counted by spans, the fiscal year of `d` started: the one before
      `getFiscalYear`'s in the gap. */
  function SpanYear(d: Instant, config: FiscalConfig): int {
    StartYear(d, config) - if InGap(d, config) then 1 else 0
  }

  /** When an instant is at or after the start of a fiscal year. */
  lemma FyStartedBy(d: Instant, Y: int, config: FiscalConfig)
    requires config.Valid()
    ensures var n := StartMonthNumber(ReadYear(Y), config);
            FyStart(Y, config) <= d <==>
              AtOrAfter(d, n, config.startDay) && !(MonthNumber(d) == n + 1 && InGap(d, config))
    ensures InGap(d, config) ==> MonthNumber(d) % 12 == 2 && config.startMonth == 2 && config.startDay >= 30
  {
    hide MonthNumber, MonthStart, DateUtc, IsLeap;
    var n := StartMonthNumber(ReadYear(Y), config);
    FyStartIs(Y, config);
    AtOrAfterDate(d, n, config.startDay);
    DateIsPositive(d);
  }

  /** A fiscal year has started by `d` exactly when its start year, as `Date.UTC` reads it, is not
      after the span year of `d`. */
  lemma FyStartedBySpanYear(d: Instant, Y: int, config: FiscalConfig)
    requires config.Valid()
    ensures FyStart(Y, config) <= d <==> ReadYear(Y) <= SpanYear(d, config)
  {
    hide MonthNumber, FyStart, InGap, DateAt, ReadYear;
    FyStartedBy(d, Y, config);
  }

  /** The span of a fiscal year holds exactly the instants whose span year is its own, for the start
      years that `Date.UTC` leaves alone; the spans of -1 and 99 have displaced ends. */
  lemma FiscalYearSpans(d: Instant, Y: int, config: FiscalConfig)
    requires config.Valid()
    ensures FyStart(Y, config) <= d <= FyEnd(Y, config) <==> ReadYear(Y) <= SpanYear(d, config) < ReadYear(Y + 1)
    ensures !(-1 <= Y <= 99) ==> (FyStart(Y, config) <= d <= FyEnd(Y, config) <==> SpanYear(d, config) == Y)
  {
    hide SpanYear, FyStart;
    FyStartedBySpanYear(d, Y, config);
    FyStartedBySpanYear(d, Y + 1, config);
  }

  /** The fiscal year of `d` contains `d`, except in the gap, and where `Date.UTC` misreads its start
      year as one of 1900..1999. */
  lemma FiscalYearContains(d: Instant, config: FiscalConfig)
    requires config.Valid()
    ensures var fy := GetFiscalYear(d, config);
            fy.startsAt <= d <= fy.endsAt <==> !InGap(d, config) && !(0 <= StartYear(d, config) <= 99)
  {
    hide FyStart, InGap, StartYear;
    FiscalYearSpans(d, StartYear(d, config), config);
  }

  /** A day in the gap lies in the span of the year before, unless `Date.UTC` displaces that. */
  lemma GapLiesInYearBefore(d: Instant, config: FiscalConfig)
    requires config.Valid() && InGap(d, config)
    ensures var Y := StartYear(d, config);
            FyStart(Y - 1, config) <= d <= FyEnd(Y - 1, config) <==> !(0 <= Y - 1 <= 99)
  {
    hide FyStart, InGap, StartYear;
    FiscalYearSpans(d, StartYear(d, config) - 1, config);
  }

  lemma DateIsPositive(d: Instant)
    ensures 1 <= DateAt(d) <= 31
  {
    hide MonthStart, MonthLength;
    FieldsAreCivil(d);
  }

  /** Successive fiscal years adjoin. */
  lemma FiscalYearsAdjoin(year: int, config: FiscalConfig)
    ensures FiscalYearOf(year, config).endsAt + 1 == FiscalYearOf(year + 1, config).startsAt
  {
  }

  /** The fiscal year of `d` is the year `Y` exactly when `d` lies in the span of `Y`. */
  ghost predicate Classifies(d: Instant, Y: int, config: FiscalConfig) {
    GetFiscalYear(d, config).year == Y <==> FyStart(Y, config) <= d <= FyEnd(Y, config)
  }

  /** When classification by `getFiscalYear` and by spans agree on `d` and `Y`. Outside the start
      years that `Date.UTC` displaces they differ only in the gap, which `getFiscalYear` gives to `Y`
      and the span of `Y - 1` holds. */
  lemma FiscalYearClassifies(d: Instant, Y: int, config: FiscalConfig)
    requires config.Valid()
    ensures Classifies(d, Y, config) <==>
            if 0 <= Y <= 99 then StartYear(d, config) != Y && (Y == 99 || SpanYear(d, config) != 1900 + Y)
            else
              && !(InGap(d, config) && Y <= StartYear(d, config) <= Y + 1)
              && (Y == -1 ==> !(0 <= SpanYear(d, config) < 1900))
  {
    hide FyStart, InGap, StartYear;
    FiscalYearSpans(d, Y, config);
  }

  /** The first instant of the calendar month after the one a fiscal year starts in. */
  function AfterStartMonth(Y: int, config: FiscalConfig): Instant {
    MonthInstant(StartMonthNumber(Y, config) + 1)
  }

  lemma AfterStartMonthIs(Y: int, config: FiscalConfig)
    requires config.Valid()
    ensures var d := AfterStartMonth(Y, config); MonthNumber(d) == StartMonthNumber(Y, config) + 1 && DateAt(d) == 1
    ensures StartYear(AfterStartMonth(Y, config), config) == Y
    ensures InGap(AfterStartMonth(Y, config), config) <==>
            config.startMonth == 2 && MonthLength(StartMonthNumber(Y, config)) + 1 < config.startDay
  {
    hide MonthStart, MonthLength;
    var n := StartMonthNumber(Y, config) + 1;
    var d := AfterStartMonth(Y, config);
    MonthInstantOrder(n, n + 1);
    MonthNumberIs(d, n);
  }

  /** On the first of March of a common year, a start on 30 or 31 February makes them differ. */
  lemma FebruaryGap(Y: int, config: FiscalConfig)
    requires config.Valid() && config.startMonth == 2 && config.startDay >= 30
    requires !IsLeap(Y) && !(-1 <= Y <= 99)
    ensures !Classifies(MonthInstant(12 * Y + 2), Y, config)
  {
    hide IsLeap, Classifies, InGap, StartYear, SpanYear, DateAt, MonthNumber, MonthInstant;
    AfterStartMonthIs(Y, config);
    assert MonthLength(12 * Y + 1) == 28;
    FiscalYearClassifies(AfterStartMonth(Y, config), Y, config);
  }

  /** Classification by `getFiscalYear` is by spans, for a start year, exactly when `Date.UTC` leaves
      the span alone and fiscal years do not start on 30 or 31 February. */
  lemma FiscalYearsPartition(Y: int, config: FiscalConfig)
    requires config.Valid()
    ensures (forall d :: Classifies(d, Y, config)) <==>
            !(-1 <= Y <= 99) && !(config.startMonth == 2 && config.startDay >= 30)
  {
    hide IsLeap, Classifies, InGap, StartYear, SpanYear, DateAt, MonthNumber, MonthInstant, AfterStartMonth;
    if -1 <= Y <= 99 {
      var y := if Y == -1 then 500 else Y;
      AfterStartMonthIs(y, config);
      FiscalYearClassifies(AfterStartMonth(y, config), Y, config);
      assert y - 1 <= SpanYear(AfterStartMonth(y, config), config) <= y by {
        hide *;
        SpanYearIs(AfterStartMonth(y, config), config);
      }
      assert !Classifies(AfterStartMonth(y, config), Y, config);
    } else if config.startMonth == 2 && config.startDay >= 30 {
      var y := if IsLeap(Y) then Y + 1 else Y;
      CommonAfterLeap(Y);
      AfterStartMonthIs(y, config);
      assert MonthLength(12 * y + 1) == 28;
      FiscalYearClassifies(AfterStartMonth(y, config), Y, config);
      assert !Classifies(AfterStartMonth(y, config), Y, config);
    } else {
      forall d
        ensures Classifies(d, Y, config)
      {
        FiscalYearClassifies(d, Y, config);
        NoGap(d, config);
      }
    }
  }

  lemma SpanYearIs(d: Instant, config: FiscalConfig)
    ensures SpanYear(d, config) == StartYear(d, config) - if InGap(d, config) then 1 else 0
  {
  }

  lemma CommonAfterLeap(Y: int)
    ensures IsLeap(Y) ==> !IsLeap(Y + 1)
  {
  }

  /** Other start days leave no gap. */
  lemma NoGap(d: Instant, config: FiscalConfig)
    requires config.Valid()
    ensures InGap(d, config) ==> config.startMonth == 2 && config.startDay >= 30
  {
    hide MonthNumber, DateAt, FyStart;
    FyStartedBy(d, 0, config);
  }

  lemma TwelveMonths(n: int)
    ensures MonthStart(n + 12) == MonthStart(n)
            + if IsLeap(if n % 12 < 2 then n / 12 else n / 12 + 1) then 366 else 365
  {
    hide IsLeap, DayFromYear;
    var y, m := n / 12, n % 12;
    MonthOfYear(y, m);
    MonthOfYear(y + 1, m);
    YearLength(y);
    assert n + 12 == 12 * (y + 1) + m;
  }

  /** Days from 1 January -1, and 1999, to where `Date.UTC` puts the start of the year after. */
  lemma DisplacedYears(m: int)
    requires 0 <= m < 12
    ensures MonthStart(12 * 1900 + m) - MonthStart(-12 + m) == 694326
    ensures MonthStart(12 * 1999 + m) - MonthStart(12 * 100 + m) == 693595
  {
    hide MonthStart, DayFromYear, IsLeap;
    MonthOfYear(1900, m);
    MonthOfYear(-1, m);
    MonthOfYear(1999, m);
    MonthOfYear(100, m);
    FarYears();
  }

  lemma FarYears()
    ensures DayFromYear(1900) - DayFromYear(-1) == 694326 && DayFromYear(1999) - DayFromYear(100) == 693595
    ensures !IsLeap(1900) && !IsLeap(-1) && !IsLeap(1999) && !IsLeap(100)
  {
  }

  /** A fiscal year has 365 days, or 366 when a 29 February falls in it, counted in the year that
      `Date.UTC` reads; that of -1 runs on to 1900, and that of 99 ends before it starts. */
  lemma FiscalYearLength(year: int, config: FiscalConfig)
    requires config.Valid()
    ensures FyEnd(year, config) + 1 - FyStart(year, config) == MS_PER_DAY *
            (if year == -1 then 694326
             else if year == 99 then -693595
             else if IsLeap(if config.startMonth <= 2 then ReadYear(year) else ReadYear(year) + 1) then 366 else 365)
  {
    hide IsLeap, MonthStart, DateUtc;
    FyStartIs(year, config);
    FyStartIs(year + 1, config);
    TwelveMonths(StartMonthNumber(ReadYear(year), config));
    DisplacedYears(config.startMonth - 1);
  }

  // ---------------------------------------------------------------------------------------------
  // Quarters

  /** `setUTCMonth`: keeps the date, which may carry into the following month. */
  function SetUtcMonth(t: Instant, month: int): Instant {
    MakeDay(FullYear(t), month, DateAt(t)) * MS_PER_DAY + t % MS_PER_DAY
  }

  /** Where `setUTCMonth` lands: in the month asked for, or, when that is too short for the date, as
      many days into the next as are missing; the time of day stays. */
  ghost predicate LandsIn(t: Instant, month: int, u: Instant) {
    var n, date := 12 * FullYear(t) + month, DateAt(t);
    && u % MS_PER_DAY == t % MS_PER_DAY
    && (date <= MonthLength(n) ==> MonthNumber(u) == n && DateAt(u) == date)
    && (date > MonthLength(n) ==> MonthNumber(u) == n + 1 && DateAt(u) == date - MonthLength(n))
  }

  lemma SetUtcMonthLands(t: Instant, month: int)
    ensures LandsIn(t, month, SetUtcMonth(t, month))
  {
    hide MonthStart, MonthNumber, MonthLength;
    var n, date, u := 12 * FullYear(t) + month, DateAt(t), SetUtcMonth(t, month);
    DateIsPositive(t);
    NextMonthStart(n);
    NextMonthStart(n + 1);
    assert Day(u) == MonthStart(n) + date - 1 && u % MS_PER_DAY == t % MS_PER_DAY by { hide MonthStart; }
    MonthFromDayIsUnique(Day(u), if date <= MonthLength(n) then n else n + 1);
    assert MonthNumber(u) == (if date <= MonthLength(n) then n else n + 1) by { hide *; MonthNumberOfDay(u); }
  }

  lemma MonthNumberOfDay(t: Instant)
    ensures MonthNumber(t) == MonthFromDay(Day(t))
  {
  }

  function QuarterStart(q: int, year: int, config: FiscalConfig): Instant {
    var months := config.startMonth + (q - 1) * 3;
    DateUtc(if months > 12 then year + 1 else year, (months - 1) % 12, config.startDay)
  }

  function QuarterRange(q: int, year: int, config: FiscalConfig): Range {
    var start := QuarterStart(q, year, config);
    var next := SetUtcMonth(start, MonthOfYearAt(start) - 1 + 3);
    Range(start, next - 1)
  }

  /** A `Date` object: an instant that its setters change in place. */
  class DateObject {
    var time: Instant

    constructor (time: Instant)
      ensures this.time == time
    {
      this.time := time;
    }

    method SetUTCMonth(month: int)
      modifies this
      ensures time == SetUtcMonth(old(time), month) && LandsIn(old(time), month, time)
    {
      SetUtcMonthLands(time, month);
      time := MakeDay(FullYear(time), month, DateAt(time)) * MS_PER_DAY + time % MS_PER_DAY;
    }
  }

  /** The month number `Date.UTC` is sent to for the start of a quarter. */
  function QuarterMonthRead(q: int, year: int, config: FiscalConfig): int {
    var months := config.startMonth + (q - 1) * 3;
    12 * ReadYear(if months > 12 then year + 1 else year) + (months - 1) % 12
  }

  lemma QuarterStartRead(q: int, year: int, config: FiscalConfig)
    ensures QuarterStart(q, year, config)
         == (MonthStart(QuarterMonthRead(q, year, config)) + config.startDay - 1) * MS_PER_DAY
  {
    hide MonthStart;
  }

  /** The quarter branch of the parser: the end is found by moving a copy of the start. The period
      runs from the start day of the quarter's first month, counted past its end if need be, to the
      millisecond before the same date three months on; a start that carried over moves the end
      along, to a date in the fourth month. */
  method QuarterPeriod(q: int, year: int, config: FiscalConfig) returns (r: Range)
    ensures r == QuarterRange(q, year, config) && r.start <= r.end
    ensures config.Valid() ==>
              var n, day := QuarterMonthRead(q, year, config), config.startDay;
              && r.start == (MonthStart(n) + day - 1) * MS_PER_DAY
              && r.end + 1 == MS_PER_DAY * if day <= MonthLength(n) then MonthStart(n + 3) + day - 1
                                           else MonthStart(n + 4) + day - MonthLength(n) - 1
  {
    hide MakeDay, DateUtc, MonthNumber, MonthStart, MonthLength, LandsIn;
    QuarterIsProper(q, year, config);
    QuarterStartRead(q, year, config);
    if config.Valid() {
      ThreeMonthsOn(QuarterMonthRead(q, year, config), config.startDay);
    }
    var qStart := QuarterStart(q, year, config);
    var nextQ := new DateObject(qStart);
    nextQ.SetUTCMonth(MonthOfYearAt(nextQ.time) - 1 + 3);
    r := Range(qStart, nextQ.time - 1);
  }

  /** The four quarters cover the fiscal year from its first to its last millisecond. */
  ghost predicate QuartersTile(year: int, config: FiscalConfig) {
    && QuarterRange(1, year, config).start == FyStart(year, config)
    && QuarterRange(1, year, config).end + 1 == QuarterRange(2, year, config).start
    && QuarterRange(2, year, config).end + 1 == QuarterRange(3, year, config).start
    && QuarterRange(3, year, config).end + 1 == QuarterRange(4, year, config).start
    && QuarterRange(4, year, config).end == FyEnd(year, config)
  }

  /** The number of the month quarter `q` starts in. */
  function QuarterMonth(q: int, year: int, config: FiscalConfig): int {
    StartMonthNumber(year, config) + 3 * (q - 1)
  }

  /** Every quarter's first month has the start day. */
  predicate StartDayFits(year: int, config: FiscalConfig) {
    && config.startDay <= MonthLength(QuarterMonth(1, year, config))
    && config.startDay <= MonthLength(QuarterMonth(2, year, config))
    && config.startDay <= MonthLength(QuarterMonth(3, year, config))
    && config.startDay <= MonthLength(QuarterMonth(4, year, config))
  }

  lemma QuarterStartIs(q: int, year: int, config: FiscalConfig)
    requires config.Valid() && 1 <= q <= 4 && year != 99 && year != -1
    ensures QuarterStart(q, year, config)
         == (MonthStart(QuarterMonth(q, ReadYear(year), config)) + config.startDay - 1) * MS_PER_DAY
  {
    hide MonthStart;
    assert ReadYear(year + 1) == ReadYear(year) + 1;
    var months := config.startMonth + (q - 1) * 3;
    assert (months - 1) % 12 == if months > 12 then months - 13 else months - 1;
  }

  lemma QuarterRangeStart(q: int, year: int, config: FiscalConfig)
    ensures QuarterRange(q, year, config).start == QuarterStart(q, year, config)
  {
    hide SetUtcMonth;
  }

  /** Three months on from day `date` of month `n`, counted past the end of the month if need be. */
  lemma ThreeMonthsOn(n: int, date: int)
    requires 1 <= date <= 31
    ensures var t := (MonthStart(n) + date - 1) * MS_PER_DAY;
            SetUtcMonth(t, MonthOfYearAt(t) - 1 + 3) == MS_PER_DAY *
              if date <= MonthLength(n) then MonthStart(n + 3) + date - 1
              else MonthStart(n + 4) + date - MonthLength(n) - 1
  {
    hide MonthStart, MonthNumber, MonthLength;
    var t := (MonthStart(n) + date - 1) * MS_PER_DAY;
    NextMonthStart(n);
    NextMonthStart(n + 1);
    var m := if date <= MonthLength(n) then n else n + 1;
    MonthNumberIs(t, m);
    assert 12 * FullYear(t) + (MonthOfYearAt(t) - 1 + 3) == m + 3;
  }

  /** The quarter ends where the next is due exactly when its start day did not roll over, or the
      one three months on rolls over just as far. */
  lemma QuarterEndIs(q: int, year: int, config: FiscalConfig)
    requires config.Valid() && 1 <= q <= 4 && year != 99 && year != -1
    ensures var n := QuarterMonth(q, ReadYear(year), config);
            (QuarterRange(q, year, config).end + 1 == (MonthStart(n + 3) + config.startDay - 1) * MS_PER_DAY
             <==> config.startDay <= MonthLength(n) || MonthLength(n) == MonthLength(n + 3))
  {
    hide MonthStart, MonthLength, SetUtcMonth, QuarterStart;
    var n := QuarterMonth(q, ReadYear(year), config);
    QuarterStartIs(q, year, config);
    ThreeMonthsOn(n, config.startDay);
    NextMonthStart(n + 3);
  }

  /** The month of a quarter rolls over no further than the month three on: then it does not roll
      over at all, for the lengths cannot stay short all year round. */
  lemma RolloverCannotPersist(n: int, date: int)
    requires 1 <= date <= 31
    requires date <= MonthLength(n) || MonthLength(n) == MonthLength(n + 3)
    requires date <= MonthLength(n + 3) || MonthLength(n + 3) == MonthLength(n + 6)
    requires date <= MonthLength(n + 6) || MonthLength(n + 6) == MonthLength(n + 9)
    requires date <= MonthLength(n + 9) || MonthLength(n + 9) == MonthLength(n + 12)
    ensures date <= MonthLength(n) && date <= MonthLength(n + 3)
    ensures date <= MonthLength(n + 6) && date <= MonthLength(n + 9)
  {
    hide MonthLength;
    LengthByName(n);
    LengthByName(n + 3);
    LengthByName(n + 6);
    LengthByName(n + 9);
    LengthByName(n + 12);
  }

  /** Thirty days hath September, April, June and November. */
  lemma LengthByName(n: int)
    ensures var m := n % 12;
            if m == 1 then MonthLength(n) < 30
            else MonthLength(n) == if m == 3 || m == 5 || m == 8 || m == 10 then 30 else 31
  {
    hide IsLeap;
  }

  /** A quarter is never empty. */
  lemma QuarterIsProper(q: int, year: int, config: FiscalConfig)
    ensures QuarterRange(q, year, config).start <= QuarterRange(q, year, config).end
  {
    hide MonthStart, MonthNumber, QuarterStart;
    var t := QuarterStart(q, year, config);
    var n := MonthNumber(t);
    assert 12 * FullYear(t) + (MonthOfYearAt(t) - 1 + 3) == n + 3;
    MonthStartIncreases(n, n + 3);
  }

  /** Under a start on 31 April the first quarter, which starts on 1 May, ends on 31 July, when the
      second starts: they share a day, whatever the year. */
  lemma AprilQuartersOverlap(Y: int)
    ensures var config := FiscalConfig(4, 31);
            QuarterRange(1, Y, config).end + 1 == QuarterRange(2, Y, config).start + MS_PER_DAY
  {
    hide MonthStart, SetUtcMonth, QuarterStart;
    var config := FiscalConfig(4, 31);
    var n := QuarterMonthRead(1, Y, config);
    QuarterStartRead(1, Y, config);
    QuarterStartRead(2, Y, config);
    assert n % 12 == 3 && QuarterMonthRead(2, Y, config) == n + 3;
    assert MonthLength(n) == 30 && MonthLength(n + 3) == 31;
    ThreeMonthsOn(n, 31);
    NextMonthStart(n + 3);
  }

  /** The fiscal year labelled 0099 runs from 1999 back to 100, so nothing can tile it. */
  lemma Year99DoesNotTile(config: FiscalConfig)
    requires config.Valid()
    ensures !QuartersTile(99, config)
  {
    hide MonthStart, QuarterRange, DateUtc;
    QuarterIsProper(1, 99, config);
    QuarterIsProper(2, 99, config);
    QuarterIsProper(3, 99, config);
    QuarterIsProper(4, 99, config);
    FyStartIs(99, config);
    FyStartIs(100, config);
    MonthStartIncreases(StartMonthNumber(100, config), StartMonthNumber(1999, config));
  }

  /** The quarters tile the fiscal year exactly when each of them can start on the start day and
      the year is not 99. (-1 is not the year of any label.) */
  lemma QuartersTileExactly(year: int, config: FiscalConfig)
    requires config.Valid() && year != -1
    ensures QuartersTile(year, config) <==> year != 99 && StartDayFits(ReadYear(year), config)
  {
    hide MonthStart, MonthLength, QuarterRange, DateUtc;
    if year == 99 {
      Year99DoesNotTile(config);
      return;
    }
    FyStartIs(year, config);
    FyStartIs(year + 1, config);
    assert ReadYear(year + 1) == ReadYear(year) + 1;
    forall q | 1 <= q <= 4
      ensures QuarterRange(q, year, config).start
           == (MonthStart(QuarterMonth(q, ReadYear(year), config)) + config.startDay - 1) * MS_PER_DAY
    {
      QuarterStartIs(q, year, config);
      QuarterRangeStart(q, year, config);
    }
    QuarterEndIs(1, year, config);
    QuarterEndIs(2, year, config);
    QuarterEndIs(3, year, config);
    QuarterEndIs(4, year, config);
    var n := QuarterMonth(1, ReadYear(year), config);
    if QuartersTile(year, config) {
      RolloverCannotPersist(n, config.startDay);
    }
  }

  /** Start days up to 28 fit every quarter of every year. */
  lemma EarlyStartDaysFit(year: int, config: FiscalConfig)
    requires config.Valid() && config.startDay <= 28
    ensures StartDayFits(year, config)
  {
    hide MonthLength;
  }

  function QuarterDays(q: int, year: int, config: FiscalConfig): int {
    DaysInPeriod(QuarterRange(q, year, config).start, QuarterRange(q, year, config).end)
  }

  /** From the year 100 on, the inclusive count of days that start and end at midnight. */
  lemma WholeDays(from: Instant, start: Instant, end: Instant)
    requires MonthInstant(1200) <= from <= start <= end + 1 && from <= end
    requires start % MS_PER_DAY == 0 && (end + 1) % MS_PER_DAY == 0
    ensures DaysInPeriod(start, end) * MS_PER_DAY == end + 1 - start
  {
    hide MonthInstant, MonthNumber, DaysInPeriod;
    BeforeMonth(from, 1200);
    MonthNumberMonotone(from, start);
    MonthNumberMonotone(from, end);
    DaysInPeriodIsDaySpan(start, end);
    assert Day(end) == Day(end + 1) - 1;
  }

  lemma DateUtcIsMidnight(year: int, month: int, date: int)
    ensures DateUtc(year, month, date) % MS_PER_DAY == 0
  {
    hide MakeDay;
  }

  lemma QuarterStartIsMidnight(q: int, year: int, config: FiscalConfig)
    ensures QuarterStart(q, year, config) % MS_PER_DAY == 0
  {
    hide DateUtc;
    var months := config.startMonth + (q - 1) * 3;
    DateUtcIsMidnight(if months > 12 then year + 1 else year, (months - 1) % 12, config.startDay);
  }

  lemma QuarterStartsAtMidnight(q: int, year: int, config: FiscalConfig)
    ensures QuarterRange(q, year, config).start % MS_PER_DAY == 0
  {
    hide QuarterRange, QuarterStart, DateUtc;
    QuarterRangeStart(q, year, config);
    QuarterStartIsMidnight(q, year, config);
  }

  /** Tiling quarters share out the days of their fiscal year. */
  lemma QuarterDaysAddUp(year: int, config: FiscalConfig)
    requires config.Valid() && 0 <= year && QuartersTile(year, config)
    ensures QuarterDays(1, year, config) + QuarterDays(2, year, config)
          + QuarterDays(3, year, config) + QuarterDays(4, year, config)
         == DaysInPeriod(FyStart(year, config), FyEnd(year, config))
    ensures DaysInPeriod(FyStart(year, config), FyEnd(year, config))
         == if IsLeap(if config.startMonth <= 2 then ReadYear(year) else ReadYear(year) + 1) then 366 else 365
  {
    hide MonthStart, QuarterRange, DateUtc, DaysInPeriod, IsLeap, StartDayFits;
    QuartersTileExactly(year, config);
    var n := StartMonthNumber(ReadYear(year), config);
    FyStartIs(year, config);
    FyStartIs(year + 1, config);
    MonthStartOrder(1200, n);
    TwelveMonths(n);
    forall q | 1 <= q <= 4
      ensures QuarterRange(q, year, config).start % MS_PER_DAY == 0
      ensures QuarterRange(q, year, config).start <= QuarterRange(q, year, config).end
    {
      QuarterStartsAtMidnight(q, year, config);
      QuarterIsProper(q, year, config);
    }
    var from := FyStart(year, config);
    WholeDays(from, QuarterRange(1, year, config).start, QuarterRange(1, year, config).end);
    WholeDays(from, QuarterRange(2, year, config).start, QuarterRange(2, year, config).end);
    WholeDays(from, QuarterRange(3, year, config).start, QuarterRange(3, year, config).end);
    WholeDays(from, QuarterRange(4, year, config).start, QuarterRange(4, year, config).end);
    WholeDays(from, from, FyEnd(year, config));
  }
}
