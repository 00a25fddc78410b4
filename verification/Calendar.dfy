/** The UTC calendar under JavaScript's `Date`: the day-number, year and month functions of
    section 21.4.1 of ECMA-262 on unbounded integers (proleptic Gregorian). An instant is a
    number of milliseconds since 1970-01-01T00:00Z; a day number is an instant divided by
    `MS_PER_DAY`, rounded down; a month number is 12 * year + zero-based month. */
module Calendar {

  const MS_PER_DAY: int := 86_400_000

  type Instant = int

  predicate IsLeap(y: int) {
    y % 4 == 0 && (y % 100 != 0 || y % 400 == 0)
  }

  /** Days in month number `n`. */
  function MonthLength(n: int): (k: int)
    ensures 28 <= k <= 31
  {
    if n % 12 == 1 then if IsLeap(n / 12) then 29 else 28
    else if n % 12 in {3, 5, 8, 10} then 30
    else 31
  }

  /** January 1970. */
  const EPOCH_MONTH: int := 23640

  /** Day number of the first of month number `n`: the lengths of the months since the epoch. */
  function MonthStart(n: int): int
    decreases if n < EPOCH_MONTH then EPOCH_MONTH - n else n - EPOCH_MONTH
  {
    if n == EPOCH_MONTH then 0
    else if n > EPOCH_MONTH then MonthStart(n - 1) + MonthLength(n - 1)
    else MonthStart(n + 1) - MonthLength(n)
  }

  lemma NextMonthStart(n: int)
    ensures MonthStart(n + 1) == MonthStart(n) + MonthLength(n)
  {
    hide MonthLength;
  }

  lemma {:induction false} MonthStartIncreases(a: int, b: int)
    requires a < b
    ensures MonthStart(a) + 28 * (b - a) <= MonthStart(b)
    decreases b - a
  {
    hide MonthStart;
    NextMonthStart(b - 1);
    if a < b - 1 {
      MonthStartIncreases(a, b - 1);
    }
  }

  /** The month that starts last up to day `d`, found by walking from month `n`. */
  function WalkToMonth(d: int, n: int): (r: int)
    ensures MonthStart(r) <= d < MonthStart(r + 1)
    decreases if d < MonthStart(n) then 1 else 0, if d < MonthStart(n) then MonthStart(n) - d else d - MonthStart(n)
  {
    hide MonthStart, MonthLength;
    NextMonthStart(n);
    NextMonthStart(n - 1);
    if d < MonthStart(n) then WalkToMonth(d, n - 1)
    else if MonthStart(n + 1) <= d then WalkToMonth(d, n + 1)
    else n
  }

  /** The month number of day `d`: the one whose first day is the last month start up to `d`. */
  function MonthFromDay(d: int): (n: int)
    ensures MonthStart(n) <= d < MonthStart(n + 1)
  {
    WalkToMonth(d, EPOCH_MONTH)
  }

  lemma MonthFromDayIsUnique(d: int, n: int)
    requires MonthStart(n) <= d < MonthStart(n + 1)
    ensures MonthFromDay(d) == n
  {
    hide *;
    var k := MonthFromDay(d);
    if k < n {
      if k + 1 < n { MonthStartIncreases(k + 1, n); }
    } else if n < k {
      if n + 1 < k { MonthStartIncreases(n + 1, k); }
    }
  }

  // ---------------------------------------------------------------------------------------------
  // The closed form

  /** DayFromYear: the day number of 1 January of year `y`. */
  function DayFromYear(y: int): int {
    365 * (y - 1970) + (y - 1969) / 4 - (y - 1901) / 100 + (y - 1601) / 400
  }

  lemma FloorStep4(y: int)
    ensures (y - 1968) / 4 == (y - 1969) / 4 + if y % 4 == 0 then 1 else 0
  {
  }

  lemma FloorStep100(y: int)
    ensures (y - 1900) / 100 == (y - 1901) / 100 + if y % 100 == 0 then 1 else 0
  {
  }

  lemma FloorStep400(y: int)
    ensures (y - 1600) / 400 == (y - 1601) / 400 + if y % 400 == 0 then 1 else 0
  {
  }

  lemma CenturiesAreMultiplesOfFour(y: int)
    ensures y % 400 == 0 ==> y % 100 == 0
    ensures y % 100 == 0 ==> y % 4 == 0
  {
  }

  lemma YearLength(y: int)
    ensures DayFromYear(y + 1) == DayFromYear(y) + (if IsLeap(y) then 366 else 365)
  {
    FloorStep4(y);
    FloorStep100(y);
    FloorStep400(y);
    CenturiesAreMultiplesOfFour(y);
  }

  /** Days of the year before zero-based month `m`. */
  function DaysBefore(m: int, leap: bool): int
    requires 0 <= m <= 12
  {
    var extra := if leap then 1 else 0;
    match m
    case 0 => 0
    case 1 => 31
    case 2 => 59 + extra
    case 3 => 90 + extra
    case 4 => 120 + extra
    case 5 => 151 + extra
    case 6 => 181 + extra
    case 7 => 212 + extra
    case 8 => 243 + extra
    case 9 => 273 + extra
    case 10 => 304 + extra
    case 11 => 334 + extra
    case _ => 365 + extra
  }

  lemma {:induction false} MonthsFromJanuary(y: int, m: int)
    requires 0 <= m <= 12 && MonthStart(12 * y) == DayFromYear(y)
    ensures MonthStart(12 * y + m) == DayFromYear(y) + DaysBefore(m, IsLeap(y))
  {
    hide MonthStart, DayFromYear, IsLeap;
    if m > 0 {
      MonthsFromJanuary(y, m - 1);
      NextMonthStart(12 * y + m - 1);
      assert (12 * y + m - 1) / 12 == y && (12 * y + m - 1) % 12 == m - 1;
    }
  }

  lemma {:induction false} JanuaryStart(y: int)
    ensures MonthStart(12 * y) == DayFromYear(y)
    decreases if y < 1970 then 1970 - y else y - 1970
  {
    hide IsLeap, DayFromYear, MonthLength;
    if y > 1970 {
      JanuaryStart(y - 1);
      MonthsFromJanuary(y - 1, 12);
      YearLength(y - 1);
    } else if y < 1970 {
      JanuaryStart(y + 1);
      JanuaryBefore(y);
    } else {
      EpochYear();
    }
  }

  lemma EpochYear()
    ensures DayFromYear(1970) == 0
  {
  }

  /** The start of a year from the start of the next. */
  lemma JanuaryBefore(y: int)
    requires MonthStart(12 * (y + 1)) == DayFromYear(y + 1)
    ensures MonthStart(12 * y) == DayFromYear(y)
  {
    hide MonthStart, IsLeap, DayFromYear;
    YearLength(y);
    MonthsBeforeJanuary(y, 0);
  }

  lemma {:induction false} MonthsBeforeJanuary(y: int, m: int)
    requires 0 <= m <= 12
    ensures MonthStart(12 * y + m) == MonthStart(12 * y + 12) - DaysBefore(12, IsLeap(y)) + DaysBefore(m, IsLeap(y))
    decreases 12 - m
  {
    hide MonthStart, IsLeap;
    if m < 12 {
      MonthsBeforeJanuary(y, m + 1);
      NextMonthStart(12 * y + m);
      assert (12 * y + m) / 12 == y && (12 * y + m) % 12 == m;
    }
  }

  /** Month starts in closed form, for a month given by its year and zero-based month. */
  lemma MonthOfYear(y: int, m: int)
    requires 0 <= m < 12
    ensures (12 * y + m) / 12 == y && (12 * y + m) % 12 == m
    ensures MonthStart(12 * y + m) == DayFromYear(y) + DaysBefore(m, IsLeap(y))
  {
    hide MonthStart, IsLeap, DayFromYear;
    JanuaryStart(y);
    MonthsFromJanuary(y, m);
  }

  /** YearFromTime: the year of a day's month is the one whose first day is the last up to it. */
  lemma YearOfDay(d: int)
    ensures var y := MonthFromDay(d) / 12; DayFromYear(y) <= d < DayFromYear(y + 1)
  {
    hide MonthStart, IsLeap, DayFromYear, MonthFromDay;
    var n := MonthFromDay(d);
    var y := n / 12;
    JanuaryStart(y);
    JanuaryStart(y + 1);
    MonthStartOrder(12 * y, n);
    MonthStartOrder(n + 1, 12 * y + 12);
  }

  // ---------------------------------------------------------------------------------------------
  // Civil dates

  datatype Civil = Civil(year: int, month: int, day: int) {
    /** Year and month as one number. */
    function MonthNumber(): int {
      12 * year + month - 1
    }

    predicate Valid() {
      1 <= month <= 12 && 1 <= day <= MonthLength(MonthNumber())
    }

    predicate Before(that: Civil) {
      || year < that.year
      || (year == that.year && month < that.month)
      || (year == that.year && month == that.month && day < that.day)
    }
  }

  /** MakeDay: the month may lie outside 0..11 and the date outside the month; both carry over. */
  function MakeDay(year: int, month: int, date: int): int {
    MonthStart(12 * year + month) + date - 1
  }

  function DayOf(c: Civil): int {
    MakeDay(c.year, c.month - 1, c.day)
  }

  function CivilOf(d: int): Civil {
    var n := MonthFromDay(d);
    Civil(n / 12, n % 12 + 1, d - MonthStart(n) + 1)
  }

  /** Every day has exactly one valid civil date, and it leads back to the day. */
  lemma CivilRoundTrip(d: int)
    ensures CivilOf(d).Valid() && DayOf(CivilOf(d)) == d
  {
    hide MonthStart, MonthLength;
    var n := MonthFromDay(d);
    assert CivilOf(d).MonthNumber() == n;
    NextMonthStart(n);
  }

  lemma DayRoundTrip(c: Civil)
    requires c.Valid()
    ensures CivilOf(DayOf(c)) == c
  {
    hide MonthStart, MonthLength;
    var n := c.MonthNumber();
    NextMonthStart(n);
    MonthFromDayIsUnique(DayOf(c), n);
  }

  /** Civil dates are ordered as their days are. */
  lemma CivilOrder(a: Civil, b: Civil)
    requires a.Valid() && b.Valid()
    ensures a.Before(b) <==> DayOf(a) < DayOf(b)
  {
    hide MonthStart, MonthLength;
    var m, n := a.MonthNumber(), b.MonthNumber();
    NextMonthStart(m);
    NextMonthStart(n);
    if m < n {
      MonthStartOrder(m + 1, n);
    } else if n < m {
      MonthStartOrder(n + 1, m);
    }
  }

  lemma MonthStartOrder(a: int, b: int)
    ensures a <= b ==> MonthStart(a) <= MonthStart(b)
  {
    hide MonthStart;
    if a < b {
      MonthStartIncreases(a, b);
    }
  }

  // ---------------------------------------------------------------------------------------------
  // Instants

  function Day(t: Instant): int {
    t / MS_PER_DAY
  }

  function MonthNumber(t: Instant): int {
    MonthFromDay(Day(t))
  }

  function FullYear(t: Instant): int {
    MonthNumber(t) / 12
  }

  /** 1..12 */
  function MonthOfYearAt(t: Instant): int {
    MonthNumber(t) % 12 + 1
  }

  function DateAt(t: Instant): int {
    Day(t) - MonthStart(MonthNumber(t)) + 1
  }

  lemma FieldsAreCivil(t: Instant)
    ensures Civil(FullYear(t), MonthOfYearAt(t), DateAt(t)) == CivilOf(Day(t))
    ensures CivilOf(Day(t)).Valid()
    ensures 12 * FullYear(t) + MonthOfYearAt(t) - 1 == MonthNumber(t)
  {
    hide MonthStart, MonthLength;
    CivilRoundTrip(Day(t));
  }

  /** The first instant of month number `n`. */
  function MonthInstant(n: int): Instant {
    MonthStart(n) * MS_PER_DAY
  }

  lemma MonthBounds(t: Instant)
    ensures MonthInstant(MonthNumber(t)) <= t < MonthInstant(MonthNumber(t) + 1)
  {
    hide MonthStart;
    var n := MonthNumber(t);
    assert MonthStart(n) <= Day(t) && Day(t) + 1 <= MonthStart(n + 1);
  }

  lemma MonthNumberIs(t: Instant, n: int)
    requires MonthInstant(n) <= t < MonthInstant(n + 1)
    ensures MonthNumber(t) == n
  {
    hide MonthStart;
    MonthFromDayIsUnique(Day(t), n);
  }

  lemma MonthInstantOrder(a: int, b: int)
    ensures a < b <==> MonthInstant(a) < MonthInstant(b)
  {
    hide MonthStart;
    if a < b { MonthStartIncreases(a, b); }
    if b < a { MonthStartIncreases(b, a); }
  }

  lemma MonthNumberMonotone(t: Instant, u: Instant)
    requires t <= u
    ensures MonthNumber(t) <= MonthNumber(u)
  {
    hide *;
    MonthBounds(t);
    MonthBounds(u);
    if MonthNumber(u) < MonthNumber(t) {
      MonthInstantOrder(MonthNumber(u) + 1, MonthNumber(t));
    }
  }

  /** An instant precedes month `n` exactly when its month number does. */
  lemma BeforeMonth(t: Instant, n: int)
    ensures t < MonthInstant(n) <==> MonthNumber(t) < n
  {
    hide *;
    MonthBounds(t);
    MonthInstantOrder(MonthNumber(t) + 1, n);
    MonthInstantOrder(n, MonthNumber(t));
  }

  // ---------------------------------------------------------------------------------------------
  // Date.UTC

  /** `Date.UTC` reads the years 0..99 as 1900..1999. */
  function ReadYear(year: int): int {
    if 0 <= year <= 99 then 1900 + year else year
  }

  /** `Date.UTC(year, month, date)`, month zero-based. */
  function DateUtc(year: int, month: int, date: int): Instant {
    MakeDay(ReadYear(year), month, date) * MS_PER_DAY
  }

  /** The month number `Date.UTC` lands in when it is handed the year and month of month `n`. */
  function ReadMonth(n: int): int {
    if 0 <= n < 1200 then n + 22800 else n
  }

  lemma DateUtcOfMonth(n: int, k: int)
    ensures DateUtc(n / 12, n % 12 + k, 1) == MonthInstant(ReadMonth(n) + k)
  {
    hide MonthStart;
    assert 12 * ReadYear(n / 12) + (n % 12 + k) == ReadMonth(n) + k;
  }

  /** `Date.UTC` on the fields of `t` gives the midnight that starts the day of `t`, unless the
      year of `t` is one of 0..99. */
  lemma DateUtcOfFields(t: Instant)
    ensures DateUtc(FullYear(t), MonthOfYearAt(t) - 1, DateAt(t))
         == (Day(t) + MonthStart(ReadMonth(MonthNumber(t))) - MonthStart(MonthNumber(t))) * MS_PER_DAY
  {
    hide MonthStart;
    var n := MonthNumber(t);
    assert 12 * ReadYear(n / 12) + n % 12 == ReadMonth(n);
  }

  /** The milliseconds since 1 January 1970 of every civil date whose year is none of 0..99, in closed
      form: the leap days up to the year, the days of its months before, and those of the month. */
  lemma InstantOfDate(y: int, m: int, d: int)
    requires 0 <= m < 12 && !(0 <= y <= 99)
    ensures DateUtc(y, m, d)
         == 86400000 * (365 * (y - 1970) + (y - 1969) / 4 - (y - 1901) / 100 + (y - 1601) / 400
                        + DaysBefore(m, IsLeap(y)) + d - 1)
  {
    hide MonthStart, IsLeap, DaysBefore;
    MonthOfYear(y, m);
  }

  lemma TurnOfTheMillennium()
    ensures DateUtc(2000, 0, 1) == 946684800000 && DateUtc(1970, 0, 1) == 0
  {
    hide MonthStart;
    InstantOfDate(2000, 0, 1);
    InstantOfDate(1970, 0, 1);
  }
}
