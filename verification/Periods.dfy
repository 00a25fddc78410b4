/** Inclusive day counts, overlaps, and the split of a range into calendar months. */
module Periods {
  import opened Calendar

  datatype Range = Range(start: Instant, end: Instant)

  datatype Bucket = Bucket(start: Instant, end: Instant, year: int, month: int)

  // ---------------------------------------------------------------------------------------------
  // Day counts

  /** `Date.UTC` on the year, month and date of `t`. */
  function DayStamp(t: Instant): Instant {
    DateUtc(FullYear(t), MonthOfYearAt(t) - 1, DateAt(t))
  }

  function DaysInPeriod(start: Instant, end: Instant): int {
    (DayStamp(end) - DayStamp(start)) / MS_PER_DAY + 1
  }

  /** What two ranges have in common, reversed if nothing. */
  function Clip(a: Range, b: Range): Range {
    Range(if a.start > b.start then a.start else b.start, if a.end < b.end then a.end else b.end)
  }

  function OverlapDays(a: Range, b: Range): int {
    var both := Clip(a, b);
    if both.end < both.start then 0 else DaysInPeriod(both.start, both.end)
  }

  /** How far `Date.UTC` displaces the month of `t`, in days: 0 outside the years 0..99. */
  function Shift(t: Instant): int {
    var n := MonthNumber(t);
    MonthStart(ReadMonth(n)) - MonthStart(n)
  }

  lemma DayStampIs(t: Instant)
    ensures DayStamp(t) == (Day(t) + Shift(t)) * MS_PER_DAY
  {
    hide MonthStart;
    DateUtcOfFields(t);
  }

  /** Days from `start` to `end`, both included, on the calendar. */
  function DaySpan(start: Instant, end: Instant): int {
    Day(end) - Day(start) + 1
  }

  lemma DaysInPeriodIs(start: Instant, end: Instant)
    ensures DaysInPeriod(start, end) == DaySpan(start, end) + Shift(end) - Shift(start)
  {
    hide Shift, DayStamp;
    DayStampIs(start);
    DayStampIs(end);
  }

  /** Which of the three stretches of time `Date.UTC` displaces alike: year 0 has a 29 February
      where 1900 has none, so the displacement changes there. */
  function Stretch(t: Instant): (r: int)
    ensures 0 <= r <= 2
  {
    var n := MonthNumber(t);
    if n < 0 || 1200 <= n then 0 else if n < 2 then 1 else 2
  }

  lemma EarlyYearShift(y: int)
    requires 0 <= y <= 99
    ensures DayFromYear(1900 + y) == DayFromYear(y) + if y == 0 then 693961 else 693960
    ensures IsLeap(1900 + y) == (y != 0 && IsLeap(y)) && IsLeap(0)
  {
    assert (y - 69) / 4 == (y - 1969) / 4 + 475;
    assert (y - 1901) / 100 == if y == 0 then -20 else -19;
    assert (y - 1601) / 400 == if y == 0 then -5 else -4;
  }

  lemma EarlyMonthShift(y: int, m: int)
    requires 0 <= y <= 99 && 0 <= m < 12
    ensures MonthStart(12 * (1900 + y) + m) == MonthStart(12 * y + m) + if y == 0 && m < 2 then 693961 else 693960
  {
    hide MonthStart, DayFromYear, IsLeap;
    EarlyYearShift(y);
    MonthOfYear(y, m);
    MonthOfYear(1900 + y, m);
  }

  lemma ShiftValues(t: Instant)
    ensures Shift(t) == match Stretch(t) case 0 => 0 case 1 => 693961 case _ => 693960
  {
    hide MonthStart, MonthNumber;
    var n := MonthNumber(t);
    if 0 <= n < 1200 {
      EarlyMonthShift(n / 12, n % 12);
      assert 12 * (1900 + n / 12) + n % 12 == n + 22800;
    }
  }

  /** The inclusive day count is the calendar's exactly when both ends lie in the same stretch,
      in particular whenever neither year is one of 0..99. */
  lemma DaysInPeriodIsDaySpan(start: Instant, end: Instant)
    ensures DaysInPeriod(start, end) == DaySpan(start, end) <==> Stretch(start) == Stretch(end)
  {
    hide Shift, Stretch;
    DaysInPeriodIs(start, end);
    ShiftValues(start);
    ShiftValues(end);
  }

  // ---------------------------------------------------------------------------------------------
  // Tilings

  /** The buckets cover the range without gap or overlap, one for each calendar month it touches,
      each inside the month it names. */
  ghost predicate MonthTiling(bs: seq<Bucket>, start: Instant, end: Instant) {
    var first, last := MonthNumber(start), MonthNumber(end);
    && |bs| == last - first + 1 >= 1
    && bs[0].start == start
    && bs[|bs| - 1].end == end
    && (forall i :: 0 <= i < |bs| ==> InOneMonth(bs[i], first + i))
    && (forall i :: 0 < i < |bs| ==> bs[i].start == bs[i - 1].end + 1)
  }

  /** A proper bucket that lies in month number `n` and names it. */
  ghost predicate InOneMonth(b: Bucket, n: int) {
    && b.start <= b.end
    && MonthNumber(b.start) == n && MonthNumber(b.end) == n
    && 1 <= b.month <= 12 && 12 * b.year + b.month - 1 == n
  }

  /** Adjoining buckets whose inner boundaries fall on midnights. */
  ghost predicate Chain(bs: seq<Bucket>) {
    && (forall i :: 0 <= i < |bs| ==> bs[i].start <= bs[i].end)
    && (forall i :: 0 < i < |bs| ==> bs[i].start == bs[i - 1].end + 1 && bs[i].start % MS_PER_DAY == 0)
  }

  lemma InnerBoundary(t: Instant, n: int)
    requires MonthNumber(t - 1) == n - 1 && MonthNumber(t) == n
    ensures t == MonthInstant(n)
  {
    hide *;
    BeforeMonth(t - 1, n);
    BeforeMonth(t, n);
  }

  lemma TilingIsChain(bs: seq<Bucket>, start: Instant, end: Instant)
    requires MonthTiling(bs, start, end)
    ensures Chain(bs)
  {
    hide MonthNumber, MonthStart;
    forall i | 0 < i < |bs|
      ensures bs[i].start % MS_PER_DAY == 0
    {
      var n := MonthNumber(start) + i;
      assert InOneMonth(bs[i - 1], n - 1) && InOneMonth(bs[i], n);
      InnerBoundary(bs[i].start, n);
    }
  }

  lemma BoundariesOfTiling(bs: seq<Bucket>, start: Instant, end: Instant, i: int)
    requires MonthTiling(bs, start, end) && 0 <= i < |bs|
    ensures bs[i].start == if i == 0 then start else MonthInstant(MonthNumber(start) + i)
    ensures bs[i].end == if i == |bs| - 1 then end else MonthInstant(MonthNumber(start) + i + 1) - 1
    ensures InOneMonth(bs[i], MonthNumber(start) + i)
  {
    hide MonthNumber, MonthInstant;
    var n := MonthNumber(start) + i;
    assert InOneMonth(bs[i], n);
    if 0 < i {
      assert InOneMonth(bs[i - 1], n - 1);
      InnerBoundary(bs[i].start, n);
    }
    if i + 1 < |bs| {
      assert InOneMonth(bs[i + 1], n + 1);
      InnerBoundary(bs[i + 1].start, n + 1);
    }
  }

  /** A range has only one month tiling. */
  lemma TilingIsUnique(a: seq<Bucket>, b: seq<Bucket>, start: Instant, end: Instant)
    requires MonthTiling(a, start, end) && MonthTiling(b, start, end)
    ensures a == b
  {
    hide MonthNumber, MonthInstant;
    forall i | 0 <= i < |a|
      ensures a[i] == b[i]
    {
      BoundariesOfTiling(a, start, end, i);
      BoundariesOfTiling(b, start, end, i);
    }
  }

  // ---------------------------------------------------------------------------------------------
  // Conservation of days and additivity of overlap

  function SumDays(bs: seq<Bucket>): int {
    if bs == [] then 0 else DaysInPeriod(bs[0].start, bs[0].end) + SumDays(bs[1..])
  }

  function SumOverlap(x: Range, bs: seq<Bucket>): int {
    if bs == [] then 0 else OverlapDays(x, Range(bs[0].start, bs[0].end)) + SumOverlap(x, bs[1..])
  }

  /** The calendar days of `x` inside `b`. */
  function DayOverlap(x: Range, b: Range): int {
    var both := Clip(x, b);
    if both.end < both.start then 0 else DaySpan(both.start, both.end)
  }

  /** An instant of day `d` that lies in both ranges. */
  ghost predicate Shares(a: Range, b: Range, d: int) {
    exists t :: a.start <= t <= a.end && b.start <= t <= b.end && Day(t) == d
  }

  ghost function Interval(lo: int, hi: int): (r: set<int>)
    ensures forall d :: d in r <==> lo <= d <= hi
    ensures lo <= hi + 1 ==> |r| == hi - lo + 1
    decreases hi - lo
  {
    if hi < lo then {} else Interval(lo, hi - 1) + {hi}
  }

  /** The overlap is the number of calendar days that both ranges touch at one time, except where the
      ends of what they share lie in different stretches of `Date.UTC`'s reading. */
  lemma OverlapCountsSharedDays(a: Range, b: Range, days: set<int>)
    requires forall d :: d in days <==> Shares(a, b, d)
    ensures OverlapDays(a, b) == |days| <==>
            Clip(a, b).end < Clip(a, b).start || Stretch(Clip(a, b).start) == Stretch(Clip(a, b).end)
  {
    hide DaysInPeriod, Stretch;
    DayOverlapCountsSharedDays(a, b, days);
    DaysInPeriodIsDaySpan(Clip(a, b).start, Clip(a, b).end);
  }

  lemma DayOverlapCountsSharedDays(a: Range, b: Range, days: set<int>)
    requires forall d :: d in days <==> Shares(a, b, d)
    ensures DayOverlap(a, b) == |days|
  {
    var start, end := Clip(a, b).start, Clip(a, b).end;
    if end < start {
      forall d
        ensures d !in days
      {
        assert !Shares(a, b, d);
      }
    } else {
      forall d
        ensures d in days <==> Day(start) <= d <= Day(end)
      {
        if Day(start) <= d <= Day(end) {
          var t := if start >= d * MS_PER_DAY then start else d * MS_PER_DAY;
          assert start <= t <= end && Day(t) == d;
          assert Shares(a, b, d);
        }
      }
      assert days == Interval(Day(start), Day(end));
    }
  }

  /** Overlap splits at a midnight, wherever the ends of `x` fall in their days. */
  lemma OverlapSplits(x: Range, start: Instant, middle: Instant, end: Instant)
    requires start < middle <= end && middle % MS_PER_DAY == 0
    ensures DayOverlap(x, Range(start, middle - 1)) + DayOverlap(x, Range(middle, end))
         == DayOverlap(x, Range(start, end))
  {
    assert Day(middle - 1) == Day(middle) - 1;
  }

  lemma OverlapWithinMonth(x: Range, b: Bucket, n: int)
    requires InOneMonth(b, n)
    ensures OverlapDays(x, Range(b.start, b.end)) == DayOverlap(x, Range(b.start, b.end))
  {
    hide MonthNumber, DaysInPeriod, DaySpan;
    var start, end := Clip(x, Range(b.start, b.end)).start, Clip(x, Range(b.start, b.end)).end;
    if start <= end {
      MonthNumberMonotone(b.start, start);
      MonthNumberMonotone(start, end);
      MonthNumberMonotone(end, b.end);
      DaysInPeriodIsDaySpan(start, end);
    }
  }

  lemma {:induction false} ChainOverlap(x: Range, bs: seq<Bucket>, first: int)
    requires bs != [] && Chain(bs)
    requires forall i :: 0 <= i < |bs| ==> InOneMonth(bs[i], first + i)
    ensures bs[0].start <= bs[|bs| - 1].end
    ensures SumOverlap(x, bs) == DayOverlap(x, Range(bs[0].start, bs[|bs| - 1].end))
  {
    hide InOneMonth, OverlapDays, DayOverlap;
    OverlapWithinMonth(x, bs[0], first);
    if |bs| == 1 {
      assert SumOverlap(x, bs[1..]) == 0;
    } else {
      var rest := bs[1..];
      assert forall i :: 0 <= i < |rest| ==> rest[i] == bs[i + 1];
      ChainOverlap(x, rest, first + 1);
      assert rest[|rest| - 1] == bs[|bs| - 1];
      OverlapSplits(x, bs[0].start, bs[1].start, bs[|bs| - 1].end);
    }
  }

  /** Additivity of overlap over a month tiling, for every period `x`, aligned or not, proper or
      reversed. The buckets always add up to the calendar days of `x` in the range; the overlap
      with the whole range is that number exactly when the range clipped to `x` is empty or has
      both ends in one stretch. */
  lemma OverlapIsAdditive(x: Range, bs: seq<Bucket>, start: Instant, end: Instant)
    requires MonthTiling(bs, start, end)
    ensures SumOverlap(x, bs) == DayOverlap(x, Range(start, end))
    ensures
      var lo := if x.start > start then x.start else start;
      var hi := if x.end < end then x.end else end;
      SumOverlap(x, bs) == OverlapDays(x, Range(start, end)) <==> hi < lo || Stretch(lo) == Stretch(hi)
  {
    hide MonthNumber, InOneMonth, DaysInPeriod, DaySpan, Stretch;
    TilingIsChain(bs, start, end);
    ChainOverlap(x, bs, MonthNumber(start));
    var lo := if x.start > start then x.start else start;
    var hi := if x.end < end then x.end else end;
    DaysInPeriodIsDaySpan(lo, hi);
  }

  lemma {:induction false} DaysAreOverlaps(bs: seq<Bucket>, whole: Range)
    requires forall i :: 0 <= i < |bs| ==> whole.start <= bs[i].start <= bs[i].end <= whole.end
    ensures SumDays(bs) == SumOverlap(whole, bs)
  {
    hide DaysInPeriod;
    if bs != [] {
      DaysAreOverlaps(bs[1..], whole);
    }
  }

  lemma {:induction false} ChainIsOrdered(bs: seq<Bucket>, i: int, j: int)
    requires Chain(bs) && 0 <= i <= j < |bs|
    ensures bs[i].start <= bs[j].start && bs[i].end <= bs[j].end
    decreases j - i
  {
    if i < j {
      ChainIsOrdered(bs, i, j - 1);
    }
  }

  /** Days are conserved: the buckets' counts always add up to the calendar days of the range, and
      to its inclusive day count exactly when both ends lie in one stretch. */
  lemma DaysAreConserved(bs: seq<Bucket>, start: Instant, end: Instant)
    requires MonthTiling(bs, start, end)
    ensures SumDays(bs) == DaySpan(start, end)
    ensures SumDays(bs) == DaysInPeriod(start, end) <==> Stretch(start) == Stretch(end)
  {
    hide MonthNumber, InOneMonth, DaysInPeriod, DaySpan, Stretch;
    var whole := Range(start, end);
    TilingIsChain(bs, start, end);
    forall i | 0 <= i < |bs|
      ensures start <= bs[i].start <= bs[i].end <= end
    {
      ChainIsOrdered(bs, 0, i);
      ChainIsOrdered(bs, i, |bs| - 1);
    }
    DaysAreOverlaps(bs, whole);
    ChainOverlap(whole, bs, MonthNumber(start));
    DaysInPeriodIsDaySpan(start, end);
  }

  // ---------------------------------------------------------------------------------------------
  // The split

  /** The start of the month after `t`, as `Date.UTC` computes it from the fields of `t`. */
  function NextMonth(t: Instant): Instant {
    DateUtc(FullYear(t), MonthOfYearAt(t) - 1 + 1, 1)
  }

  lemma NextMonthIs(t: Instant)
    ensures NextMonth(t) == MonthInstant(ReadMonth(MonthNumber(t)) + 1)
    ensures MonthInstant(MonthNumber(t) + 1) <= NextMonth(t)
    ensures t < NextMonth(t)
  {
    hide DateUtc, MonthInstant, MonthNumber;
    var n := MonthNumber(t);
    DateUtcOfMonth(n, 1);
    MonthInstantOrder(n + 1, ReadMonth(n) + 1);
    MonthBounds(t);
  }

  /** The range leaves a month of one of the years 0..99, from where `Date.UTC` jumps ahead. */
  predicate LeavesEarlyMonth(start: Instant, end: Instant) {
    MonthNumber(start) < MonthNumber(end) && MonthNumber(start) < 1200 && 0 < MonthNumber(end)
  }

  lemma SpansMonths(b: Bucket, n: int)
    requires MonthNumber(b.start) < MonthNumber(b.end)
    ensures !InOneMonth(b, n)
  {
  }

  /** One bucket of the split, from `cursor` to the earlier of the next month and `end`. */
  function BucketFrom(cursor: Instant, end: Instant): Bucket {
    var monthEnd := if NextMonth(cursor) - 1 < end then NextMonth(cursor) - 1 else end;
    Bucket(cursor, monthEnd, FullYear(cursor), MonthOfYearAt(cursor))
  }

  lemma BucketStep(cursor: Instant, end: Instant)
    requires cursor <= end
    ensures
      var n, last, b, next := MonthNumber(cursor), MonthNumber(end), BucketFrom(cursor, end), NextMonth(cursor);
      && cursor < next
      && n <= last
      && (n == last ==> InOneMonth(b, n) && b.end == end < next)
      && (n < last && ReadMonth(n) == n ==> InOneMonth(b, n) && b.end + 1 == next <= end && MonthNumber(next) == n + 1)
      && (n < last && ReadMonth(n) != n ==> MonthNumber(b.start) < MonthNumber(b.end))
  {
    hide NextMonth, MonthNumber, MonthInstant;
    var n, b, next := MonthNumber(cursor), BucketFrom(cursor, end), NextMonth(cursor);
    NextMonthIs(cursor);
    MonthNumberMonotone(cursor, end);
    BeforeMonth(end, n + 1);
    BeforeMonth(b.end, n + 1);
    MonthNumberMonotone(cursor, b.end);
    MonthInstantOrder(n + 1, n + 2);
    MonthInstantOrder(n + 1, ReadMonth(n) + 1);
    BeforeMonth(next, n + 1);
    BeforeMonth(next, n + 2);
  }

  /** The split is the month tiling of the range unless it leaves a month of one of the years
      0..99; a reversed range yields its own ends as one bucket. */
  method SplitIntoMonths(start: Instant, end: Instant) returns (out: seq<Bucket>)
    ensures start <= end ==> (MonthTiling(out, start, end) <==> !LeavesEarlyMonth(start, end))
    ensures start > end ==> out == [Bucket(start, end, FullYear(start), MonthOfYearAt(start))]
  {
    hide NextMonth, MonthNumber, MonthInstant, InOneMonth;
    ghost var first, last := MonthNumber(start), MonthNumber(end);
    ghost var early := -1;
    NextMonthIs(start);
    var firstNextMonth := NextMonth(start);
    var firstEnd := if firstNextMonth - 1 < end then firstNextMonth - 1 else end;
    out := [Bucket(start, firstEnd, FullYear(start), MonthOfYearAt(start))];
    var cursor := firstNextMonth;
    if start <= end {
      BucketStep(start, end);
      if first < last && ReadMonth(first) != first { early := 0; }
    }
    while cursor <= end
      invariant start > end ==> out == [Bucket(start, end, FullYear(start), MonthOfYearAt(start))] && cursor > end
      invariant |out| >= 1 && out[0].start == start
      invariant -1 <= early < |out|
      invariant 0 <= early ==> MonthNumber(out[early].start) < MonthNumber(out[early].end)
      invariant 0 <= early ==> LeavesEarlyMonth(start, end)
      invariant early < 0 && start <= end ==>
          && (forall i :: 0 <= i < |out| ==> InOneMonth(out[i], first + i))
          && (forall i :: 0 < i < |out| ==> out[i].start == out[i - 1].end + 1)
      invariant early < 0 && start <= end && cursor <= end ==>
          && cursor == out[|out| - 1].end + 1 && MonthNumber(cursor) == first + |out|
          && (first >= 1200 || first + |out| <= 0)
      invariant early < 0 && start <= end < cursor ==>
          && last == first + |out| - 1 && out[|out| - 1].end == end && !LeavesEarlyMonth(start, end)
      decreases end - cursor
    {
      BucketStep(cursor, end);
      ghost var n := MonthNumber(cursor);
      var nextMonthStart := NextMonth(cursor);
      var monthEnd := if nextMonthStart - 1 < end then nextMonthStart - 1 else end;
      if early < 0 && n < last && ReadMonth(n) != n { early := |out|; }
      out := out + [Bucket(cursor, monthEnd, FullYear(cursor), MonthOfYearAt(cursor))];
      cursor := nextMonthStart;
    }
    if 0 <= early {
      SpansMonths(out[early], first + early);
    }
  }

  lemma MonthInstantDay(n: int)
    ensures Day(MonthInstant(n)) == MonthStart(n)
  {
    hide MonthStart;
  }

  /** Both conditions fail on real input: a split from January to February of the year 50, and a
      count from the last month of the year 99 into the year 100. */
  lemma EarlyYearsAreMisread()
    ensures LeavesEarlyMonth(MonthInstant(600), MonthInstant(601))
    ensures DaysInPeriod(MonthInstant(1199), MonthInstant(1200)) == 32 - 693960
  {
    hide MonthInstant, MonthNumber, MonthStart, DaysInPeriod, Shift;
    DaysInPeriodIs(MonthInstant(1199), MonthInstant(1200));
    ShiftValues(MonthInstant(1199));
    ShiftValues(MonthInstant(1200));
    NextMonthStart(1199);
    MonthInstantDay(1199);
    MonthInstantDay(1200);
    forall n | n in {600, 601, 1199, 1200}
      ensures MonthNumber(MonthInstant(n)) == n
    {
      MonthInstantOrder(n, n + 1);
      MonthNumberIs(MonthInstant(n), n);
    }
  }
}
