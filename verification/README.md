# ESG platform: verified models of its algorithmic core

A Dafny model of the units of this repository that compute rather than configure: the period
calculus, the streaming client of the copilot, the confidence means and the extraction scorer, the
entity-tree paths, the crosswalk index, the aggregation node, the alias index, the spreadsheet
column letters, the unit registry and the parser of calculation formulas. Each operation keeps the
branches, constants and error cases of its source; loops and updates in place are methods and
classes, proved against functions whose properties are then proved as lemmas.
`dafny verify dfyconfig.toml` checks everything.

## What is modelled

- `Calendar.dfy`, `Periods.dfy`, `FiscalYears.dfy`, `Text.dfy`, `PeriodText.dfy`, `PeriodForms.dfy`: dates as integer
  milliseconds with the day, year and month functions of section 21.4.1 of ECMA-262, including
  `Date.UTC`'s reading of the years 0..99 as 1900..1999 and its carrying of months and days.
- `Splitting.dfy`, `CopilotStream.dfy`, `StreamFrames.dfy`: `split`, the read loop with its carry-over buffer, the
  demonstration, and the callbacks as a log.
- `RealFacts.dfy`, `Rounding.dfy`, `Confidence.dfy`, `WeakLinks.dfy`, `RootMeans.dfy`, `Scorer.dfy`,
  `Siblings.dfy`, `Comparisons.dfy`, `ScoreRun.dfy`: means, scores, thresholds, over exact reals.
- `UniqueLists.dfy`, `ObjectKeys.dfy`, `Crosswalk.dfy`: the crosswalk, with the order in which a
  JavaScript object lists its keys.
- `CelGrammar.dfy`, `CelParser.dfy`, `CelTokens.dfy`, `CelSpelling.dfy`, `CelLayers.dfy`,
  `CelLexemes.dfy`: the formula language, its parser and tokenizer, a printer that undoes them, and
  grammars of expressions and lexemes that they are proved to follow.
- `Metrics.dfy`, `Aggregator.dfy`, `Amounts.dfy`, `NodeRun.dfy`, `AliasIndex.dfy`, `Ltree.dfy`,
  `LtreeLabels.dfy`, `ColumnLetters.dfy`, `Units.dfy`; `Wrappers.dfy` for values that may be missing.

Calls into code that is not part of this model are parameters: `JSON.parse`, `toLowerCase`, `strip`,
the printing of rounded numbers, the unit graph and period parser of the aggregation node,
`Math.log` and `Math.exp` (by four laws that hold of them; the laws of the geometric mean for
whole-number weights are proved without), the sixth root (by its defining equation), the square root,
disclosure lists, golden table, registries, and which texts make a decimal number.

## Where the code and its promises part

Each is proved: where the promise fails, and exactly when it holds.

- `getFiscalYear` puts the first day or two of March into the wrong fiscal year where fiscal years
  start on 30 or 31 February and that rolls over past them: such a day lies in the span of the year
  before, for the spans leave no gap (`FebruaryGap`, `GapLiesInYearBefore`, `FiscalYearsPartition`).
- Quarters tile their fiscal year only if each quarter's first month has the start day: under a start
  on 31 April the first two share 31 July (`AprilQuartersOverlap`, `QuartersTileExactly`).
- `Date.UTC` moves the years 0..99, so month splits that leave such a month, and day counts with
  ends on different sides, come out wrong (`EarlyYearsAreMisread`, `SplitIntoMonths`,
  `DaysInPeriodIsDaySpan`), and the labels 0000 to 0098 mean the fiscal years of 1900 to 1998 and
  0099 a reversed period (`EarlyLabelReads`, `FiscalYearSpans`). Texts with a year outside
  1000..9999 do not parse back (`ParseUndoesFormat`), and labels before the year 0 keep the sign of the
  remainder (`NegativeLabelSpells`).
- `isAncestor` treats the empty path as nobody's ancestor although it has no segments
  (`EmptyPathPrecedesNothing`, `AncestorIsPrefix`).
- A failing demonstration run that is aborted never calls `onDone` (`AbortedDemoIsSilent`,
  `DemoProtocol`).
- The scorer's description asks for review below HIGH or with any component below 0.55; the code
  asks below 0.65 overall, ignores the model log-probability, and tolerates peer scores from 0.4
  (`UnflaggedAgainstDescription`, `ReviewAgainstDescription`).
- The description also says that components outside [0,1] become 0.5. The code replaces such a
  log-probability by 0.85 and clamps whatever else survives adjustment (`NotReplacedByNeutral`,
  `SubstitutionAgainstDescription`). The components model checks the range when it is built, so such
  a value can only be assigned afterwards.
- Cross-source agreement is described as that of readings of one metric and period. `score_many`
  compares readings of one metric whatever their periods (`OtherPeriodsCount`), and leaves out those
  that equal the field's own, so that a mark of disagreement set before stays on a field that only
  equal readings accompany (`EqualReadingsStayMarked`, `EqualValuesLeftOut`). When the component comes
  out as described is `CrossSourceAgainstDescription`.
- Agreement of extracted values ignores their units: five kWh and five MWh agree, a thousand kWh and
  one MWh do not (`UnitsAreIgnored`, `ConflictExactly`). The verdict on numbers is the one on amounts
  exactly if the units have the same size (`SizesDecide`, `OneSizeConflicts`).
- A unit cannot be reached by the name it is registered under if that name normalizes to another key:
  through the alias table, as `hectare` does, or by white space around it (`HiddenRegistrations`,
  `ReachableByOwnName`).
- The crosswalk's comment says golden mappings win; the code appends them to the derived ones, so
  they head a list only if one of the two starts with the other (`GoldenComesLast`,
  `GoldenWinsExactly`).

## Model

| member | source | states |
|---|---|---|
| Calendar.MonthStartIncreases | packages/shared/src/dates.ts:35-37 | month starts strictly increase, by at least 28 days a month |
| Calendar.MonthFromDay | packages/shared/src/dates.ts:61-63 | the month a day falls in: the one that starts last up to it |
| Calendar.MonthFromDayIsUnique | packages/shared/src/dates.ts:61-63 | the bracketing month is the only one |
| Calendar.MonthOfYear | packages/shared/src/dates.ts:35-37 | month starts agree with the closed form of ECMA-262 for day, year and month |
| Calendar.YearOfDay | packages/shared/src/dates.ts:63-63 | the year of a day is the one whose first day, in closed form, is the last up to it |
| Calendar.CivilRoundTrip | packages/shared/src/dates.ts:35-46 | every day has a valid civil date that leads back to it |
| Calendar.DayRoundTrip | packages/shared/src/dates.ts:35-46 | every valid civil date comes back from its day |
| Calendar.CivilOrder | packages/shared/src/dates.ts:35-46 | civil dates are ordered as their days |
| Calendar.DateUtcOfFields | packages/shared/src/dates.ts:187-192 | `Date.UTC` on the fields of an instant: its midnight, displaced for the years 0..99 |
| Calendar.InstantOfDate | packages/shared/src/dates.ts:35-37 | the milliseconds of every civil date outside the years 0..99, in closed form |
| Periods.DaysInPeriodIsDaySpan | packages/shared/src/dates.ts:185-194 | the inclusive day count is the calendar's exactly when both ends lie in one stretch of `Date.UTC`'s reading |
| Periods.SplitIntoMonths | packages/shared/src/dates.ts:214-245 | the result tiles the range by calendar months exactly unless the range leaves a month of the years 0..99; a reversed range gives one bucket; the loop terminates |
| Periods.TilingIsUnique | packages/shared/src/dates.ts:214-245 | a range has one month tiling, so the split is determined |
| Periods.OverlapCountsSharedDays | packages/shared/src/dates.ts:196-204 | the overlap is the number of calendar days that both ranges touch at one time, exactly unless the ends of their common part lie in different stretches of `Date.UTC`'s reading |
| Periods.OverlapIsAdditive | packages/shared/src/dates.ts:196-204 | overlaps with the buckets add up to the overlap with the range, for every period, with the exact exception |
| Periods.DaysAreConserved | packages/shared/src/dates.ts:185-194 | bucket day counts add up to the calendar days of the range, and to its day count under the exact condition |
| Periods.EarlyYearsAreMisread | packages/shared/src/dates.ts:35-37 | concrete ranges on which both exceptions occur |
| FiscalYears.FiscalYearContains | packages/shared/src/dates.ts:56-81 | the fiscal year of a date contains it exactly unless the date is in the February gap or the start year is one of 0..99 |
| FiscalYears.FiscalYearSpans | packages/shared/src/dates.ts:70-73 | which dates a span holds, for every start year and configuration |
| FiscalYears.GapLiesInYearBefore | packages/shared/src/dates.ts:62-73 | a date in the gap lies in the span of the year before the one it is put into, exactly unless `Date.UTC` displaces that span |
| FiscalYears.FiscalYearsAdjoin | packages/shared/src/dates.ts:70-73 | the end of a fiscal year plus one millisecond starts the next |
| FiscalYears.FiscalYearClassifies | packages/shared/src/dates.ts:56-81 | for every year, date and configuration, exactly when the date's fiscal year and the year's span agree |
| FiscalYears.FebruaryGap | packages/shared/src/dates.ts:64-72 | on 1 March of a common year they disagree under a start on 30 or 31 February |
| FiscalYears.FiscalYearsPartition | packages/shared/src/dates.ts:56-81 | for a start year they agree on all dates if and only if the year is none of -1..99 and fiscal years do not start on 30 or 31 February |
| FiscalYears.FiscalYearLength | packages/shared/src/dates.ts:70-73 | 365 days, or 366 with a 29 February inside; what it is for the years that `Date.UTC` displaces |
| FiscalYears.DateObject.SetUTCMonth | packages/shared/src/dates.ts:134-135 | lands on the date in the month asked for, or as many days into the next as that month lacks; the time of day stays |
| FiscalYears.QuarterPeriod | packages/shared/src/dates.ts:128-136 | the period in closed form: from the start day of the quarter's first month to the millisecond before the same date three months on, with and without rollover; it is never empty |
| FiscalYears.ThreeMonthsOn | packages/shared/src/dates.ts:134-135 | where moving three months on lands, with and without rollover |
| FiscalYears.RolloverCannotPersist | packages/shared/src/dates.ts:130-135 | start days cannot roll over alike in all four quarters |
| FiscalYears.QuarterIsProper | packages/shared/src/dates.ts:128-136 | no quarter is empty |
| FiscalYears.QuartersTileExactly | packages/shared/src/dates.ts:125-137 | the quarters tile the fiscal year if and only if every quarter's month has the start day and the year is not 99 |
| FiscalYears.AprilQuartersOverlap | packages/shared/src/dates.ts:128-136 | under a start on 31 April the first quarter runs one day into the second |
| FiscalYears.EarlyStartDaysFit | packages/shared/src/dates.ts:125-137 | start days up to 28 always fit |
| FiscalYears.QuarterDaysAddUp | packages/shared/src/dates.ts:185-194 | the quarters' day counts add up to the fiscal year's 365 or 366 |
| PeriodText.ParseUndoesFormat | packages/shared/src/dates.ts:116-123 | a printed range parses to the start of its first and the end of its last day for four-digit years, and is rejected otherwise |
| PeriodText.FormatUndoesParse | packages/shared/src/dates.ts:116-123 | a printed range parses exactly for four-digit years, and then prints back as the same text |
| PeriodText.FormatReprintsRange | packages/shared/src/dates.ts:116-123 | an accepted range text prints back exactly when neither year starts with a zero |
| PeriodText.LabelSpells | packages/shared/src/dates.ts:74-76 | from the year 0 on a label spells its year and, in two digits, the year after it modulo a hundred |
| PeriodText.NegativeLabelSpells | packages/shared/src/dates.ts:74-76 | before the year 0 the remainder keeps its sign: the fiscal year that starts in year -5 is FY-5--4 |
| PeriodText.LabelOfDate | packages/shared/src/dates.ts:56-81 | from the year 0 on the label of a date's fiscal year spells its start year and the two last digits of its end year; 1999 gives FY1999-00 |
| PeriodText.ParseUndoesFyLabel | packages/shared/src/dates.ts:139-143 | a fiscal-year label parses to exactly that year's span if and only if the year has four digits |
| PeriodText.LabelReads | packages/shared/src/dates.ts:139-143 | every text taken for a label means the span of its four digits, whatever its case, suffix and surrounding white space |
| PeriodText.EarlyLabelReads | packages/shared/src/dates.ts:139-143 | the labels 0000 to 0098 mean the fiscal years of 1900 to 1998, and 0099 a reversed period |
| PeriodText.ParseUndoesFiscalYear | packages/shared/src/dates.ts:74-80 | the label of a date's fiscal year parses to that fiscal year if its year has four digits, and is rejected otherwise |
| PeriodText.QuarterTextReads | packages/shared/src/dates.ts:125-137 | the plain text of a quarter means the quarter |
| PeriodText.QuarterReads | packages/shared/src/dates.ts:125-137 | every text taken for a quarter means that quarter of its four digits' year, as the plain text does |
| PeriodText.QuarterTextsTile | packages/shared/src/dates.ts:125-143 | the four quarter texts tile the period of the label if and only if the start day fits |
| PeriodText.MonthPeriodCovers | packages/shared/src/dates.ts:158-166 | a month period holds exactly the instants of one calendar month |
| PeriodText.NamedMonthIsIsoMonth | packages/shared/src/dates.ts:145-156 | a named month means the same as its ISO month |
| PeriodForms.PhraseReads | packages/shared/src/dates.ts:110-169 | each form, in any case and between any white space, is read as the period it names, the twelve months by their names |
| PeriodForms.OnlyPhrasesRead | packages/shared/src/dates.ts:110-169 | a text names a period if and only if it has one of the five forms, and then that period |
| Splitting.SplitUndoesJoin | apps/web/src/lib/copilot.ts:55-55 | splitting gives the only clean pieces that join to the text |
| Splitting.PiecesAreClean | apps/web/src/lib/copilot.ts:55-56 | no piece contains the separator or reaches into one early |
| Splitting.JoinUndoesSplit | apps/web/src/lib/copilot.ts:55-55 | nothing is lost in splitting |
| Splitting.SplitExtends | apps/web/src/lib/copilot.ts:54-56 | more text only changes the last piece, the carried buffer |
| CopilotStream.DoneIsDeliveredLast | apps/web/src/lib/copilot.ts:57-66 | `done` can only be the last event delivered, and is exactly when a frame says so |
| CopilotStream.DeliverFrames | apps/web/src/lib/copilot.ts:57-70 | frames are delivered in order, malformed ones skipped, up to the first `done` |
| StreamFrames.FrameReads | apps/web/src/lib/copilot.ts:58-61 | a frame is read as the payload of its first data line, trimmed, whatever lines stand around it |
| StreamFrames.FrameWithoutData | apps/web/src/lib/copilot.ts:58-59 | a frame without a data line is skipped |
| StreamFrames.StreamIsReported | apps/web/src/lib/copilot.ts:44-72 | of a stream written as one data line an event, however it is cut, exactly the events up to the first `done` are reported, in order, and then its end; a frame left unfinished is dropped |
| StreamFrames.FailuresAreReported | apps/web/src/lib/copilot.ts:42-83 | what is reported of a response without success, of a failed fetch, and of a thrown value that is no error |
| CopilotStream.ReadBody | apps/web/src/lib/copilot.ts:49-72 | the read loop reports what one pass over the whole text would; the buffer never contains the separator |
| CopilotStream.Simulate | apps/web/src/lib/copilot.ts:86-103 | the demonstration reports the tokens of its text, its citations with their meta data, and `done`, cut short by an abort |
| CopilotStream.TokensJoin | apps/web/src/lib/copilot.ts:88-88 | cutting the text into tokens loses nothing |
| CopilotStream.TokensAlternate | apps/web/src/lib/copilot.ts:88-88 | tokens are words and white space in turn, empty at most at the ends |
| CopilotStream.TokensAreDetermined | apps/web/src/lib/copilot.ts:88-88 | they are the only alternating pieces of the text |
| CopilotStream.DemoSpeaksItsText | apps/web/src/lib/copilot.ts:86-103 | the reported tokens make up the whole text, or the part before the abort |
| CopilotStream.ReportFailure | apps/web/src/lib/copilot.ts:73-83 | error, error event and `onDone`, or the demonstration |
| CopilotStream.StreamCopilot | apps/web/src/lib/copilot.ts:32-84 | the callbacks depend on the chunks only through their concatenation |
| CopilotStream.RunProtocol | apps/web/src/lib/copilot.ts:32-84 | outside the demonstration `onDone` is called once and last, errors exactly on failing runs, after all events |
| CopilotStream.DemoProtocol | apps/web/src/lib/copilot.ts:73-103 | in the demonstration that holds exactly unless a failing run is aborted |
| CopilotStream.AbortedDemoIsSilent | apps/web/src/lib/copilot.ts:75-92 | a failing run aborted at the outset reports nothing, `onDone` included |
| Confidence.CompositeConfidence | packages/shared/src/confidence.ts:50-72 | the loop computes the exponential of the weighted mean logarithm |
| Confidence.WeightedArithmeticConfidence | packages/shared/src/confidence.ts:88-108 | the loop computes the weighted mean |
| Confidence.GeometricBelowArithmetic | packages/shared/src/confidence.ts:50-108 | the geometric mean never exceeds the arithmetic one, with equality exactly when the weighted values agree |
| Confidence.MeansAreWithin | packages/shared/src/confidence.ts:50-108 | both means lie between any bounds of the values of positive weight |
| Confidence.MeansAreMonotone | packages/shared/src/confidence.ts:50-108 | raising values never lowers a mean |
| Confidence.MeansIgnoreScale | packages/shared/src/confidence.ts:61-71 | scaling all weights changes nothing |
| Confidence.CompositeLaws | packages/shared/src/confidence.ts:43-108 | the laws for five clamped components under any weights, no positive weight included |
| Confidence.CompositeIsRoot | packages/shared/src/confidence.ts:54-71 | with whole-number weights the composite is the root of the product of powers |
| Confidence.CompositeOfComponentsIsRoot | packages/shared/src/confidence.ts:54-71 | for the five clamped components each with its own weight, whole in any unit |
| Confidence.DefaultCompositeIsRoot | packages/shared/src/confidence.ts:35-41 | the same for the default weights, as twentieths |
| WeakLinks.BrokenLinkIsLow | packages/shared/src/confidence.ts:50-72 | under the default weights one component at the smallest value that counts brings the composite under 0.126 and the band to LOW, whatever the others are |
| WeakLinks.ArithmeticMeanMasks | packages/shared/src/confidence.ts:88-108 | with the others full, the arithmetic mean of such components is HIGH |
| WeakLinks.BandCountsThresholds | packages/shared/src/confidence.ts:76-81 | the band counts which of 0.5, 0.75 and 0.9 are reached |
| Confidence.CombiningOnlyLowers | packages/shared/src/confidence.ts:114-116 | chaining exceeds neither score nor band of its parts |
| RootMeans.RootBelowArithmetic | packages/shared/src/confidence.ts:50-108 | for whole-number weights AM-GM holds of every root of the product of powers, from arithmetic alone |
| RootMeans.RootIsMonotone | packages/shared/src/confidence.ts:50-72 | raising values never lowers that root |
| RootMeans.RootIsWithin | packages/shared/src/confidence.ts:50-72 | it lies between any positive bounds of the values |
| Rounding.RoundingIsMonotone | services/ai-engine/app/confidence/scorer.py:212-212 | rounding half to even keeps order |
| Rounding.Round4IsNearest | services/ai-engine/app/confidence/scorer.py:212-212 | the rounded number is the nearest of four decimals, or of the two nearest the one with an even last digit |
| Rounding.Round4Error | services/ai-engine/app/confidence/scorer.py:212-212 | rounding to four decimals is off by at most half a unit |
| Scorer.Composite | services/ai-engine/app/confidence/scorer.py:183-212 | the loop computes the rounded sixth root of the floored product |
| Scorer.ExtractedField.ScoreField | services/ai-engine/app/confidence/scorer.py:81-154 | scoring in place: all six components with z-score and sibling agreement, composite, level, and a review flag only ever raised |
| Scorer.AgreementScore | services/ai-engine/app/confidence/scorer.py:223-240 | the loop computes the decay of the worst relative difference, neutral without numbers |
| Comparisons.AgreementReaches | services/ai-engine/app/confidence/scorer.py:223-240 | agreement is at least exp(-6t) if and only if every sibling differs from the value by at most the share t of one of the two |
| Comparisons.AgreementIgnoresScale | services/ai-engine/app/confidence/scorer.py:223-240 | scaling the value and its siblings by one factor leaves agreement as it is, away from zero |
| Comparisons.NoNumbersAreNeutral | services/ai-engine/app/confidence/scorer.py:237-238 | siblings without numbers give 0.5 |
| Comparisons.PeerReaches | services/ai-engine/app/confidence/scorer.py:110-122 | the peer score reaches exp(-t²/4.5) if and only if the value is within t standard deviations of the mean of the priors, with the cases of one prior and of no deviation |
| Comparisons.PeerFalls | services/ai-engine/app/confidence/scorer.py:110-122 | farther from the mean of the priors it is no higher |
| Comparisons.ThreeDeviationsOff | services/ai-engine/app/confidence/scorer.py:110-122 | three deviations off it is exp(-2) |
| Scorer.AgreementIsFull | services/ai-engine/app/confidence/scorer.py:223-240 | agreement is full exactly when some sibling carries a number and all numbers equal the value |
| Scorer.MoreSiblingsAgreeLess | services/ai-engine/app/confidence/scorer.py:223-240 | further siblings never raise agreement |
| Scorer.ScoreMany | services/ai-engine/app/confidence/scorer.py:156-178 | every field is scored in place in the context of all: its metric, its prior values, and the different values read for its key, repeated fields included |
| ScoreRun.SourcesAreScored | services/ai-engine/app/confidence/scorer.py:156-179 | the cross-source component of a field among others: unchanged when no reading of its metric has another number, else at least exp(-6t) if and only if each of those differs by at most the share t |
| ScoreRun.PeersAreScored | services/ai-engine/app/confidence/scorer.py:108-117 | the peer score is that of the priors of the field's own metric, and stays without any |
| ScoreRun.ValidityIsScored | services/ai-engine/app/confidence/scorer.py:90-127 | cross-validation by the range of the field's own metric, schema validation by its unit, validation by the number of errors, the log-probability 0.85 when out of range |
| ScoreRun.CompositeIsGeometricMean | services/ai-engine/app/confidence/scorer.py:184-221 | the composite of a scored field is the rounded sixth root of the product of its six components, each at least 0.001; HIGH from 0.85, LOW below 0.65 |
| ScoreRun.ReviewIsRaised | services/ai-engine/app/confidence/scorer.py:90-152 | when a scored field goes to review, by its inputs: always without a number, out of range, with an unknown unit or any error, else by peer score, agreement, composite or the cross-validation it came with |
| ScoreRun.HighComponents | services/ai-engine/app/confidence/scorer.py:214-221 | no component of a HIGH field is below 0.377 |
| Siblings.SiblingsAgainstDescription | services/ai-engine/app/confidence/scorer.py:163-170 | which different values of a metric are compared: those of the field's period alone exactly if no other period has one |
| Siblings.OtherPeriodsCount | services/ai-engine/app/confidence/scorer.py:163-170 | last year's different value lowers the agreement of this year's |
| Siblings.EqualValuesLeftOut | services/ai-engine/app/confidence/scorer.py:119-170 | leaving out values equal to the own gives the agreement with all exactly if some value differs or the component was full |
| Siblings.EqualReadingsStayMarked | services/ai-engine/app/confidence/scorer.py:119-170 | one reading twice keeps the 0.6 it came with although the described agreement is full |
| Siblings.CrossSourceAgainstDescription | services/ai-engine/app/confidence/scorer.py:119-178 | exactly when the assessed component is the agreement with the other readings of metric and period |
| Scorer.ScoringIsIdempotent | services/ai-engine/app/confidence/scorer.py:81-154 | scoring a scored field again changes nothing |
| Scorer.CompositeIsBounded | services/ai-engine/app/confidence/scorer.py:194-212 | the composite stays from 0.001 to 1 |
| Scorer.CompositeIsMonotone | services/ai-engine/app/confidence/scorer.py:183-221 | raising components never lowers composite or level |
| Scorer.OneZeroIsLow | services/ai-engine/app/confidence/scorer.py:194-221 | one component at the floor makes the level LOW |
| Scorer.InvalidValuesAreLow | services/ai-engine/app/confidence/scorer.py:96-106 | a field without a number, or outside its metric's range, ends LOW and for review |
| Scorer.HighHasNoWeakLink | services/ai-engine/app/confidence/scorer.py:214-221 | a HIGH field has every component at 0.377 or more, despite rounding |
| Scorer.HighWithOneWeakLink | services/ai-engine/app/confidence/scorer.py:214-221 | 0.3772 among ones is still HIGH, so the bound is nearly sharp |
| Scorer.ReviewAgainstDescription | services/ai-engine/app/confidence/scorer.py:142-152 | of a scored field: exactly when its review flag differs from the described rule, by its assessed components and a bound on their product |
| Scorer.UnflaggedAgainstDescription | services/ai-engine/app/confidence/scorer.py:24-31 | three scored fields that the description sends to review and the code does not |
| Scorer.SubstitutionAgainstDescription | services/ai-engine/app/confidence/scorer.py:14-18 | the described 0.5 for values out of range is what scoring does exactly when none survives adjustment and, of what comes in, the log-probability is in range |
| Scorer.NotReplacedByNeutral | services/ai-engine/app/confidence/scorer.py:90-136 | a peer score clamped to 1 and a log-probability replaced by 0.85 |
| Ltree.SanitizedIsWords | packages/shared/src/ltree.ts:13-19 | sanitizing yields the words of the lower-cased text joined by single underscores |
| Ltree.SanitizeFixes | packages/shared/src/ltree.ts:13-19 | canonical labels are exactly its fixed points; it is idempotent |
| LtreeLabels.SanitizingKeepsWords | packages/shared/src/ltree.ts:13-19 | however the lower-cased text is made of words of letters and digits with other characters between them, those words come out, joined by underscores |
| Ltree.SegmentsUndoJoin | packages/shared/src/ltree.ts:21-26 | a joined path falls back into its sanitized non-empty labels and passes validation |
| Ltree.AllSegmentsAreValid | packages/shared/src/ltree.ts:60-72 | validation accepts exactly the paths all of whose segments match, and names an offender otherwise |
| LtreeLabels.ValidPathsAreLabels | packages/shared/src/ltree.ts:60-72 | exactly the non-empty sequences of labels over letters, digits and underscores, joined by dots, are valid; the empty path is refused as such, and any other by its first offender |
| Ltree.AncestorIsPrefix | packages/shared/src/ltree.ts:34-37 | ancestry on strings is the prefix order on segments, with the empty path as the exact exception |
| Ltree.EmptyPathPrecedesNothing | packages/shared/src/ltree.ts:34-37 | the empty path, though it has none but segments of any path, is an ancestor of no proper path |
| Ltree.AncestryIsPartialOrder | packages/shared/src/ltree.ts:34-42 | ancestry is a partial order that depth respects strictly |
| Ltree.ParentDropsLast | packages/shared/src/ltree.ts:28-32 | the parent has all segments but the last |
| Ltree.AncestorsAreLineage | packages/shared/src/ltree.ts:28-37 | ancestors are what iterating the parent reaches |
| Ltree.ParentUndoesAppend | packages/shared/src/ltree.ts:44-53 | a child's parent is the path it was appended to, one level up; when it is refused |
| Crosswalk.RunCollects | packages/frameworks/src/crosswalks/index.ts:138-185 | lists collect ids without duplicates in order of appearance, keys and the frameworks of each key in order of meeting |
| Crosswalk.Accumulator.InvertForFramework | packages/frameworks/src/crosswalks/index.ts:138-157 | the nested loops merge each disclosure's id into each key it maps |
| Crosswalk.Accumulator.BuildCrosswalks | packages/frameworks/src/crosswalks/index.ts:159-188 | the build inverts all lists, ensures all canonical keys, merges the golden table |
| Crosswalk.ListsAreDerivedThenGolden | packages/frameworks/src/crosswalks/index.ts:176-185 | each list is the derived ids in order, then the new golden ids |
| Crosswalk.GoldenWinsExactly | packages/frameworks/src/crosswalks/index.ts:176-185 | golden ids head a list exactly when one of golden and derived ids starts with the other |
| Crosswalk.GoldenComesLast | packages/frameworks/src/crosswalks/index.ts:176-185 | a golden id listed behind a derived one |
| Crosswalk.CanonicalKeysArePresent | packages/frameworks/src/crosswalks/index.ts:170-174 | every canonical key is present |
| Crosswalk.GetCanonicalKeysForDisclosure | packages/frameworks/src/crosswalks/index.ts:213-223 | the lookup loop collects the keys whose list has the id, in the order of an object's keys |
| Crosswalk.ReverseLookupIsBruteForce | packages/frameworks/src/crosswalks/index.ts:213-223 | a key is found exactly when a disclosure maps it or the golden table lists the id |
| Crosswalk.GetFrameworksContainingMetric | packages/frameworks/src/crosswalks/index.ts:196-204 | the loop collects the frameworks with a non-empty list, in the order they were set |
| Crosswalk.FrameworkOrder | packages/frameworks/src/crosswalks/index.ts:196-210 | the forward lookups follow the order of the inversions, then that of the golden table |
| Crosswalk.ForwardLookupsAgree | packages/frameworks/src/crosswalks/index.ts:196-210 | the forward lookups are the other side of the same relation, each id answered once for every framework that lists it |
| ObjectKeys.KeysAreConserved | packages/frameworks/src/crosswalks/index.ts:187-218 | an object lists each key as often as it was set |
| ObjectKeys.IndexLikeIsDecimal | packages/frameworks/src/crosswalks/index.ts:187-218 | a key counts as an array index exactly if it is the decimal form of a number below 4294967295, its index |
| ObjectKeys.IndicesComeFirst | packages/frameworks/src/crosswalks/index.ts:187-218 | keys that look like array indices come first, ascending; without any the order is that of setting |
| Aggregator.GroupFields | services/ai-engine/app/agents/entity_extraction_agent.py:380-389 | the dictionary of groups holds each signature's keyed fields in order |
| Aggregator.GroupsPartition | services/ai-engine/app/agents/entity_extraction_agent.py:380-389 | the groups hold every keyed field exactly as often as it came |
| Aggregator.MembersAre | services/ai-engine/app/agents/entity_extraction_agent.py:380-389 | a keyed field is in the group of its own signature and no other |
| Aggregator.DistinctValues | services/ai-engine/app/agents/entity_extraction_agent.py:507-513 | the loop keeps the first member with each value key |
| Aggregator.DistinctAre | services/ai-engine/app/agents/entity_extraction_agent.py:507-513 | it keeps every value key once, and the first member first |
| Aggregator.BestIsFirstMaximum | services/ai-engine/app/agents/entity_extraction_agent.py:405-410 | the chosen member is the first that none betters |
| Aggregator.NodeAggregator | services/ai-engine/app/agents/entity_extraction_agent.py:377-414 | the node emits what its groups yield, group by group, units and periods included, and fails if building a field does |
| Aggregator.ChosenAre | services/ai-engine/app/agents/entity_extraction_agent.py:391-411 | what a group keeps: its first best member, or exactly on conflict its first member and the first that differs |
| Aggregator.EmissionOfGroup | services/ai-engine/app/agents/entity_extraction_agent.py:391-411 | one field for each member kept, flagged exactly on conflict; failure exactly if one is not accepted; nothing for an unknown metric |
| Aggregator.MarksOfEmission | services/ai-engine/app/agents/entity_extraction_agent.py:526-587 | cross-validation by the metric's range, cross-source by conflict, schema validation by a known unit, without which there is no canonical value; the log-probability, 0.85 for want of one, and the period that the text names |
| Amounts.NodeKeepsAmounts | services/ai-engine/app/agents/entity_extraction_agent.py:533-542 | a field has a canonical value exactly for a number in a known unit that is the metric's or converts to it, and then that value in the metric's unit is the amount of the number in its own |
| NodeRun.GroupsAreKinds | services/ai-engine/app/agents/entity_extraction_agent.py:380-389 | two raw fields share a group if and only if they name one metric, period and combination of dimensions |
| NodeRun.NumbersAreOneValue | services/ai-engine/app/agents/entity_extraction_agent.py:507-513 | two numbers are one value if and only if they agree to four decimals in units written alike |
| NodeRun.TextsAreOneValue | services/ai-engine/app/agents/entity_extraction_agent.py:507-513 | so are two texts without numbers if and only if they and their units are written alike |
| NodeRun.PlainChoice | services/ai-engine/app/agents/entity_extraction_agent.py:391-411 | a group conflicts exactly if some first of its value is more than two per cent from the first number; it keeps its first field and the first other value, or else the first of those with the highest log-probability and then the shortest text |
| NodeRun.NodeFails | services/ai-engine/app/agents/entity_extraction_agent.py:377-414 | the node fails if and only if a field that it keeps has a period text without a date or a log-probability outside [0,1] |
| Aggregator.AggregationIsByGroup | services/ai-engine/app/agents/entity_extraction_agent.py:377-414 | every field of a run comes out of the group of its own signature; when a run fails |
| Aggregator.ExtractedCount | services/ai-engine/app/agents/entity_extraction_agent.py:391-411 | the number of fields: known groups plus conflicts |
| Aggregator.AgreeingGroupsAreClose | services/ai-engine/app/agents/entity_extraction_agent.py:516-523 | without conflict every member is within two per cent of the first, up to rounding |
| Aggregator.UnflaggedFieldsAreClose | services/ai-engine/app/agents/entity_extraction_agent.py:377-414 | an unflagged field of an all-number group is within two per cent of the group's first member, up to rounding |
| Aggregator.ConflictExactly | services/ai-engine/app/agents/entity_extraction_agent.py:507-523 | a group conflicts exactly when the number of some first of its value key disagrees with the first such number |
| Aggregator.EqualNumbersAgree | services/ai-engine/app/agents/entity_extraction_agent.py:516-523 | one number in whatever units is no conflict |
| Aggregator.UnitsAreIgnored | services/ai-engine/app/agents/entity_extraction_agent.py:516-523 | five kWh against five MWh pass, a thousand kWh against one MWh is flagged |
| Amounts.SizesDecide | services/ai-engine/app/agents/entity_extraction_agent.py:516-523 | the verdict on two numbers is the one on amounts for all numbers exactly if their units have the same size |
| Amounts.OneSizeConflicts | services/ai-engine/app/agents/entity_extraction_agent.py:516-523 | a group whose units have one size conflicts exactly if its amounts do |
| AliasIndex.BuildAliasIndex | services/ai-engine/app/registry.py:1163-1170 | the nested loops declare names, keys and aliases in order |
| AliasIndex.IndexHoldsLastDeclarations | services/ai-engine/app/registry.py:1163-1170 | each alias maps to the last metric that declared it, in the place of the first |
| AliasIndex.AliasLeadsToLastMetric | services/ai-engine/app/registry.py:1163-1170 | a text leads to the last metric declaring it as name, key or alias; others are not indexed |
| AliasIndex.SortingSorts | services/ai-engine/app/registry.py:1181-1181 | the sorted keys are a permutation, longest first |
| AliasIndex.SortingIsStable | services/ai-engine/app/registry.py:1181-1181 | equal lengths keep their order |
| AliasIndex.ScanFindsBest | services/ai-engine/app/registry.py:1180-1184 | the scan answers with the longest contained alias, ties by first insertion, and with none only if none is contained |
| AliasIndex.ExactMatchIsBest | services/ai-engine/app/registry.py:1178-1179 | an exact match is the best alias |
| AliasIndex.FindByAlias | services/ai-engine/app/registry.py:1176-1184 | with its early return the lookup gives what the scan alone would |
| ColumnLetters.ColLetter | services/ai-engine/app/extractors/excel.py:280-289 | the loop terminates with the letters of the index |
| ColumnLetters.IndexOfLetters | services/ai-engine/app/extractors/excel.py:280-289 | reading the letters as bijective base 26 returns the index |
| ColumnLetters.LettersOfIndex | services/ai-engine/app/extractors/excel.py:280-289 | every non-empty text over A-Z is the letters of its index |
| ColumnLetters.LettersAreOrdered | services/ai-engine/app/extractors/excel.py:280-289 | columns are ordered as their letters in shortlex order |
| Units.UnitTables.RegisterUnit | packages/shared/src/units.ts:161-171 | the three tables hold the registration under its lower-cased symbol, every other key is as before, and key sets stay equal |
| Units.TablesKeepSameKeys | packages/shared/src/units.ts:47-49 | after any registrations the tables hold the same keys, those registered |
| Units.ConversionIsAnnounced | packages/shared/src/units.ts:248-290 | the defensive error never occurs, and conversion succeeds exactly where announced |
| Units.RefusalsHaveReasons | packages/shared/src/units.ts:248-281 | every refusal names its reason and nothing else is refused: a symbol that leads nowhere, two families in the order of the symbols, two kinds of money |
| Units.InversePairsStay | packages/shared/src/units.ts:161-171 | registering inverse pairs keeps every unit invertible |
| Units.FactorsAreInverse | packages/shared/src/units.ts:151-159 | conversion by a non-zero factor is an inverse pair |
| Units.ConversionsCompose | packages/shared/src/units.ts:248-281 | converting over a middle unit is converting directly; there and back is the identity |
| Units.FactorConversion | packages/shared/src/units.ts:151-159 | between factor units, conversion multiplies by the quotient of the factors |
| Units.RegistrationIsLocal | packages/shared/src/units.ts:161-171 | a registration changes exactly the lookups that normalize to its key |
| Units.ReachableByOwnName | packages/shared/src/units.ts:146-171 | a registered symbol leads to its unit exactly when it normalizes to its lower-cased form, or did so before |
| Units.HiddenRegistrations | packages/shared/src/units.ts:105-212 | `hectare` behind its alias, and a symbol with white space around it, cannot be reached |
| CelParser.Parser.Parse | services/api/src/common/utils/cel-evaluator.ts:152-160 | the parser, moving its position over the tokens, returns what the grammar means, and fails exactly where that fails |
| CelParser.Parser.ParseExpression | services/api/src/common/utils/cel-evaluator.ts:169-191 | the loop over operators by binding power computes the grammar's expression |
| CelLayers.ParseIsGrammar | services/api/src/common/utils/cel-evaluator.ts:169-267 | the parser accepts exactly what a grammar of layers over literal operators derives, and returns the expression derived |
| CelLayers.OperatorsGroup | services/api/src/common/utils/cel-evaluator.ts:256-267 | of two operators the second takes the middle operand exactly if it stands in a tighter layer |
| CelGrammar.ParseUndoesPrint | services/api/src/common/utils/cel-evaluator.ts:152-267 | parsing a printed expression returns it, for every expression |
| CelGrammar.PrintReads | services/api/src/common/utils/cel-evaluator.ts:169-191 | a printed operand is read at every power it is printed for, whatever follows it that it cannot swallow |
| CelGrammar.PrintIsShortest | services/api/src/common/utils/cel-evaluator.ts:152-267 | no token sequence that means an expression is shorter than its printed form: all its parentheses are needed |
| CelGrammar.PrintIsInjective | services/api/src/common/utils/cel-evaluator.ts:152-267 | different expressions print differently |
| CelTokens.Tokenize | services/api/src/common/utils/cel-evaluator.ts:67-141 | the tokenizing loop computes the scan, and fails exactly where that fails |
| CelLexemes.ScanIsLexing | services/api/src/common/utils/cel-evaluator.ts:67-141 | the tokenizer yields exactly the tokens that the text is written as, in longest lexemes with blanks between them or not |
| CelLexemes.ReadIsGrammar | services/api/src/common/utils/cel-evaluator.ts:470-480 | a text means an expression if and only if it is written as tokens that the grammar derives it from |
| CelSpelling.ScanUndoesSpell | services/api/src/common/utils/cel-evaluator.ts:67-141 | scanning spelled tokens returns them, escaped quotes included |
| CelSpelling.ReadUndoesSpelledPrint | services/api/src/common/utils/cel-evaluator.ts:470-480 | reading the text of a printed expression returns it |
| CelSpelling.RewritingKeepsMeaning | services/api/src/common/utils/cel-evaluator.ts:470-480 | whatever text is accepted, the printed text of its meaning is accepted and means the same |
| CelParser.Validate | services/api/src/common/utils/cel-evaluator.ts:470-475 | the syntax check accepts exactly the texts that mean an expression |

## Left out

- Floating point: NaN, infinities and rounding errors of IEEE-754; arithmetic is over exact reals.
- The end of the representable time range (about the year 275760), where `Date` values become invalid.
- Host-dependent dates: ISO texts with month 13 or 31 February yield the outcome `HostDefined`; free-form date strings passed to `getFiscalYear` are not parsed.
- Callbacks that throw: the listener's handlers always return.
- Byte decoding: chunks are texts as the decoder yields them.
- Where a raw field was found (page, box, row, cell, sheet, model, prompt), which the aggregation node copies.
- Names inherited by JavaScript objects, such as `constructor`, as unit symbols or canonical keys.
- Evaluation of formulas, with its decimals of limited precision and its rules for units: the model stops at the expression a text means.
- The breadth-first unit conversion of the extraction service, and of the API the subtree move and the Merkle root of the audit log.
- The cross-field validator, the language-model nodes, the data tables, contracts and user interface: constants, calls to services, and rules of one branch.
- `unitsInFamily`, `family`, `getCrosswalk`, `get_metric`: one-line reads of the modelled tables.
