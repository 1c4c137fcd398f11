# carbon_date in Dafny

A model of the core of `carbon_date`, a Ruby library for dates whose precision
can be anything from a billion years down to a second.

The model has five parts:

- **The precision scale** (`Precisions`): fifteen levels, from billion years
  (level 0) down to second (level 14), with their names. The six geological
  levels each have a power-of-ten interval.
- **`CarbonDate::Date`** (`Dates`):
  - a signed, non-zero year, plus month, day, hour, minute and second, each
    present exactly when the precision reaches it;
  - the constructor's guard cascade, written out as a static method;
  - setters that re-run the guards and change nothing when they fail;
  - equality and ordering.
- **A proleptic Gregorian calendar** (`Calendar`). It stands in for Ruby's
  `::Date.new` check.
- **The standard formatter** (`StandardFormatter`, with `Decimal` and
  `Strings`):
  - one rendering rule per precision;
  - the coarse "Within the last / in N years / N years ago" rule;
  - `number_with_delimiter`, modelled literally as its reverse, slice-by-three,
    join, reverse pipeline, and proved equal to grouping from the right;
  - `pad`.
- **`CarbonDate::Formatter`** (`Formatting`): the format-name lookup, the
  dispatch on precision (an exhaustive 15-way match), and `Date#to_s`.

The current year, which the coarse rule reads from the system clock, is a
parameter (`currentYear`).

The library sits in the middle of a refactor, and its parts disagree. The model
follows what the code and its tests intend:

- **The precision lookup.** `date.rb` looks the precision up in `PRECISION` by a
  `:symbol` key that the table does not have, so every construction would fail.
  The model selects a precision by its level instead (`FromLevel`); a level
  outside 0..14 is the invalid-precision error.
- **Format dispatch.** `formatter.rb`'s `format` handles only `:second`, and
  even then it reaches `full_date`/`full_time`, which always return nil. The
  model dispatches each precision to its `StandardFormatter` rule.
- **Requirements from the tests alone.** Year 0 is rejected, setters
  re-validate, and dates can be compared (test/date_test.rb:62-200). The code
  has none of these; the model follows the tests.
- **How a date is constructed.** `Date#initialize` takes keyword arguments
  (lib/carbon_date/date.rb:8), but the tests pass year, month, day, hour, minute
  and second positionally. The model takes them as positional `Option` values.
- **A date with no arguments.** test/date_test.rb:9-11 expects `Date.new()` to
  succeed. The code raises on a nil year (lib/carbon_date/date.rb:13), and
  test/date_test.rb:53-55 expects that error. The model follows
  lib/carbon_date/date.rb:13: a missing year is the invalid-year error.
- **Minute and second bounds.** The code accepts 0..60 for minute and second;
  the tests reject 60. The model uses 0..59 and keeps the as-written bound for
  the finding below.

## Model

| member | source | states |
|---|---|---|
| Precisions.Level | lib/carbon_date.rb:5-17 | every precision has an ordinal in 0..14, billion years coarsest and second finest |
| Precisions.FromLevel | lib/carbon_date/date.rb:10-11 | a level selects a precision exactly when it is within 0..14, and the precision selected has that level |
| Precisions.FromLevelOfLevel | lib/carbon_date.rb:21-37 | looking a precision's own level up gives back that precision |
| Precisions.LevelInjective | lib/carbon_date.rb:21-37 | distinct precisions have distinct levels, so level and precision are in bijection |
| Precisions.ExactlyFifteen | lib/carbon_date.rb:21-37 | there are exactly fifteen precisions, and their levels are the contiguous ordinals 0..14 |
| Precisions.NamesDistinct | lib/carbon_date.rb:22-36 | no two precisions share a name |
| Precisions.Name | lib/carbon_date.rb:22-36 | every level has a non-empty name, and the name is plural (ends in "s", as in "... years") exactly for the six geological levels |
| Precisions.PowersOfTen | lib/carbon_date/standard_formatter.rb:93-130 | the six coarse intervals are 10,000, 100,000, 1,000,000, 10,000,000, 100,000,000 and 1,000,000,000 |
| Precisions.Interval | lib/carbon_date/standard_formatter.rb:93-130 | a geological level l (0..5) has interval 10 to the power 9 - l |
| Precisions.IntervalsShrinkTenfold | lib/carbon_date/standard_formatter.rb:93-130 | each geological interval is ten times the next finer one |
| Calendar.DaysInMonth | lib/carbon_date/date.rb:21-28 | every month has 28 to 31 days: 28 exactly for February of a common year, 29 exactly for February of a leap year, 30 exactly for April, June, September and November, and 31 exactly for the other seven months |
| Calendar.IsLeapYear | lib/carbon_date/date.rb:23 | a leap year is divisible by 4; a multiple of 4 that is not a century is a leap year; every multiple of 400 is a leap year; a century not divisible by 400 is not |
| Calendar.IsCalendarDate | lib/carbon_date/date.rb:23 | a real date has a month in 1..12 and a day in 1..31; days 1..28 exist in every month of every year; 29 February exists exactly in leap years |
| Calendar.LeapYearPeriodic | lib/carbon_date/date.rb:21-28 | the leap-year rule repeats every 400 years |
| Calendar.CalendarExamples | test/date_test.rb:142-158 | 29 February is a date in 2016 but not in 2015; day 32 never is; day 31 never is in April, June, September or November |
| Dates.Check | lib/carbon_date/date.rb:13-43 | the guard cascade passes exactly on dates well formed under the given minute/second bound; a zero year always fails as an invalid year; a field-beyond-precision failure means the fields do not match the precision |
| Dates.Keep | lib/carbon_date/date.rb:16-43 | the stored value has the requested precision and year; every field it keeps is the one given; it has exactly the precision's fields when every field the level reaches was given |
| Dates.ConstructWith | lib/carbon_date/date.rb:8-45 | a level outside 0..14 is the invalid-precision error; a missing year is the invalid-year error; a success is well formed under the given bound and has the requested level and year |
| Dates.Construct | lib/carbon_date/date.rb:8-45 | a successful construction is well formed under the 0..59 bound and has the requested level and year |
| Dates.CheckIffValid | lib/carbon_date/date.rb:13-43 | the guard cascade passes exactly on well-formed dates: non-zero year, fields present exactly to the precision, each in range, and a real calendar day |
| Dates.ConstructSucceedsIff | lib/carbon_date/date.rb:10-43 | construction succeeds exactly when the level is 0..14, the year is present and non-zero, and every field the level reaches is present and in range |
| Dates.ConstructResult | lib/carbon_date/date.rb:16-43 | a constructed date is well formed, has the requested level and year, keeps the given fields its level covers, and leaves the finer ones unset |
| Dates.ConstructErrors | lib/carbon_date/date.rb:10-43 | each failed guard reports its own error, checked in order: precision, year, month, day, hour, minute, second |
| Dates.ConstructExamples | test/date_test.rb:53-162 | the tests' cases: leap day 2016 accepted; 29 Feb 2015, 31 April, day 32, month 13, year 0, a nil year, and level -1 rejected; minute 60 is also rejected, under the corrected 0..59 bound (the tests reject 60 only through the setter, test/date_test.rb:119) |
| Dates.MinuteSixtyAcceptedAsWritten | lib/carbon_date/date.rb:35-43 | with the bound as written, minute 60 and second 60 are accepted; with the corrected bound, minute 60 is rejected |
| Dates.ConstructClockBounds | test/date_test.rb:117-133 | with the corrected bound, every constructed minute and second lies in 0..59 |
| Dates.Compare | test/date_test.rb:186-200 | comparing two instants yields -1, 0 or 1, and 0 exactly when they are equal |
| Dates.CompareAntisymmetric | test/date_test.rb:186-200 | swapping the arguments negates the comparison |
| Dates.CompareTransitive | test/date_test.rb:186-200 | the order is transitive |
| Dates.CompareChronological | test/date_test.rb:186-200 | on instants with every field in range, the comparison is -1, 0 or 1 exactly when the first instant's count of seconds (months padded to 31 days) is below, equal to or above the second's |
| Dates.AtMostChronological | test/date_test.rb:186-200 | on well-formed dates, `AtMost` holds exactly when the first date's instant is not later than the second's |
| Dates.SameDateIffEqual | test/date_test.rb:174-184 | two well-formed dates are equal exactly when their precision and all their fields agree |
| Dates.ComparisonExamples | test/date_test.rb:174-200 | 1914 at year precision differs from 1914 at decade precision; 1999 <= 2000, but not 2000 <= 1999; identical second-precision dates are equal |
| Dates.SetYearCheck | test/date_test.rb:64-73 | on a well-formed date, setting the year succeeds exactly when the new year is non-zero and, at day precision or finer, the day still exists in that year |
| Dates.SetMonthCheck | test/date_test.rb:75-85 | setting the month succeeds exactly at month precision or finer, with a month in 1..12 in which the day still exists |
| Dates.SetDayCheck | test/date_test.rb:87-97 | setting the day succeeds exactly at day precision or finer, with a real calendar day |
| Dates.SetClockCheck | test/date_test.rb:99-133 | setting the hour, minute or second succeeds exactly when the precision reaches that field and the value lies in 0..23 or 0..59 |
| Dates.SetterExamples | test/date_test.rb:70-97 | the tests' cases: day 31 in September, month 13, month 0 and year 0 are all rejected, and so is a month set on a year-precision date |
| Dates.Date.constructor | lib/carbon_date/date.rb:6 | a date object built from a well-formed value holds exactly that value and is well formed |
| Dates.Date.Create | lib/carbon_date/date.rb:8-45 | the guard-then-assign cascade fails exactly when construction does, with the same error; on success it returns a fresh, well-formed date holding the constructed value |
| Dates.Date.Commit | test/date_test.rb:62-133 | the candidate value is stored exactly when it passes every guard; otherwise the date is unchanged; either way it stays well formed |
| Dates.Date.SetYear | test/date_test.rb:64-73 | the result is the guard outcome on the date with the new year; on success the old date with the new year is stored, otherwise nothing changes |
| Dates.Date.SetMonth | test/date_test.rb:75-85 | the same, for the month |
| Dates.Date.SetDay | test/date_test.rb:87-97 | the same, for the day |
| Dates.Date.SetHour | test/date_test.rb:99-109 | the same, for the hour |
| Dates.Date.SetMinute | test/date_test.rb:111-121 | the same, for the minute |
| Dates.Date.SetSecond | test/date_test.rb:123-133 | the same, for the second |
| Dates.Date.Equals | test/date_test.rb:174-184 | `==` on well-formed dates holds exactly when the two values are identical |
| Dates.Date.AtMostDate | test/date_test.rb:186-200 | `<=` holds exactly when this date's instant equals or precedes the other's |
| Dates.Date.AtLeastDate | test/date_test.rb:190-196 | `>=` is `<=` with the arguments swapped |
| Decimal.NatToString | lib/carbon_date/standard_formatter.rb:19 | the decimal of a natural number is a non-empty digit string, with a leading zero only for zero itself |
| Decimal.NatToStringRoundTrip | lib/carbon_date/standard_formatter.rb:19 | reading the digits back gives the number |
| Decimal.NatToStringInjective | lib/carbon_date/standard_formatter.rb:19 | distinct numbers have distinct decimals |
| Decimal.SmallNumbers | lib/carbon_date/standard_formatter.rb:174-176 | a number below 100 has one digit, or two digits: its tens and its units |
| Strings.Reverse | lib/carbon_date/standard_formatter.rb:162 | reversal keeps the length and reads the sequence back to front |
| Strings.ReverseReverse | lib/carbon_date/standard_formatter.rb:162 | reversing twice gives back the original |
| Strings.ReverseConcat | lib/carbon_date/standard_formatter.rb:162 | the reverse of a concatenation is the reversed parts in swapped order |
| Strings.Slices | lib/carbon_date/standard_formatter.rb:162 | each_slice yields no slices exactly for the empty string; the slices concatenate back to the string; every slice has 1 to k characters, and all but the last have exactly k |
| Strings.SlicesCons | lib/carbon_date/standard_formatter.rb:162 | a string longer than k yields its first k characters as the first slice, then the slices of the rest |
| Strings.JoinEnds | lib/carbon_date/standard_formatter.rb:162 | a join of a non-empty list starts with the first part and ends with the last |
| Strings.RightJustify | lib/carbon_date/formatter.rb:36-38 | rjust gives at least the width, ends with the input and fills the front with the pad character |
| Strings.RightJustifyIdempotent | lib/carbon_date/formatter.rb:36-38 | justifying twice is the same as justifying once |
| StandardFormatter.WithEraInjective | lib/carbon_date/standard_formatter.rb:20 | appending " BCE" for negative years hides neither the era nor the number |
| StandardFormatter.WithEraMarks | lib/carbon_date/standard_formatter.rb:20 | a rendering not itself ending in "E" ends in " BCE" once era-marked exactly when the year is negative |
| StandardFormatter.YearText | lib/carbon_date/standard_formatter.rb:18-22 | the year rule begins with a digit and ends in " BCE" exactly when the year is negative; for other years it is a plain digit string |
| StandardFormatter.YearTextValue | lib/carbon_date/standard_formatter.rb:18-22 | with its " BCE" removed, the year rule is a digit string denoting abs(year), led by a zero only for year 0, and the rule is that string with the era added |
| StandardFormatter.YearTextInjective | lib/carbon_date/standard_formatter.rb:18-22 | different years render differently |
| StandardFormatter.MonthNamesDistinct | lib/carbon_date/standard_formatter.rb:13 | the twelve month names are distinct |
| StandardFormatter.MonthNamesCommaFree | lib/carbon_date/standard_formatter.rb:13 | no month name contains a comma |
| StandardFormatter.MonthText | lib/carbon_date/standard_formatter.rb:27-29 | the month rule is the month's English name, ", ", then the year rule; it ends in " BCE" exactly when the year is negative, otherwise in a digit |
| StandardFormatter.MonthTextInjective | lib/carbon_date/standard_formatter.rb:27-29 | the month rule determines both the month and the year |
| StandardFormatter.OrdinalSuffix | lib/carbon_date/standard_formatter.rb:35 | the suffix is one of st, nd, rd, th; it is st exactly when the last digit is 1 and the last two are not 11, nd exactly for last digit 2 outside 12, rd exactly for last digit 3 outside 13; th otherwise |
| StandardFormatter.OrdinalSuffixLastTwoDigits | lib/carbon_date/standard_formatter.rb:35 | the suffix depends only on the last two digits |
| StandardFormatter.OrdinalSuffixLastDigit | lib/carbon_date/standard_formatter.rb:35 | outside 11..13 (mod 100) the suffix depends only on the last digit |
| StandardFormatter.OrdinalizeValue | lib/carbon_date/standard_formatter.rb:35 | an ordinal is a digit string denoting the number, followed by the number's suffix |
| StandardFormatter.OrdinalExamples | lib/carbon_date/standard_formatter.rb:35 | 1st, 2nd, 3rd, 4th; 11th, 12th, 13th; 21st, 22nd, 23rd; 101st, 111th |
| StandardFormatter.OrdinalizeSplit | lib/carbon_date/standard_formatter.rb:35 | an ordinal followed by text can be split back into the number and the text |
| StandardFormatter.DayText | lib/carbon_date/standard_formatter.rb:34-36 | the day rule is the ordinal of the day, a space, then the month rule; it begins with a digit and ends in " BCE" exactly when the year is negative |
| StandardFormatter.DayTextInjective | lib/carbon_date/standard_formatter.rb:34-36 | the day rule determines the day, the month and the year |
| StandardFormatter.Pad | lib/carbon_date/standard_formatter.rb:174-176 | the result has at least two characters and ends with the input; input of two or more characters is unchanged; shorter input gets leading zeros |
| StandardFormatter.PadTwoDigits | lib/carbon_date/standard_formatter.rb:174-176 | padding the decimal of a number below 100 gives its two digits |
| StandardFormatter.TwoDigitsInjective | lib/carbon_date/standard_formatter.rb:174-176 | distinct numbers below 100 have distinct two-digit forms |
| StandardFormatter.HourText | lib/carbon_date/standard_formatter.rb:41-45 | the hour rule, given a minute: the hour rounded up when the minute is 30 or more, as two digits, then ":00", a space and the day rule |
| StandardFormatter.MinuteText | lib/carbon_date/standard_formatter.rb:50-53 | the minute rule is the two-digit hour, ":", the two-digit minute, a space and the day rule |
| StandardFormatter.MinuteTextInjective | lib/carbon_date/standard_formatter.rb:50-53 | the minute rule determines the hour, minute, day, month and year |
| StandardFormatter.SecondText | lib/carbon_date/standard_formatter.rb:58-61 | the second rule is two digits each for hour, minute and second, separated by ":", then a space and the day rule |
| StandardFormatter.SecondTextInjective | lib/carbon_date/standard_formatter.rb:58-61 | the second rule determines every field |
| StandardFormatter.DecadeText | lib/carbon_date/standard_formatter.rb:66-70 | the decade rule begins with a digit and ends in " BCE" exactly when the year is negative |
| StandardFormatter.CenturyText | lib/carbon_date/standard_formatter.rb:75-79 | the century rule begins with a digit and ends in " BCE" exactly when the year is negative |
| StandardFormatter.MillenniumText | lib/carbon_date/standard_formatter.rb:84-88 | the millennium rule begins with a digit and ends in " BCE" exactly when the year is negative |
| StandardFormatter.DecadeTextValue | lib/carbon_date/standard_formatter.rb:66-70 | with its " BCE" removed, the decade rule is a digit string denoting (abs(year) div 10) * 10 followed by "s" |
| StandardFormatter.OrdinalWordValue | lib/carbon_date/standard_formatter.rb:75-88 | with its " BCE" removed, an ordinal followed by a word splits back into that ordinal and that word |
| StandardFormatter.CenturyTextValue | lib/carbon_date/standard_formatter.rb:75-79 | with its " BCE" removed, the century rule is the ordinal of abs(year) div 100 + 1 followed by " century" |
| StandardFormatter.MillenniumTextValue | lib/carbon_date/standard_formatter.rb:84-88 | with its " BCE" removed, the millennium rule is the ordinal of abs(year) div 1000 + 1 followed by " millennium" |
| StandardFormatter.DecadeTextSameIff | lib/carbon_date/standard_formatter.rb:66-70 | two years render to the same decade exactly when they share the era and abs(year) div 10 |
| StandardFormatter.CenturyTextSameIff | lib/carbon_date/standard_formatter.rb:75-79 | the same for centuries, with abs(year) div 100 |
| StandardFormatter.MillenniumTextSameIff | lib/carbon_date/standard_formatter.rb:84-88 | the same for millennia, with abs(year) div 1000 |
| StandardFormatter.OrdinalNumberOfOrdinalize | lib/carbon_date/standard_formatter.rb:75-88 | reading the digits of an ordinal back gives its number |
| StandardFormatter.DecadeContainsYear | lib/carbon_date/standard_formatter.rb:66-70 | the number d the decade rule prints is a multiple of 10 with d <= abs(year) < d + 10 |
| StandardFormatter.CenturyContainsYear | lib/carbon_date/standard_formatter.rb:75-79 | the number c read from the century rule's ordinal has (c - 1) * 100 <= abs(year) < c * 100 |
| StandardFormatter.MillenniumContainsYear | lib/carbon_date/standard_formatter.rb:84-88 | the number m read from the millennium rule's ordinal has (m - 1) * 1000 <= abs(year) < m * 1000 |
| StandardFormatter.PipelineGroups | lib/carbon_date/standard_formatter.rb:161-163 | the reverse, slice-by-three, join with ",", reverse pipeline equals grouping in threes from the right |
| StandardFormatter.RemoveCommasConcat | lib/carbon_date/standard_formatter.rb:161-163 | removing commas distributes over concatenation |
| StandardFormatter.RemoveCommasOfDigits | lib/carbon_date/standard_formatter.rb:161-163 | a digit string has no commas to remove |
| StandardFormatter.GroupedRemoveCommas | lib/carbon_date/standard_formatter.rb:161-163 | removing the commas from a grouping gives back the digits |
| StandardFormatter.WellGroupedStep | lib/carbon_date/standard_formatter.rb:161-163 | appending "," and three digits to a well-grouped string keeps it well grouped |
| StandardFormatter.GroupedWellGrouped | lib/carbon_date/standard_formatter.rb:161-163 | a grouped non-empty digit string has a comma exactly every fourth place from the right, and digits everywhere else |
| StandardFormatter.NumberWithDelimiter | lib/carbon_date/standard_formatter.rb:161-163 | removing the commas gives the decimal of n; the groups after the first have exactly three digits and the first has one to three; the result starts with a digit |
| StandardFormatter.NumberWithDelimiterGrouped | lib/carbon_date/standard_formatter.rb:161-163 | number_with_delimiter equals the reference right-to-left grouping of the decimal |
| StandardFormatter.RoundDiv | lib/carbon_date/standard_formatter.rb:147 | a positive rounded quotient comes only from a positive difference, a negative one only from a negative difference |
| StandardFormatter.RoundDivNearest | lib/carbon_date/standard_formatter.rb:147 | the rounded multiple is within half an interval of the difference; a difference of at least one interval rounds to a non-zero multiple of the same sign |
| StandardFormatter.PhrasesDistinct | lib/carbon_date/standard_formatter.rb:144-149 | the four coarse phrasings never coincide |
| StandardFormatter.CoarsePrecision | lib/carbon_date/standard_formatter.rb:138-152 | the coarse rule always yields a string, so its trailing nil is unreachable |
| StandardFormatter.CoarseWithinLastIff | lib/carbon_date/standard_formatter.rb:144 | "Within the last N years" exactly when -(N-1) <= year - currentYear <= 0 |
| StandardFormatter.CoarseWithinNextIff | lib/carbon_date/standard_formatter.rb:145 | "Within the next N years" exactly when 1 <= year - currentYear <= N-1 |
| StandardFormatter.CoarseRounded | lib/carbon_date/standard_formatter.rb:147-149 | outside both bands the rule says "in X years" for later dates and "X years ago" for earlier ones, where X is the difference rounded half away from zero to a multiple of N |
| StandardFormatter.GeologicalText | lib/carbon_date/standard_formatter.rb:93-130 | each of the six geological rules yields a string |
| StandardFormatter.YearExample | test/standard_formatter_test.rb:10 | 2016 renders as "2016" |
| StandardFormatter.YearBceExample | test/standard_formatter_test.rb:12 | -2000 renders as "2000 BCE" |
| StandardFormatter.MonthExample | test/standard_formatter_test.rb:17-22 | June 1945 renders as "June, 1945" |
| StandardFormatter.DayExample | test/standard_formatter_test.rb:24-29 | 15 March 44 BCE renders as "15th March, 44 BCE" |
| StandardFormatter.MinuteExample | test/standard_formatter_test.rb:35-41 | "00:00 1st January, 1970" |
| StandardFormatter.DecadeExamples | test/standard_formatter_test.rb:52-62 | 1945 is "1940s" and -15 is "10s BCE" |
| StandardFormatter.CenturyExample | test/standard_formatter_test.rb:68 | 2000 is "21st century" |
| StandardFormatter.CenturyBceExample | test/standard_formatter_test.rb:73 | -100 is "2nd century BCE" |
| StandardFormatter.MillenniumExample | test/standard_formatter_test.rb:77-88 | 1000 is "2nd millennium" |
| StandardFormatter.DelimiterExample | lib/carbon_date/standard_formatter.rb:154-163 | 1234567890 renders as "1,234,567,890" |
| StandardFormatter.WithinTheLastExample | test/standard_formatter_test.rb:90-93 | 9999 years before the current year, at ten-thousand-year precision, is "Within the last 10,000 years" |
| StandardFormatter.YearsAgoExample | test/standard_formatter_test.rb:101 | 15000 years before the current year, at ten-thousand-year precision, is "20,000 years ago" |
| Formatting.LookupFormat | lib/carbon_date/formatter.rb:7-11 | a format name is accepted exactly when the format table holds it; otherwise the unrecognised-format error names it |
| Formatting.Render | lib/carbon_date/formatter.rb:13-20 | dispatching a well-formed date yields a string for every precision except hour, whose rule fails because it reads an unset minute |
| Formatting.RenderInjective | lib/carbon_date/standard_formatter.rb:18-61 | at year, month, day, minute and second precision, two dates of the same precision render alike only if they are equal |
| Formatting.RenderPeriods | lib/carbon_date/standard_formatter.rb:66-88 | at decade, century and millennium precision, two dates render alike exactly when they share the era and the period |
| Formatting.Formatter.constructor | lib/carbon_date/formatter.rb:7-8 | a formatter holds the given date and format |
| Formatting.Formatter.New | lib/carbon_date/formatter.rb:7-11 | construction fails with the unrecognised-format error exactly when the name is not in the table; otherwise it returns a fresh formatter over the date with the looked-up format |
| Formatting.Formatter.Format | lib/carbon_date/formatter.rb:13-20 | formatting returns the dispatch of the formatter's format over the date's current value |
| Formatting.DateToString | lib/carbon_date/date.rb:47-49 | `to_s` is the default format's rendering of the date |

## Left out

- The clock: `::Date.today.year` (lib/carbon_date/standard_formatter.rb:143) is the `currentYear` parameter.
- Ruby's `::Date.new` validity check (lib/carbon_date/date.rb:23) is replaced by a proleptic Gregorian calendar on the signed year. The model does not follow Ruby's Julian calendar before 1582, its astronomical year numbering, or its acceptance of negative days counted from the month's end.
- ActiveSupport's `ordinalize` is replaced by `StandardFormatter.OrdinalSuffix`. That function covers non-negative numbers only, which is all the rules pass it.
- Floating point: `coarse_precision` divides floats and calls `.round` (lib/carbon_date/standard_formatter.rb:147). The model uses exact integer rounding half away from zero, which agrees with Float#round wherever the float division is exact.
- The float-to-integer conversion of the year (test/date_test.rb:164-168): the model's year is simply an `int`.
- `to_date`, `to_datetime` and `iso8601` (test/date_test.rb:204-233): their source is not part of this model.
- StandardFormatter.HourText: only the formatting formula is stated. An hour-precision date has no minute, so `Formatting.Render` reports the hour rule's failure and never calls it.
- `full_date` and `full_time` (lib/carbon_date/formatter.rb:28-34): both are guarded by a `@type` that is never assigned, so they always return nil. They are not modelled.
- `CarbonDate::FORMAT` is used at lib/carbon_date/formatter.rb:9 but defined in none of lib/carbon_date.rb, lib/carbon_date/formatter.rb or lib/carbon_date/standard_formatter.rb. The model's table holds one entry, the standard format under the name "standard".
- The error raised when `format` meets an unknown precision (lib/carbon_date/formatter.rb:17): the exhaustive match makes it impossible.
- number_with_delimiter on negative numbers and with a delimiter other than ",": neither is used by the coarse rule, which passes only non-negative numbers.
- test/carbon_date_test.rb: it exercises an older API and is not modelled.
- Dates.Date.AtMostDate: dates of different precisions compare by instant, with unset fields read as the start of their period. The tests compare only dates of equal precision, so nothing more is promised.

## Findings

| source | as written | input that shows it | evidently intended | confidence | as-written member | corrected member |
|---|---|---|---|---|---|---|
| lib/carbon_date/date.rb:36-41 | minute and second are accepted in `(0..60)` | `Date.new(2016, 9, 30, 7, 60, precision: :minute)` is accepted | minute and second in 0..59, as test/date_test.rb:117-133 requires | not executed | Dates.MinuteSixtyAcceptedAsWritten | Dates.ConstructClockBounds |
