/**
 * CarbonDate::Date (lib/carbon_date/date.rb): a signed, non-zero year and the
 * finer fields its precision calls for, validated eagerly.
 */
module Dates {
  import opened Wrappers
  import opened Precisions
  import opened Calendar

  /** The ArgumentErrors the constructor and the setters raise. */
  datatype DateError =
    | InvalidPrecision
    | InvalidYear
    | InvalidMonth
    | InvalidDay
    | InvalidHour
    | InvalidMinute
    | InvalidSecond
    | FieldBeyondPrecision  // a setter given a field finer than the precision

  /** The instance variables of a date; a field the precision does not cover is None (Ruby's nil). */
  datatype DateValue = DateValue(
    precision: Precision,
    year: int,
    month: Option<int>,
    day: Option<int>,
    hour: Option<int>,
    minute: Option<int>,
    second: Option<int>)

  /** The largest minute and second the tests accept. */
  const ClockMax: int := 59
  /** The largest minute and second date.rb accepts as written ((0..60).include?). */
  const ClockMaxAsWritten: int := 60

  /** A present value within [lo, hi] (Ruby's (lo..hi).include? on a possibly nil value). */
  predicate InRange(o: Option<int>, lo: int, hi: int) {
    o.Some? && lo <= o.value <= hi
  }

  /** Exactly the fields the precision covers are present. */
  predicate Shape(v: DateValue) {
    var l := Level(v.precision);
    (v.month.Some? <==> l >= 10) &&
    (v.day.Some? <==> l >= 11) &&
    (v.hour.Some? <==> l >= 12) &&
    (v.minute.Some? <==> l >= 13) &&
    (v.second.Some? <==> l == 14)
  }

  /** Reference definition of a well-formed date, for a given largest minute and second. */
  predicate WellFormed(v: DateValue, clockMax: int) {
    Shape(v) && v.year != 0 &&
    (v.month.Some? ==> 1 <= v.month.value <= 12) &&
    (v.day.Some? ==> IsCalendarDate(v.year, v.month.value, v.day.value)) &&
    (v.hour.Some? ==> 0 <= v.hour.value <= 23) &&
    (v.minute.Some? ==> 0 <= v.minute.value <= clockMax) &&
    (v.second.Some? ==> 0 <= v.second.value <= clockMax)
  }

  /** A well-formed date under the bounds the tests require. */
  predicate IsValid(v: DateValue) {
    WellFormed(v, ClockMax)
  }

  /**
   * The constructor's guards, in its order, applied to a value: the year, then
   * each field the level reaches. clockMax bounds minute and second. A field set
   * beyond the precision (only a setter can cause one) fails last.
   */
  function Check(v: DateValue, clockMax: int): (r: Outcome<DateError>)
    ensures r.Pass? <==> WellFormed(v, clockMax)
    ensures v.year == 0 ==> r == Fail(InvalidYear)
    ensures r.Fail? && r.error == FieldBeyondPrecision ==> !Shape(v)
  {
    var l := Level(v.precision);
    if v.year == 0 then Fail(InvalidYear)
    else if l >= 10 && !InRange(v.month, 1, 12) then Fail(InvalidMonth)
    else if l >= 11 && !(v.day.Some? && IsCalendarDate(v.year, v.month.value, v.day.value)) then Fail(InvalidDay)
    else if l >= 12 && !InRange(v.hour, 0, 23) then Fail(InvalidHour)
    else if l >= 13 && !InRange(v.minute, 0, clockMax) then Fail(InvalidMinute)
    else if l == 14 && !InRange(v.second, 0, clockMax) then Fail(InvalidSecond)
    else if !Shape(v) then Fail(FieldBeyondPrecision)
    else Pass
  }

  /** The checks pass exactly on well-formed dates. */
  lemma CheckIffValid(v: DateValue)
    ensures Check(v, ClockMax).Pass? <==> IsValid(v)
  {
  }

  /** The value the constructor assigns: only the fields inside the level guards. */
  function Keep(p: Precision, year: int, month: Option<int>, day: Option<int>,
                hour: Option<int>, minute: Option<int>, second: Option<int>): (v: DateValue)
    ensures v.precision == p && v.year == year
    ensures v.month.Some? ==> v.month == month
    ensures v.day.Some? ==> v.day == day
    ensures v.hour.Some? ==> v.hour == hour
    ensures v.minute.Some? ==> v.minute == minute
    ensures v.second.Some? ==> v.second == second
    ensures Shape(v) <==> var l := Level(p);
      (l >= 10 ==> month.Some?) && (l >= 11 ==> day.Some?) && (l >= 12 ==> hour.Some?) &&
      (l >= 13 ==> minute.Some?) && (l == 14 ==> second.Some?)
  {
    var l := Level(p);
    DateValue(p, year,
      if l >= 10 then month else None,
      if l >= 11 then day else None,
      if l >= 12 then hour else None,
      if l >= 13 then minute else None,
      if l == 14 then second else None)
  }

  /** Construction with a given minute/second bound; `level` selects the precision. */
  function ConstructWith(year: Option<int>, month: Option<int>, day: Option<int>,
                         hour: Option<int>, minute: Option<int>, second: Option<int>,
                         level: int, clockMax: int): (r: Result<DateValue, DateError>)
    ensures !(0 <= level <= 14) ==> r == Failure(InvalidPrecision)
    ensures 0 <= level <= 14 && year.None? ==> r == Failure(InvalidYear)
    ensures r.Success? ==>
      WellFormed(r.value, clockMax) && Level(r.value.precision) == level && Some(r.value.year) == year
  {
    match FromLevel(level)
    case None => Failure(InvalidPrecision)
    case Some(p) =>
      if year.None? then Failure(InvalidYear)
      else
        var v := Keep(p, year.value, month, day, hour, minute, second);
        match Check(v, clockMax)
        case Fail(e) => Failure(e)
        case Pass => Success(v)
  }

  /** Date#initialize with the bounds the tests require. */
  function Construct(year: Option<int>, month: Option<int>, day: Option<int>,
                     hour: Option<int>, minute: Option<int>, second: Option<int>,
                     level: int): (r: Result<DateValue, DateError>)
    ensures r.Success? ==> IsValid(r.value) && Level(r.value.precision) == level && Some(r.value.year) == year
  {
    ConstructWith(year, month, day, hour, minute, second, level, ClockMax)
  }

  /** Construction succeeds exactly when every guard the level reaches holds. */
  lemma ConstructSucceedsIff(year: Option<int>, month: Option<int>, day: Option<int>,
                             hour: Option<int>, minute: Option<int>, second: Option<int>, level: int)
    ensures Construct(year, month, day, hour, minute, second, level).Success? <==>
      0 <= level <= 14 && year.Some? && year.value != 0 &&
      (level >= 10 ==> InRange(month, 1, 12)) &&
      (level >= 11 ==> day.Some? && IsCalendarDate(year.value, month.value, day.value)) &&
      (level >= 12 ==> InRange(hour, 0, 23)) &&
      (level >= 13 ==> InRange(minute, 0, 59)) &&
      (level == 14 ==> InRange(second, 0, 59))
  {
  }

  /** A constructed date is well formed; the fields its precision covers are the ones given, the rest are unset. */
  lemma ConstructResult(year: Option<int>, month: Option<int>, day: Option<int>,
                        hour: Option<int>, minute: Option<int>, second: Option<int>, level: int)
    requires Construct(year, month, day, hour, minute, second, level).Success?
    ensures var v := Construct(year, month, day, hour, minute, second, level).value;
      IsValid(v) && Level(v.precision) == level && Some(v.year) == year &&
      v.month == (if level >= 10 then month else None) &&
      v.day == (if level >= 11 then day else None) &&
      v.hour == (if level >= 12 then hour else None) &&
      v.minute == (if level >= 13 then minute else None) &&
      v.second == (if level == 14 then second else None)
  {
  }

  /** Which error each failed guard reports, in the constructor's order. */
  lemma ConstructErrors(year: Option<int>, month: Option<int>, day: Option<int>,
                        hour: Option<int>, minute: Option<int>, second: Option<int>, level: int)
    ensures !(0 <= level <= 14) ==>
      Construct(year, month, day, hour, minute, second, level) == Failure(InvalidPrecision)
    ensures 0 <= level <= 14 && (year.None? || year == Some(0)) ==>
      Construct(year, month, day, hour, minute, second, level) == Failure(InvalidYear)
    ensures 0 <= level <= 14 && year.Some? && year.value != 0 ==>
      var y := year.value;
      var r := Construct(year, month, day, hour, minute, second, level);
      var monthOk := level >= 10 ==> InRange(month, 1, 12);
      var dayOk := level >= 11 ==> monthOk && day.Some? && IsCalendarDate(y, month.value, day.value);
      var hourOk := level >= 12 ==> InRange(hour, 0, 23);
      var minuteOk := level >= 13 ==> InRange(minute, 0, 59);
      (!monthOk ==> r == Failure(InvalidMonth)) &&
      (monthOk && !dayOk ==> r == Failure(InvalidDay)) &&
      (monthOk && dayOk && !hourOk ==> r == Failure(InvalidHour)) &&
      (monthOk && dayOk && hourOk && !minuteOk ==> r == Failure(InvalidMinute)) &&
      (monthOk && dayOk && hourOk && minuteOk && !(level == 14 ==> InRange(second, 0, 59)) ==>
         r == Failure(InvalidSecond))
  {
    if 0 <= level <= 14 && year.Some? && year.value != 0 {
      var v := Keep(FromLevel(level).value, year.value, month, day, hour, minute, second);
      assert Construct(year, month, day, hour, minute, second, level) ==
        match Check(v, ClockMax) case Fail(e) => Failure(e) case Pass => Success(v);
    }
  }

  /** Examples the tests exercise. */
  lemma ConstructExamples()
    ensures Construct(Some(2016), Some(2), Some(29), None, None, None, 11).Success?
    ensures Construct(Some(2015), Some(2), Some(29), None, None, None, 11) == Failure(InvalidDay)
    ensures Construct(Some(2016), Some(4), Some(31), None, None, None, 11) == Failure(InvalidDay)
    ensures Construct(Some(2016), Some(12), Some(32), None, None, None, 11) == Failure(InvalidDay)
    ensures Construct(Some(2016), Some(13), None, None, None, None, 10) == Failure(InvalidMonth)
    ensures Construct(Some(0), None, None, None, None, None, 9) == Failure(InvalidYear)
    ensures Construct(None, None, None, None, None, None, 9) == Failure(InvalidYear)
    ensures Construct(Some(2016), None, None, None, None, None, -1) == Failure(InvalidPrecision)
    ensures Construct(Some(2016), Some(9), Some(30), Some(7), Some(60), None, 13) == Failure(InvalidMinute)
  {
  }

  /** As written, date.rb accepts minute 60 (and second 60), which the tests reject. */
  lemma MinuteSixtyAcceptedAsWritten()
    ensures ConstructWith(Some(2016), Some(9), Some(30), Some(7), Some(60), None, 13, ClockMaxAsWritten).Success?
    ensures ConstructWith(Some(2016), Some(9), Some(30), Some(7), Some(14), Some(60), 14, ClockMaxAsWritten).Success?
    ensures Construct(Some(2016), Some(9), Some(30), Some(7), Some(60), None, 13) == Failure(InvalidMinute)
  {
  }

  /** With the corrected bound every constructed minute and second is in 0..59. */
  lemma ConstructClockBounds(year: Option<int>, month: Option<int>, day: Option<int>,
                             hour: Option<int>, minute: Option<int>, second: Option<int>, level: int)
    requires Construct(year, month, day, hour, minute, second, level).Success?
    ensures var v := Construct(year, month, day, hour, minute, second, level).value;
      (v.minute.Some? ==> 0 <= v.minute.value < 60) && (v.second.Some? ==> 0 <= v.second.value < 60)
  {
  }

  // ---------- Comparison ----------

  /** A date's instant, with unset fields read as the start of their period. */
  datatype Instant = Instant(year: int, month: int, day: int, hour: int, minute: int, second: int)

  function InstantOf(v: DateValue): Instant
  {
    Instant(v.year, v.month.GetOr(1), v.day.GetOr(1), v.hour.GetOr(0), v.minute.GetOr(0), v.second.GetOr(0))
  }

  /** Lexicographic comparison of instants, -1, 0 or 1 (Ruby's <=>). */
  function Compare(a: Instant, b: Instant): (c: int)
    ensures c == 0 <==> a == b
    ensures -1 <= c <= 1
  {
    if a.year != b.year then (if a.year < b.year then -1 else 1)
    else if a.month != b.month then (if a.month < b.month then -1 else 1)
    else if a.day != b.day then (if a.day < b.day then -1 else 1)
    else if a.hour != b.hour then (if a.hour < b.hour then -1 else 1)
    else if a.minute != b.minute then (if a.minute < b.minute then -1 else 1)
    else if a.second != b.second then (if a.second < b.second then -1 else 1)
    else 0
  }

  lemma CompareAntisymmetric(a: Instant, b: Instant)
    ensures Compare(b, a) == -Compare(a, b)
  {
  }

  lemma CompareTransitive(a: Instant, b: Instant, c: Instant)
    requires Compare(a, b) <= 0 && Compare(b, c) <= 0
    ensures Compare(a, c) <= 0
  {
  }

  /** Every field of an instant within its calendar range (a day within 1..31). */
  predicate InstantInRange(i: Instant) {
    1 <= i.month <= 12 && 1 <= i.day <= 31 && 0 <= i.hour <= 23 && 0 <= i.minute <= 59 && 0 <= i.second <= 59
  }

  /** An instant as one mixed-radix number of seconds, each month padded to 31 days. */
  function Key(i: Instant): int {
    ((((i.year * 12 + (i.month - 1)) * 31 + (i.day - 1)) * 24 + i.hour) * 60 + i.minute) * 60 + i.second
  }

  /** In base b, comparing x * b + r compares the high digit first, then the low one. */
  lemma MixedRadix(x1: int, r1: int, x2: int, r2: int, b: int)
    requires b > 0 && 0 <= r1 < b && 0 <= r2 < b
    ensures x1 * b + r1 < x2 * b + r2 <==> x1 < x2 || (x1 == x2 && r1 < r2)
    ensures x1 * b + r1 == x2 * b + r2 <==> x1 == x2 && r1 == r2
  {
    if x1 < x2 {
      MulAtLeast(x2 - x1, b);
      assert x2 * b - x1 * b == (x2 - x1) * b;
    } else if x2 < x1 {
      MulAtLeast(x1 - x2, b);
      assert x1 * b - x2 * b == (x1 - x2) * b;
    }
  }

  lemma MulAtLeast(k: int, b: int)
    requires k >= 1 && b > 0
    ensures k * b >= b
  {
  }

  /** On in-range instants, Compare is the chronological order of their keys. */
  lemma CompareChronological(a: Instant, b: Instant)
    requires InstantInRange(a) && InstantInRange(b)
    ensures Compare(a, b) == -1 <==> Key(a) < Key(b)
    ensures Compare(a, b) == 1 <==> Key(a) > Key(b)
    ensures Compare(a, b) == 0 <==> Key(a) == Key(b)
  {
    var a1, b1 := a.year * 12 + (a.month - 1), b.year * 12 + (b.month - 1);
    var a2, b2 := a1 * 31 + (a.day - 1), b1 * 31 + (b.day - 1);
    var a3, b3 := a2 * 24 + a.hour, b2 * 24 + b.hour;
    var a4, b4 := a3 * 60 + a.minute, b3 * 60 + b.minute;
    MixedRadix(a.year, a.month - 1, b.year, b.month - 1, 12);
    MixedRadix(a1, a.day - 1, b1, b.day - 1, 31);
    MixedRadix(a2, a.hour, b2, b.hour, 24);
    MixedRadix(a3, a.minute, b3, b.minute, 60);
    MixedRadix(a4, a.second, b4, b.second, 60);
    assert Key(a) == a4 * 60 + a.second && Key(b) == b4 * 60 + b.second;
  }

  /** Equality of dates: same precision and same instant. */
  predicate SameDate(v: DateValue, w: DateValue) {
    v.precision == w.precision && InstantOf(v) == InstantOf(w)
  }

  /** On well-formed dates, equality is equality of every field and the precision. */
  lemma SameDateIffEqual(v: DateValue, w: DateValue)
    requires IsValid(v) && IsValid(w)
    ensures SameDate(v, w) <==> v == w
  {
  }

  /** Dates ordered by instant, whatever their precisions. */
  predicate AtMost(v: DateValue, w: DateValue) {
    Compare(InstantOf(v), InstantOf(w)) <= 0
  }

  /** On well-formed dates, `<=` is chronological order, whatever their precisions. */
  lemma AtMostChronological(v: DateValue, w: DateValue)
    requires IsValid(v) && IsValid(w)
    ensures AtMost(v, w) <==> Key(InstantOf(v)) <= Key(InstantOf(w))
  {
    CompareChronological(InstantOf(v), InstantOf(w));
  }

  lemma ComparisonExamples()
    ensures !SameDate(DateValue(Year, 1914, None, None, None, None, None), DateValue(Decade, 1914, None, None, None, None, None))
    ensures AtMost(DateValue(Year, 1999, None, None, None, None, None), DateValue(Year, 2000, None, None, None, None, None))
    ensures !AtMost(DateValue(Year, 2000, None, None, None, None, None), DateValue(Year, 1999, None, None, None, None, None))
    ensures SameDate(DateValue(Second, 1988, Some(7), Some(11), Some(6), Some(43), Some(3)),
                     DateValue(Second, 1988, Some(7), Some(11), Some(6), Some(43), Some(3)))
  {
  }

  // ---------- Setters ----------

  /** Changing the year of a well-formed date: it must be non-zero and keep the day real. */
  lemma SetYearCheck(v: DateValue, y: int)
    requires IsValid(v)
    ensures Check(v.(year := y), ClockMax).Pass? <==>
      y != 0 && (v.day.Some? ==> IsCalendarDate(y, v.month.value, v.day.value))
  {
  }

  /** Changing the month: the precision must cover it, it must be 1..12, and the day must still fit. */
  lemma SetMonthCheck(v: DateValue, m: int)
    requires IsValid(v)
    ensures Check(v.(month := Some(m)), ClockMax).Pass? <==>
      Level(v.precision) >= 10 && 1 <= m <= 12 && (v.day.Some? ==> IsCalendarDate(v.year, m, v.day.value))
  {
  }

  /** Changing the day: the precision must cover it and the date must be real. */
  lemma SetDayCheck(v: DateValue, d: int)
    requires IsValid(v)
    ensures Check(v.(day := Some(d)), ClockMax).Pass? <==>
      Level(v.precision) >= 11 && IsCalendarDate(v.year, v.month.value, d)
  {
  }

  /** Changing a time field checks only that field's own range. */
  lemma SetClockCheck(v: DateValue, x: int)
    requires IsValid(v)
    ensures Check(v.(hour := Some(x)), ClockMax).Pass? <==> Level(v.precision) >= 12 && 0 <= x <= 23
    ensures Check(v.(minute := Some(x)), ClockMax).Pass? <==> Level(v.precision) >= 13 && 0 <= x <= 59
    ensures Check(v.(second := Some(x)), ClockMax).Pass? <==> Level(v.precision) == 14 && 0 <= x <= 59
  {
  }

  lemma SetterExamples()
    ensures Check(DateValue(Day, 2016, Some(9), Some(30), None, None, None).(day := Some(31)), ClockMax) == Fail(InvalidDay)
    ensures Check(DateValue(Month, 1944, Some(7), None, None, None, None).(month := Some(13)), ClockMax) == Fail(InvalidMonth)
    ensures Check(DateValue(Month, 1944, Some(7), None, None, None, None).(month := Some(0)), ClockMax) == Fail(InvalidMonth)
    ensures Check(DateValue(Year, 1944, None, None, None, None, None).(year := 0), ClockMax) == Fail(InvalidYear)
    ensures Check(DateValue(Year, 1944, None, None, None, None, None).(month := Some(6)), ClockMax) == Fail(FieldBeyondPrecision)
  {
  }

  /** A date object; its fields are the instance variables of CarbonDate::Date. */
  class Date {
    var precision: Precision
    var year: int
    var month: Option<int>
    var day: Option<int>
    var hour: Option<int>
    var minute: Option<int>
    var second: Option<int>

    function Value(): DateValue
      reads this
    {
      DateValue(precision, year, month, day, hour, minute, second)
    }

    ghost predicate Valid()
      reads this
    {
      IsValid(Value())
    }

    constructor (v: DateValue)
      requires IsValid(v)
      ensures Value() == v && Valid()
    {
      precision, year, month, day := v.precision, v.year, v.month, v.day;
      hour, minute, second := v.hour, v.minute, v.second;
    }

    /** Date#initialize: each guard in turn, assigning a field only inside its level guard. */
    static method Create(year: Option<int>, month: Option<int>, day: Option<int>,
                         hour: Option<int>, minute: Option<int>, second: Option<int>,
                         level: int) returns (r: Result<Date, DateError>)
      ensures var c := Construct(year, month, day, hour, minute, second, level);
        (r.Failure? <==> c.Failure?) &&
        (r.Failure? ==> r.error == c.error) &&
        (r.Success? ==> fresh(r.value) && r.value.Valid() && r.value.Value() == c.value)
    {
      ConstructErrors(year, month, day, hour, minute, second, level);
      var p := FromLevel(level);
      if p.None? {
        return Failure(InvalidPrecision);
      }
      if year.None? || year.value == 0 {
        return Failure(InvalidYear);
      }
      var y := year.value;
      var m, d, h, mi, s := None, None, None, None, None;
      if level >= 10 {
        if !InRange(month, 1, 12) {
          return Failure(InvalidMonth);
        }
        m := month;
      }
      if level >= 11 {
        if !(day.Some? && IsCalendarDate(y, m.value, day.value)) {
          return Failure(InvalidDay);
        }
        d := day;
      }
      if level >= 12 {
        if !InRange(hour, 0, 23) {
          return Failure(InvalidHour);
        }
        h := hour;
      }
      if level >= 13 {
        if !InRange(minute, 0, ClockMax) {
          return Failure(InvalidMinute);
        }
        mi := minute;
      }
      if level == 14 {
        if !InRange(second, 0, ClockMax) {
          return Failure(InvalidSecond);
        }
        s := second;
      }
      ConstructSucceedsIff(year, month, day, hour, minute, second, level);
      ConstructResult(year, month, day, hour, minute, second, level);
      var date := new Date(DateValue(p.value, y, m, d, h, mi, s));
      return Success(date);
    }

    /** Commits the candidate value if it passes every check, else changes nothing. */
    method Commit(candidate: DateValue) returns (r: Outcome<DateError>)
      requires Valid()
      modifies this
      ensures r == Check(candidate, ClockMax)
      ensures Valid()
      ensures Value() == if r.Pass? then candidate else old(Value())
    {
      r := Check(candidate, ClockMax);
      if r.Pass? {
        CheckIffValid(candidate);
        precision, year, month, day := candidate.precision, candidate.year, candidate.month, candidate.day;
        hour, minute, second := candidate.hour, candidate.minute, candidate.second;
      }
    }

    method SetYear(y: int) returns (r: Outcome<DateError>)
      requires Valid()
      modifies this
      ensures Valid()
      ensures r == Check(old(Value()).(year := y), ClockMax)
      ensures Value() == if r.Pass? then old(Value()).(year := y) else old(Value())
    {
      r := Commit(Value().(year := y));
    }

    method SetMonth(m: int) returns (r: Outcome<DateError>)
      requires Valid()
      modifies this
      ensures Valid()
      ensures r == Check(old(Value()).(month := Some(m)), ClockMax)
      ensures Value() == if r.Pass? then old(Value()).(month := Some(m)) else old(Value())
    {
      r := Commit(Value().(month := Some(m)));
    }

    method SetDay(d: int) returns (r: Outcome<DateError>)
      requires Valid()
      modifies this
      ensures Valid()
      ensures r == Check(old(Value()).(day := Some(d)), ClockMax)
      ensures Value() == if r.Pass? then old(Value()).(day := Some(d)) else old(Value())
    {
      r := Commit(Value().(day := Some(d)));
    }

    method SetHour(h: int) returns (r: Outcome<DateError>)
      requires Valid()
      modifies this
      ensures Valid()
      ensures r == Check(old(Value()).(hour := Some(h)), ClockMax)
      ensures Value() == if r.Pass? then old(Value()).(hour := Some(h)) else old(Value())
    {
      r := Commit(Value().(hour := Some(h)));
    }

    method SetMinute(mi: int) returns (r: Outcome<DateError>)
      requires Valid()
      modifies this
      ensures Valid()
      ensures r == Check(old(Value()).(minute := Some(mi)), ClockMax)
      ensures Value() == if r.Pass? then old(Value()).(minute := Some(mi)) else old(Value())
    {
      r := Commit(Value().(minute := Some(mi)));
    }

    method SetSecond(s: int) returns (r: Outcome<DateError>)
      requires Valid()
      modifies this
      ensures Valid()
      ensures r == Check(old(Value()).(second := Some(s)), ClockMax)
      ensures Value() == if r.Pass? then old(Value()).(second := Some(s)) else old(Value())
    {
      r := Commit(Value().(second := Some(s)));
    }

    /** `==`: same precision and same instant; on valid dates, the same fields. */
    predicate Equals(other: Date)
      reads this, other
      ensures Valid() && other.Valid() ==> (Equals(other) <==> Value() == other.Value())
    {
      SameDate(Value(), other.Value())
    }

    /** `<=`: this date's instant is not after the other's. */
    predicate AtMostDate(other: Date)
      reads this, other
      ensures AtMostDate(other) <==> InstantOf(Value()) == InstantOf(other.Value()) || Compare(InstantOf(Value()), InstantOf(other.Value())) == -1
    {
      AtMost(Value(), other.Value())
    }

    /** `>=`: the converse of `<=`. */
    predicate AtLeastDate(other: Date)
      reads this, other
      ensures AtLeastDate(other) <==> other.AtMostDate(this)
    {
      AtMost(other.Value(), Value())
    }
  }
}
