/**
 * CarbonDate::Formatter (lib/carbon_date/formatter.rb): looks up a format by
 * name and dispatches on a date's precision to that format's rule.
 */
module Formatting {
  import opened Wrappers
  import opened Precisions
  import opened Dates
  import opened StandardFormatter

  datatype FormatError =
    | UnrecognisedFormat(name: string)  // the ArgumentError of Formatter#initialize
    | MinuteUnset                        // the hour rule reads a minute an hour-precision date never has

  /** The available formats; StandardFormatter is the only one. */
  datatype Style = Standard

  /** The format table, keyed by name; `standard` is the default. */
  const Formats: map<string, Style> := map["standard" := Standard]

  /** The lookup of Formatter#initialize: a known name or the error it raises. */
  function LookupFormat(name: string): (r: Result<Style, FormatError>)
    ensures r.Success? <==> name in Formats
    ensures r.Success? ==> r.value == Formats[name]
    ensures r.Failure? ==> r.error == UnrecognisedFormat(name)
  {
    if name in Formats then Success(Formats[name]) else Failure(UnrecognisedFormat(name))
  }

  /**
   * Formatter#format: one rule per precision, exhaustively. Every rule but the
   * hour rule yields a string; the hour rule reads the minute, which an
   * hour-precision date leaves unset, so it fails.
   */
  function Render(style: Style, v: DateValue, currentYear: int): (r: Result<string, FormatError>)
    requires IsValid(v)
    ensures r.Success? <==> v.precision != Hour
    ensures r.Failure? ==> r.error == MinuteUnset
  {
    match style
    case Standard =>
      match v.precision
      case Second => Success(SecondText(v))
      case Minute => Success(MinuteText(v))
      case Hour => Failure(MinuteUnset)
      case Day => Success(DayText(v))
      case Month => Success(MonthText(v))
      case Year => Success(YearText(v))
      case Decade => Success(DecadeText(v))
      case Century => Success(CenturyText(v))
      case Millennium => Success(MillenniumText(v))
      case TenThousandYears | HundredThousandYears | MillionYears
         | TenMillionYears | HundredMillionYears | BillionYears =>
        Success(GeologicalText(v, currentYear).value)
  }

  /** At year precision and finer (hour aside), two dates of one precision render alike only if they are equal. */
  lemma RenderInjective(v: DateValue, w: DateValue, currentYear: int)
    requires IsValid(v) && IsValid(w) && v.precision == w.precision
    requires Level(v.precision) >= 9 && v.precision != Hour
    ensures Render(Standard, v, currentYear) == Render(Standard, w, currentYear) ==> v == w
  {
    if Render(Standard, v, currentYear) == Render(Standard, w, currentYear) {
      match v.precision
      case Year => YearTextInjective(v, w);
      case Month => MonthTextInjective(v, w);
      case Day => DayTextInjective(v, w);
      case Minute => MinuteTextInjective(v, w);
      case Second => SecondTextInjective(v, w);
    }
  }

  /** At decade, century and millennium precision, the rendering names the era and the period. */
  lemma RenderPeriods(v: DateValue, w: DateValue, currentYear: int)
    requires IsValid(v) && IsValid(w) && v.precision == w.precision
    requires v.precision in {Decade, Century, Millennium}
    ensures var k := match v.precision case Decade => 10 case Century => 100 case _ => 1000;
      Render(Standard, v, currentYear) == Render(Standard, w, currentYear) <==>
        (v.year <= -1 <==> w.year <= -1) && Abs(v.year) / k == Abs(w.year) / k
  {
    match v.precision
    case Decade => DecadeTextSameIff(v, w);
    case Century => CenturyTextSameIff(v, w);
    case Millennium => MillenniumTextSameIff(v, w);
  }

  /** A formatter holds the date and the format it was created with. */
  class Formatter {
    var date: Date
    var format: Style

    constructor (date: Date, format: Style)
      ensures this.date == date && this.format == format
    {
      this.date := date;
      this.format := format;
    }

    /** Formatter#initialize: fails on a format name the table does not hold. */
    static method New(date: Date, name: string) returns (r: Result<Formatter, FormatError>)
      ensures r.Success? <==> name in Formats
      ensures r.Failure? ==> r.error == UnrecognisedFormat(name)
      ensures r.Success? ==> fresh(r.value) && r.value.date == date && r.value.format == Formats[name]
    {
      var style := LookupFormat(name);
      if style.Failure? {
        return Failure(style.error);
      }
      var f := new Formatter(date, style.value);
      return Success(f);
    }

    /** Formatter#format. */
    method Format(currentYear: int) returns (r: Result<string, FormatError>)
      requires date.Valid()
      ensures r == Render(format, date.Value(), currentYear)
    {
      r := Render(format, date.Value(), currentYear);
    }
  }

  /** Date#to_s: a formatter in the default format, then its format. */
  method DateToString(d: Date, currentYear: int) returns (r: Result<string, FormatError>)
    requires d.Valid()
    ensures r == Render(Standard, d.Value(), currentYear)
  {
    var f := Formatter.New(d, "standard");
    if f.Success? {
      r := f.value.Format(currentYear);
    } else {
      assert false;
      r := Failure(MinuteUnset);
    }
  }
}
