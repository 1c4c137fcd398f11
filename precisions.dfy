/** The precision enumeration of lib/carbon_date.rb: fifteen levels, coarsest first. */
module Precisions {
  import opened Wrappers

  datatype Precision =
    | BillionYears | HundredMillionYears | TenMillionYears | MillionYears
    | HundredThousandYears | TenThousandYears
    | Millennium | Century | Decade | Year
    | Month | Day | Hour | Minute | Second

  /** The ordinal of a precision: 0 for billion years up to 14 for second. */
  function Level(p: Precision): (l: int)
    ensures 0 <= l <= 14
  {
    match p
    case BillionYears => 0
    case HundredMillionYears => 1
    case TenMillionYears => 2
    case MillionYears => 3
    case HundredThousandYears => 4
    case TenThousandYears => 5
    case Millennium => 6
    case Century => 7
    case Decade => 8
    case Year => 9
    case Month => 10
    case Day => 11
    case Hour => 12
    case Minute => 13
    case Second => 14
  }

  /** The precision an ordinal selects, or None for an ordinal outside the table. */
  function FromLevel(l: int): (r: Option<Precision>)
    ensures r.Some? <==> 0 <= l <= 14
    ensures r.Some? ==> Level(r.value) == l
  {
    if l == 0 then Some(BillionYears)
    else if l == 1 then Some(HundredMillionYears)
    else if l == 2 then Some(TenMillionYears)
    else if l == 3 then Some(MillionYears)
    else if l == 4 then Some(HundredThousandYears)
    else if l == 5 then Some(TenThousandYears)
    else if l == 6 then Some(Millennium)
    else if l == 7 then Some(Century)
    else if l == 8 then Some(Decade)
    else if l == 9 then Some(Year)
    else if l == 10 then Some(Month)
    else if l == 11 then Some(Day)
    else if l == 12 then Some(Hour)
    else if l == 13 then Some(Minute)
    else if l == 14 then Some(Second)
    else None
  }

  /** Level and FromLevel are inverse: ordinals 0..14 and precisions are in bijection. */
  lemma FromLevelOfLevel(p: Precision)
    ensures FromLevel(Level(p)) == Some(p)
  {
  }

  lemma LevelInjective(p: Precision, q: Precision)
    ensures Level(p) == Level(q) ==> p == q
  {
    FromLevelOfLevel(p);
    FromLevelOfLevel(q);
  }

  /** Every precision, in ordinal order. */
  const All: seq<Precision> :=
    [BillionYears, HundredMillionYears, TenMillionYears, MillionYears,
     HundredThousandYears, TenThousandYears, Millennium, Century, Decade, Year,
     Month, Day, Hour, Minute, Second]

  /** There are exactly fifteen levels and their ordinals are 0..14 in order. */
  lemma ExactlyFifteen()
    ensures |All| == 15
    ensures forall i :: 0 <= i < |All| ==> Level(All[i]) == i
    ensures forall p :: p in All
  {
    forall p: Precision ensures p in All {
      assert All[Level(p)] == p;
    }
  }

  /** The display name the PRECISION table keeps for each level; only the geological ones are plural ("... years"). */
  function Name(p: Precision): (n: string)
    ensures |n| > 0 && (IsGeological(p) <==> n[|n| - 1] == 's')
  {
    match p
    case BillionYears => "billion years"
    case HundredMillionYears => "hundred million years"
    case TenMillionYears => "ten million years"
    case MillionYears => "million years"
    case HundredThousandYears => "hundred thousand years"
    case TenThousandYears => "ten thousand years"
    case Millennium => "millennium"
    case Century => "century"
    case Decade => "decade"
    case Year => "year"
    case Month => "month"
    case Day => "day"
    case Hour => "hour"
    case Minute => "minute"
    case Second => "second"
  }

  /** No two levels share a name. */
  lemma NamesDistinct(p: Precision, q: Precision)
    ensures Name(p) == Name(q) ==> p == q
  {
  }

  /** The six geological-scale levels, rendered by the coarse rule. */
  predicate IsGeological(p: Precision) {
    Level(p) <= 5
  }

  function Pow10(k: nat): (n: nat)
    ensures n >= 1
  {
    if k == 0 then 1 else 10 * Pow10(k - 1)
  }

  lemma PowersOfTen()
    ensures Pow10(4) == 10_000 && Pow10(5) == 100_000 && Pow10(6) == 1_000_000
    ensures Pow10(7) == 10_000_000 && Pow10(8) == 100_000_000 && Pow10(9) == 1_000_000_000
  {
    assert Pow10(1) == 10;
    assert Pow10(2) == 100;
    assert Pow10(3) == 1_000;
  }

  /** The interval, in years, of a geological-scale level: 10^9 for level 0 down to 10^4 for level 5. */
  function Interval(p: Precision): (n: nat)
    requires IsGeological(p)
    ensures n == Pow10(9 - Level(p))
  {
    PowersOfTen();
    match p
    case BillionYears => 1_000_000_000
    case HundredMillionYears => 100_000_000
    case TenMillionYears => 10_000_000
    case MillionYears => 1_000_000
    case HundredThousandYears => 100_000
    case TenThousandYears => 10_000
  }

  /** Each finer geological level has a tenth of the interval of the one before it. */
  lemma IntervalsShrinkTenfold(p: Precision, q: Precision)
    requires IsGeological(p) && IsGeological(q) && Level(q) == Level(p) + 1
    ensures Interval(p) == 10 * Interval(q)
  {
  }
}
