/**
 * CarbonDate::StandardFormatter (lib/carbon_date/standard_formatter.rb): one
 * English rendering rule per precision.
 */
module StandardFormatter {
  import opened Wrappers
  import opened Precisions
  import opened Dates
  import opened Decimal
  import opened Strings

  /** The suffix for Before Common Era years. */
  const BceSuffix: string := "BCE"

  const Months: seq<string> :=
    ["January", "February", "March", "April", "May", "June", "July",
     "August", "September", "October", "November", "December"]

  function Abs(x: int): nat {
    if x < 0 then -x else x
  }

  /** Ends in a space and the letters of BceSuffix. */
  predicate EndsWithBce(s: string) {
    |s| >= 4 && s[|s| - 4] == ' ' && s[|s| - 3] == 'B' && s[|s| - 2] == 'C' && s[|s| - 1] == 'E'
  }

  /** A rendering followed by " BCE" exactly when the year is -1 or earlier (the rules' join(' ')). */
  function WithEra(s: string, y: int): string {
    if y <= -1 then s + (" " + BceSuffix) else s
  }

  /** A rendering with its trailing " BCE" removed when the year is negative. */
  function Bare(r: string, y: int): string {
    if y <= -1 && |r| >= 4 then r[..|r| - 4] else r
  }

  /** Removing the era mark gives back the unmarked rendering. */
  lemma BareWithEra(s: string, y: int)
    ensures Bare(WithEra(s, y), y) == s
  {
    if y <= -1 {
      assert WithEra(s, y)[..|s|] == s;
    }
  }

  /** Era-marking a rendering that does not itself end in 'E' makes it end in " BCE" exactly for negative years. */
  lemma WithEraMarks(s: string, y: int)
    requires |s| > 0 && s[|s| - 1] != 'E'
    ensures EndsWithBce(WithEra(s, y)) <==> y <= -1
  {
    var r := WithEra(s, y);
    if y <= -1 {
      assert r[|r| - 4..] == " " + BceSuffix;
    } else {
      assert |r| >= 4 ==> r[|r| - 4..][3] == r[|r| - 1];
    }
  }

  /** Text in front does not change whether a rendering ends in " BCE". */
  lemma EndsWithBceAppend(a: string, b: string)
    requires |b| > 0 && (EndsWithBce(b) || b[|b| - 1] != 'E')
    ensures EndsWithBce(a + b) <==> EndsWithBce(b)
  {
    var r := a + b;
    if EndsWithBce(b) {
      assert r[|r| - 4..] == b[|b| - 4..];
    } else {
      assert |r| >= 4 ==> r[|r| - 4..][3] == r[|r| - 1] == b[|b| - 1];
    }
  }

  /** Whether two era-marked renderings agree, when neither bare rendering ends in 'E'. */
  lemma {:induction false} WithEraInjective(s: string, t: string, y: int, z: int)
    requires |s| > 0 && |t| > 0 && s[|s| - 1] != 'E' && t[|t| - 1] != 'E'
    requires WithEra(s, y) == WithEra(t, z)
    ensures (y <= -1 <==> z <= -1) && s == t
  {
    var u := WithEra(s, y);
    if y <= -1 && z <= -1 {
      assert |s| == |t|;
      assert s == u[..|s|] == t;
    }
  }

  /** Two concatenations split at their first stop character split the same way. */
  lemma SplitAtStop(a: string, b: string, c: string, d: string, stops: set<char>)
    requires a + b == c + d
    requires |b| > 0 && |d| > 0 && b[0] in stops && d[0] in stops
    requires forall i :: 0 <= i < |a| ==> a[i] !in stops
    requires forall i :: 0 <= i < |c| ==> c[i] !in stops
    ensures a == c && b == d
  {
    assert a == (a + b)[..|a|] && c == (c + d)[..|c|];
    assert b == (a + b)[|a|..] && d == (c + d)[|c|..];
  }

  lemma DropPrefix(p: string, x: string, y: string)
    requires p + x == p + y
    ensures x == y
  {
    assert x == (p + x)[|p|..];
    assert y == (p + y)[|p|..];
  }

  lemma DropSuffix(x: string, y: string, q: string)
    requires x + q == y + q
    ensures x == y
  {
    assert x == (x + q)[..|x|];
    assert y == (y + q)[..|y|];
  }

  // ---------- year ----------

  /** standard_formatter.rb `year`: the digits of |year|, then " BCE" for negative years. */
  function YearText(v: DateValue): (r: string)
    ensures |r| > 0 && IsDigit(r[0])
    ensures EndsWithBce(r) <==> v.year <= -1
    ensures v.year > -1 ==> AllDigits(r)
  {
    var s := NatToString(Abs(v.year));
    WithEraMarks(s, v.year);
    WithEra(s, v.year)
  }

  /** Without its era mark, the year rendering is a digit string denoting |year|, with no leading zero. */
  lemma YearTextValue(v: DateValue)
    ensures var b := Bare(YearText(v), v.year);
      |b| > 0 && AllDigits(b) && DigitsValue(b) == Abs(v.year) && (b[0] == '0' <==> v.year == 0) &&
      YearText(v) == WithEra(b, v.year)
  {
    BareWithEra(NatToString(Abs(v.year)), v.year);
    NatToStringRoundTrip(Abs(v.year));
  }

  /** Distinct years render distinctly. */
  lemma YearTextInjective(v: DateValue, w: DateValue)
    ensures YearText(v) == YearText(w) ==> v.year == w.year
  {
    if YearText(v) == YearText(w) {
      var s, t := NatToString(Abs(v.year)), NatToString(Abs(w.year));
      WithEraInjective(s, t, v.year, w.year);
      NatToStringInjective(Abs(v.year), Abs(w.year));
    }
  }

  // ---------- month ----------

  predicate HasMonth(v: DateValue) {
    v.month.Some? && 1 <= v.month.value <= 12
  }

  lemma MonthNamesCommaFree(k: int)
    requires 0 <= k < 12
    ensures forall i :: 0 <= i < |Months[k]| ==> Months[k][i] !in {','}
  {
  }

  lemma MonthNamesDistinct(i: int, j: int)
    requires 0 <= i < 12 && 0 <= j < 12 && Months[i] == Months[j]
    ensures i == j
  {
  }

  /** standard_formatter.rb `month`: the month's English name, ", ", then the year rendering. */
  function MonthText(v: DateValue): (r: string)
    requires HasMonth(v)
    ensures var name := Months[v.month.value - 1]; |name| < |r| && r[..|name|] == name
    ensures r == Months[v.month.value - 1] + ", " + YearText(v)
    ensures EndsWithBce(r) <==> v.year <= -1
    ensures v.year > -1 ==> IsDigit(r[|r| - 1])
  {
    var y := YearText(v);
    EndsWithBceAppend(Months[v.month.value - 1] + ", ", y);
    assert Months[v.month.value - 1] + (", " + y) == Months[v.month.value - 1] + ", " + y;
    Months[v.month.value - 1] + (", " + y)
  }

  /** Distinct (month, year) pairs render distinctly. */
  lemma MonthTextInjective(v: DateValue, w: DateValue)
    requires HasMonth(v) && HasMonth(w)
    ensures MonthText(v) == MonthText(w) ==> v.month == w.month && v.year == w.year
  {
    if MonthText(v) == MonthText(w) {
      var a, b := v.month.value - 1, w.month.value - 1;
      MonthNamesCommaFree(a);
      MonthNamesCommaFree(b);
      SplitAtStop(Months[a], ", " + YearText(v), Months[b], ", " + YearText(w), {','});
      MonthNamesDistinct(a, b);
      DropPrefix(", ", YearText(v), YearText(w));
      YearTextInjective(v, w);
    }
  }

  // ---------- day ----------

  /** ActiveSupport's ordinal suffix for a non-negative number. */
  function OrdinalSuffix(n: nat): (suffix: string)
    ensures suffix in {"st", "nd", "rd", "th"}
    ensures |suffix| == 2 && suffix[0] in {'s', 'n', 'r', 't'}
    ensures suffix == "st" <==> n % 10 == 1 && n % 100 != 11
    ensures suffix == "nd" <==> n % 10 == 2 && n % 100 != 12
    ensures suffix == "rd" <==> n % 10 == 3 && n % 100 != 13
  {
    if 11 <= n % 100 <= 13 then "th"
    else if n % 10 == 1 then "st"
    else if n % 10 == 2 then "nd"
    else if n % 10 == 3 then "rd"
    else "th"
  }

  /** The suffix depends only on the last two digits. */
  lemma OrdinalSuffixLastTwoDigits(n: nat)
    ensures OrdinalSuffix(n) == OrdinalSuffix(n % 100)
  {
    LastDigitOfLastTwo(n);
  }

  /** Outside 11..13 (mod 100) the suffix depends only on the last digit. */
  lemma OrdinalSuffixLastDigit(n: nat)
    requires !(11 <= n % 100 <= 13)
    ensures OrdinalSuffix(n) == OrdinalSuffix(n % 10)
  {
  }

  lemma LastDigitOfLastTwo(n: nat)
    ensures (n % 100) % 10 == n % 10
  {
    var q, r := n / 100, n % 100;
    assert n == 10 * (10 * q + r / 10) + r % 10;
  }

  /** Integer#ordinalize: the digits of n followed by its ordinal suffix. */
  function Ordinalize(n: nat): string {
    NatToString(n) + OrdinalSuffix(n)
  }

  /** An ordinal is a digit string denoting n, then n's two-letter suffix. */
  lemma OrdinalizeValue(n: nat)
    ensures var r := Ordinalize(n);
      |r| >= 3 && AllDigits(r[..|r| - 2]) && DigitsValue(r[..|r| - 2]) == n && r[|r| - 2..] == OrdinalSuffix(n)
  {
    NatToStringRoundTrip(n);
    var r := Ordinalize(n);
    assert r[..|r| - 2] == NatToString(n);
  }

  lemma OrdinalExamples()
    ensures OrdinalSuffix(1) == "st" && OrdinalSuffix(2) == "nd" && OrdinalSuffix(3) == "rd"
    ensures OrdinalSuffix(4) == "th" && OrdinalSuffix(11) == "th" && OrdinalSuffix(12) == "th"
    ensures OrdinalSuffix(13) == "th" && OrdinalSuffix(21) == "st" && OrdinalSuffix(22) == "nd"
    ensures OrdinalSuffix(23) == "rd" && OrdinalSuffix(111) == "th" && OrdinalSuffix(101) == "st"
  {
  }

  /** The ordinal is followed by rest; what follows can be split off again. */
  lemma OrdinalizeSplit(m: nat, n: nat, x: string, y: string)
    requires Ordinalize(m) + x == Ordinalize(n) + y
    ensures m == n && x == y
  {
    var stops := {'s', 'n', 'r', 't'};
    var a, c := NatToString(m), NatToString(n);
    var sm, sn := OrdinalSuffix(m), OrdinalSuffix(n);
    assert Ordinalize(m) == a + sm && Ordinalize(n) == c + sn;
    assert forall i :: 0 <= i < |a| ==> a[i] !in stops by {
      forall i | 0 <= i < |a| ensures a[i] !in stops { assert IsDigit(a[i]); }
    }
    assert forall i :: 0 <= i < |c| ==> c[i] !in stops by {
      forall i | 0 <= i < |c| ensures c[i] !in stops { assert IsDigit(c[i]); }
    }
    assert a + sm + x == a + (sm + x) && c + sn + y == c + (sn + y);
    SplitAtStop(a, sm + x, c, sn + y, stops);
    NatToStringInjective(m, n);
    DropPrefix(sm, x, y);
  }

  predicate HasDay(v: DateValue) {
    HasMonth(v) && v.day.Some? && v.day.value >= 1
  }

  /** standard_formatter.rb `day`: the ordinal day, " ", then the month rendering. */
  function DayText(v: DateValue): (r: string)
    requires HasDay(v)
    ensures |r| > 0 && IsDigit(r[0])
    ensures r == Ordinalize(v.day.value) + " " + MonthText(v)
    ensures EndsWithBce(r) <==> v.year <= -1
  {
    var m := MonthText(v);
    EndsWithBceAppend(Ordinalize(v.day.value) + " ", m);
    assert Ordinalize(v.day.value) + (" " + m) == Ordinalize(v.day.value) + " " + m;
    assert IsDigit(NatToString(v.day.value)[0]);
    Ordinalize(v.day.value) + (" " + m)
  }

  /** Distinct (day, month, year) triples render distinctly. */
  lemma DayTextInjective(v: DateValue, w: DateValue)
    requires HasDay(v) && HasDay(w)
    ensures DayText(v) == DayText(w) ==> v.day == w.day && v.month == w.month && v.year == w.year
  {
    if DayText(v) == DayText(w) {
      OrdinalizeSplit(v.day.value, w.day.value, " " + MonthText(v), " " + MonthText(w));
      DropPrefix(" ", MonthText(v), MonthText(w));
      MonthTextInjective(v, w);
    }
  }

  // ---------- hour, minute, second ----------

  /** standard_formatter.rb `pad`: rjust(2, '0'). */
  function Pad(s: string): (r: string)
    ensures |r| >= 2 && |r| >= |s| && r[|r| - |s|..] == s
    ensures |s| >= 2 ==> r == s
    ensures |s| < 2 ==> |r| == 2 && forall i :: 0 <= i < 2 - |s| ==> r[i] == '0'
  {
    RightJustify(s, 2, '0')
  }

  /** Reference two-digit rendering of a number below 100. */
  function TwoDigits(n: nat): string
    requires n < 100
  {
    [DigitChar(n / 10), DigitChar(n % 10)]
  }

  /** Padding the decimal of a number below 100 gives exactly its two digits. */
  lemma PadTwoDigits(n: nat)
    requires n < 100
    ensures Pad(NatToString(n)) == TwoDigits(n)
  {
    SmallNumbers(n);
  }

  lemma TwoDigitsInjective(m: nat, n: nat)
    requires m < 100 && n < 100
    ensures TwoDigits(m) == TwoDigits(n) ==> m == n
  {
    if TwoDigits(m) == TwoDigits(n) {
      assert DigitChar(m / 10) == DigitChar(n / 10);
      assert DigitChar(m % 10) == DigitChar(n % 10);
    }
  }

  /** Two concatenations whose first parts have the same length split the same way. */
  lemma SplitFixed(a: string, b: string, c: string, d: string)
    requires a + b == c + d && |a| == |c|
    ensures a == c && b == d
  {
    assert a == (a + b)[..|a|] && c == (c + d)[..|c|];
    assert b == (a + b)[|a|..] && d == (c + d)[|c|..];
  }

  /**
   * standard_formatter.rb `hour`: the hour rounded by the given minute, ":00", then
   * the day rendering. The minute is an argument because an hour-precision date has none.
   */
  function HourText(v: DateValue, minute: int): (r: string)
    requires HasDay(v) && v.hour.Some? && 0 <= v.hour.value <= 23
    ensures r == TwoDigits(if minute >= 30 then v.hour.value + 1 else v.hour.value) + (":00" + (" " + DayText(v)))
  {
    var h := if minute >= 30 then v.hour.value + 1 else v.hour.value;
    PadTwoDigits(h);
    Pad(NatToString(h)) + (":00" + (" " + DayText(v)))
  }

  predicate HasMinute(v: DateValue) {
    HasDay(v) && v.hour.Some? && 0 <= v.hour.value <= 23 && v.minute.Some? && 0 <= v.minute.value <= 59
  }

  /** standard_formatter.rb `minute`: zero-padded "HH:MM", " ", then the day rendering. */
  function MinuteText(v: DateValue): (r: string)
    requires HasMinute(v)
    ensures r == TwoDigits(v.hour.value) + (":" + (TwoDigits(v.minute.value) + (" " + DayText(v))))
  {
    PadTwoDigits(v.hour.value);
    PadTwoDigits(v.minute.value);
    Pad(NatToString(v.hour.value)) + (":" + (Pad(NatToString(v.minute.value)) + (" " + DayText(v))))
  }

  lemma MinuteTextInjective(v: DateValue, w: DateValue)
    requires HasMinute(v) && HasMinute(w)
    ensures MinuteText(v) == MinuteText(w) ==>
      v.hour == w.hour && v.minute == w.minute && v.day == w.day && v.month == w.month && v.year == w.year
  {
    if MinuteText(v) == MinuteText(w) {
      var h1, h2 := TwoDigits(v.hour.value), TwoDigits(w.hour.value);
      var m1, m2 := TwoDigits(v.minute.value), TwoDigits(w.minute.value);
      var d1, d2 := " " + DayText(v), " " + DayText(w);
      SplitFixed(h1, ":" + (m1 + d1), h2, ":" + (m2 + d2));
      DropPrefix(":", m1 + d1, m2 + d2);
      SplitFixed(m1, d1, m2, d2);
      DropPrefix(" ", DayText(v), DayText(w));
      TwoDigitsInjective(v.hour.value, w.hour.value);
      TwoDigitsInjective(v.minute.value, w.minute.value);
      DayTextInjective(v, w);
    }
  }

  predicate HasSecond(v: DateValue) {
    HasMinute(v) && v.second.Some? && 0 <= v.second.value <= 59
  }

  /** standard_formatter.rb `second`: zero-padded "HH:MM:SS", " ", then the day rendering. */
  function SecondText(v: DateValue): (r: string)
    requires HasSecond(v)
    ensures r == TwoDigits(v.hour.value) + (":" + (TwoDigits(v.minute.value) +
                 (":" + (TwoDigits(v.second.value) + (" " + DayText(v))))))
  {
    PadTwoDigits(v.hour.value);
    PadTwoDigits(v.minute.value);
    PadTwoDigits(v.second.value);
    Pad(NatToString(v.hour.value)) + (":" + (Pad(NatToString(v.minute.value)) +
      (":" + (Pad(NatToString(v.second.value)) + (" " + DayText(v))))))
  }

  lemma SecondTextInjective(v: DateValue, w: DateValue)
    requires HasSecond(v) && HasSecond(w)
    ensures SecondText(v) == SecondText(w) ==>
      v.hour == w.hour && v.minute == w.minute && v.second == w.second &&
      v.day == w.day && v.month == w.month && v.year == w.year
  {
    if SecondText(v) == SecondText(w) {
      var h1, h2 := TwoDigits(v.hour.value), TwoDigits(w.hour.value);
      var m1, m2 := TwoDigits(v.minute.value), TwoDigits(w.minute.value);
      var s1, s2 := TwoDigits(v.second.value), TwoDigits(w.second.value);
      var d1, d2 := " " + DayText(v), " " + DayText(w);
      SplitFixed(h1, ":" + (m1 + (":" + (s1 + d1))), h2, ":" + (m2 + (":" + (s2 + d2))));
      DropPrefix(":", m1 + (":" + (s1 + d1)), m2 + (":" + (s2 + d2)));
      SplitFixed(m1, ":" + (s1 + d1), m2, ":" + (s2 + d2));
      DropPrefix(":", s1 + d1, s2 + d2);
      SplitFixed(s1, d1, s2, d2);
      DropPrefix(" ", DayText(v), DayText(w));
      TwoDigitsInjective(v.hour.value, w.hour.value);
      TwoDigitsInjective(v.minute.value, w.minute.value);
      TwoDigitsInjective(v.second.value, w.second.value);
      DayTextInjective(v, w);
    }
  }

  // ---------- decade, century, millennium ----------

  /** standard_formatter.rb `decade`: the decade's first year of |year|, "s", then the era. */
  function DecadeText(v: DateValue): (r: string)
    ensures |r| > 0 && IsDigit(r[0])
    ensures EndsWithBce(r) <==> v.year <= -1
  {
    var s := NatToString((Abs(v.year) / 10) * 10) + "s";
    assert s[|s| - 1] == 's';
    WithEraMarks(s, v.year);
    WithEra(s, v.year)
  }

  /** Without its era mark, the decade rendering is a digit string denoting (|year| div 10) * 10, then "s". */
  lemma DecadeTextValue(v: DateValue)
    ensures var b := Bare(DecadeText(v), v.year);
      |b| >= 2 && b[|b| - 1] == 's' && AllDigits(b[..|b| - 1]) &&
      DigitsValue(b[..|b| - 1]) == (Abs(v.year) / 10) * 10 && DecadeText(v) == WithEra(b, v.year)
  {
    var n := (Abs(v.year) / 10) * 10;
    var s := NatToString(n) + "s";
    BareWithEra(s, v.year);
    assert s[..|s| - 1] == NatToString(n);
    NatToStringRoundTrip(n);
  }

  /** Two years share a decade rendering exactly when they share the era and |year| div 10. */
  lemma DecadeTextSameIff(v: DateValue, w: DateValue)
    ensures DecadeText(v) == DecadeText(w) <==>
      (v.year <= -1 <==> w.year <= -1) && Abs(v.year) / 10 == Abs(w.year) / 10
  {
    if DecadeText(v) == DecadeText(w) {
      var a, b := (Abs(v.year) / 10) * 10, (Abs(w.year) / 10) * 10;
      WithEraInjective(NatToString(a) + "s", NatToString(b) + "s", v.year, w.year);
      DropSuffix(NatToString(a), NatToString(b), "s");
      NatToStringInjective(a, b);
    }
  }

  /** standard_formatter.rb `century`: the ordinal of |year| div 100 + 1, " century", then the era. */
  function CenturyText(v: DateValue): (r: string)
    ensures |r| > 0 && IsDigit(r[0])
    ensures EndsWithBce(r) <==> v.year <= -1
  {
    var s := Ordinalize(Abs(v.year) / 100 + 1) + " century";
    assert s[|s| - 1] == 'y';
    WithEraMarks(s, v.year);
    WithEra(s, v.year)
  }

  /** An era-marked ordinal followed by a word determines the era and the number. */
  lemma OrdinalWithEraSameIff(a: nat, b: nat, word: string, y: int, z: int)
    requires |word| > 0 && word[|word| - 1] != 'E'
    ensures WithEra(Ordinalize(a) + word, y) == WithEra(Ordinalize(b) + word, z) <==>
      (y <= -1 <==> z <= -1) && a == b
  {
    var s, t := Ordinalize(a) + word, Ordinalize(b) + word;
    if WithEra(s, y) == WithEra(t, z) {
      WithEraInjective(s, t, y, z);
      OrdinalizeSplit(a, b, word, word);
    }
  }

  /** Without its era mark, an era-marked ordinal followed by a word splits into the ordinal and the word. */
  lemma OrdinalWordValue(n: nat, word: string, y: int)
    ensures var b := Bare(WithEra(Ordinalize(n) + word, y), y);
      |b| > |word| && b[|b| - |word|..] == word && b[..|b| - |word|] == Ordinalize(n)
  {
    var s := Ordinalize(n) + word;
    BareWithEra(s, y);
    OrdinalizeValue(n);
    assert s[|s| - |word|..] == word && s[..|s| - |word|] == Ordinalize(n);
  }

  /** Without its era mark, the century rendering is the ordinal of |year| div 100 + 1, then " century". */
  lemma CenturyTextValue(v: DateValue)
    ensures var b := Bare(CenturyText(v), v.year);
      |b| > 8 && b[|b| - 8..] == " century" && b[..|b| - 8] == Ordinalize(Abs(v.year) / 100 + 1) &&
      CenturyText(v) == WithEra(b, v.year)
  {
    OrdinalWordValue(Abs(v.year) / 100 + 1, " century", v.year);
    BareWithEra(Ordinalize(Abs(v.year) / 100 + 1) + " century", v.year);
  }

  lemma CenturyTextSameIff(v: DateValue, w: DateValue)
    ensures CenturyText(v) == CenturyText(w) <==>
      (v.year <= -1 <==> w.year <= -1) && Abs(v.year) / 100 == Abs(w.year) / 100
  {
    var a, b := Abs(v.year) / 100 + 1, Abs(w.year) / 100 + 1;
    var s, t := Ordinalize(a) + " century", Ordinalize(b) + " century";
    assert CenturyText(v) == WithEra(s, v.year) && CenturyText(w) == WithEra(t, w.year);
    OrdinalWithEraSameIff(a, b, " century", v.year, w.year);
  }

  /** standard_formatter.rb `millennium`: the ordinal of |year| div 1000 + 1, " millennium", then the era. */
  function MillenniumText(v: DateValue): (r: string)
    ensures |r| > 0 && IsDigit(r[0])
    ensures EndsWithBce(r) <==> v.year <= -1
  {
    var s := Ordinalize(Abs(v.year) / 1000 + 1) + " millennium";
    assert s[|s| - 1] == 'm';
    WithEraMarks(s, v.year);
    WithEra(s, v.year)
  }

  /** Without its era mark, the millennium rendering is the ordinal of |year| div 1000 + 1, then " millennium". */
  lemma MillenniumTextValue(v: DateValue)
    ensures var b := Bare(MillenniumText(v), v.year);
      |b| > 11 && b[|b| - 11..] == " millennium" && b[..|b| - 11] == Ordinalize(Abs(v.year) / 1000 + 1) &&
      MillenniumText(v) == WithEra(b, v.year)
  {
    OrdinalWordValue(Abs(v.year) / 1000 + 1, " millennium", v.year);
    BareWithEra(Ordinalize(Abs(v.year) / 1000 + 1) + " millennium", v.year);
  }

  lemma MillenniumTextSameIff(v: DateValue, w: DateValue)
    ensures MillenniumText(v) == MillenniumText(w) <==>
      (v.year <= -1 <==> w.year <= -1) && Abs(v.year) / 1000 == Abs(w.year) / 1000
  {
    var a, b := Abs(v.year) / 1000 + 1, Abs(w.year) / 1000 + 1;
    var s, t := Ordinalize(a) + " millennium", Ordinalize(b) + " millennium";
    assert MillenniumText(v) == WithEra(s, v.year) && MillenniumText(w) == WithEra(t, w.year);
    OrdinalWithEraSameIff(a, b, " millennium", v.year, w.year);
  }

  /** The number an ordinal such as "21st" denotes: the digits before its two-letter suffix (0 for anything else). */
  function OrdinalNumber(o: string): nat {
    if |o| >= 2 && AllDigits(o[..|o| - 2]) then DigitsValue(o[..|o| - 2]) else 0
  }

  lemma OrdinalNumberOfOrdinalize(n: nat)
    ensures OrdinalNumber(Ordinalize(n)) == n
  {
    OrdinalizeValue(n);
  }

  /** The decade printed is the decade that holds |year|. */
  lemma DecadeContainsYear(v: DateValue)
    ensures var b := Bare(DecadeText(v), v.year);
      |b| >= 2 && AllDigits(b[..|b| - 1]) &&
      var d := DigitsValue(b[..|b| - 1]); d % 10 == 0 && d <= Abs(v.year) < d + 10
  {
    DecadeTextValue(v);
  }

  /** The century printed, read back from its ordinal, is the century that holds |year|. */
  lemma CenturyContainsYear(v: DateValue)
    ensures var b := Bare(CenturyText(v), v.year);
      |b| > 8 && var c := OrdinalNumber(b[..|b| - 8]); (c - 1) * 100 <= Abs(v.year) < c * 100
  {
    CenturyTextValue(v);
    OrdinalNumberOfOrdinalize(Abs(v.year) / 100 + 1);
  }

  /** The millennium printed, read back from its ordinal, is the millennium that holds |year|. */
  lemma MillenniumContainsYear(v: DateValue)
    ensures var b := Bare(MillenniumText(v), v.year);
      |b| > 11 && var m := OrdinalNumber(b[..|b| - 11]); (m - 1) * 1000 <= Abs(v.year) < m * 1000
  {
    MillenniumTextValue(v);
    OrdinalNumberOfOrdinalize(Abs(v.year) / 1000 + 1);
  }

  // ---------- number_with_delimiter ----------

  /** A digit string grouped in threes from the right, joined by commas. */
  function Grouped(s: string): string
    decreases |s|
  {
    if |s| <= 3 then s else Grouped(s[..|s| - 3]) + "," + s[|s| - 3..]
  }

  /** Reversing s splits off the reversed last three characters as the first slice. */
  lemma SlicesOfReverse(s: string)
    requires |s| > 3
    ensures var p, q := s[..|s| - 3], s[|s| - 3..];
      Slices(Reverse(s), 3) == [Reverse(q)] + Slices(Reverse(p), 3) && Slices(Reverse(p), 3) != []
  {
    var p, q := s[..|s| - 3], s[|s| - 3..];
    assert s == p + q;
    ReverseConcat(p, q);
    var rs := Reverse(s);
    assert rs[..3] == Reverse(q) && rs[3..] == Reverse(p);
    SlicesCons(rs, 3);
  }

  /** Reversing "reversed group, comma, rest" puts the group back at the end. */
  lemma ReverseGroupStep(q: string, j: string)
    ensures Reverse(Reverse(q) + "," + j) == Reverse(j) + "," + q
  {
    ReverseConcat(Reverse(q) + ",", j);
    ReverseConcat(Reverse(q), ",");
    ReverseReverse(q);
  }

  /** The reverse / each_slice(3) / join(',') / reverse pipeline groups from the right. */
  lemma {:induction false} PipelineGroups(s: string)
    requires s != []
    ensures Reverse(Join(Slices(Reverse(s), 3), ",")) == Grouped(s)
    decreases |s|
  {
    var rs := Reverse(s);
    if |s| <= 3 {
      assert rs[..|rs|] == rs && rs[|rs|..] == [];
      assert Slices(rs, 3) == [rs];
      ReverseReverse(s);
    } else {
      var p, q := s[..|s| - 3], s[|s| - 3..];
      SlicesOfReverse(s);
      var parts := Slices(Reverse(p), 3);
      JoinCons(Reverse(q), parts, ",");
      ReverseGroupStep(q, Join(parts, ","));
      PipelineGroups(p);
    }
  }

  /** Deletes every comma. */
  function RemoveCommas(s: string): string {
    if s == [] then [] else (if s[0] == ',' then [] else [s[0]]) + RemoveCommas(s[1..])
  }

  lemma {:induction false} RemoveCommasConcat(a: string, b: string)
    ensures RemoveCommas(a + b) == RemoveCommas(a) + RemoveCommas(b)
    decreases |a|
  {
    if a != [] {
      assert (a + b)[1..] == a[1..] + b;
      RemoveCommasConcat(a[1..], b);
    } else {
      assert a + b == b;
    }
  }

  lemma {:induction false} RemoveCommasOfDigits(s: string)
    requires AllDigits(s)
    ensures RemoveCommas(s) == s
    decreases |s|
  {
    if s != [] {
      RemoveCommasOfDigits(s[1..]);
      assert s == [s[0]] + s[1..];
    }
  }

  /**
   * Counting from the right, every fourth character is a comma and the others are
   * digits, and the length is not a multiple of four: every group after the first
   * has exactly three digits and the first has one to three.
   */
  predicate WellGrouped(g: string) {
    |g| % 4 != 0 &&
    forall i :: 0 <= i < |g| ==> (g[i] == ',' <==> (|g| - i) % 4 == 0) && (g[i] == ',' || IsDigit(g[i]))
  }

  lemma {:induction false} GroupedRemoveCommas(s: string)
    requires AllDigits(s)
    ensures RemoveCommas(Grouped(s)) == s
    decreases |s|
  {
    if |s| <= 3 {
      RemoveCommasOfDigits(s);
    } else {
      var p, q := s[..|s| - 3], s[|s| - 3..];
      assert AllDigits(p) by {
        forall i | 0 <= i < |p| ensures IsDigit(p[i]) { assert p[i] == s[i]; }
      }
      assert AllDigits(q) by {
        forall i | 0 <= i < |q| ensures IsDigit(q[i]) { assert q[i] == s[|s| - 3 + i]; }
      }
      GroupedRemoveCommas(p);
      var gp := Grouped(p);
      assert Grouped(s) == gp + "," + q;
      RemoveCommasConcat(gp + ",", q);
      RemoveCommasConcat(gp, ",");
      RemoveCommasOfDigits(q);
      assert RemoveCommas(",") == [];
      assert p + q == s;
    }
  }

  /** Appending a comma and three digits to a well-grouped string keeps it well grouped. */
  lemma WellGroupedStep(gp: string, q: string)
    requires WellGrouped(gp) && |q| == 3 && AllDigits(q)
    ensures WellGrouped(gp + "," + q)
  {
    var g := gp + "," + q;
    assert |g| == |gp| + 4;
    forall i | 0 <= i < |g|
      ensures (g[i] == ',' <==> (|g| - i) % 4 == 0) && (g[i] == ',' || IsDigit(g[i]))
    {
      if i < |gp| {
        assert g[i] == gp[i];
        assert |g| - i == (|gp| - i) + 4;
      } else if i == |gp| {
        assert |g| - i == 4;
      } else {
        assert g[i] == q[i - |gp| - 1];
        assert 1 <= |g| - i <= 3;
      }
    }
  }

  lemma {:induction false} GroupedWellGrouped(s: string)
    requires s != [] && AllDigits(s)
    ensures WellGrouped(Grouped(s))
    decreases |s|
  {
    if |s| > 3 {
      var p, q := s[..|s| - 3], s[|s| - 3..];
      GroupedWellGrouped(p);
      WellGroupedStep(Grouped(p), q);
    }
  }

  /** standard_formatter.rb `number_with_delimiter` for a non-negative number. */
  function NumberWithDelimiter(n: nat): (r: string)
    ensures RemoveCommas(r) == NatToString(n)
    ensures WellGrouped(r)
    ensures |r| > 0 && IsDigit(r[0])
  {
    var s := NatToString(n);
    PipelineGroups(s);
    GroupedRemoveCommas(s);
    GroupedWellGrouped(s);
    var r := Reverse(Join(Slices(Reverse(s), 3), ","));
    r
  }

  /** number_with_delimiter agrees with the reference right-to-left grouping. */
  lemma NumberWithDelimiterGrouped(n: nat)
    ensures NumberWithDelimiter(n) == Grouped(NatToString(n))
  {
    PipelineGroups(NatToString(n));
  }

  // ---------- coarse precisions ----------

  /** Exact round-half-away-from-zero of diff / n (the Float#round of the source). */
  function RoundDiv(diff: int, n: int): (q: int)
    requires n > 0
    ensures q > 0 ==> diff > 0
    ensures q < 0 ==> diff < 0
  {
    if diff >= 0 then (2 * diff + n) / (2 * n) else -((-2 * diff + n) / (2 * n))
  }

  lemma DivBounds(x: int, d: int)
    requires d > 0
    ensures d * (x / d) <= x < d * (x / d) + d
  {
  }

  /** Rounding a non-negative a: the multiple q * n lies within n / 2 of a, above it on a tie. */
  lemma RoundNonNegative(a: nat, n: int)
    requires n > 0
    ensures var q := (2 * a + n) / (2 * n);
      -n <= 2 * (a - q * n) < n && q >= 0 && (a >= n ==> q >= 1)
  {
    var q := (2 * a + n) / (2 * n);
    DivBounds(2 * a + n, 2 * n);
    assert (2 * n) * q == 2 * (q * n);
    if a >= n && q <= 0 {
      MulNonPositive(q, n);
    }
  }

  lemma MulNonPositive(q: int, n: int)
    requires q <= 0 && n > 0
    ensures q * n <= 0
  {
  }

  /** The rounded multiple is nearest to diff, with halves going away from zero. */
  lemma RoundDivNearest(diff: int, n: int)
    requires n > 0
    ensures var m := RoundDiv(diff, n) * n;
      2 * Abs(diff - m) <= n && (2 * Abs(diff - m) == n ==> Abs(m) > Abs(diff))
    ensures Abs(diff) >= n ==> RoundDiv(diff, n) != 0 && (RoundDiv(diff, n) > 0 <==> diff > 0)
  {
    var a := Abs(diff);
    var q := (2 * a + n) / (2 * n);
    RoundNonNegative(a, n);
    if diff < 0 {
      assert RoundDiv(diff, n) * n == -(q * n);
    }
  }

  function WithinLast(n: nat): string {
    "Within the last " + (NumberWithDelimiter(n) + " years")
  }

  function WithinNext(n: nat): string {
    "Within the next " + (NumberWithDelimiter(n) + " years")
  }

  function InYears(n: nat): string {
    "in " + (NumberWithDelimiter(n) + " years")
  }

  function YearsAgo(n: nat): string {
    NumberWithDelimiter(n) + " years ago"
  }

  /** The four coarse phrasings never coincide. */
  lemma PhrasesDistinct(a: nat, b: nat, c: nat, d: nat)
    ensures WithinLast(a) != WithinNext(b) && WithinLast(a) != InYears(c) && WithinLast(a) != YearsAgo(d)
    ensures WithinNext(b) != InYears(c) && WithinNext(b) != YearsAgo(d) && InYears(c) != YearsAgo(d)
  {
    PhraseMarks(a, b, c, d);
  }

  /** Each phrasing is told apart by its first character, or by the twelfth for the two "Within" ones. */
  lemma PhraseMarks(a: nat, b: nat, c: nat, d: nat)
    ensures |WithinLast(a)| > 11 && WithinLast(a)[0] == 'W' && WithinLast(a)[11] == 'l'
    ensures |WithinNext(b)| > 11 && WithinNext(b)[0] == 'W' && WithinNext(b)[11] == 'n'
    ensures |InYears(c)| > 0 && InYears(c)[0] == 'i'
    ensures |YearsAgo(d)| > 0 && IsDigit(YearsAgo(d)[0])
  {
  }

  /** standard_formatter.rb `coarse_precision`; None is the trailing nil. */
  function CoarsePrecision(year: int, interval: nat, currentYear: int): (r: Option<string>)
    requires interval >= 1
    ensures r.Some?
  {
    var diff := year - currentYear;
    RoundDivNearest(diff, interval);
    if -(interval - 1) <= diff <= 0 then Some(WithinLast(interval))
    else if 1 <= diff <= interval - 1 then Some(WithinNext(interval))
    else
      var rounded := RoundDiv(diff, interval) * interval;
      if rounded > 0 then Some(InYears(Abs(rounded)))
      else if rounded < 0 then Some(YearsAgo(Abs(rounded)))
      else None
  }

  /** "Within the last N years" exactly for the N years up to and including the current one. */
  lemma CoarseWithinLastIff(year: int, interval: nat, currentYear: int)
    requires interval >= 1
    ensures CoarsePrecision(year, interval, currentYear) == Some(WithinLast(interval))
      <==> -(interval - 1) <= year - currentYear <= 0
  {
    var diff := year - currentYear;
    if !(-(interval - 1) <= diff <= 0) {
      OutsideLastBand(year, interval, currentYear);
    }
  }

  /** Outside the past band the rule picks one of the three other phrasings. */
  lemma OutsideLastBand(year: int, interval: nat, currentYear: int)
    requires interval >= 1 && !(-(interval - 1) <= year - currentYear <= 0)
    ensures CoarsePrecision(year, interval, currentYear) != Some(WithinLast(interval))
  {
    var diff := year - currentYear;
    var m := Abs(RoundDiv(diff, interval) * interval);
    PhraseMarks(interval, interval, m, m);
  }

  /** "Within the next N years" exactly for the N - 1 years after the current one. */
  lemma CoarseWithinNextIff(year: int, interval: nat, currentYear: int)
    requires interval >= 1
    ensures CoarsePrecision(year, interval, currentYear) == Some(WithinNext(interval))
      <==> 1 <= year - currentYear <= interval - 1
  {
    var diff := year - currentYear;
    if !(1 <= diff <= interval - 1) {
      OutsideNextBand(year, interval, currentYear);
    }
  }

  /** Outside the future band the rule picks one of the three other phrasings. */
  lemma OutsideNextBand(year: int, interval: nat, currentYear: int)
    requires interval >= 1 && !(1 <= year - currentYear <= interval - 1)
    ensures CoarsePrecision(year, interval, currentYear) != Some(WithinNext(interval))
  {
    var diff := year - currentYear;
    var m := Abs(RoundDiv(diff, interval) * interval);
    PhraseMarks(interval, interval, m, m);
  }

  /**
   * Outside both bands: the nearest multiple of the interval (halves away from
   * zero), which is non-zero and has the sign of diff; "in X years" for the
   * future and "X years ago" for the past.
   */
  lemma CoarseRounded(year: int, interval: nat, currentYear: int)
    requires interval >= 1
    requires year - currentYear <= -(interval as int) || year - currentYear >= interval
    ensures var diff := year - currentYear;
      var m := RoundDiv(diff, interval) * interval;
      m != 0 && (m > 0 <==> diff > 0) &&
      2 * Abs(diff - m) <= interval && (2 * Abs(diff - m) == interval ==> Abs(m) > Abs(diff)) &&
      (diff > 0 ==> CoarsePrecision(year, interval, currentYear) == Some(InYears(m))) &&
      (diff < 0 ==> CoarsePrecision(year, interval, currentYear) == Some(YearsAgo(-m)))
  {
    var diff := year - currentYear;
    RoundDivNearest(diff, interval);
    var q := RoundDiv(diff, interval);
    if q > 0 {
      MulPositive(q, interval);
    } else {
      MulPositive(-q, interval);
    }
  }

  lemma MulPositive(q: int, n: int)
    requires q > 0 && n > 0
    ensures q * n > 0 && (-q) * n < 0
  {
  }

  /** The rule for the six geological-scale precisions, with that precision's interval. */
  function GeologicalText(v: DateValue, currentYear: int): (r: Option<string>)
    requires IsGeological(v.precision)
    ensures r.Some?
  {
    CoarsePrecision(v.year, Interval(v.precision), currentYear)
  }

  // ---------- worked examples (from the formatter's test suite) ----------

  function Plain(p: Precision, y: int): DateValue {
    DateValue(p, y, None, None, None, None, None)
  }

  lemma YearExample()
    ensures YearText(Plain(Year, 2016)) == "2016"
  {
    assert NatToString(20) == "20";
    assert NatToString(201) == "201";
    assert NatToString(2016) == "2016";
  }

  lemma YearBceExample()
    ensures YearText(Plain(Year, -2000)) == "2000 BCE"
  {
    assert NatToString(20) == "20";
    assert NatToString(200) == "200";
    assert NatToString(2000) == "2000";
  }

  lemma MonthExample()
    ensures MonthText(DateValue(Month, 1945, Some(6), None, None, None, None)) == "June, 1945"
  {
  }

  lemma DayExample()
    ensures DayText(DateValue(Day, -44, Some(3), Some(15), None, None, None)) == "15th March, 44 BCE"
  {
    IdesOfMarch(DateValue(Day, -44, Some(3), Some(15), None, None, None));
  }

  lemma Year44Bce(v: DateValue)
    requires v.year == -44
    ensures YearText(v) == "44 BCE"
  {
    assert NatToString(44) == "44";
  }

  lemma March44Bce(v: DateValue)
    requires v.year == -44 && v.month == Some(3)
    ensures MonthText(v) == "March, 44 BCE"
  {
    Year44Bce(v);
  }

  lemma IdesOfMarch(v: DateValue)
    requires v.year == -44 && v.month == Some(3) && v.day == Some(15)
    ensures DayText(v) == "15th March, 44 BCE"
  {
    March44Bce(v);
    assert Ordinalize(15) == "15th";
  }

  lemma Year1970(v: DateValue)
    requires v.year == 1970
    ensures YearText(v) == "1970"
  {
    assert NatToString(19) == "19";
    assert NatToString(197) == "197";
    assert NatToString(1970) == "1970";
  }

  lemma January1970(v: DateValue)
    requires v.year == 1970 && v.month == Some(1)
    ensures MonthText(v) == "January, 1970"
  {
    Year1970(v);
  }

  lemma NewYear1970(v: DateValue)
    requires v.year == 1970 && v.month == Some(1) && v.day == Some(1)
    ensures DayText(v) == "1st January, 1970"
  {
    January1970(v);
    assert Ordinalize(1) == "1st";
  }

  lemma MinuteExample()
    ensures MinuteText(DateValue(Minute, 1970, Some(1), Some(1), Some(0), Some(0), None)) == "00:00 1st January, 1970"
  {
    MidnightNewYear1970(DateValue(Minute, 1970, Some(1), Some(1), Some(0), Some(0), None));
  }

  lemma MidnightNewYear1970(v: DateValue)
    requires HasMinute(v) && v.year == 1970 && v.month == Some(1) && v.day == Some(1)
    requires v.hour == Some(0) && v.minute == Some(0)
    ensures MinuteText(v) == "00:00 1st January, 1970"
  {
    NewYear1970(v);
    assert TwoDigits(0) == "00";
    MidnightPrefix(DayText(v));
  }

  lemma MidnightPrefix(d: string)
    requires d == "1st January, 1970"
    ensures "00" + (":" + ("00" + (" " + d))) == "00:00 1st January, 1970"
  {
  }

  lemma DecadeExamples()
    ensures DecadeText(Plain(Decade, 1945)) == "1940s"
    ensures DecadeText(Plain(Decade, -15)) == "10s BCE"
  {
  }

  lemma CenturyExample()
    ensures CenturyText(Plain(Century, 2000)) == "21st century"
  {
  }

  lemma CenturyBceExample()
    ensures CenturyText(Plain(Century, -100)) == "2nd century BCE"
  {
  }

  lemma MillenniumExample()
    ensures MillenniumText(Plain(Millennium, 1000)) == "2nd millennium"
  {
  }

  lemma GroupingExample()
    ensures Grouped("1234567890") == "1,234,567,890"
  {
    assert Grouped("1234") == "1,234";
    assert Grouped("1234567") == "1,234,567";
    assert "1234567890"[..7] == "1234567" && "1234567890"[7..] == "890";
  }

  lemma DecimalExample()
    ensures NatToString(1234567890) == "1234567890"
  {
    assert NatToString(12) == "12";
    assert NatToString(123) == "123";
    assert NatToString(1234) == "1234";
    assert NatToString(12345) == "12345";
    assert NatToString(123456) == "123456";
    assert NatToString(1234567) == "1234567";
    assert NatToString(12345678) == "12345678";
    assert NatToString(123456789) == "123456789";
  }

  lemma DelimiterExample()
    ensures NumberWithDelimiter(1234567890) == "1,234,567,890"
  {
    NumberWithDelimiterGrouped(1234567890);
    DecimalExample();
    GroupingExample();
  }

  lemma DecimalTenThousand()
    ensures NatToString(10000) == "10000"
  {
    assert NatToString(10) == "10";
    assert NatToString(100) == "100";
    assert NatToString(1000) == "1000";
  }

  lemma GroupedTenThousand()
    ensures Grouped("10000") == "10,000"
  {
    assert "10000"[..2] == "10" && "10000"[2..] == "000";
  }

  lemma TenThousand()
    ensures NumberWithDelimiter(10000) == "10,000"
  {
    NumberWithDelimiterGrouped(10000);
    DecimalTenThousand();
    GroupedTenThousand();
  }

  lemma WithinTheLastTenThousand()
    ensures WithinLast(10000) == "Within the last 10,000 years"
  {
    TenThousand();
  }

  lemma WithinTheLastExample()
    ensures CoarsePrecision(2016 - 9999, 10000, 2016) == Some("Within the last 10,000 years")
  {
    assert CoarsePrecision(2016 - 9999, 10000, 2016) == Some(WithinLast(10000));
    WithinTheLastTenThousand();
  }

  lemma DecimalTwentyThousand()
    ensures NatToString(20000) == "20000"
  {
    assert NatToString(20) == "20";
    assert NatToString(200) == "200";
    assert NatToString(2000) == "2000";
  }

  lemma GroupedTwentyThousand()
    ensures Grouped("20000") == "20,000"
  {
    assert "20000"[..2] == "20" && "20000"[2..] == "000";
  }

  lemma TwentyThousand()
    ensures NumberWithDelimiter(20000) == "20,000"
  {
    NumberWithDelimiterGrouped(20000);
    DecimalTwentyThousand();
    GroupedTwentyThousand();
  }

  lemma TwentyThousandYearsAgo()
    ensures YearsAgo(20000) == "20,000 years ago"
  {
    TwentyThousand();
  }

  lemma YearsAgoExample()
    ensures CoarsePrecision(2016 - 15000, 10000, 2016) == Some("20,000 years ago")
  {
    assert RoundDiv(-15000, 10000) * 10000 == -20000;
    assert CoarsePrecision(2016 - 15000, 10000, 2016) == Some(YearsAgo(20000));
    TwentyThousandYearsAgo();
  }
}
