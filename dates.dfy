/** Calendar dates as time.Parse reads them with the layout "2006-01-02",
    and the day number the database compares when it casts a timestamp to
    a date. Timestamps are seconds since 1970-01-01T00:00:00 UTC. */
module Dates {
  import opened Decimal
  import opened Model

  datatype Date = Date(year: int, month: int, day: int)

  predicate IsLeap(y: int) {
    y % 4 == 0 && (y % 100 != 0 || y % 400 == 0)
  }

  function DaysIn(month: int, year: int): int
    requires 1 <= month <= 12
  {
    if month == 2 then (if IsLeap(year) then 29 else 28)
    else if month in {4, 6, 9, 11} then 30
    else 31
  }

  /** A date that the layout can write: a four-digit year and a day that
      exists in its month. */
  predicate ValidDate(d: Date) {
    0 <= d.year <= 9999 && 1 <= d.month <= 12 && 1 <= d.day <= DaysIn(d.month, d.year)
  }

  /** n written with exactly width digits, zero padded. */
  function Padded(n: nat, width: nat): (s: string)
    ensures |s| == width && AllDigits(s)
  {
    if width == 0 then [] else Padded(n / 10, width - 1) + [DigitChar(n % 10)]
  }

  /** The layout "2006-01-02" applied to a date. */
  function FormatDate(d: Date): string
    requires ValidDate(d)
  {
    Padded(d.year, 4) + "-" + Padded(d.month, 2) + "-" + Padded(d.day, 2)
  }

  /** time.Parse("2006-01-02", v): four year digits, '-', two month digits,
      '-', two day digits and nothing more, with the month in 1..12 and
      the day inside that month; anything else is an error (None). */
  function ParseDate(v: string): Option<Date> {
    if |v| == 10 && v[4] == '-' && v[7] == '-'
       && AllDigits(v[..4]) && AllDigits(v[5..7]) && AllDigits(v[8..])
    then
      var (y, m, d) := (ParseNat(v[..4]), ParseNat(v[5..7]), ParseNat(v[8..]));
      if 1 <= m <= 12 && 1 <= d <= DaysIn(m, y) then Some(Date(y, m, d)) else None
    else None
  }

  /** Reading back width padded digits gives n, for n below 10^width. */
  lemma {:induction false} ParsePadded(n: nat, width: nat, bound: nat)
    requires bound == Pow10(width) && n < bound
    ensures ParseNat(Padded(n, width)) == n
    decreases width
  {
    if width > 0 {
      var s := Padded(n, width);
      assert s[..|s| - 1] == Padded(n / 10, width - 1);
      ParsePadded(n / 10, width - 1, Pow10(width - 1));
    }
  }

  /** Writing the value of width digits back with width digits gives them. */
  lemma {:induction false} PaddedParse(s: string)
    requires AllDigits(s)
    ensures ParseNat(s) < Pow10(|s|)
    ensures Padded(ParseNat(s), |s|) == s
    decreases |s|
  {
    if s != [] {
      var init := s[..|s| - 1];
      PaddedParse(init);
      var n := ParseNat(s);
      assert n / 10 == ParseNat(init) && n % 10 == DigitValue(s[|s| - 1]);
      assert s == init + [s[|s| - 1]];
    }
  }

  function Pow10(k: nat): nat {
    if k == 0 then 1 else 10 * Pow10(k - 1)
  }

  /** The parse accepts the written form of every valid date and reads it
      back unchanged ... */
  lemma ParseFormatDate(d: Date)
    requires ValidDate(d)
    ensures ParseDate(FormatDate(d)) == Some(d)
  {
    var v := FormatDate(d);
    var (y, m, dd) := (Padded(d.year, 4), Padded(d.month, 2), Padded(d.day, 2));
    assert v[..4] == y && v[5..7] == m && v[8..] == dd;
    assert Pow10(4) == 10000 && Pow10(2) == 100;
    ParsePadded(d.year, 4, 10000);
    ParsePadded(d.month, 2, 100);
    ParsePadded(d.day, 2, 100);
  }

  /** ... and accepts nothing else. */
  lemma ParsedDateIsFormatted(v: string)
    requires ParseDate(v).Some?
    ensures ValidDate(ParseDate(v).value) && FormatDate(ParseDate(v).value) == v
  {
    PaddedParse(v[..4]);
    PaddedParse(v[5..7]);
    PaddedParse(v[8..]);
    assert Pow10(4) == 10000 && Pow10(2) == 100;
    var d := ParseDate(v).value;
    assert v == v[..4] + "-" + v[5..7] + "-" + v[8..];
  }

  /** Days from 1970-01-01 to d in the proleptic Gregorian calendar. */
  function DaysFromCivil(d: Date): int {
    var y := if d.month <= 2 then d.year - 1 else d.year;
    var era := y / 400;                                    // floor division
    var yoe := y - era * 400;                              // 0..399
    var mp := if d.month > 2 then d.month - 3 else d.month + 9;
    var doy := (153 * mp + 2) / 5 + d.day - 1;
    var doe := yoe * 365 + yoe / 4 - yoe / 100 + doy;
    era * 146097 + doe - 719468
  }

  /** upload_date::date = d: the timestamp falls on the calendar day d. */
  predicate SameDay(t: int, d: Date) {
    t / 86400 == DaysFromCivil(d)
  }

  /** The day is the half-open range of its 86400 seconds. */
  lemma SameDayRange(t: int, d: Date)
    ensures SameDay(t, d) <==> DaysFromCivil(d) * 86400 <= t < DaysFromCivil(d) * 86400 + 86400
  {
    var k := DaysFromCivil(d);
    if k * 86400 <= t < k * 86400 + 86400 {
      assert t / 86400 == k by {
        assert t == k * 86400 + (t - k * 86400);
      }
    }
  }

  /** Consecutive days of one month are consecutive day numbers. */
  lemma NextDayInMonth(d: Date)
    requires ValidDate(d) && d.day < DaysIn(d.month, d.year)
    ensures DaysFromCivil(d.(day := d.day + 1)) == DaysFromCivil(d) + 1
  {
  }

  /** The calendar day after d. */
  function NextDate(d: Date): Date
    requires ValidDate(d)
  {
    if d.day < DaysIn(d.month, d.year) then d.(day := d.day + 1)
    else if d.month < 12 then Date(d.year, d.month + 1, 1)
    else Date(d.year + 1, 1, 1)
  }

  /** Day 0 is 1970-01-01. */
  lemma EpochDay()
    ensures DaysFromCivil(Date(1970, 1, 1)) == 0
  {
  }

  /** Every day, month ends and year ends included, is numbered one more
      than the day before it. */
  lemma NextDay(d: Date)
    requires ValidDate(d)
    ensures DaysFromCivil(NextDate(d)) == DaysFromCivil(d) + 1
  {
    if d.day < DaysIn(d.month, d.year) {
      NextDayInMonth(d);
    } else if d.month == 2 {
      FebruaryEnd(d);
    } else if d.month < 12 {
      MonthEnd(d);
    } else {
      YearEnd(d);
    }
  }

  /** The day after a valid date is valid, up to the last date the layout
      can write. */
  lemma NextDateValid(d: Date)
    requires ValidDate(d) && d != Date(9999, 12, 31)
    ensures ValidDate(NextDate(d))
  {
    if d.day == DaysIn(d.month, d.year) && d.month == 12 {
      assert d.year < 9999;
    }
  }

  /** The last day of a month other than February or December is followed
      by the first of the next month. */
  lemma MonthEnd(d: Date)
    requires ValidDate(d) && d.day == DaysIn(d.month, d.year) && d.month != 2 && d.month < 12
    ensures DaysFromCivil(NextDate(d)) == DaysFromCivil(d) + 1
  {
    assert NextDate(d) == Date(d.year, d.month + 1, 1);
    var mp := if d.month > 2 then d.month - 3 else d.month + 9;
    assert (153 * mp + 2) / 5 + d.day == (153 * (mp + 1) + 2) / 5;
  }

  /** December 31 is followed by January 1 of the next year. */
  lemma YearEnd(d: Date)
    requires ValidDate(d) && d.month == 12 && d.day == 31
    ensures DaysFromCivil(NextDate(d)) == DaysFromCivil(d) + 1
  {
    assert NextDate(d) == Date(d.year + 1, 1, 1);
  }

  /** The last day of February is followed by March 1; this is where the
      day numbering's year, which starts in March, turns over. */
  lemma FebruaryEnd(d: Date)
    requires ValidDate(d) && d.month == 2 && d.day == DaysIn(2, d.year)
    ensures DaysFromCivil(NextDate(d)) == DaysFromCivil(d) + 1
  {
    var year := d.year;
    assert NextDate(d) == Date(year, 3, 1);
    var y := year - 1;
    var era := y / 400;
    var yoe := y - era * 400;
    assert DaysFromCivil(d) == era * 146097 + YearStart(yoe) + 336 + DaysIn(2, year) - 719468;
    if yoe < 399 {
      MarchFirstInEra(year, era, yoe);
    } else {
      MarchFirstOfEra(year, era);
    }
  }

  /** March 1 of a year that does not start an era. */
  lemma MarchFirstInEra(year: int, era: int, yoe: int)
    requires year - 1 == era * 400 + yoe && 0 <= yoe < 399
    ensures DaysFromCivil(Date(year, 3, 1)) == era * 146097 + YearStart(yoe) + 337 + DaysIn(2, year) - 719468
  {
    assert year / 400 == era && year - era * 400 == yoe + 1;
    LeapInEra(era, yoe);
    YearLength(yoe);
    assert DaysFromCivil(Date(year, 3, 1)) == era * 146097 + YearStart(yoe + 1) - 719468;
  }

  /** March 1 of a year divisible by 400, where a new era starts. */
  lemma MarchFirstOfEra(year: int, era: int)
    requires year == (era + 1) * 400
    ensures DaysFromCivil(Date(year, 3, 1)) == era * 146097 + YearStart(399) + 337 + DaysIn(2, year) - 719468
  {
    var q := era + 1;
    Div400(q);
    Rem4(100 * q, 0);
    Rem400(q, 0);
    assert year == 400 * q && year == 4 * (100 * q) + 0 && year == 400 * q + 0;
    assert IsLeap(year) && YearStart(399) == 145731;
    assert DaysFromCivil(Date(year, 3, 1)) == q * 146097 - 719468;
  }

  /** Days from the start of a 400-year era to the start of its year yoe
      (years counted from March). */
  function YearStart(yoe: int): int {
    yoe * 365 + yoe / 4 - yoe / 100
  }

  /** A year of the era is 365 days long, one more when the February that
      ends it falls in a leap year. */
  lemma YearLength(yoe: int)
    requires 0 <= yoe < 399
    ensures YearStart(yoe + 1) == YearStart(yoe) + 365 +
      (if (yoe + 1) % 4 == 0 && (yoe + 1) % 100 != 0 then 1 else 0)
  {
  }

  /** Within an era, a year is a leap year as its position in the era says. */
  lemma LeapInEra(era: int, yoe: int)
    requires 0 <= yoe < 399
    ensures IsLeap(era * 400 + yoe + 1) <==> (yoe + 1) % 4 == 0 && (yoe + 1) % 100 != 0
  {
    var year, r := era * 400 + yoe + 1, yoe + 1;
    Rem4(era * 100, r);
    Rem100(era * 4, r);
    Rem400(era, r);
    assert year == 4 * (era * 100) + r && year == 100 * (era * 4) + r && year == 400 * era + r;
  }

  // Whole multiples of the modulus do not change a remainder.
  lemma Rem4(q: int, r: int) ensures (4 * q + r) % 4 == r % 4 { }
  lemma Rem100(q: int, r: int) ensures (100 * q + r) % 100 == r % 100 { }
  lemma Rem400(q: int, r: int) ensures (400 * q + r) % 400 == r % 400 { }
  lemma Div400(q: int) ensures (400 * q) / 400 == q { }
}
