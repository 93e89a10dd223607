/** Day and year arithmetic of ECMA-262 (section 21.4.1 of ECMA-262: Day, DayFromYear,
    YearFromTime, MonthFromTime, DateFromTime, MakeDay) and the
    Date.prototype.toISOString format, over integer time values in milliseconds. */
module Calendar {

  import opened JsText

  const MsPerDay: int := 86_400_000

  /** Day number of the first day of year y (day 0 is 1970-01-01). */
  function DayFromYear(y: int): int {
    365 * (y - 1970) + (y - 1969) / 4 - (y - 1901) / 100 + (y - 1601) / 400
  }

  predicate IsLeap(y: int) {
    y % 4 == 0 && (y % 100 != 0 || y % 400 == 0)
  }

  function DaysInYear(y: int): int {
    if IsLeap(y) then 366 else 365
  }

  /** The closed form of DayFromYear counts the days of each year, leap years included. */
  lemma DayFromYearStep(y: int)
    ensures DayFromYear(y + 1) == DayFromYear(y) + DaysInYear(y)
  {
    Step4(y);
    Step100(y);
    Step400(y);
    Divides(y);
    var d := DayFromYear(y + 1) - DayFromYear(y);
    assert d == 365 + ((y - 1968) / 4 - (y - 1969) / 4) - ((y - 1900) / 100 - (y - 1901) / 100)
                    + ((y - 1600) / 400 - (y - 1601) / 400);
  }

  /** A multiple of 400 is a multiple of 100, and a multiple of 100 one of 4. */
  lemma Divides(y: int)
    ensures y % 400 == 0 ==> y % 100 == 0
    ensures y % 100 == 0 ==> y % 4 == 0
  {
    if y % 400 == 0 {
      assert y == 400 * (y / 400);
      assert y == 100 * (4 * (y / 400));
    }
    if y % 100 == 0 {
      assert y == 100 * (y / 100);
      assert y == 4 * (25 * (y / 100));
    }
  }

  lemma Step4(y: int)
    ensures (y - 1968) / 4 - (y - 1969) / 4 == if y % 4 == 0 then 1 else 0
  {
  }

  lemma Step100(y: int)
    ensures (y - 1900) / 100 - (y - 1901) / 100 == if y % 100 == 0 then 1 else 0
  {
  }

  lemma Step400(y: int)
    ensures (y - 1600) / 400 - (y - 1601) / 400 == if y % 400 == 0 then 1 else 0
  {
  }

  lemma {:induction false} DayFromYearMonotone(a: int, b: int)
    requires a < b
    ensures DayFromYear(a) + 365 <= DayFromYear(b)
    decreases b - a
  {
    DayFromYearStep(a);
    if a + 1 < b {
      DayFromYearMonotone(a + 1, b);
    }
  }

  function YearUp(d: int, y: int): (r: int)
    requires DayFromYear(y) <= d
    ensures DayFromYear(r) <= d < DayFromYear(r + 1)
    decreases d - DayFromYear(y)
  {
    DayFromYearStep(y);
    if d < DayFromYear(y + 1) then y else YearUp(d, y + 1)
  }

  function YearDown(d: int, y: int): (r: int)
    requires d < DayFromYear(y + 1)
    ensures DayFromYear(r) <= d < DayFromYear(r + 1)
    decreases DayFromYear(y + 1) - d
  {
    DayFromYearStep(y);
    if DayFromYear(y) <= d then y else YearDown(d, y - 1)
  }

  /** The year holding day d. */
  function YearFromDay(d: int): (r: int)
    ensures DayFromYear(r) <= d < DayFromYear(r + 1)
  {
    if d >= 0 then YearUp(d, 1970) else YearDown(d, 1969)
  }

  /** Only one year can hold a given day. */
  lemma YearUnique(d: int, y1: int, y2: int)
    requires DayFromYear(y1) <= d < DayFromYear(y1 + 1)
    requires DayFromYear(y2) <= d < DayFromYear(y2 + 1)
    ensures y1 == y2
  {
    if y1 < y2 {
      DayFromYearMonotone(y1, y2);
      if y1 + 1 < y2 { DayFromYearMonotone(y1 + 1, y2); }
    } else if y2 < y1 {
      DayFromYearMonotone(y2, y1);
      if y2 + 1 < y1 { DayFromYearMonotone(y2 + 1, y1); }
    }
  }

  /** Days of the year before month m (0-based, 0..12). */
  function MonthStart(m: int, leap: bool): int
    requires 0 <= m <= 12
  {
    var base := [0, 31, 59, 90, 120, 151, 181, 212, 243, 273, 304, 334, 365][m];
    if leap && m >= 2 then base + 1 else base
  }

  function DaysInMonth(m: int, leap: bool): int
    requires 0 <= m <= 11
  {
    MonthStart(m + 1, leap) - MonthStart(m, leap)
  }

  lemma MonthStartIncreasing(a: int, b: int, leap: bool)
    requires 0 <= a < b <= 12
    ensures MonthStart(a, leap) + 28 <= MonthStart(b, leap)
  {
  }

  function MonthSearch(dy: int, leap: bool, m: int): (r: int)
    requires 0 <= m <= 11
    requires 0 <= dy < MonthStart(m + 1, leap)
    ensures 0 <= r <= m
    ensures MonthStart(r, leap) <= dy < MonthStart(r + 1, leap)
  {
    if MonthStart(m, leap) <= dy then m else MonthSearch(dy, leap, m - 1)
  }

  /** A calendar date as Date's local or UTC getters report it: getMonth is
      0-based and getDate 1-based. */
  datatype Civil = Civil(year: int, month: int, day: int)

  predicate ValidCivil(c: Civil) {
    0 <= c.month <= 11 && 1 <= c.day <= DaysInMonth(c.month, IsLeap(c.year))
  }

  /** MakeDay(year, month, date) for a month in 0..11. */
  function DaysFromCivil(c: Civil): int
    requires 0 <= c.month <= 11
  {
    DayFromYear(c.year) + MonthStart(c.month, IsLeap(c.year)) + c.day - 1
  }

  /** YearFromTime, MonthFromTime and DateFromTime of day n. */
  function CivilFromDays(n: int): (c: Civil)
    ensures ValidCivil(c)
    ensures DaysFromCivil(c) == n
  {
    var y := YearFromDay(n);
    DayFromYearStep(y);
    var leap := IsLeap(y);
    var dy := n - DayFromYear(y);
    var m := MonthSearch(dy, leap, 11);
    Civil(y, m, dy - MonthStart(m, leap) + 1)
  }

  lemma MonthUnique(dy: int, leap: bool, m1: int, m2: int)
    requires 0 <= m1 <= 11 && 0 <= m2 <= 11
    requires MonthStart(m1, leap) <= dy < MonthStart(m1 + 1, leap)
    requires MonthStart(m2, leap) <= dy < MonthStart(m2 + 1, leap)
    ensures m1 == m2
  {
    if m1 < m2 {
      if m1 + 1 < m2 { MonthStartIncreasing(m1 + 1, m2, leap); }
    } else if m2 < m1 {
      if m2 + 1 < m1 { MonthStartIncreasing(m2 + 1, m1, leap); }
    }
  }

  /** Every valid calendar date is recovered from its day number. */
  lemma CivilRoundTrip(c: Civil)
    requires ValidCivil(c)
    ensures CivilFromDays(DaysFromCivil(c)) == c
  {
    CivilInYear(c);
    CivilFromDaysParts(DaysFromCivil(c), c.year, c.month);
  }

  /** CivilFromDays finds the year and month that hold day n. */
  lemma CivilFromDaysParts(n: int, y: int, m: int)
    requires DayFromYear(y) <= n < DayFromYear(y + 1)
    requires 0 <= m <= 11
    requires MonthStart(m, IsLeap(y)) <= n - DayFromYear(y) < MonthStart(m + 1, IsLeap(y))
    ensures CivilFromDays(n) == Civil(y, m, n - DayFromYear(y) - MonthStart(m, IsLeap(y)) + 1)
  {
    YearUnique(n, YearFromDay(n), y);
    DayFromYearStep(y);
    var dy := n - DayFromYear(y);
    MonthUnique(dy, IsLeap(y), MonthSearch(dy, IsLeap(y), 11), m);
  }

  /** A valid date's day number lies inside its own year. */
  lemma CivilInYear(c: Civil)
    requires ValidCivil(c)
    ensures DayFromYear(c.year) <= DaysFromCivil(c) < DayFromYear(c.year + 1)
  {
    var leap := IsLeap(c.year);
    assert MonthStart(c.month + 1, leap) <= DaysInYear(c.year) by {
      assert MonthStart(12, leap) == DaysInYear(c.year);
      if c.month < 11 { MonthStartIncreasing(c.month + 1, 12, leap); }
    }
    DayFromYearStep(c.year);
  }

  /** The fields of a time value that toISOString prints. */
  datatype Fields = Fields(date: Civil, hour: int, minute: int, second: int, ms: int)

  /** Day, HourFromTime, MinFromTime, SecFromTime and msFromTime of t. */
  function FieldsOf(t: int): (f: Fields)
    ensures ValidCivil(f.date)
    ensures 0 <= f.hour < 24 && 0 <= f.minute < 60 && 0 <= f.second < 60 && 0 <= f.ms < 1000
    ensures DaysFromCivil(f.date) * MsPerDay + f.hour * 3_600_000 + f.minute * 60_000 + f.second * 1000 + f.ms == t
  {
    var day := t / MsPerDay;
    var inDay := t % MsPerDay;
    var inHour := inDay % 3_600_000;
    var inMinute := inHour % 60_000;
    Fields(CivilFromDays(day), inDay / 3_600_000, inHour / 60_000, inMinute / 1000, inMinute % 1000)
  }

  /** The year as toISOString writes it: four digits inside 0..9999, otherwise a
      sign and six digits. */
  function YearText(y: int): (r: string)
    ensures |r| >= 4
  {
    if 0 <= y <= 9999 then PadNat(y, 4)
    else (if y < 0 then "-" else "+") + PadNat(if y < 0 then -y else y, 6)
  }

  /** The text toISOString prints for the given fields. */
  function IsoText(f: Fields): (r: string)
    requires 0 <= f.date.month && 0 <= f.date.day && 0 <= f.hour && 0 <= f.minute && 0 <= f.second && 0 <= f.ms
    ensures |r| >= 24
  {
    YearText(f.date.year) + "-" + PadNat(f.date.month + 1, 2) + "-" + PadNat(f.date.day, 2) + "T" +
    PadNat(f.hour, 2) + ":" + PadNat(f.minute, 2) + ":" + PadNat(f.second, 2) + "." +
    PadNat(f.ms, 3) + "Z"
  }

  /** Date.prototype.toISOString of a valid time value. */
  function IsoString(t: int): (r: string)
    ensures |r| >= 24
  {
    IsoText(FieldsOf(t))
  }

  function Pow10(k: nat): nat {
    if k == 0 then 1 else 10 * Pow10(k - 1)
  }

  /** A number below 10^k prints with at most k digits. */
  lemma {:induction false} NatToStringShort(n: nat, k: nat)
    requires 1 <= k && n < Pow10(k)
    ensures |NatToString(n)| <= k
  {
    if n >= 10 {
      NatToStringShort(n / 10, k - 1);
    }
  }

  lemma PadNatExact(n: nat, k: nat)
    requires 1 <= k && n < Pow10(k)
    ensures |PadNat(n, k)| == k
  {
    NatToStringShort(n, k);
  }
}
