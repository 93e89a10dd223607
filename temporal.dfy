/** Spreadsheet serial dates: excelSerialDateToJSDate and convertToKST of
    app.js. A serial counts days since 1899-12-30 with the time of day as its
    fractional part; the code rebuilds it as a local-time Date and prints that
    instant shifted by nine hours in ISO form. */
module Temporal {

  import opened JsValues
  import opened JsText
  import opened Calendar

  /** Serial number of 1970-01-01. */
  const EpochSerial: int := 25569
  /** Korea Standard Time is UTC+9. */
  const KstOffsetMs: int := 32_400_000

  /** `Math.floor(serial - 25569)`: days from the Unix epoch. */
  function SerialDays(serial: real): int {
    (serial - EpochSerial as real).Floor
  }

  /** The day count is the whole part of the serial minus the epoch serial. */
  lemma SerialDayCount(serial: real)
    ensures SerialDays(serial) == serial.Floor - EpochSerial
  {
  }

  /** `Math.floor(86400 * (serial - Math.floor(serial) + 0.0000001))`: seconds of
      the day, with the epsilon that absorbs a serial stored just below a whole
      second. It can reach 86400 for a fraction within 1e-7 of the next day. */
  function TotalSeconds(serial: real): (total: int)
    ensures 0 <= total <= 86400
  {
    (86400.0 * (serial - serial.Floor as real + 0.0000001)).Floor
  }

  /** Wall-clock fields passed to the Date constructor. */
  datatype Clock = Clock(hours: int, minutes: int, seconds: int)

  /** seconds = total mod 60; the rest is split into whole hours and the minutes
      left over. */
  function SplitSeconds(total: int): (c: Clock)
    requires 0 <= total <= 86400
    ensures c.hours * 3600 + c.minutes * 60 + c.seconds == total
    ensures 0 <= c.seconds < 60 && 0 <= c.minutes < 60 && 0 <= c.hours <= 24
  {
    var seconds := total % 60;
    var rest := total - seconds;
    Clock(rest / 3600, rest / 60 % 60, seconds)
  }

  /** The Date constructor maps two-digit years 0..99 to 1900..1999. */
  function ConstructorYear(y: int): int {
    if 0 <= y <= 99 then 1900 + y else y
  }

  /** getFullYear, getMonth and getDate of `new Date(days * 86400000)` in the
      host's local time, or None when that time value is out of range. */
  function LocalDateOfDay(e: Engine, days: int): (r: Option<Civil>)
    ensures r.Some? <==> -MaxTime <= days * MsPerDay <= MaxTime
    ensures r.Some? ==> ValidCivil(r.value)
  {
    if TimeClip(days * MsPerDay).None? then None
    else Some(CivilFromDays((days * MsPerDay + e.zoneOffsetMs) / MsPerDay))
  }

  /** `new Date(year, month, date, hours, minutes, seconds)` in local time. */
  function LocalToInstant(e: Engine, local: Civil, c: Clock): Option<int>
    requires 0 <= local.month <= 11
  {
    var day := DaysFromCivil(Civil(ConstructorYear(local.year), local.month, local.day));
    TimeClip(day * MsPerDay + c.hours * 3_600_000 + c.minutes * 60_000 + c.seconds * 1000 - e.zoneOffsetMs)
  }

  /** The time value of `excelSerialDateToJSDate(serial)`, or None for an
      Invalid Date. The midnight of the serial's day is read back in the host's
      local time and the clock fields are then interpreted as local time again. */
  function SerialToInstant(e: Engine, serial: real): Option<int> {
    DayToInstant(e, SerialDays(serial), TotalSeconds(serial))
  }

  /** The same on the whole days and the seconds of the day taken from the serial. */
  function DayToInstant(e: Engine, days: int, total: int): Option<int>
    requires 0 <= total <= 86400
  {
    match LocalDateOfDay(e, days)
    case None => None
    case Some(local) => LocalToInstant(e, local, SplitSeconds(total))
  }

  /** The time-of-day statements of excelSerialDateToJSDate: the seconds of
      the day, split into hours, minutes and seconds. */
  method ClockOfSerial(serial: real) returns (c: Clock)
    ensures c.hours * 3600 + c.minutes * 60 + c.seconds == TotalSeconds(serial)
    ensures 0 <= c.seconds < 60 && 0 <= c.minutes < 60 && 0 <= c.hours <= 24
    ensures c == SplitSeconds(TotalSeconds(serial))
  {
    var fractionalDay := serial - serial.Floor as real + 0.0000001;
    var totalSeconds := (86400.0 * fractionalDay).Floor;
    assert totalSeconds == TotalSeconds(serial);
    c := SplitClock(totalSeconds);
  }

  /** The integer statements that split the seconds of the day. */
  method SplitClock(total: int) returns (c: Clock)
    requires 0 <= total <= 86400
    ensures c == SplitSeconds(total)
  {
    var totalSeconds := total;
    var seconds := totalSeconds % 60;
    totalSeconds := totalSeconds - seconds;
    var hours := totalSeconds / 3600;
    var minutes := totalSeconds / 60 % 60;
    c := Clock(hours, minutes, seconds);
  }

  /** excelSerialDateToJSDate, statement by statement. */
  method ExcelSerialDateToJSDate(e: Engine, serial: real) returns (t: Option<int>)
    ensures t == SerialToInstant(e, serial)
  {
    var utcDays := (serial - EpochSerial as real).Floor;
    var utcValue := utcDays * 86400;
    var dateInfo := TimeClip(utcValue * 1000);
    assert utcDays == SerialDays(serial) && utcValue * 1000 == utcDays * MsPerDay;
    var clock := ClockOfSerial(serial);
    if dateInfo.None? {
      return None;
    }
    var local := CivilFromDays((dateInfo.value + e.zoneOffsetMs) / MsPerDay);
    assert LocalDateOfDay(e, SerialDays(serial)) == Some(local);
    var day := DaysFromCivil(Civil(ConstructorYear(local.year), local.month, local.day));
    t := TimeClip(day * MsPerDay + clock.hours * 3_600_000 + clock.minutes * 60_000 + clock.seconds * 1000 - e.zoneOffsetMs);
    assert t == LocalToInstant(e, local, clock);
  }

  /** The `{date, time}` pair returned by convertToKST. */
  datatype KstStamp = KstStamp(date: string, time: string)

  /** convertToKST: the ISO text of the instant nine hours later, cut at
      characters 0..10 and 11..19. None is the RangeError that toISOString
      throws for an Invalid Date. */
  function ConvertToKst(t: Option<int>): (r: Option<KstStamp>)
    ensures r.Some? ==> |r.value.date| == 10 && |r.value.time| == 8
  {
    if t.None? then None
    else
      match TimeClip(t.value + KstOffsetMs)
      case None => None
      case Some(k) => Some(KstOf(IsoString(k)))
  }

  /** Characters 0..10 and 11..19 of an ISO text. */
  function KstOf(iso: string): (r: KstStamp)
    requires |iso| >= 19
    ensures |r.date| == 10 && |r.time| == 8
  {
    KstStamp(iso[..10], iso[11..19])
  }

  /** The conversion applied to a numeric cell. */
  function SerialToKst(e: Engine, serial: real): (r: Option<KstStamp>)
    ensures r.Some? ==> |r.value.date| == 10 && |r.value.time| == 8
  {
    ConvertToKst(SerialToInstant(e, serial))
  }

  /** `YYYY-MM-DD` of a date in years 0..9999. */
  function DateText(c: Civil): string
    requires ValidCivil(c) && 0 <= c.year
  {
    PadNat(c.year, 4) + "-" + PadNat(c.month + 1, 2) + "-" + PadNat(c.day, 2)
  }

  /** `HH:MM:SS` of the clock fields. */
  function ClockText(f: Fields): string
    requires 0 <= f.hour && 0 <= f.minute && 0 <= f.second
  {
    PadNat(f.hour, 2) + ":" + PadNat(f.minute, 2) + ":" + PadNat(f.second, 2)
  }

  /** Inside years 0..9999 convertToKST returns the calendar date and the clock
      time of the instant nine hours later. */
  lemma KstStampText(t: int)
    requires -MaxTime <= t + KstOffsetMs <= MaxTime
    requires 0 <= FieldsOf(t + KstOffsetMs).date.year <= 9999
    ensures ConvertToKst(Some(t)) ==
      Some(KstStamp(DateText(FieldsOf(t + KstOffsetMs).date), ClockText(FieldsOf(t + KstOffsetMs))))
  {
    var k := t + KstOffsetMs;
    var f := FieldsOf(k);
    var iso := IsoString(k);
    ConvertToKstValid(Some(t));
    var date, clock, rest := DateText(f.date), ClockText(f), "." + PadNat(f.ms, 3) + "Z";
    IsoInRange(f);
    assert iso == date + "T" + clock + rest;
    SliceParts(date, clock, rest);
    assert iso[..10] == date && iso[11..19] == clock;
  }

  /** A time value that stays valid nine hours later converts to the cut ISO text. */
  lemma ConvertToKstValid(t: Option<int>)
    requires t.Some? && -MaxTime <= t.value + KstOffsetMs <= MaxTime
    ensures ConvertToKst(t) == Some(KstOf(IsoString(t.value + KstOffsetMs)))
  {
  }

  lemma IsoInRange(f: Fields)
    requires ValidCivil(f.date) && 0 <= f.date.year <= 9999
    requires 0 <= f.hour < 24 && 0 <= f.minute < 60 && 0 <= f.second < 60 && 0 <= f.ms < 1000
    ensures |DateText(f.date)| == 10 && |ClockText(f)| == 8
    ensures IsoText(f) == DateText(f.date) + "T" + ClockText(f) + ("." + PadNat(f.ms, 3) + "Z")
  {
    var y, mo, d := PadNat(f.date.year, 4), PadNat(f.date.month + 1, 2), PadNat(f.date.day, 2);
    var h, mi, s := PadNat(f.hour, 2), PadNat(f.minute, 2), PadNat(f.second, 2);
    var ms := PadNat(f.ms, 3);
    assert YearText(f.date.year) == y;
    assert IsoText(f) == y + "-" + mo + "-" + d + "T" + h + ":" + mi + ":" + s + "." + ms + "Z";
    Regroup(y, mo, d, h, mi, s, ms);
    PadNatExact(f.date.year, 4);
    PadNatExact(f.date.month + 1, 2);
    PadNatExact(f.date.day, 2);
    PadNatExact(f.hour, 2);
    PadNatExact(f.minute, 2);
    PadNatExact(f.second, 2);
  }

  lemma Regroup(y: string, mo: string, d: string, h: string, mi: string, s: string, ms: string)
    ensures y + "-" + mo + "-" + d + "T" + h + ":" + mi + ":" + s + "." + ms + "Z" ==
      (y + "-" + mo + "-" + d) + "T" + (h + ":" + mi + ":" + s) + ("." + ms + "Z")
  {
  }

  lemma SliceParts(a: string, b: string, rest: string)
    requires |a| == 10 && |b| == 8
    ensures (a + "T" + b + rest)[..10] == a
    ensures (a + "T" + b + rest)[11..19] == b
  {
    var s := a + "T" + b + rest;
    assert forall i | 0 <= i < 10 :: s[i] == a[i];
    assert forall i | 0 <= i < 8 :: s[11 + i] == b[i];
  }

  /** Three parts joined by a separator are found again at their offsets. */
  lemma Joined3(a: string, b: string, c: string, sep: char)
    ensures var s := a + [sep] + b + [sep] + c;
      |s| == |a| + |b| + |c| + 2 &&
      s[..|a|] == a && s[|a|] == sep &&
      s[|a| + 1..|a| + 1 + |b|] == b && s[|a| + 1 + |b|] == sep &&
      s[|a| + |b| + 2..] == c
  {
    var s := a + [sep] + b + [sep] + c;
    assert s == a + ([sep] + b + [sep] + c);
    assert s[|a| + 1..] == b + [sep] + c;
    assert s[|a| + 1 + |b| + 1..] == c;
  }

  /** The date text reads back as the year, the 1-based month and the day. */
  lemma DateTextReadsBack(c: Civil)
    requires ValidCivil(c) && 0 <= c.year <= 9999
    ensures var s := DateText(c);
      |s| == 10 && s[4] == '-' && s[7] == '-' &&
      s[..4] == PadNat(c.year, 4) && DigitsValue(s[..4]) == c.year &&
      s[5..7] == PadNat(c.month + 1, 2) && DigitsValue(s[5..7]) == c.month + 1 &&
      s[8..] == PadNat(c.day, 2) && DigitsValue(s[8..]) == c.day
  {
    var year, month, day := PadNat(c.year, 4), PadNat(c.month + 1, 2), PadNat(c.day, 2);
    PadNatExact(c.year, 4);
    PadNatExact(c.month + 1, 2);
    PadNatExact(c.day, 2);
    PadNatRoundTrip(c.year, 4);
    PadNatRoundTrip(c.month + 1, 2);
    PadNatRoundTrip(c.day, 2);
    assert DateText(c) == year + ['-'] + month + ['-'] + day;
    Joined3(year, month, day, '-');
  }

  /** The clock text reads back as hours, minutes and seconds. */
  lemma ClockTextReadsBack(f: Fields)
    requires 0 <= f.hour < 24 && 0 <= f.minute < 60 && 0 <= f.second < 60
    ensures var s := ClockText(f);
      |s| == 8 && s[2] == ':' && s[5] == ':' &&
      s[..2] == PadNat(f.hour, 2) && DigitsValue(s[..2]) == f.hour &&
      s[3..5] == PadNat(f.minute, 2) && DigitsValue(s[3..5]) == f.minute &&
      s[6..] == PadNat(f.second, 2) && DigitsValue(s[6..]) == f.second
  {
    PadNatExact(f.hour, 2);
    PadNatExact(f.minute, 2);
    PadNatExact(f.second, 2);
    PadNatRoundTrip(f.hour, 2);
    PadNatRoundTrip(f.minute, 2);
    PadNatRoundTrip(f.second, 2);
    Joined3(PadNat(f.hour, 2), PadNat(f.minute, 2), PadNat(f.second, 2), ':');
  }

  // ------------------------------------------- what a serial decodes to

  /** The local midnight of day d read back in a zone at offset off, for an
      offset of less than a day, falls on day d east of UTC and on day d - 1
      west of it. */
  lemma LocalDayOf(d: int, off: int)
    requires -MsPerDay <= off < MsPerDay
    ensures (d * MsPerDay + off) / MsPerDay == if off >= 0 then d else d - 1
  {
  }

  /** The Date constructor rebuilds the day number of a date outside years 0..99. */
  lemma RebuiltDay(c: Civil)
    requires ValidCivil(c) && !(0 <= c.year <= 99)
    ensures DaysFromCivil(Civil(ConstructorYear(c.year), c.month, c.day)) == DaysFromCivil(c)
  {
  }

  /** The local date of day d's midnight is day p: day d itself east of UTC,
      the day before west of it. */
  lemma LocalDateShifted(e: Engine, d: int, p: int)
    requires -MsPerDay <= e.zoneOffsetMs < MsPerDay
    requires p == if e.zoneOffsetMs >= 0 then d else d - 1
    requires -MaxTime <= d * MsPerDay <= MaxTime
    ensures LocalDateOfDay(e, d) == Some(CivilFromDays(p))
  {
    LocalDayOf(d, e.zoneOffsetMs);
  }

  /** The Date constructor on the fields of day n and a clock of `total`
      seconds, read as local time. */
  lemma RebuiltInstant(e: Engine, n: int, c: Clock, total: int)
    requires c.hours * 3600 + c.minutes * 60 + c.seconds == total
    requires !(0 <= CivilFromDays(n).year <= 99)
    ensures LocalToInstant(e, CivilFromDays(n), c) == TimeClip(n * MsPerDay + total * 1000 - e.zoneOffsetMs)
  {
    var local := CivilFromDays(n);
    RebuiltDay(local);
    assert c.hours * 3_600_000 + c.minutes * 60_000 + c.seconds * 1000 == total * 1000;
  }

  /** Whole days d and `total` seconds of the day decode to midnight UTC of
      day p plus the clock, minus the host offset, where p is the local date
      of day d's midnight: d itself at or east of UTC, and d - 1 west of it,
      so that a host west of UTC reads every serial one day early. Years
      0..99 are excluded because the Date constructor moves them to
      1900..1999. */
  lemma DayInstant(e: Engine, d: int, p: int, total: int)
    requires -MsPerDay <= e.zoneOffsetMs < MsPerDay && 0 <= total <= 86400
    requires p == if e.zoneOffsetMs >= 0 then d else d - 1
    requires !(0 <= CivilFromDays(p).year <= 99)
    ensures DayToInstant(e, d, total) ==
      if TimeClip(d * MsPerDay).None? then None
      else TimeClip(p * MsPerDay + total * 1000 - e.zoneOffsetMs)
  {
    if TimeClip(d * MsPerDay).None? {
      assert LocalDateOfDay(e, d).None?;
    } else {
      LocalDateShifted(e, d, p);
      assert DayToInstant(e, d, total) == LocalToInstant(e, CivilFromDays(p), SplitSeconds(total));
      RebuiltInstant(e, p, SplitSeconds(total), total);
    }
  }

  /** On a host at or east of UTC (offset below one day) a serial decodes to
      its own day and its own seconds of the day, read as local time. */
  lemma SerialInstant(e: Engine, serial: real)
    requires 0 <= e.zoneOffsetMs < MsPerDay
    requires !(0 <= CivilFromDays(SerialDays(serial)).year <= 99)
    ensures var d := SerialDays(serial);
      SerialToInstant(e, serial) ==
        if TimeClip(d * MsPerDay).None? then None
        else TimeClip(d * MsPerDay + TotalSeconds(serial) * 1000 - e.zoneOffsetMs)
  {
    var d := SerialDays(serial);
    DayInstant(e, d, d, TotalSeconds(serial));
  }

  /** The printed fields of a day plus a clock within that day. */
  lemma FieldsOfDayClock(d: int, c: Clock)
    requires 0 <= c.hours < 24 && 0 <= c.minutes < 60 && 0 <= c.seconds < 60
    ensures FieldsOf(d * MsPerDay + c.hours * 3_600_000 + c.minutes * 60_000 + c.seconds * 1000) ==
      Fields(CivilFromDays(d), c.hours, c.minutes, c.seconds, 0)
  {
    var t := d * MsPerDay + c.hours * 3_600_000 + c.minutes * 60_000 + c.seconds * 1000;
    ClockDivisions(d, c);
    var day := t / MsPerDay;
    assert FieldsOf(t).date == CivilFromDays(day);
  }

  /** The divisions FieldsOf performs on a day plus a clock give back the
      day and the clock fields. */
  lemma ClockDivisions(d: int, c: Clock)
    requires 0 <= c.hours < 24 && 0 <= c.minutes < 60 && 0 <= c.seconds < 60
    ensures var inDay := c.hours * 3_600_000 + c.minutes * 60_000 + c.seconds * 1000;
      var t := d * MsPerDay + inDay;
      var inHour := c.minutes * 60_000 + c.seconds * 1000;
      t / MsPerDay == d && t % MsPerDay == inDay &&
      inDay / 3_600_000 == c.hours && inDay % 3_600_000 == inHour &&
      inHour / 60_000 == c.minutes && inHour % 60_000 == c.seconds * 1000
  {
  }

  /** Days of years 100..9999 lie far inside the range of time values. */
  lemma FourDigitYearDays(n: int)
    requires 100 <= CivilFromDays(n).year <= 9999
    ensures -700_000 <= n <= 3_000_000
  {
    var date := CivilFromDays(n);
    CivilInYear(date);
    if 100 < date.year { DayFromYearMonotone(100, date.year); }
    if date.year + 1 < 10000 { DayFromYearMonotone(date.year + 1, 10000); }
    assert DayFromYear(100) == -683_003 && DayFromYear(10000) == 2_932_897;
  }

  /** The KST stamp of midnight UTC of day n plus a clock, as a host in
      Korea Standard Time builds it. */
  lemma DayKstText(n: int, c: Clock, total: int)
    requires 100 <= CivilFromDays(n).year <= 9999
    requires 0 <= c.hours < 24 && 0 <= c.minutes < 60 && 0 <= c.seconds < 60
    requires c.hours * 3600 + c.minutes * 60 + c.seconds == total
    ensures var date := CivilFromDays(n);
      ConvertToKst(Some(n * MsPerDay + total * 1000 - KstOffsetMs)) ==
        Some(KstStamp(DateText(date), ClockText(Fields(date, c.hours, c.minutes, c.seconds, 0))))
  {
    FourDigitYearDays(n);
    var t := n * MsPerDay + total * 1000 - KstOffsetMs;
    var local := n * MsPerDay + c.hours * 3_600_000 + c.minutes * 60_000 + c.seconds * 1000;
    FieldsOfDayClock(n, c);
    KstOfLocal(t, local, Fields(CivilFromDays(n), c.hours, c.minutes, c.seconds, 0));
  }

  /** The KST stamp of t, given the fields of the instant nine hours later. */
  lemma KstOfLocal(t: int, local: int, f: Fields)
    requires t + KstOffsetMs == local && -MaxTime <= local <= MaxTime
    requires FieldsOf(local) == f && 0 <= f.date.year <= 9999
    ensures ConvertToKst(Some(t)) == Some(KstStamp(DateText(f.date), ClockText(f)))
  {
    KstStampText(t);
  }

  /** On a host in Korea Standard Time, day d and a clock of `total` seconds
      below 24:00:00 convert to the date of day d and that clock. */
  lemma DayKst(e: Engine, d: int, total: int)
    requires e.zoneOffsetMs == KstOffsetMs && 0 <= total < 86400
    requires 100 <= CivilFromDays(d).year <= 9999
    ensures var date := CivilFromDays(d);
      var c := SplitSeconds(total);
      ConvertToKst(DayToInstant(e, d, total)) ==
        Some(KstStamp(DateText(date), ClockText(Fields(date, c.hours, c.minutes, c.seconds, 0))))
  {
    var c := SplitSeconds(total);
    DayKstInstant(e, d, total);
    assert c.hours < 24;
    DayKstText(d, c, total);
  }

  /** On a host in Korea Standard Time, day d of years 100..9999 at `total`
      seconds is the instant nine hours before that day and clock in UTC. */
  lemma DayKstInstant(e: Engine, d: int, total: int)
    requires e.zoneOffsetMs == KstOffsetMs && 0 <= total < 86400
    requires 100 <= CivilFromDays(d).year <= 9999
    ensures DayToInstant(e, d, total) == Some(d * MsPerDay + total * 1000 - KstOffsetMs)
  {
    FourDigitYearDays(d);
    var t := d * MsPerDay + total * 1000 - e.zoneOffsetMs;
    assert TimeClip(d * MsPerDay).Some? && TimeClip(t) == Some(t);
    DayInstant(e, d, d, total);
  }

  /** On a host in Korea Standard Time a numeric date/time cell converts to the
      serial's own calendar date and clock: the date and time texts name the
      day and the hours, minutes and seconds the serial encodes (for a clock
      below 24:00:00 and years 100..9999). */
  lemma SerialToKstText(e: Engine, serial: real)
    requires e.zoneOffsetMs == KstOffsetMs
    requires TotalSeconds(serial) < 86400
    requires 100 <= CivilFromDays(SerialDays(serial)).year <= 9999
    ensures var date := CivilFromDays(SerialDays(serial));
      var c := SplitSeconds(TotalSeconds(serial));
      SerialToKst(e, serial) ==
        Some(KstStamp(DateText(date), ClockText(Fields(date, c.hours, c.minutes, c.seconds, 0))))
  {
    DayKst(e, SerialDays(serial), TotalSeconds(serial));
  }
}
