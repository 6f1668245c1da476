/** UTC calendar arithmetic behind `datetime.utcfromtimestamp(...).strftime(...)` and
    `datetime.replace(tzinfo=timezone.utc).timestamp()`: proleptic Gregorian dates,
    whole seconds since 1970-01-01 00:00:00, and the `%Y-%m-%d_%H-%M-%S` rendering. */
module CivilTime {
  import opened Strings

  const SecondsPerDay := 86400

  /** A naive date and time of day, read as UTC. */
  datatype DateTime = DateTime(year: int, month: int, day: int, hour: int, minute: int, second: int)

  predicate IsLeapYear(y: int) {
    y % 4 == 0 && (y % 100 != 0 || y % 400 == 0)
  }

  function DaysInYear(y: int): int {
    if IsLeapYear(y) then 366 else 365
  }

  function DaysInMonth(y: int, m: int): int
    requires 1 <= m <= 12
  {
    if m == 2 then (if IsLeapYear(y) then 29 else 28)
    else if m == 4 || m == 6 || m == 9 || m == 11 then 30
    else 31
  }

  /** The range `datetime` accepts: years 1 to 9999, real calendar days, and a
      time of day without leap seconds. */
  predicate ValidDateTime(dt: DateTime) {
    && 1 <= dt.year <= 9999
    && 1 <= dt.month <= 12
    && 1 <= dt.day <= DaysInMonth(dt.year, dt.month)
    && 0 <= dt.hour < 24
    && 0 <= dt.minute < 60
    && 0 <= dt.second < 60
  }

  /** Days from 0001-01-01 to January 1 of year `y` (days-from-civil). */
  function DaysBeforeYear(y: int): int
    requires y >= 1
  {
    var k := y - 1;
    365 * k + k / 4 - k / 100 + k / 400
  }

  /** Days from January 1 to the first of month `m` in year `y`. */
  function DaysBeforeMonth(y: int, m: int): int
    requires 1 <= m <= 12
  {
    var before := [0, 31, 59, 90, 120, 151, 181, 212, 243, 273, 304, 334];
    before[m - 1] + (if m > 2 && IsLeapYear(y) then 1 else 0)
  }

  /** Days from 1970-01-01 to the given date; negative before 1970. */
  function EpochDays(y: int, m: int, d: int): int
    requires y >= 1 && 1 <= m <= 12
  {
    DaysBeforeYear(y) - DaysBeforeYear(1970) + DaysBeforeMonth(y, m) + d - 1
  }

  /** `dt.replace(tzinfo=timezone.utc).timestamp()` for whole seconds. */
  function ToEpoch(dt: DateTime): int
    requires ValidDateTime(dt)
  {
    EpochDays(dt.year, dt.month, dt.day) * SecondsPerDay + dt.hour * 3600 + dt.minute * 60 + dt.second
  }

  /** 10000-01-01 00:00:00 UTC: `utcfromtimestamp` refuses this and anything later. */
  const MaxSeconds := 253402300800

  lemma DaysBeforeYearStep(y: int)
    requires y >= 1
    ensures DaysBeforeYear(y + 1) == DaysBeforeYear(y) + DaysInYear(y)
  {
    var k := y - 1;
    assert (k + 1) / 4 == k / 4 + (if y % 4 == 0 then 1 else 0);
    assert (k + 1) / 100 == k / 100 + (if y % 100 == 0 then 1 else 0);
    assert (k + 1) / 400 == k / 400 + (if y % 400 == 0 then 1 else 0);
  }

  lemma {:induction false} DaysBeforeYearMonotone(a: int, b: int)
    requires 1 <= a <= b
    ensures DaysBeforeYear(a) + 365 * (b - a) <= DaysBeforeYear(b)
    decreases b - a
  {
    if a < b {
      DaysBeforeYearMonotone(a, b - 1);
      DaysBeforeYearStep(b - 1);
    }
  }

  lemma DaysBeforeMonthStep(y: int, m: int)
    requires 1 <= m <= 12
    ensures m < 12 ==> DaysBeforeMonth(y, m + 1) == DaysBeforeMonth(y, m) + DaysInMonth(y, m)
    ensures m == 12 ==> DaysBeforeMonth(y, m) + DaysInMonth(y, m) == DaysInYear(y)
  {
  }

  /** Walks forward from January 1 of year `y` through whole years:
      the year that holds day `days`, and the day's offset in it. */
  function YearOf(days: int, y: int): (r: (int, int))
    requires days >= 0 && y >= 1
    ensures r.0 >= y && 0 <= r.1 < DaysInYear(r.0)
    ensures DaysBeforeYear(r.0) - DaysBeforeYear(y) + r.1 == days
    decreases days
  {
    if days < DaysInYear(y) then (y, days)
    else
      DaysBeforeYearStep(y);
      YearOf(days - DaysInYear(y), y + 1)
  }

  /** Walks forward from the first of month `m` through whole months of year `y`. */
  function MonthOf(y: int, doy: int, m: int): (r: (int, int))
    requires 1 <= m <= 12 && 0 <= doy < DaysInYear(y) - DaysBeforeMonth(y, m)
    ensures m <= r.0 <= 12 && 0 <= r.1 < DaysInMonth(y, r.0)
    ensures DaysBeforeMonth(y, r.0) - DaysBeforeMonth(y, m) + r.1 == doy
    decreases 12 - m
  {
    DaysBeforeMonthStep(y, m);
    if m == 12 || doy < DaysInMonth(y, m) then (m, doy)
    else MonthOf(y, doy - DaysInMonth(y, m), m + 1)
  }

  /** `datetime.utcfromtimestamp(secs)` for whole, non-negative seconds: the UTC
      calendar date and time `secs` seconds after 1970-01-01 00:00:00. It is a
      valid date from 1970 on, and converting it back gives `secs`. */
  function FromEpoch(secs: int): (dt: DateTime)
    requires 0 <= secs < MaxSeconds
    ensures ValidDateTime(dt) && dt.year >= 1970
    ensures ToEpoch(dt) == secs
  {
    var days, rem := secs / SecondsPerDay, secs % SecondsPerDay;
    var (y, doy) := YearOf(days, 1970);
    assert y <= 9999 by {
      if y >= 10000 {
        DaysBeforeYearMonotone(10000, y);
      }
    }
    DaysBeforeMonthStep(y, 12);
    var (m, dom) := MonthOf(y, doy, 1);
    DateTime(y, m, dom + 1, rem / 3600, rem % 3600 / 60, rem % 60)
  }

  /** From a year on, day counts are the sum of the year lengths since then. */
  lemma {:induction false} YearOfDate(y0: int, y: int, doy: int)
    requires 1 <= y0 <= y && 0 <= doy < DaysInYear(y)
    ensures DaysBeforeYear(y) - DaysBeforeYear(y0) + doy >= 0
    ensures YearOf(DaysBeforeYear(y) - DaysBeforeYear(y0) + doy, y0) == (y, doy)
    decreases y - y0
  {
    DaysBeforeYearStep(y0);
    if y0 < y {
      DaysBeforeYearMonotone(y0 + 1, y);
      YearOfDate(y0 + 1, y, doy);
    }
  }

  lemma {:induction false} MonthOfDate(y: int, m0: int, m: int, dom: int)
    requires 1 <= m0 <= m <= 12 && 0 <= dom < DaysInMonth(y, m)
    ensures 0 <= DaysBeforeMonth(y, m) - DaysBeforeMonth(y, m0) + dom < DaysInYear(y) - DaysBeforeMonth(y, m0)
    ensures MonthOf(y, DaysBeforeMonth(y, m) - DaysBeforeMonth(y, m0) + dom, m0) == (m, dom)
    decreases m - m0
  {
    DaysBeforeMonthStep(y, m0);
    DaysBeforeMonthStep(y, m);
    if m0 < m {
      MonthOfDate(y, m0 + 1, m, dom);
    }
  }

  /** The whole seconds of a valid date from 1970 on lie in `[0, MaxSeconds)`. */
  lemma ToEpochRange(dt: DateTime)
    requires ValidDateTime(dt)
    ensures ToEpoch(dt) >= 0 <==> dt.year >= 1970
    ensures ToEpoch(dt) < MaxSeconds
  {
    DaysBeforeMonthStep(dt.year, dt.month);
    DaysBeforeMonthStep(dt.year, 12);
    DaysBeforeYearStep(dt.year);
    DaysBeforeYearMonotone(dt.year + 1, 10000);
    if dt.year >= 1970 {
      DaysBeforeYearMonotone(1970, dt.year);
    } else {
      DaysBeforeYearMonotone(dt.year + 1, 1970);
    }
  }

  /** `utcfromtimestamp(timestamp(dt)) == dt` for every valid date from 1970 on. */
  lemma EpochRoundTrip(dt: DateTime)
    requires ValidDateTime(dt) && dt.year >= 1970
    ensures 0 <= ToEpoch(dt) < MaxSeconds
    ensures FromEpoch(ToEpoch(dt)) == dt
  {
    ToEpochRange(dt);
    var secs := ToEpoch(dt);
    var days := EpochDays(dt.year, dt.month, dt.day);
    var tod := dt.hour * 3600 + dt.minute * 60 + dt.second;
    TimeOfDay(dt.hour, dt.minute, dt.second);
    assert secs == days * SecondsPerDay + tod;
    var doy := DaysBeforeMonth(dt.year, dt.month) + dt.day - 1;
    MonthOfDate(dt.year, 1, dt.month, dt.day - 1);
    YearOfDate(1970, dt.year, doy);
    assert days == DaysBeforeYear(dt.year) - DaysBeforeYear(1970) + doy;
    FromEpochOfParts(secs, days, tod, dt.year, doy, dt.month, dt.day - 1);
  }

  /** `FromEpoch` read off the year, month and time of day it walks to. */
  lemma FromEpochOfParts(secs: int, days: int, tod: int, y: int, doy: int, m: int, dom: int)
    requires 0 <= secs < MaxSeconds && days >= 0 && 0 <= tod < SecondsPerDay
    requires secs == days * SecondsPerDay + tod
    requires YearOf(days, 1970) == (y, doy)
    requires MonthOf(y, doy, 1) == (m, dom)
    ensures FromEpoch(secs) == DateTime(y, m, dom + 1, tod / 3600, tod % 3600 / 60, tod % 60)
  {
    SplitDay(days, tod);
  }

  lemma SplitDay(days: int, tod: int)
    requires days >= 0 && 0 <= tod < SecondsPerDay
    ensures (days * SecondsPerDay + tod) / SecondsPerDay == days
    ensures (days * SecondsPerDay + tod) % SecondsPerDay == tod
  {
  }

  lemma TimeOfDay(h: int, m: int, s: int)
    requires 0 <= h < 24 && 0 <= m < 60 && 0 <= s < 60
    ensures var tod := h * 3600 + m * 60 + s;
      0 <= tod < SecondsPerDay && tod / 3600 == h && tod % 3600 / 60 == m && tod % 60 == s
  {
  }

  /** Different seconds give different dates. */
  lemma FromEpochInjective(a: int, b: int)
    requires 0 <= a < MaxSeconds && 0 <= b < MaxSeconds
    requires FromEpoch(a) == FromEpoch(b)
    ensures a == b
  {
  }

  /** The digits of a date and time with the given separators:
      `%Y-%m-%d<dateTimeSep>%H<timeSep>%M<timeSep>%S`. */
  function Render(dt: DateTime, dateTimeSep: char, timeSep: char): string
    requires ValidDateTime(dt)
  {
    Pad4(dt.year) + "-" + Pad2(dt.month) + "-" + Pad2(dt.day) + [dateTimeSep]
      + Pad2(dt.hour) + [timeSep] + Pad2(dt.minute) + [timeSep] + Pad2(dt.second)
  }

  /** A string laid out as `YYYY-MM-DD?HH?MM?SS` with the given separators. */
  predicate HasStampLayout(s: string, dateTimeSep: char, timeSep: char) {
    && |s| == 19
    && AllDigits(s[0..4]) && s[4] == '-' && AllDigits(s[5..7]) && s[7] == '-' && AllDigits(s[8..10])
    && s[10] == dateTimeSep
    && AllDigits(s[11..13]) && s[13] == timeSep && AllDigits(s[14..16]) && s[16] == timeSep
    && AllDigits(s[17..19])
  }

  /** The fields of a rendered stamp, read back as numbers, are the date's fields. */
  lemma RenderFields(dt: DateTime, dateTimeSep: char, timeSep: char)
    requires ValidDateTime(dt)
    ensures var s := Render(dt, dateTimeSep, timeSep);
      && HasStampLayout(s, dateTimeSep, timeSep)
      && s[0..4] == Pad4(dt.year) && s[5..7] == Pad2(dt.month) && s[8..10] == Pad2(dt.day)
      && s[11..13] == Pad2(dt.hour) && s[14..16] == Pad2(dt.minute) && s[17..19] == Pad2(dt.second)
  {
    var s := Render(dt, dateTimeSep, timeSep);
    var y, mo, d, h, mi, se := Pad4(dt.year), Pad2(dt.month), Pad2(dt.day), Pad2(dt.hour), Pad2(dt.minute), Pad2(dt.second);
    assert s[0..4] == y by {
      assert s[0] == y[0] && s[1] == y[1] && s[2] == y[2] && s[3] == y[3];
    }
    assert s[5..7] == mo by {
      assert s[5] == mo[0] && s[6] == mo[1];
    }
    assert s[8..10] == d by {
      assert s[8] == d[0] && s[9] == d[1];
    }
    assert s[11..13] == h by {
      assert s[11] == h[0] && s[12] == h[1];
    }
    assert s[14..16] == mi by {
      assert s[14] == mi[0] && s[15] == mi[1];
    }
    assert s[17..19] == se by {
      assert s[17] == se[0] && s[18] == se[1];
    }
  }

  /** Two valid dates render alike only when they are equal. */
  lemma RenderInjective(a: DateTime, b: DateTime, dateTimeSep: char, timeSep: char)
    requires ValidDateTime(a) && ValidDateTime(b)
    requires Render(a, dateTimeSep, timeSep) == Render(b, dateTimeSep, timeSep)
    ensures a == b
  {
    RenderFields(a, dateTimeSep, timeSep);
    RenderFields(b, dateTimeSep, timeSep);
  }

  /** The folder and file stamp of whole seconds: the UTC date and time, with `_`
      between date and time and `-` between the time fields. */
  function FormatTimestamp(secs: int): string
    requires 0 <= secs < MaxSeconds
  {
    Render(FromEpoch(secs), '_', '-')
  }

  /** A formatted timestamp is 19 characters: four year digits, then two-digit
      month, day, hour, minute and second, separated by `-`, `-`, `_`, `-`, `-`;
      it holds no slash, and different seconds format differently. */
  lemma FormatTimestampLayout(secs: int)
    requires 0 <= secs < MaxSeconds
    ensures HasStampLayout(FormatTimestamp(secs), '_', '-')
    ensures '/' !in FormatTimestamp(secs)
  {
    var dt := FromEpoch(secs);
    RenderFields(dt, '_', '-');
    var s := FormatTimestamp(secs);
    forall i | 0 <= i < 19 ensures s[i] != '/' {
      if i < 4 {
        assert s[0..4][i] == s[i];
      } else if 5 <= i < 7 {
        assert s[5..7][i - 5] == s[i];
      } else if 8 <= i < 10 {
        assert s[8..10][i - 8] == s[i];
      } else if 11 <= i < 13 {
        assert s[11..13][i - 11] == s[i];
      } else if 14 <= i < 16 {
        assert s[14..16][i - 14] == s[i];
      } else if 17 <= i < 19 {
        assert s[17..19][i - 17] == s[i];
      }
    }
  }

  lemma FormatTimestampInjective(a: int, b: int)
    requires 0 <= a < MaxSeconds && 0 <= b < MaxSeconds
    requires FormatTimestamp(a) == FormatTimestamp(b)
    ensures a == b
  {
    RenderInjective(FromEpoch(a), FromEpoch(b), '_', '-');
  }
}
