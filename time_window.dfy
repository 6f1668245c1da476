/** The time window of `process_bag_files` (rosbag_parser/main.py:181-202): the
    `datetime.strptime` readings of the bounds, the sentinel dates used when a bound
    is absent, the conversion to whole UTC seconds, and the start <= end check. */
module TimeWindow {
  import opened Wrappers
  import opened Strings
  import opened CivilTime

  /** `epoch_start` and `epoch_end`, read with `%Y-%m-%d`. */
  const EpochStart := "1980-01-01"
  const EpochEnd := "2900-12-31"

  /** `MIN_FILTER_TIME` and `MAX_FILTER_TIME`, the bounds the routine passes. */
  const MinFilterTime := "2023-08-22 18:33:48"
  const MaxFilterTime := "2023-08-22 18:33:52"

  /** `%Y`: exactly four digits at the start. */
  function YearField(s: string): Option<int>
  {
    if |s| >= 4 && AllDigits(s[..4]) then Some(DigitsValue(s[..4])) else None
  }

  /** A `%m`, `%d`, `%H` or `%M` directive followed by the literal `sep`: one or two
      digits whose value lies in `[lo, hi]` (the alternations of `strptime`'s
      patterns accept exactly these), then `sep`. Gives the value and the index just
      past `sep`. */
  function FieldBefore(s: string, i: nat, sep: char, lo: int, hi: int): (r: Option<(int, nat)>)
    ensures r.Some? ==> lo <= r.value.0 <= hi && i + 2 <= r.value.1 <= i + 3 && r.value.1 <= |s|
  {
    if i + 1 < |s| && IsDigit(s[i]) && s[i + 1] == sep && lo <= DigitValue(s[i]) <= hi then
      Some((DigitValue(s[i]), i + 2))
    else if i + 2 < |s| && AllDigits(s[i..i + 2]) && s[i + 2] == sep && lo <= DigitsValue(s[i..i + 2]) <= hi then
      Some((DigitsValue(s[i..i + 2]), i + 3))
    else None
  }

  /** The last directive: the rest of the string is one or two digits in `[lo, hi]`
      (anything after them is "unconverted data"). */
  function LastField(s: string, i: nat, lo: int, hi: int): (r: Option<int>)
    ensures r.Some? ==> lo <= r.value <= hi
  {
    if i <= |s| && 1 <= |s| - i <= 2 && AllDigits(s[i..]) && lo <= DigitsValue(s[i..]) <= hi then
      Some(DigitsValue(s[i..]))
    else None
  }

  /** The checks `datetime(...)` makes on what the pattern matched. */
  function MakeDateTime(y: int, mo: int, d: int, h: int, mi: int, sec: int): (r: Option<DateTime>)
    requires 1 <= mo <= 12
    ensures r.Some? ==> ValidDateTime(r.value)
  {
    if 1 <= y <= 9999 && 1 <= d <= DaysInMonth(y, mo) && 0 <= h < 24 && 0 <= mi < 60 && 0 <= sec < 60 then
      Some(DateTime(y, mo, d, h, mi, sec))
    else None
  }

  /** `datetime.strptime(s, '%Y-%m-%d %H:%M:%S')`; `None` is the `ValueError`. */
  function ParseDateTime(s: string): (r: Option<DateTime>)
    ensures r.Some? ==> ValidDateTime(r.value)
  {
    var year :- YearField(s);
    if |s| < 5 || s[4] != '-' then None
    else
      var mo :- FieldBefore(s, 5, '-', 1, 12);
      var d :- FieldBefore(s, mo.1, ' ', 1, 31);
      var h :- FieldBefore(s, d.1, ':', 0, 23);
      var mi :- FieldBefore(s, h.1, ':', 0, 59);
      var sec :- LastField(s, mi.1, 0, 61);
      MakeDateTime(year, mo.0, d.0, h.0, mi.0, sec)
  }

  /** `datetime.strptime(s, '%Y-%m-%d')`: midnight of the given day. */
  function ParseDate(s: string): (r: Option<DateTime>)
    ensures r.Some? ==> ValidDateTime(r.value)
  {
    var year :- YearField(s);
    if |s| < 5 || s[4] != '-' then None
    else
      var mo :- FieldBefore(s, 5, '-', 1, 12);
      var d :- LastField(s, mo.1, 1, 31);
      MakeDateTime(year, mo.0, d, 0, 0, 0)
  }

  /** A two-digit field is read back whatever its value, as long as it is in range. */
  lemma PaddedField(s: string, i: nat, sep: char, lo: int, hi: int, v: nat)
    requires v < 100 && lo <= v <= hi
    requires i + 2 < |s| && s[i..i + 2] == Pad2(v) && s[i + 2] == sep
    requires !IsDigit(sep)
    ensures FieldBefore(s, i, sep, lo, hi) == Some((v, i + 3))
  {
    assert s[i + 1] == Pad2(v)[1];
  }

  /** The canonical zero-padded form of every valid date and time parses back to it. */
  lemma ParseRender(dt: DateTime)
    requires ValidDateTime(dt)
    ensures ParseDateTime(Render(dt, ' ', ':')) == Some(dt)
  {
    var s := Render(dt, ' ', ':');
    RenderFields(dt, ' ', ':');
    PaddedField(s, 5, '-', 1, 12, dt.month);
    PaddedField(s, 8, ' ', 1, 31, dt.day);
    PaddedField(s, 11, ':', 0, 23, dt.hour);
    PaddedField(s, 14, ':', 0, 59, dt.minute);
    assert s[17..] == s[17..19];
  }

  /** A field that `FieldBefore` accepted and that ends three characters on is
      two zero-padded digits. */
  lemma FieldDigits(s: string, i: nat, sep: char, lo: int, hi: int)
    requires FieldBefore(s, i, sep, lo, hi).Some?
    requires FieldBefore(s, i, sep, lo, hi).value.1 == i + 3
    ensures var v := FieldBefore(s, i, sep, lo, hi).value.0;
      0 <= v < 100 && s[i..i + 2] == Pad2(v) && s[i + 2] == sep
  {
    var t := s[i..i + 2];
    if IsDigit(s[i]) && s[i + 1] == sep && lo <= DigitValue(s[i]) <= hi {
    } else {
      DigitsValueTwo(t);
    }
  }

  /** Every 19-character string that parses is the canonical form of what it
      parses to: all its fields are two digits wide. */
  lemma ParseCanonical(s: string)
    requires ParseDateTime(s).Some? && |s| == 19
    ensures s == Render(ParseDateTime(s).value, ' ', ':')
  {
    var dt := ParseDateTime(s).value;
    var mo := FieldBefore(s, 5, '-', 1, 12).value;
    var d := FieldBefore(s, mo.1, ' ', 1, 31).value;
    var h := FieldBefore(s, d.1, ':', 0, 23).value;
    var mi := FieldBefore(s, h.1, ':', 0, 59).value;
    assert dt == DateTime(DigitsValue(s[..4]), mo.0, d.0, h.0, mi.0, LastField(s, mi.1, 0, 61).value);
    assert mo.1 == 8 && d.1 == 11 && h.1 == 14 && mi.1 == 17;
    FieldDigits(s, 5, '-', 1, 12);
    FieldDigits(s, 8, ' ', 1, 31);
    FieldDigits(s, 11, ':', 0, 23);
    FieldDigits(s, 14, ':', 0, 59);
    DigitsValueTwo(s[17..]);
    Pad4Of(s[..4]);
    SplitNineteen(s);
  }

  /** A 19-character string is its five two-digit pieces, its four-digit piece and
      its separators put back together. */
  lemma SplitNineteen(s: string)
    requires |s| == 19
    ensures s == s[..4] + [s[4]] + s[5..7] + [s[7]] + s[8..10] + [s[10]] + s[11..13] + [s[13]]
               + s[14..16] + [s[16]] + s[17..]
  {
  }

  /** The bound string with the separators of a folder name: the space becomes `_`
      and each colon `-`. */
  function Restamp(s: string): (r: string)
    ensures |r| == |s|
    ensures forall i :: 0 <= i < |s| ==> r[i] == (if s[i] == ' ' then '_' else if s[i] == ':' then '-' else s[i])
  {
    ReplaceChar(ReplaceChar(s, ' ', '_'), ':', '-')
  }

  /** The same date rendered with the bound's separators and with the folder
      name's separators differs only in the separators. */
  lemma RenderSeparators(dt: DateTime)
    requires ValidDateTime(dt)
    ensures Restamp(Render(dt, ' ', ':')) == Render(dt, '_', '-')
  {
    var a, b := Render(dt, ' ', ':'), Render(dt, '_', '-');
    RenderFields(dt, ' ', ':');
    RenderFields(dt, '_', '-');
    forall i | 0 <= i < 19 ensures Restamp(a)[i] == b[i] {
      if i < 4 {
        assert a[0..4][i] == a[i] && b[0..4][i] == b[i];
      } else if 5 <= i < 7 {
        assert a[5..7][i - 5] == a[i] && b[5..7][i - 5] == b[i];
      } else if 8 <= i < 10 {
        assert a[8..10][i - 8] == a[i] && b[8..10][i - 8] == b[i];
      } else if 11 <= i < 13 {
        assert a[11..13][i - 11] == a[i] && b[11..13][i - 11] == b[i];
      } else if 14 <= i < 16 {
        assert a[14..16][i - 14] == a[i] && b[14..16][i - 14] == b[i];
      } else if 17 <= i < 19 {
        assert a[17..19][i - 17] == a[i] && b[17..19][i - 17] == b[i];
      }
    }
  }

  /** Timestamp round trip: a `YYYY-MM-DD HH:MM:SS` bound from 1970 on, read as UTC
      and formatted back, gives the same digits with the folder name's
      separators. */
  lemma BoundRoundTrip(s: string)
    requires ParseDateTime(s).Some? && |s| == 19
    requires ParseDateTime(s).value.year >= 1970
    ensures var secs := ToEpoch(ParseDateTime(s).value);
      0 <= secs < MaxSeconds && FormatTimestamp(secs) == Restamp(s)
  {
    var dt := ParseDateTime(s).value;
    ToEpochRange(dt);
    EpochRoundTrip(dt);
    ParseCanonical(s);
    RenderSeparators(dt);
  }

  /** Four digits are the zero-padded form of their value. */
  lemma Pad4Of(t: string)
    requires |t| == 4 && AllDigits(t)
    ensures DigitsValue(t) < 10000 && Pad4(DigitsValue(t)) == t
  {
    var a, b, c, d := DigitValue(t[0]), DigitValue(t[1]), DigitValue(t[2]), DigitValue(t[3]);
    DigitsValueTwo(t[..2]);
    assert t[..3][..2] == t[..2] && t[..3][2] == t[2];
    assert DigitsValue(t[..3]) == (a * 10 + b) * 10 + c;
    var v := DigitsValue(t);
    assert v == ((a * 10 + b) * 10 + c) * 10 + d;
    SplitFourDigits(a, b, c, d);
    assert Pad4(v) == [t[0], t[1], t[2], t[3]];
  }

  lemma SplitFourDigits(a: nat, b: nat, c: nat, d: nat)
    requires a < 10 && b < 10 && c < 10 && d < 10
    ensures var v := ((a * 10 + b) * 10 + c) * 10 + d;
      v < 10000 && v / 1000 == a && v / 100 % 10 == b && v / 10 % 10 == c && v % 10 == d
  {
  }

  /** What goes wrong with the window. */
  datatype WindowError =
    | StartNotParsed   // `strptime` raised `ValueError` on the start bound
    | EndNotParsed     // ... on the end bound
    | NegativeTime     // a bound before 1970: ROS time values must be non-negative
    | StartAfterEnd    // the check at line 197

  /** A window in whole seconds since 1970-01-01 00:00:00 UTC. */
  datatype Window = Window(start: int, end: int)

  /** A bound: the string when given, else the sentinel date at midnight. */
  function ParseBound(bound: Option<string>, sentinel: string): (r: Option<DateTime>)
    ensures r.Some? ==> ValidDateTime(r.value)
  {
    match bound
    case None => ParseDate(sentinel)
    case Some(s) => ParseDateTime(s)
  }

  /** `rospy.Time.from_sec(x)` for the whole seconds `x`: a ROS time value, which
      may not be negative. */
  function FromSec(x: int): Option<nat>
  {
    if x < 0 then None else Some(x)
  }

  /** Lines 181-202 up to the comparison: parse both bounds, convert them to UTC
      seconds, and reject a window whose start lies after its end. */
  function ValidateWindow(startTime: Option<string>, endTime: Option<string>): (r: Result<Window, WindowError>)
    ensures r.Ok? ==> 0 <= r.value.start <= r.value.end < MaxSeconds
  {
    var startT := ParseBound(startTime, EpochStart);
    var endT := ParseBound(endTime, EpochEnd);
    if startT.None? then Err(StartNotParsed)
    else if endT.None? then Err(EndNotParsed)
    else
      ToEpochRange(startT.value);
      ToEpochRange(endT.value);
      var startTimestamp := FromSec(ToEpoch(startT.value));
      var endTimestamp := FromSec(ToEpoch(endT.value));
      if startTimestamp.None? || endTimestamp.None? then Err(NegativeTime)
      else if startTimestamp.value > endTimestamp.value then Err(StartAfterEnd)
      else Ok(Window(startTimestamp.value, endTimestamp.value))
  }

  /** The window is rejected as inverted exactly when both bounds parse to dates from
      1970 on and the start's seconds exceed the end's. */
  lemma RejectsInvertedWindow(startTime: Option<string>, endTime: Option<string>)
    ensures ValidateWindow(startTime, endTime) == Err(StartAfterEnd) <==>
      var startT := ParseBound(startTime, EpochStart);
      var endT := ParseBound(endTime, EpochEnd);
      && startT.Some? && endT.Some?
      && startT.value.year >= 1970 && endT.value.year >= 1970
      && ToEpoch(startT.value) > ToEpoch(endT.value)
  {
    var startT := ParseBound(startTime, EpochStart);
    var endT := ParseBound(endTime, EpochEnd);
    if startT.Some? && endT.Some? {
      ToEpochRange(startT.value);
      ToEpochRange(endT.value);
    }
  }

  /** An accepted window is the pair of the bounds' UTC seconds. */
  lemma AcceptedWindow(startTime: Option<string>, endTime: Option<string>)
    requires ValidateWindow(startTime, endTime).Ok?
    ensures var w := ValidateWindow(startTime, endTime).value;
      && ParseBound(startTime, EpochStart).Some? && ParseBound(endTime, EpochEnd).Some?
      && w.start == ToEpoch(ParseBound(startTime, EpochStart).value)
      && w.end == ToEpoch(ParseBound(endTime, EpochEnd).value)
  {
  }

  lemma Sentinels()
    ensures ParseDate(EpochStart) == Some(DateTime(1980, 1, 1, 0, 0, 0))
    ensures ParseDate(EpochEnd) == Some(DateTime(2900, 12, 31, 0, 0, 0))
  {
    ParseDateFields(EpochStart, 1980, 1, 1);
    ParseDateFields(EpochEnd, 2900, 12, 31);
  }

  lemma ParseDateFields(s: string, y: int, m: int, d: int)
    requires |s| == 10 && ValidDateTime(DateTime(y, m, d, 0, 0, 0))
    requires s[..4] == Pad4(y) && s[4] == '-' && s[5..7] == Pad2(m) && s[7] == '-' && s[8..] == Pad2(d)
    ensures ParseDate(s) == Some(DateTime(y, m, d, 0, 0, 0))
  {
    PaddedField(s, 5, '-', 1, 12, m);
  }

  /** Absent bounds default to 1980-01-01 00:00:00 and 2900-12-31 00:00:00 UTC,
      which pass the check. */
  lemma SentinelDefaults()
    ensures ValidateWindow(None, None) == Ok(Window(315532800, 29379456000))
  {
    Sentinels();
    SentinelSeconds();
  }

  lemma SentinelSeconds()
    ensures ToEpoch(DateTime(1980, 1, 1, 0, 0, 0)) == 315532800
    ensures ToEpoch(DateTime(2900, 12, 31, 0, 0, 0)) == 29379456000
  {
    assert DaysBeforeYear(1970) == 719162;
    assert DaysBeforeYear(1980) == 722814;
    assert DaysBeforeYear(2900) == 1058838;
    assert DaysBeforeMonth(2900, 12) == 334;
  }

  /** The bounds the routine passes give the window 1692729228 to 1692729232, four
      seconds wide. */
  lemma ConfiguredWindow()
    ensures ValidateWindow(Some(MinFilterTime), Some(MaxFilterTime)) == Ok(Window(1692729228, 1692729232))
  {
    ConfiguredBounds();
    ConfiguredSeconds();
  }

  lemma ConfiguredBounds()
    ensures ParseDateTime(MinFilterTime) == Some(DateTime(2023, 8, 22, 18, 33, 48))
    ensures ParseDateTime(MaxFilterTime) == Some(DateTime(2023, 8, 22, 18, 33, 52))
  {
    ConfiguredStart();
    ConfiguredEnd();
  }

  lemma ConfiguredStart()
    ensures ParseDateTime(MinFilterTime) == Some(DateTime(2023, 8, 22, 18, 33, 48))
  {
    ParseDateTimeFields(MinFilterTime, DateTime(2023, 8, 22, 18, 33, 48));
  }

  lemma ConfiguredEnd()
    ensures ParseDateTime(MaxFilterTime) == Some(DateTime(2023, 8, 22, 18, 33, 52))
  {
    ParseDateTimeFields(MaxFilterTime, DateTime(2023, 8, 22, 18, 33, 52));
  }

  lemma ConfiguredSeconds()
    ensures ToEpoch(DateTime(2023, 8, 22, 18, 33, 48)) == 1692729228
    ensures ToEpoch(DateTime(2023, 8, 22, 18, 33, 52)) == 1692729232
  {
  }

  lemma ParseDateTimeFields(s: string, dt: DateTime)
    requires |s| == 19 && ValidDateTime(dt)
    requires s[..4] == Pad4(dt.year) && s[4] == '-' && s[5..7] == Pad2(dt.month) && s[7] == '-'
    requires s[8..10] == Pad2(dt.day) && s[10] == ' ' && s[11..13] == Pad2(dt.hour) && s[13] == ':'
    requires s[14..16] == Pad2(dt.minute) && s[16] == ':' && s[17..] == Pad2(dt.second)
    ensures ParseDateTime(s) == Some(dt)
  {
    SplitNineteen(s);
    assert s == Render(dt, ' ', ':');
    ParseRender(dt);
  }
}
