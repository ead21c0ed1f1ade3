/**
 * Properties of the read-only views of a CalDate: the normaliser on an overflowing
 * date, `getDay`, `isEqualDate`, `setTime` with `toEndDate`, and the layout of
 * `toString` and `toISOString`, with the values the repository's tests state.
 */
module CalDateViews {
  import opened Wrappers
  import opened JsValues
  import opened EcmaDate
  import Utils
  import opened CalDates
  import opened CalDateProperties

  // ---------------------------------------------------------------------
  // The normaliser

  /** 2000-02-30 25:61:62 normalises to 2000-03-02 02:02:02 (a leap February has 29 days). */
  lemma NormalizeOverflow(f: Fields, c: EcmaDate.Civil)
    requires f == Fields(Int(2000), Int(2), Int(30), Int(25), Int(61), Int(62))
    requires c == EcmaDate.Civil(2000, 3, 2, 2, 2, 2)
    ensures Normalize(f) == FieldsOf(c)
  {
    MarchSecond(CivilOf(f), c);
    FourDigitYearsClipped(c);
    NormalizeDenotes(f, c);
  }

  lemma MarchSecond(raw: EcmaDate.Civil, c: EcmaDate.Civil)
    requires raw == EcmaDate.Civil(2000, 2, 30, 25, 61, 62)
    requires c == EcmaDate.Civil(2000, 3, 2, 2, 2, 2)
    ensures Canonical(c) && CivilSeconds(raw) == CivilSeconds(c)
    ensures MakeDay(2000, 2, 2) == 11018
  {
    DayFromYearEras(0);
    assert InLeapYear(2000);
    MakeDayInYear(2000, 1, 30);
    MakeDayInYear(2000, 2, 2);
    CivilSecondsOfDay(raw, 11017);
    CivilSecondsOfDay(c, 11018);
  }

  // ---------------------------------------------------------------------
  // getDay

  /** `getDay()` of canonical fields is the weekday of their day number. */
  lemma WeekDayOfCanonical(c: EcmaDate.Civil)
    requires Canonical(c) && 100 <= c.year <= 9999
    ensures WeekDayOf(FieldsOf(c)) == Int((MakeDay(c.year, c.month - 1, c.day) + 4) % 7)
  {
    FourDigitYearsClipped(c);
    CanonicalFields(c);
    DayOfCanonical(c);
    var t := CivilSeconds(c);
    WeekDayOfInstant(FieldsOf(c), t);
    WeekDayOfDayNumber(t, MakeDay(c.year, c.month - 1, c.day));
  }

  lemma WeekDayOfDayNumber(t: int, day: int)
    requires t / 86400 == day
    ensures WeekDay(t) == (day + 4) % 7
  {
  }

  /** `getDay()` does not change when the fields are normalised first. */
  lemma WeekDayNormalized(f: Fields)
    requires TruthyNum(f.year) && ToInstant(f).At?
    requires !(Normalize(f).year.Int? && 0 <= Normalize(f).year.i <= 99)
    ensures WeekDayOf(Normalize(f)) == WeekDayOf(f)
  {
    var c := Reading(Normalize(f));
    assert Normalize(f) == FieldsOf(c);
    CanonicalFields(c);
  }

  /** 2000-02-30 25:61:62, that is 2000-03-02, is a Thursday. */
  lemma WeekDayOfOverflow(f: Fields, c: EcmaDate.Civil)
    requires f == Fields(Int(2000), Int(2), Int(30), Int(25), Int(61), Int(62))
    requires c == EcmaDate.Civil(2000, 3, 2, 2, 2, 2)
    ensures WeekDayOf(f) == Int(4)
  {
    assert CivilOf(f) == EcmaDate.Civil(2000, 2, 30, 25, 61, 62);
    MarchSecond(CivilOf(f), c);
    FourDigitYearsClipped(c);
    DayOfCanonical(c);
    var t := CivilSeconds(c);
    WeekDayOfInstant(f, t);
    WeekDayOfDay(t, 11018);
  }

  lemma WeekDayOfInstant(f: Fields, t: int)
    requires ToInstant(f) == At(t)
    ensures WeekDayOf(f) == Int(WeekDay(t))
  {
  }

  lemma WeekDayOfDay(t: int, d: int)
    requires t / 86400 == d && d == 11018
    ensures WeekDay(t) == 4
  {
  }

  // ---------------------------------------------------------------------
  // isEqualDate

  /**
   * `isEqualDate` of a valid date with a truthy year against a CalDate made from a Date:
   * true exactly when both instants fall on the same day; the time of day is ignored.
   */
  lemma SameDateIffSameDay(f: Fields, u: int)
    requires TruthyNum(f.year) && ToInstant(f).At?
    requires -MaxTimeSeconds <= u <= MaxTimeSeconds
    ensures SameDate(Normalize(f), FromInstant(At(u))) <==> ToInstant(f).t / 86400 == u / 86400
  {
    var t := ToInstant(f).t;
    var c := CivilFromSeconds(t);
    var e := CivilFromSeconds(u);
    NormalizedReading(f, t);
    SameDateOfReadings(Normalize(f), FromInstant(At(u)), c, e);
    SameDateSameDay(c, e);
  }

  /** Normalising fields that denote `t` gives the reading of `t`. */
  lemma NormalizedReading(f: Fields, t: int)
    requires TruthyNum(f.year) && ToInstant(f) == At(t)
    ensures Normalize(f) == FieldsOf(CivilFromSeconds(t))
  {
  }

  /** `isEqualDate` on the fields of two readings compares their year, month and day. */
  lemma SameDateOfReadings(f: Fields, g: Fields, c: EcmaDate.Civil, e: EcmaDate.Civil)
    requires f == FieldsOf(c) && g == FieldsOf(e)
    ensures SameDate(f, g) <==> c.year == e.year && c.month == e.month && c.day == e.day
  {
  }

  /** `isEqualDate` holds between 2000-02-30 25:61:62 and a CalDate of 2000-03-02 02:02:02. */
  lemma EqualDateOfOverflow(f: Fields, c: EcmaDate.Civil)
    requires f == Fields(Int(2000), Int(2), Int(30), Int(25), Int(61), Int(62))
    requires c == EcmaDate.Civil(2000, 3, 2, 2, 2, 2)
    ensures SameDate(Normalize(f), FromInstant(At(CivilSeconds(c))))
  {
    NormalizeOverflow(f, c);
    MarchSecond(CivilOf(f), c);
    FromInstantAt(CivilSeconds(c), c);
  }

  // ---------------------------------------------------------------------
  // setTime and toEndDate

  /**
   * `toEndDate()` of canonical fields: a new date at the instant moved on by
   * trunc(duration * 60) minutes (every field NaN past TimeClip), with duration 24.
   */
  lemma EndStateMoves(s: Snapshot, c: EcmaDate.Civil, x: real, u: int)
    requires s.fields == FieldsOf(c) && Canonical(c) && 100 <= c.year <= 9999
    requires s.duration == Some(x) && u == CivilSeconds(c) + 60 * Trunc(x * 60.0)
    ensures EndState(s) == Snapshot(FromInstant(Clipped(u)), Some(24.0))
  {
    var k := Trunc(x * 60.0);
    var f := FieldsOf(c);
    assert ApplyDate(ToInstant(s.fields)) == Snapshot(f, Some(24.0)) by {
      FourDigitYearsClipped(c);
      CanonicalFields(c);
    }
    var g := f.(minute := AddMinutes(f.minute, Some(x)));
    var h := FieldsOf(c.(minute := c.minute + k));
    var r := FromInstant(Clipped(u));
    assert EndState(s) == Snapshot(Normalize(g), Some(24.0)) by {
      EndStateOf(s, f, x);
    }
    MinutesAdded(c, x, k, f, g, h);
    assert Normalize(h) == r by {
      MovedMinutes(c, k, u);
    }
    EndChain(EndState(s), g, h, r);
  }

  lemma EndChain(a: Snapshot, g: Fields, h: Fields, r: Fields)
    requires a == Snapshot(Normalize(g), Some(24.0))
    requires g == h && Normalize(h) == r
    ensures a == Snapshot(r, Some(24.0))
  {
  }

  /** `toEndDate()` once its `toDate()` is known. */
  lemma EndStateOf(s: Snapshot, f: Fields, x: real)
    requires ApplyDate(ToInstant(s.fields)) == Snapshot(f, Some(24.0))
    requires s.duration == Some(x)
    ensures EndState(s) == Snapshot(Normalize(f.(minute := AddMinutes(f.minute, Some(x)))), Some(24.0))
  {
  }

  /** `d.minute += Math.trunc(duration * 60)` on the fields of a reading. */
  lemma MinutesAdded(c: EcmaDate.Civil, x: real, k: int, f: Fields, g: Fields, h: Fields)
    requires k == Trunc(x * 60.0) && f == FieldsOf(c)
    requires g == f.(minute := AddMinutes(f.minute, Some(x)))
    requires h == FieldsOf(c.(minute := c.minute + k))
    ensures g == h
  {
  }

  /** Normalising a reading with `k` more minutes reads the instant `60 * k` seconds later. */
  lemma MovedMinutes(c: EcmaDate.Civil, k: int, u: int)
    requires 100 <= c.year && u == CivilSeconds(c) + 60 * k
    ensures Normalize(FieldsOf(c.(minute := c.minute + k))) == FromInstant(Clipped(u))
  {
    var e := c.(minute := c.minute + k);
    var f := FieldsOf(e);
    assert CivilOf(f) == e;
    assert Normalize(f) == FromInstant(ToInstant(f)) by {
      assert TruthyNum(f.year);
    }
    assert ToInstant(f) == Clipped(u) by {
      CivilSecondsMoved(c, k);
      ToInstantClipped(f);
    }
  }

  /** `toDate()` of integer fields is the Date of their time value, clipped. */
  lemma ToInstantClipped(f: Fields)
    requires AllInt(f)
    ensures ToInstant(f) == Clipped(CivilSeconds(CivilOf(f)))
  {
  }

  /** `setTime(h, m, s)` on canonical fields sets the clock and makes the duration run to midnight. */
  lemma SetTimeFields(c: EcmaDate.Civil, h: int, m: int, sec: int, duration: Option<real>)
    requires Canonical(c) && 100 <= c.year <= 9999
    requires 0 <= h < 24 && 0 <= m < 60 && 0 <= sec < 60
    ensures ApplyTime(Snapshot(FieldsOf(c), duration), h, m, sec)
         == Snapshot(FieldsOf(c.(hour := h, minute := m, second := sec)), Some(HoursToMidnight(h, m, sec)))
  {
    var e := c.(hour := h, minute := m, second := sec);
    FourDigitYearsClipped(e);
    CanonicalFields(e);
    assert FieldsOf(c).(hour := Int(h), minute := Int(m), second := Int(sec)) == FieldsOf(e);
  }

  /** In whole minutes the hours to midnight are what is left of the day's 1440, less one for a started minute. */
  lemma MinutesToMidnight(h: int, m: int, sec: int)
    requires 0 <= h < 24 && 0 <= m < 60 && 0 <= sec < 60
    ensures Trunc(HoursToMidnight(h, m, sec) * 60.0) == 1440 - 60 * h - m - (if sec == 0 then 0 else 1)
  {
    var whole := 1440 - 60 * h - m;
    assert HoursToMidnight(h, m, sec) * 60.0 == whole as real - sec as real / 60.0;
    if sec == 0 {
      TruncOfInt(whole);
    } else {
      var lower := (whole - 1) as real;
      assert lower <= whole as real - sec as real / 60.0 < lower + 1.0;
    }
  }

  /**
   * After `setTime(h, m, s)`, `toEndDate()` is the next midnight (when `s` is 0),
   * or the last minute of the day with `s` seconds (when it is not), with duration 24.
   */
  lemma SetTimeThenEnd(c: EcmaDate.Civil, h: int, m: int, sec: int, duration: Option<real>, d: int, t: int)
    requires Canonical(c) && 100 <= c.year <= 9999
    requires 0 <= h < 24 && 0 <= m < 60 && 0 <= sec < 60
    requires d == MakeDay(c.year, c.month - 1, c.day)
    requires t == 86400 * (d + 1) - (if sec == 0 then 0 else 60 - sec)
    ensures EndState(ApplyTime(Snapshot(FieldsOf(c), duration), h, m, sec)) == Snapshot(FromInstant(At(t)), Some(24.0))
  {
    var e := c.(hour := h, minute := m, second := sec);
    var k := 1440 - 60 * h - m - (if sec == 0 then 0 else 1);
    var s1 := ApplyTime(Snapshot(FieldsOf(c), duration), h, m, sec);
    var cs := CivilSeconds(e);
    SetClockSeconds(c, e, d, cs);
    EndArithmetic(d, h, m, sec, k, cs);
    SetTimeMovesMinutes(c, h, m, sec, duration, e, s1, k, t);
    EndWithinClip(c, d, t);
    EndAt(s1, t);
  }

  /** `toEndDate()` after `setTime(h, m, sec)` moves the set clock on by the whole minutes to midnight. */
  lemma SetTimeMovesMinutes(c: EcmaDate.Civil, h: int, m: int, sec: int, duration: Option<real>,
                            e: EcmaDate.Civil, s1: Snapshot, k: int, u: int)
    requires Canonical(c) && 100 <= c.year <= 9999
    requires 0 <= h < 24 && 0 <= m < 60 && 0 <= sec < 60
    requires e == c.(hour := h, minute := m, second := sec)
    requires s1 == ApplyTime(Snapshot(FieldsOf(c), duration), h, m, sec)
    requires k == 1440 - 60 * h - m - (if sec == 0 then 0 else 1) && u == CivilSeconds(e) + 60 * k
    ensures EndState(s1) == Snapshot(FromInstant(Clipped(u)), Some(24.0))
  {
    var x := HoursToMidnight(h, m, sec);
    SetTimeShape(c, h, m, sec, duration, e, s1, x, k);
    EndStateMoves(s1, e, x, u);
  }

  /** After `setTime(h, m, sec)` the fields are the set clock's, canonical, and the duration is `k` whole minutes. */
  lemma SetTimeShape(c: EcmaDate.Civil, h: int, m: int, sec: int, duration: Option<real>,
                     e: EcmaDate.Civil, s1: Snapshot, x: real, k: int)
    requires Canonical(c) && 100 <= c.year <= 9999
    requires 0 <= h < 24 && 0 <= m < 60 && 0 <= sec < 60
    requires e == c.(hour := h, minute := m, second := sec)
    requires s1 == ApplyTime(Snapshot(FieldsOf(c), duration), h, m, sec)
    requires x == HoursToMidnight(h, m, sec) && k == 1440 - 60 * h - m - (if sec == 0 then 0 else 1)
    ensures s1.fields == FieldsOf(e) && Canonical(e) && 100 <= e.year <= 9999
    ensures s1.duration == Some(x) && Trunc(x * 60.0) == k
  {
    SetTimeFields(c, h, m, sec, duration);
    MinutesToMidnight(h, m, sec);
    ClockCanonical(c, h, m, sec, e);
  }

  /** Setting an in-range clock keeps canonical fields canonical. */
  lemma ClockCanonical(c: EcmaDate.Civil, h: int, m: int, sec: int, e: EcmaDate.Civil)
    requires Canonical(c) && 0 <= h < 24 && 0 <= m < 60 && 0 <= sec < 60
    requires e == c.(hour := h, minute := m, second := sec)
    ensures Canonical(e) && e.year == c.year
  {
  }

  /** The time value of a date with its clock set, from its day number. */
  lemma SetClockSeconds(c: EcmaDate.Civil, e: EcmaDate.Civil, d: int, cs: int)
    requires d == MakeDay(c.year, c.month - 1, c.day)
    requires e.year == c.year && e.month == c.month && e.day == c.day
    requires cs == CivilSeconds(e)
    ensures cs == d * 86400 + e.hour * 3600 + e.minute * 60 + e.second
  {
    CivilSecondsOfDay(e, d);
  }

  lemma EndAt(s: Snapshot, t: int)
    requires EndState(s) == Snapshot(FromInstant(Clipped(t)), Some(24.0))
    requires Clipped(t) == At(t)
    ensures EndState(s) == Snapshot(FromInstant(At(t)), Some(24.0))
  {
  }

  /** The clock at `h:m:sec` moved on by the minutes left until midnight. */
  lemma EndArithmetic(d: int, h: int, m: int, sec: int, k: int, cs: int)
    requires cs == d * 86400 + h * 3600 + m * 60 + sec
    requires k == 1440 - 60 * h - m - (if sec == 0 then 0 else 1)
    ensures cs + 60 * k == 86400 * (d + 1) - (if sec == 0 then 0 else 60 - sec)
  {
  }

  lemma EndWithinClip(c: EcmaDate.Civil, d: int, t: int)
    requires Canonical(c) && 100 <= c.year <= 9999 && d == MakeDay(c.year, c.month - 1, c.day)
    requires 86400 * d <= t <= 86400 * (d + 1)
    ensures Clipped(t) == At(t)
  {
    FourDigitYearsClipped(c);
  }

  /** With whole minutes, `toEndDate()` after `setTime` lands on 00:00:00 of the next day. */
  lemma SetTimeEndsAtMidnight(c: EcmaDate.Civil, h: int, m: int, duration: Option<real>)
    requires Canonical(c) && 100 <= c.year <= 9999
    requires 0 <= h < 24 && 0 <= m < 60
    ensures var next := DateFromDay(MakeDay(c.year, c.month - 1, c.day) + 1);
      EndState(ApplyTime(Snapshot(FieldsOf(c), duration), h, m, 0))
        == Snapshot(FieldsOf(EcmaDate.Civil(next.0, next.1, next.2, 0, 0, 0)), Some(24.0))
  {
    var d := MakeDay(c.year, c.month - 1, c.day);
    var n := MakeDay(c.year, c.month - 1, c.day) + 1;
    var t := 86400 * n;
    var next := DateFromDay(n);
    var s1 := ApplyTime(Snapshot(FieldsOf(c), duration), h, m, 0);
    SetTimeThenEnd(c, h, m, 0, duration, d, t);
    MidnightFields(n, t, next);
    EndFieldsChain(EndState(s1), FromInstant(At(t)), FieldsOf(EcmaDate.Civil(next.0, next.1, next.2, 0, 0, 0)));
  }

  lemma EndFieldsChain(a: Snapshot, r1: Fields, r2: Fields)
    requires a == Snapshot(r1, Some(24.0)) && r1 == r2
    ensures a == Snapshot(r2, Some(24.0))
  {
  }

  /** The Date at midnight starting day `n` reads as that day's date with a zero clock. */
  lemma MidnightFields(n: int, t: int, next: (int, int, int))
    requires t == 86400 * n && next == DateFromDay(n)
    ensures FromInstant(At(t)) == FieldsOf(EcmaDate.Civil(next.0, next.1, next.2, 0, 0, 0))
  {
    MidnightReading(n);
  }

  /** `setTime(12)` on 2000-01-01 gives a duration of 12 hours and ends at 2000-01-02 00:00:00. */
  lemma SetNoonEndsNextDay(c: EcmaDate.Civil, duration: Option<real>)
    requires c == EcmaDate.Civil(2000, 1, 1, 0, 0, 0)
    ensures ApplyTime(Snapshot(FieldsOf(c), duration), 12, 0, 0).duration == Some(12.0)
    ensures EndState(ApplyTime(Snapshot(FieldsOf(c), duration), 12, 0, 0))
         == Snapshot(FieldsOf(EcmaDate.Civil(2000, 1, 2, 0, 0, 0)), Some(24.0))
  {
    assert HoursToMidnight(12, 0, 0) == 12.0;
    SetTimeEndsAtMidnight(c, 12, 0, duration);
    assert MakeDay(c.year, c.month - 1, c.day) == MakeDay(2000, 0, 1);
    NextDayOfNewYear(MakeDay(c.year, c.month - 1, c.day) + 1);
  }

  /**
   * `toEndDate()` of canonical fields whose end falls in the same month: the fields of
   * the end, with duration 24.
   */
  lemma EndWithinMonth(c: EcmaDate.Civil, e: EcmaDate.Civil, x: real)
    requires Canonical(c) && Canonical(e) && 100 <= c.year <= 9999
    requires e.year == c.year && e.month == c.month
    requires 60 * Trunc(x * 60.0)
          == 86400 * (e.day - c.day) + 3600 * (e.hour - c.hour) + 60 * (e.minute - c.minute) + (e.second - c.second)
    ensures EndState(Snapshot(FieldsOf(c), Some(x))) == Snapshot(FieldsOf(e), Some(24.0))
  {
    var s := Snapshot(FieldsOf(c), Some(x));
    var d := MakeDay(c.year, c.month - 1, c.day);
    SameMakeDay(e.year, e.month - 1, e.day, c.year, c.month - 1, e.day);
    MakeDayShift(c.year, c.month - 1, c.day, e.day);
    CivilSecondsOfDay(c, d);
    CivilSecondsOfDay(e, d + e.day - c.day);
    var u := CivilSeconds(e);
    EndStateMoves(s, c, x, u);
    FourDigitYearsClipped(e);
    assert Clipped(u) == At(u);
    FromInstantAt(u, e);
    EndAt(s, u);
  }

  /** `toEndDate()` of 2000-01-06 00:00:00 with the default duration is 2000-01-07 00:00:00. */
  lemma EndOfSixthDay(c: EcmaDate.Civil, e: EcmaDate.Civil)
    requires c == EcmaDate.Civil(2000, 1, 6, 0, 0, 0) && e == EcmaDate.Civil(2000, 1, 7, 0, 0, 0)
    ensures EndState(Snapshot(FieldsOf(c), Some(24.0))) == Snapshot(FieldsOf(e), Some(24.0))
  {
    assert 24.0 * 60.0 == 1440 as real;
    TruncOfInt(1440);
    EndWithinMonth(c, e, 24.0);
  }

  /** After `setTime(12)` and `setDuration(23)` on 2000-01-01, `toEndDate()` is 2000-01-02 11:00:00. */
  lemma EndAfterTwentyThreeHours(c: EcmaDate.Civil, e: EcmaDate.Civil)
    requires c == EcmaDate.Civil(2000, 1, 1, 12, 0, 0) && e == EcmaDate.Civil(2000, 1, 2, 11, 0, 0)
    ensures EndState(Snapshot(FieldsOf(c), Some(23.0))) == Snapshot(FieldsOf(e), Some(24.0))
  {
    assert 23.0 * 60.0 == 1380 as real;
    TruncOfInt(1380);
    EndWithinMonth(c, e, 23.0);
  }

  lemma NextDayOfNewYear(d: int)
    requires d == MakeDay(2000, 0, 1) + 1
    ensures DateFromDay(d) == (2000, 1, 2)
  {
    MakeDayInYear(2000, 0, 1);
    MakeDayInYear(2000, 0, 2);
    DateFromDayRoundTrip(2000, 1, 2, d);
  }

  // ---------------------------------------------------------------------
  // toString and toISOString

  /** A month, day, hour, minute or second is written with exactly two characters. */
  lemma PadTwo(n: int)
    requires 0 <= n < 100
    ensures |Pad(Some(n), None)| == 2
    ensures Utils.ToInt(Str(Pad(Some(n), None))) == Some(n)
  {
    NatToStringLength(n, if n < 10 then 1 else 2);
    Utils.ToIntPad0(n, None);
  }

  /** A four-digit year is written as it is. */
  lemma PadYear(n: int)
    requires 1000 <= n <= 9999
    ensures |Pad(Some(n), Some(4))| == 4
    ensures Utils.ToInt(Str(Pad(Some(n), Some(4)))) == Some(n)
  {
    NatToStringLength(n, 4);
    Utils.ToIntPad0(n, Some(4));
  }

  /**
   * The layout of `toString` for a four-digit year: 19 characters (20 with the ISO 'Z'),
   * the separators in place, and each field read back by `toInt` from its columns.
   */
  lemma FormatLayout(c: EcmaDate.Civil, iso: bool)
    requires Canonical(c) && 1000 <= c.year <= 9999
    ensures var r := Format(Some(c), iso);
      && |r| == (if iso then 20 else 19)
      && r[4] == '-' && r[7] == '-' && r[10] == (if iso then 'T' else ' ') && r[13] == ':' && r[16] == ':'
      && (iso ==> r[19] == 'Z')
      && Utils.ToInt(Str(r[0..4])) == Some(c.year)
      && Utils.ToInt(Str(r[5..7])) == Some(c.month)
      && Utils.ToInt(Str(r[8..10])) == Some(c.day)
      && Utils.ToInt(Str(r[11..13])) == Some(c.hour)
      && Utils.ToInt(Str(r[14..16])) == Some(c.minute)
      && Utils.ToInt(Str(r[17..19])) == Some(c.second)
  {
    var y, mo, d := Pad(Some(c.year), Some(4)), Pad(Some(c.month), None), Pad(Some(c.day), None);
    var h, mi, s := Pad(Some(c.hour), None), Pad(Some(c.minute), None), Pad(Some(c.second), None);
    PadYear(c.year);
    PadTwo(c.month);
    PadTwo(c.day);
    PadTwo(c.hour);
    PadTwo(c.minute);
    PadTwo(c.second);
    LayoutOf(y, mo, d, if iso then "T" else " ", h, mi, s, if iso then "Z" else "");
  }

  /** Seven pieces of fixed width joined by the separators of `toString`, and where each lands. */
  lemma LayoutOf(y: string, mo: string, d: string, sep: string, h: string, mi: string, s: string, z: string)
    requires |y| == 4 && |mo| == 2 && |d| == 2 && |sep| == 1 && |h| == 2 && |mi| == 2 && |s| == 2
    ensures var r := y + "-" + mo + "-" + d + sep + h + ":" + mi + ":" + s + z;
      && |r| == 19 + |z| && r[4] == '-' && r[7] == '-' && r[10] == sep[0] && r[13] == ':' && r[16] == ':'
      && r[19..] == z
      && r[0..4] == y && r[5..7] == mo && r[8..10] == d && r[11..13] == h && r[14..16] == mi && r[17..19] == s
  {
    var a := y + "-" + mo + "-" + d;
    var b := sep + h + ":" + mi + ":" + s;
    var r := y + "-" + mo + "-" + d + sep + h + ":" + mi + ":" + s + z;
    assert r == a + b + z;
    assert a[0..4] == y && a[5..7] == mo && a[8..10] == d && a[4] == '-' && a[7] == '-';
    assert b[0] == sep[0] && b[1..3] == h && b[4..6] == mi && b[7..9] == s && b[3] == ':' && b[6] == ':';
    assert r[0..10] == a;
    assert r[10..19] == b;
  }

  /** `toString` formats the normalised fields, so normalising first changes nothing. */
  lemma FormatNormalized(f: Fields, iso: bool)
    requires TruthyNum(f.year) && ToInstant(f).At?
    requires !(Normalize(f).year.Int? && 0 <= Normalize(f).year.i <= 99)
    ensures Format(LocalFields(ToInstant(Normalize(f))), iso) == Format(LocalFields(ToInstant(f)), iso)
  {
    var c := Reading(Normalize(f));
    assert Normalize(f) == FieldsOf(c);
    CanonicalFields(c);
  }

  /** `toString` of canonical fields formats exactly those fields. */
  lemma FormatOfCanonical(c: EcmaDate.Civil, iso: bool)
    requires Canonical(c) && 100 <= c.year <= 9999
    ensures Format(LocalFields(ToInstant(FieldsOf(c))), iso) == Format(Some(c), iso)
  {
    FourDigitYearsClipped(c);
    CanonicalFields(c);
    CivilRoundTrip(c);
  }

  /** `new CalDate().toString()` is "1900-01-01 00:00:00". */
  lemma DefaultString()
    ensures Format(LocalFields(ToInstant(Construct(NoArg).fields)), false) == "1900-01-01 00:00:00"
  {
    DefaultsConstruct();
    var c := EcmaDate.Civil(1900, 1, 1, 0, 0, 0);
    assert DefaultSnapshot.fields == FieldsOf(c);
    FormatOfCanonical(c, false);
    DefaultText(c);
  }

  /** A single digit is padded to "0" and the digit. */
  lemma PadOneDigit(n: int)
    requires 0 <= n < 10
    ensures Pad(Some(n), None) == ['0', DigitChar(n)]
  {
    assert IntToString(n) == [DigitChar(n)];
    assert Zeros(1) == ['0'];
  }

  /** A four-digit year is written unpadded. */
  lemma PadFourDigits(n: int)
    requires 1000 <= n <= 9999
    ensures Pad(Some(n), Some(4)) == NatToString(n)
  {
    NatToStringLength(n, 4);
  }

  /** `toString` joins the padded getters with its separators. */
  lemma FormatPieces(c: EcmaDate.Civil, iso: bool)
    ensures Format(Some(c), iso) ==
      Pad(Some(c.year), Some(4)) + "-" + Pad(Some(c.month), None) + "-" + Pad(Some(c.day), None)
      + (if iso then "T" else " ")
      + Pad(Some(c.hour), None) + ":" + Pad(Some(c.minute), None) + ":" + Pad(Some(c.second), None)
      + (if iso then "Z" else "")
  {
  }

  lemma DefaultText(c: EcmaDate.Civil)
    requires c == EcmaDate.Civil(1900, 1, 1, 0, 0, 0)
    ensures Format(Some(c), false) == "1900-01-01 00:00:00"
  {
    FormatPieces(c, false);
    assert Pad(Some(1900), Some(4)) == "1900" by {
      PadFourDigits(1900);
      assert NatToString(1900) == "1900";
    }
    PadOneDigit(1);
    PadOneDigit(0);
    DefaultPieces(Pad(Some(c.year), Some(4)), Pad(Some(c.month), None), Pad(Some(c.day), None),
      Pad(Some(c.hour), None), Pad(Some(c.minute), None), Pad(Some(c.second), None));
  }

  lemma DefaultPieces(y: string, mo: string, d: string, h: string, mi: string, s: string)
    requires y == "1900" && mo == "01" && d == "01" && h == "00" && mi == "00" && s == "00"
    ensures y + "-" + mo + "-" + d + " " + h + ":" + mi + ":" + s + "" == "1900-01-01 00:00:00"
  {
  }

  /** The ISO form of 2000-01-06 00:00:00 is "2000-01-06T00:00:00Z", with its literal 'Z'. */
  lemma IsoText(c: EcmaDate.Civil)
    requires c == EcmaDate.Civil(2000, 1, 6, 0, 0, 0)
    ensures Format(Some(c), true) == "2000-01-06T00:00:00Z"
  {
    FormatPieces(c, true);
    assert Pad(Some(2000), Some(4)) == "2000" by {
      PadFourDigits(2000);
      assert NatToString(2000) == "2000";
    }
    PadOneDigit(1);
    PadOneDigit(6);
    PadOneDigit(0);
    IsoPieces(Pad(Some(c.year), Some(4)), Pad(Some(c.month), None), Pad(Some(c.day), None),
      Pad(Some(c.hour), None), Pad(Some(c.minute), None), Pad(Some(c.second), None));
  }

  lemma IsoPieces(y: string, mo: string, d: string, h: string, mi: string, s: string)
    requires y == "2000" && mo == "01" && d == "06" && h == "00" && mi == "00" && s == "00"
    ensures y + "-" + mo + "-" + d + "T" + h + ":" + mi + ":" + s + "Z" == "2000-01-06T00:00:00Z"
  {
  }
}
