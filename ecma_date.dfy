/**
 * The proleptic Gregorian arithmetic of ECMA-262 (2022 edition) that the Date
 * constructor and its local getters perform: DaysInYear, DayFromYear and
 * YearFromTime (section 21.4.1.3), MonthFromTime and DateFromTime (21.4.1.4, 21.4.1.5),
 * WeekDay (21.4.1.6), MakeTime, MakeDay and MakeDate (21.4.1.11 to 21.4.1.13) and
 * TimeClip (21.4.1.14). Time values are counted in whole seconds rather than
 * milliseconds: the dates built here have zero milliseconds, and a Date given from
 * outside stands for the floor of its milliseconds divided by 1000, which is all that
 * the getters used here (year to seconds, weekday) read. The local time zone is
 * taken to be UTC.
 */
module EcmaDate {
  import opened Wrappers

  /** TimeClip's bound of 8.64e15 milliseconds, in seconds. */
  const MaxTimeSeconds: int := 8_640_000_000_000

  /** A calendar reading of a time value; `month` counts from 1 like the CalDate fields. */
  datatype Civil = Civil(year: int, month: int, day: int, hour: int, minute: int, second: int)

  // ---------------------------------------------------------------------
  // Years

  function DaysInYear(y: int): (r: int)
    ensures r == 365 || r == 366
  {
    if y % 4 != 0 then 365
    else if y % 100 != 0 then 366
    else if y % 400 != 0 then 365
    else 366
  }

  predicate InLeapYear(y: int) {
    DaysInYear(y) == 366
  }

  /** The day number of the first day of year `y`; day 0 is 1970-01-01. */
  function DayFromYear(y: int): int {
    365 * (y - 1970) + (y - 1969) / 4 - (y - 1901) / 100 + (y - 1601) / 400
  }

  lemma DayFromYearStep(y: int)
    ensures DayFromYear(y + 1) == DayFromYear(y) + DaysInYear(y)
  {
    Step4(y);
    Step100(y);
    Step400(y);
    MultipleOf100(y);
    MultipleOf400(y);
  }

  lemma Step4(y: int)
    ensures (y + 1 - 1969) / 4 == (y - 1969) / 4 + (if y % 4 == 0 then 1 else 0)
  {
  }

  lemma Step100(y: int)
    ensures (y + 1 - 1901) / 100 == (y - 1901) / 100 + (if y % 100 == 0 then 1 else 0)
  {
  }

  lemma Step400(y: int)
    ensures (y + 1 - 1601) / 400 == (y - 1601) / 400 + (if y % 400 == 0 then 1 else 0)
  {
  }

  lemma MultipleOf100(y: int)
    ensures y % 100 == 0 ==> y % 4 == 0
  {
    if y % 100 == 0 {
      assert y == 4 * (25 * (y / 100));
    }
  }

  lemma MultipleOf400(y: int)
    ensures y % 400 == 0 ==> y % 100 == 0
  {
    if y % 400 == 0 {
      assert y == 100 * (4 * (y / 400));
    }
  }

  /** A later year starts on a later day. */
  lemma {:induction false} DayFromYearMonotone(a: int, b: int)
    requires a <= b
    ensures DayFromYear(a) + 365 * (b - a) <= DayFromYear(b)
    ensures a < b ==> DayFromYear(a) < DayFromYear(b)
    decreases b - a
  {
    if a < b {
      DayFromYearStep(a);
      DayFromYearMonotone(a + 1, b);
    }
  }

  /** The Gregorian calendar repeats every 400 years, which hold 146097 days. */
  lemma DayFromYearEra(y: int)
    ensures DayFromYear(y + 400) == DayFromYear(y) + 146097
  {
    DivShift(y - 1969, 4, 100);
    DivShift(y - 1901, 100, 4);
    DivShift(y - 1601, 400, 1);
  }

  lemma DivShift(a: int, k: int, n: int)
    requires k > 0 && k * n == 400
    ensures (a + 400) / k == a / k + n
  {
    assert a + 400 == a + k * n;
  }

  lemma {:induction false} DayFromYearEras(k: int)
    ensures DayFromYear(2000 + 400 * k) == 10957 + 146097 * k
    decreases if k < 0 then -k else k
  {
    if k > 0 {
      DayFromYearEras(k - 1);
      DayFromYearEra(2000 + 400 * (k - 1));
    } else if k < 0 {
      DayFromYearEras(k + 1);
      DayFromYearEra(2000 + 400 * k);
    }
  }

  function Min(a: int, b: int): int {
    if a <= b then a else b
  }

  /** `f` never decreases. */
  ghost predicate Increasing(f: int -> int) {
    forall a, b :: a <= b ==> f(a) <= f(b)
  }

  /**
   * Steps from `y` by `step` while `f` of the next step is still at most `d`; `f` gives the
   * first day of each year, so the result brackets `d` more tightly.
   */
  lemma Climb(f: int -> int, y: int, step: int, d: int, hi: int) returns (r: int)
    requires 0 < step && y < hi
    requires f(y) <= d < f(hi)
    ensures y <= r < hi
    ensures f(r) <= d < f(Min(r + step, hi))
    decreases hi - y
  {
    if y + step < hi && f(y + step) <= d {
      r := Climb(f, y + step, step, d, hi);
    } else {
      r := y;
    }
  }

  /** Narrows a 400-year bracket of `d` down to one year, by centuries, quadrennia and years. */
  lemma YearSearch(f: int -> int, base: int, d: int) returns (y: int)
    requires f(base) <= d < f(base + 400)
    ensures f(y) <= d < f(y + 1)
  {
    var c := Climb(f, base, 100, d, base + 400);
    var hc := Min(c + 100, base + 400);
    var q := Climb(f, c, 4, d, hc);
    var hq := Min(q + 4, hc);
    y := Climb(f, q, 1, d, hq);
  }

  /** Under a non-decreasing `f`, at most one `y` has `f(y) <= d < f(y + 1)`. */
  lemma BracketUnique(f: int -> int, z: int, y: int, d: int)
    requires Increasing(f)
    requires f(z) <= d < f(z + 1)
    requires f(y) <= d < f(y + 1)
    ensures z == y
  {
  }

  /** The first year of the 400-year era that holds day `d`. */
  lemma EraStart(d: int) returns (b: int)
    ensures DayFromYear(b) <= d < DayFromYear(b + 400)
  {
    var k := (d - 10957) / 146097;
    b := 2000 + 400 * k;
    DayFromYearEras(k);
    DayFromYearEra(b);
  }

  /** Some year holds day `d`: the one the era, century and quadrennium search finds. */
  lemma YearExists(d: int)
    ensures exists y :: DayFromYear(y) <= d < DayFromYear(y + 1)
  {
    var b := EraStart(d);
    var y := YearSearch(DayFromYear, b, d);
    assert DayFromYear(y) <= d < DayFromYear(y + 1);
  }

  /**
   * YearFromTime for a day number: the year whose days include day `d`, which is
   * the largest `y` whose first day is not after `d`.
   */
  function YearFromDay(d: int): (y: int)
    ensures DayFromYear(y) <= d < DayFromYear(y + 1)
  {
    YearExists(d);
    YearsContainingDayAll(d);
    var y :| DayFromYear(y) <= d < DayFromYear(y + 1);
    y
  }

  lemma YearsContainingDayAll(d: int)
    ensures forall z, y :: DayFromYear(z) <= d < DayFromYear(z + 1) && DayFromYear(y) <= d < DayFromYear(y + 1) ==> z == y
  {
    forall z, y | DayFromYear(z) <= d < DayFromYear(z + 1) && DayFromYear(y) <= d < DayFromYear(y + 1)
      ensures z == y
    {
      YearsContainingDay(z, y, d);
    }
  }

  lemma DayFromYearIncreasing()
    ensures Increasing(DayFromYear)
  {
    forall a, b | a <= b
      ensures DayFromYear(a) <= DayFromYear(b)
    {
      DayFromYearMonotone(a, b);
    }
  }

  /** The year containing a day is unique. */
  lemma YearFromDayUnique(y: int, d: int)
    requires DayFromYear(y) <= d < DayFromYear(y + 1)
    ensures YearFromDay(d) == y
  {
    YearsContainingDay(YearFromDay(d), y, d);
  }

  lemma YearsContainingDay(z: int, y: int, d: int)
    requires DayFromYear(z) <= d < DayFromYear(z + 1)
    requires DayFromYear(y) <= d < DayFromYear(y + 1)
    ensures z == y
  {
    DayFromYearIncreasing();
    BracketUnique(DayFromYear, z, y, d);
  }

  // ---------------------------------------------------------------------
  // Months

  /** The number of days of a year before its month `m`, counted from 0 = January. */
  function DaysBeforeMonth(m: int, leap: bool): (r: int)
    requires 0 <= m <= 12
    ensures m == 12 ==> r == if leap then 366 else 365
  {
    var common :=
      if m < 6 then
        (if m == 0 then 0 else if m == 1 then 31 else if m == 2 then 59
         else if m == 3 then 90 else if m == 4 then 120 else 151)
      else
        (if m == 6 then 181 else if m == 7 then 212 else if m == 8 then 243
         else if m == 9 then 273 else if m == 10 then 304 else if m == 11 then 334 else 365);
    common + (if leap && m >= 2 then 1 else 0)
  }

  lemma DaysBeforeMonthIncreasing(a: int, b: int, leap: bool)
    requires 0 <= a < b <= 12
    ensures DaysBeforeMonth(a, leap) + 28 <= DaysBeforeMonth(b, leap)
    decreases b - a
  {
    if a + 1 < b {
      DaysBeforeMonthIncreasing(a + 1, b, leap);
    }
  }

  /** The length of month `m` (1 = January) of year `y`. */
  function DaysInMonth(y: int, m: int): (r: int)
    requires 1 <= m <= 12
    ensures 28 <= r <= 31
    ensures m == 2 ==> (r == 29 <==> InLeapYear(y))
    ensures m == 4 || m == 6 || m == 9 || m == 11 ==> r == 30
    ensures m == 1 || m == 3 || m == 5 || m == 7 || m == 8 || m == 10 || m == 12 ==> r == 31
  {
    DaysBeforeMonth(m, InLeapYear(y)) - DaysBeforeMonth(m - 1, InLeapYear(y))
  }

  /** Some month from `m` on holds day `dwy` of the year. */
  lemma MonthSearch(dwy: int, leap: bool, m: int) returns (r: int)
    requires 0 <= m <= 11
    requires DaysBeforeMonth(m, leap) <= dwy < DaysBeforeMonth(12, leap)
    ensures m <= r <= 11
    ensures DaysBeforeMonth(r, leap) <= dwy < DaysBeforeMonth(r + 1, leap)
    decreases 11 - m
  {
    if dwy < DaysBeforeMonth(m + 1, leap) {
      r := m;
    } else {
      r := MonthSearch(dwy, leap, m + 1);
    }
  }

  lemma MonthExists(dwy: int, leap: bool)
    requires 0 <= dwy < DaysBeforeMonth(12, leap)
    ensures exists m :: 0 <= m <= 11 && DaysBeforeMonth(m, leap) <= dwy < DaysBeforeMonth(m + 1, leap)
  {
    var m := MonthSearch(dwy, leap, 0);
    assert DaysBeforeMonth(m, leap) <= dwy < DaysBeforeMonth(m + 1, leap);
  }

  /** MonthFromTime from the day within the year, counted from 0 = January. */
  function MonthFromDayWithinYear(dwy: int, leap: bool): (m: int)
    requires 0 <= dwy < DaysBeforeMonth(12, leap)
    ensures 0 <= m <= 11
    ensures DaysBeforeMonth(m, leap) <= dwy < DaysBeforeMonth(m + 1, leap)
  {
    MonthExists(dwy, leap);
    MonthsContainingDayAll(dwy, leap);
    var m :| 0 <= m <= 11 && DaysBeforeMonth(m, leap) <= dwy < DaysBeforeMonth(m + 1, leap);
    m
  }

  lemma MonthsContainingDayAll(dwy: int, leap: bool)
    ensures forall m, n ::
      (0 <= m <= 11 && DaysBeforeMonth(m, leap) <= dwy < DaysBeforeMonth(m + 1, leap) &&
       0 <= n <= 11 && DaysBeforeMonth(n, leap) <= dwy < DaysBeforeMonth(n + 1, leap)) ==> m == n
  {
    forall m, n |
      0 <= m <= 11 && DaysBeforeMonth(m, leap) <= dwy < DaysBeforeMonth(m + 1, leap) &&
      0 <= n <= 11 && DaysBeforeMonth(n, leap) <= dwy < DaysBeforeMonth(n + 1, leap)
      ensures m == n
    {
      MonthsContainingDay(m, n, dwy, leap);
    }
  }

  // ---------------------------------------------------------------------
  // Building and reading time values

  /** MakeDay: the day number of date `date` of month `month` (0-based, any range) of `year`. */
  function MakeDay(year: int, month: int, date: int): int {
    var ym := year + month / 12;
    var mn := month % 12;
    DayFromYear(ym) + DaysBeforeMonth(mn, InLeapYear(ym)) + date - 1
  }

  /** MakeTime in seconds. */
  function MakeTime(hour: int, minute: int, second: int): int {
    hour * 3600 + minute * 60 + second
  }

  /** MakeDate in seconds. */
  function MakeDate(day: int, time: int): int {
    day * 86400 + time
  }

  /** TimeClip: a time value beyond 8.64e15 milliseconds from the epoch is NaN (`None`). */
  function TimeClip(t: int): (r: Option<int>)
    ensures r.Some? <==> -MaxTimeSeconds <= t <= MaxTimeSeconds
    ensures r.Some? ==> r.value == t
  {
    if t < -MaxTimeSeconds || t > MaxTimeSeconds then None else Some(t)
  }

  /** The time value that calendar fields denote, with every field allowed out of range. */
  function CivilSeconds(c: Civil): int {
    MakeDate(MakeDay(c.year, c.month - 1, c.day), MakeTime(c.hour, c.minute, c.second))
  }

  /** The date is a real day of its month (month counted from 1). */
  predicate ValidDate(year: int, month: int, day: int) {
    1 <= month <= 12 && 1 <= day <= DaysInMonth(year, month)
  }

  /** The fields are the canonical reading of some instant. */
  predicate Canonical(c: Civil) {
    && ValidDate(c.year, c.month, c.day)
    && 0 <= c.hour < 24
    && 0 <= c.minute < 60
    && 0 <= c.second < 60
  }

  /** Within one year MakeDay is a plain sum. */
  lemma MakeDayInYear(year: int, m: int, date: int)
    requires 0 <= m <= 11
    ensures MakeDay(year, m, date) == DayFromYear(year) + DaysBeforeMonth(m, InLeapYear(year)) + date - 1
  {
    assert m / 12 == 0 && m % 12 == m;
  }

  /** The day number's place in its year, as year, month (from 0) and day within the year. */
  function PlaceInYear(day: int): (r: (int, int, int))
    ensures DayFromYear(r.0) + r.2 == day
    ensures 0 <= r.1 <= 11
    ensures DaysBeforeMonth(r.1, InLeapYear(r.0)) <= r.2 < DaysBeforeMonth(r.1 + 1, InLeapYear(r.0))
  {
    var y := YearFromDay(day);
    DayFromYearStep(y);
    var dwy := day - DayFromYear(y);
    (y, MonthFromDayWithinYear(dwy, InLeapYear(y)), dwy)
  }

  /** YearFromTime, MonthFromTime + 1 and DateFromTime of a day number. */
  function DateFromDay(day: int): (r: (int, int, int))
    ensures ValidDate(r.0, r.1, r.2)
    ensures MakeDay(r.0, r.1 - 1, r.2) == day
  {
    var p := PlaceInYear(day);
    var date := p.2 - DaysBeforeMonth(p.1, InLeapYear(p.0)) + 1;
    MakeDayInYear(p.0, p.1, date);
    (p.0, p.1 + 1, date)
  }

  lemma PlaceInYearUnique(year: int, m: int, dwy: int, day: int)
    requires 0 <= m <= 11
    requires DaysBeforeMonth(m, InLeapYear(year)) <= dwy < DaysBeforeMonth(m + 1, InLeapYear(year))
    requires day == DayFromYear(year) + dwy
    ensures PlaceInYear(day) == (year, m, dwy)
  {
    PlacesAgree(PlaceInYear(day), (year, m, dwy));
  }

  /** Two places in a year that satisfy the contract of PlaceInYear for the same day are equal. */
  lemma PlacesAgree(p: (int, int, int), q: (int, int, int))
    requires 0 <= p.1 <= 11 && 0 <= q.1 <= 11
    requires DaysBeforeMonth(p.1, InLeapYear(p.0)) <= p.2 < DaysBeforeMonth(p.1 + 1, InLeapYear(p.0))
    requires DaysBeforeMonth(q.1, InLeapYear(q.0)) <= q.2 < DaysBeforeMonth(q.1 + 1, InLeapYear(q.0))
    requires DayFromYear(p.0) + p.2 == DayFromYear(q.0) + q.2
    ensures p == q
  {
    var d := DayFromYear(p.0) + p.2;
    DaysInYearBound(p.1, p.2, p.0);
    DaysInYearBound(q.1, q.2, q.0);
    YearsContainingDay(p.0, q.0, d);
    MonthsContainingDay(p.1, q.1, p.2, InLeapYear(p.0));
  }

  lemma DaysInYearBound(m: int, dwy: int, year: int)
    requires 0 <= m <= 11
    requires DaysBeforeMonth(m, InLeapYear(year)) <= dwy < DaysBeforeMonth(m + 1, InLeapYear(year))
    ensures 0 <= dwy < DaysInYear(year)
    ensures DayFromYear(year) <= DayFromYear(year) + dwy < DayFromYear(year + 1)
  {
    DayFromYearStep(year);
    if m + 1 < 12 {
      DaysBeforeMonthIncreasing(m + 1, 12, InLeapYear(year));
    }
  }

  lemma MonthsContainingDay(m: int, n: int, dwy: int, leap: bool)
    requires 0 <= m <= 11 && 0 <= n <= 11
    requires DaysBeforeMonth(m, leap) <= dwy < DaysBeforeMonth(m + 1, leap)
    requires DaysBeforeMonth(n, leap) <= dwy < DaysBeforeMonth(n + 1, leap)
    ensures m == n
  {
    if n < m {
      DaysBeforeMonthIncreasing(n + 1, m, leap);
    } else if n > m {
      DaysBeforeMonthIncreasing(m + 1, n, leap);
    }
  }

  /** A valid date is read back unchanged from its day number. */
  lemma DateFromDayRoundTrip(year: int, month: int, date: int, day: int)
    requires ValidDate(year, month, date)
    requires day == MakeDay(year, month - 1, date)
    ensures DateFromDay(day) == (year, month, date)
  {
    var m := month - 1;
    var dwy := day - DayFromYear(year);
    MakeDayInYear(year, m, date);
    PlaceInYearUnique(year, m, dwy, day);
    DateFromPlace(day, year, m, dwy);
  }

  /** The date of a day number, from its place in the year. */
  lemma DateFromPlace(day: int, year: int, m: int, dwy: int)
    requires PlaceInYear(day) == (year, m, dwy)
    ensures DateFromDay(day) == (year, m + 1, dwy - DaysBeforeMonth(m, InLeapYear(year)) + 1)
  {
    var p := PlaceInYear(day);
    assert p.0 == year && p.1 == m && p.2 == dwy;
  }

  /** A second of the day splits into hours, minutes and seconds. */
  lemma ClockSplit(sid: int)
    requires 0 <= sid < 86400
    ensures 0 <= sid / 3600 < 24 && 0 <= sid / 60 % 60 < 60 && 0 <= sid % 60 < 60
    ensures MakeTime(sid / 3600, sid / 60 % 60, sid % 60) == sid
  {
  }

  lemma ClockRoundTrip(h: int, m: int, s: int)
    requires 0 <= h < 24 && 0 <= m < 60 && 0 <= s < 60
    ensures var sid := MakeTime(h, m, s);
      0 <= sid < 86400 && sid / 3600 == h && sid / 60 % 60 == m && sid % 60 == s
  {
  }

  /**
   * The local getters of a Date: getFullYear, getMonth + 1, getDate, getHours,
   * getMinutes, getSeconds of time value `t`. The result is canonical and denotes `t`.
   */
  function CivilFromSeconds(t: int): (c: Civil)
    ensures Canonical(c)
    ensures CivilSeconds(c) == t
  {
    var day := t / 86400;
    var sid := t % 86400;
    var date := DateFromDay(day);
    ClockSplit(sid);
    CivilOfParts(t, day, sid, date.0, date.1, date.2);
    Civil(date.0, date.1, date.2, sid / 3600, sid / 60 % 60, sid % 60)
  }

  lemma CivilOfParts(t: int, day: int, sid: int, year: int, month: int, date: int)
    requires t == day * 86400 + sid && 0 <= sid < 86400
    requires MakeDay(year, month - 1, date) == day
    ensures CivilSeconds(Civil(year, month, date, sid / 3600, sid / 60 % 60, sid % 60)) == t
  {
    var c := Civil(year, month, date, sid / 3600, sid / 60 % 60, sid % 60);
    CivilSecondsOfDay(c, day);
    assert MakeTime(c.hour, c.minute, c.second) == sid by {
      ClockSplit(sid);
    }
  }

  /** Canonical fields are read back unchanged from the time value they denote. */
  lemma CivilRoundTrip(c: Civil)
    requires Canonical(c)
    ensures CivilFromSeconds(CivilSeconds(c)) == c
  {
    var day := MakeDay(c.year, c.month - 1, c.day);
    var sid := MakeTime(c.hour, c.minute, c.second);
    ClockRoundTrip(c.hour, c.minute, c.second);
    var t := CivilSeconds(c);
    assert t == day * 86400 + sid;
    assert t / 86400 == day && t % 86400 == sid;
    DateFromDayRoundTrip(c.year, c.month, c.day, day);
  }

  /** Two canonical readings of the same time value are equal. */
  lemma CanonicalUnique(c: Civil, e: Civil)
    requires Canonical(c) && Canonical(e)
    requires CivilSeconds(c) == CivilSeconds(e)
    ensures c == e
  {
    CivilRoundTrip(c);
    CivilRoundTrip(e);
  }

  /** The time value of fields whose day number is known. */
  lemma CivilSecondsOfDay(c: Civil, day: int)
    requires MakeDay(c.year, c.month - 1, c.day) == day
    ensures CivilSeconds(c) == day * 86400 + c.hour * 3600 + c.minute * 60 + c.second
  {
  }

  /** Adding `k` minutes to the fields moves their time value by `60 * k` seconds. */
  lemma CivilSecondsMoved(c: Civil, k: int)
    ensures CivilSeconds(c.(minute := c.minute + k)) == CivilSeconds(c) + 60 * k
  {
    var e := c.(minute := c.minute + k);
    var d := MakeDay(c.year, c.month - 1, c.day);
    CivilSecondsOfDay(c, d);
    SameMakeDay(e.year, e.month - 1, e.day, c.year, c.month - 1, c.day);
    CivilSecondsOfDay(e, d);
  }

  /** MakeDay moves one day per unit of its date argument. */
  lemma MakeDayShift(year: int, month: int, date: int, date': int)
    ensures MakeDay(year, month, date') == MakeDay(year, month, date) + date' - date
  {
  }

  lemma SameMakeDay(y: int, m: int, d: int, y': int, m': int, d': int)
    requires y == y' && m == m' && d == d'
    ensures MakeDay(y, m, d) == MakeDay(y', m', d')
  {
  }

  /** Canonical fields split their time value into the day number and the second of the day. */
  lemma DayOfCanonical(c: Civil)
    requires Canonical(c)
    ensures CivilSeconds(c) / 86400 == MakeDay(c.year, c.month - 1, c.day)
    ensures CivilSeconds(c) % 86400 == MakeTime(c.hour, c.minute, c.second)
  {
    var day := MakeDay(c.year, c.month - 1, c.day);
    var sid := MakeTime(c.hour, c.minute, c.second);
    ClockRoundTrip(c.hour, c.minute, c.second);
    CivilSecondsOfDay(c, day);
    DaySplit(day, sid, CivilSeconds(c));
  }

  /** A time value splits into its day number and the second within that day. */
  lemma DaySplit(day: int, sid: int, t: int)
    requires 0 <= sid < 86400 && t == day * 86400 + sid
    ensures t / 86400 == day && t % 86400 == sid
  {
  }

  /** Canonical fields name the same date exactly when their time values fall on the same day. */
  lemma SameDateSameDay(c: Civil, e: Civil)
    requires Canonical(c) && Canonical(e)
    ensures (c.year == e.year && c.month == e.month && c.day == e.day) <==> CivilSeconds(c) / 86400 == CivilSeconds(e) / 86400
  {
    DayOfCanonical(c);
    DayOfCanonical(e);
    var dc := MakeDay(c.year, c.month - 1, c.day);
    var de := MakeDay(e.year, e.month - 1, e.day);
    if c.year == e.year && c.month == e.month && c.day == e.day {
      SameMakeDay(c.year, c.month - 1, c.day, e.year, e.month - 1, e.day);
    }
    if dc == de {
      DayNumberDeterminesDate(c, dc);
      DayNumberDeterminesDate(e, de);
    }
  }

  /** The day number of canonical fields reads back as their date. */
  lemma DayNumberDeterminesDate(c: Civil, d: int)
    requires Canonical(c) && d == MakeDay(c.year, c.month - 1, c.day)
    ensures DateFromDay(d) == (c.year, c.month, c.day)
  {
    DateFromDayRoundTrip(c.year, c.month, c.day, d);
  }

  /** The reading of midnight at the start of day `d`: the date of that day, clock at zero. */
  lemma MidnightReading(d: int)
    ensures CivilFromSeconds(86400 * d) == Civil(DateFromDay(d).0, DateFromDay(d).1, DateFromDay(d).2, 0, 0, 0)
  {
    assert (86400 * d) / 86400 == d && (86400 * d) % 86400 == 0;
  }

  /** Canonical fields of the years 0 to 9999 lie well inside the TimeClip bound. */
  lemma FourDigitYearsClipped(c: Civil)
    requires Canonical(c) && 0 <= c.year <= 9999
    ensures -MaxTimeSeconds <= CivilSeconds(c) <= MaxTimeSeconds
    ensures -719528 <= MakeDay(c.year, c.month - 1, c.day) < 2932897
  {
    var day := MakeDay(c.year, c.month - 1, c.day);
    MakeDayInYear(c.year, c.month - 1, c.day);
    DaysBeforeMonthIncreasing(c.month - 1, c.month, InLeapYear(c.year));
    DaysInYearBound(c.month - 1, day - DayFromYear(c.year), c.year);
    DayFromYearMonotone(0, c.year);
    DayFromYearMonotone(c.year + 1, 10000);
    assert DayFromYear(0) == -719528 && DayFromYear(10000) == 2932897;
    assert -719528 <= day < 2932897;
    CivilSecondsOfDay(c, day);
  }

  // ---------------------------------------------------------------------
  // Date objects

  /**
   * The time value a Date object holds: NaN for an Invalid Date, else whole seconds from
   * the epoch (the floor of its milliseconds divided by 1000).
   */
  datatype Instant = Invalid | At(t: int)

  /** The year the Date constructor uses (section 21.4.2.1 of ECMA-262): 0 to 99 mean 1900 to 1999. */
  function FullYearArgument(y: int): (r: int)
    ensures 0 <= y <= 99 <==> r != y
    ensures 0 <= y <= 99 ==> r - y == 1900
  {
    if 0 <= y <= 99 then 1900 + y else y
  }

  /**
   * `new Date(year, monthIndex, date, hours, minutes, seconds, 0)` with whole-number
   * arguments and the local zone at offset zero: the instant the fields denote, each
   * allowed out of range, or an Invalid Date beyond the TimeClip bound.
   */
  function NewDate(year: int, monthIndex: int, date: int, hours: int, minutes: int, seconds: int): (r: Instant)
    ensures var t := CivilSeconds(Civil(FullYearArgument(year), monthIndex + 1, date, hours, minutes, seconds));
      && (r.At? <==> -MaxTimeSeconds <= t <= MaxTimeSeconds)
      && (r.At? ==> r.t == t)
  {
    match TimeClip(MakeDate(MakeDay(FullYearArgument(year), monthIndex, date), MakeTime(hours, minutes, seconds)))
    case None => Invalid
    case Some(t) => At(t)
  }

  /** The local getters of a Date: nothing for an Invalid Date (every getter yields NaN). */
  function LocalFields(d: Instant): (r: Option<Civil>)
    ensures r.None? <==> d.Invalid?
    ensures r.Some? ==> Canonical(r.value) && CivilSeconds(r.value) == d.t
  {
    match d
    case Invalid => None
    case At(t) => Some(CivilFromSeconds(t))
  }

  /** WeekDay: 0 is Sunday; day 0 (1970-01-01) was a Thursday. */
  function WeekDay(t: int): (r: int)
    ensures 0 <= r < 7
  {
    (t / 86400 + 4) % 7
  }

  /** A day later, the weekday is the next one. */
  lemma WeekDayNextDay(t: int)
    ensures WeekDay(t + 86400) == (WeekDay(t) + 1) % 7
  {
    assert (t + 86400) / 86400 == t / 86400 + 1;
  }
}
