/**
 * How `setOffset` (src/CalDate.ts) splits an offset of `number` days, hours or
 * minutes into whole days, hours, minutes and seconds: a chain of truncations,
 * each applied to the fraction the previous one left over, scaled to the next unit.
 */
module Offsets {
  import opened JsValues

  /** The unit of an offset: "d", "h", and anything else, which the chain treats as minutes. */
  datatype Unit = Days | Hours | Minutes

  function UnitOf(unit: string): Unit {
    if unit == "d" then Days else if unit == "h" then Hours else Minutes
  }

  /** The parts added to the day, hour, minute and second fields. */
  datatype Deltas = Deltas(day: int, hour: int, minute: int, second: int)

  /** The number of seconds the parts add up to. */
  function Seconds(d: Deltas): int {
    d.day * 86400 + d.hour * 3600 + d.minute * 60 + d.second
  }

  /**
   * The shift in whole seconds: all of a day offset, truncated to the second; of an
   * hour offset only its remainder modulo a day, and of any other offset (minutes)
   * only its remainder modulo an hour, since the `%` in the chain drops the rest.
   */
  function OffsetSeconds(n: real, unit: Unit): int {
    if unit == Days then Trunc(n * 86400.0)
    else if unit == Hours then Trunc(Rem(n, 24.0) * 3600.0)
    else Trunc(Rem(n, 60.0) * 60.0)
  }

  /** Integer division rounding toward zero. */
  function Quot(a: int, b: int): (q: int)
    requires b > 0
    ensures a >= 0 ==> 0 <= b * q <= a < b * q + b
    ensures a <= 0 ==> b * q - b < a <= b * q <= 0
  {
    if a >= 0 then a / b else -((-a) / b)
  }

  /** The remainder of `Quot`, with the sign of `a`. */
  function IntRem(a: int, b: int): (r: int)
    requires b > 0
    ensures a >= 0 ==> 0 <= r < b
    ensures a <= 0 ==> -b < r <= 0
  {
    a - b * Quot(a, b)
  }

  /**
   * The reference split: whole days as the chain takes them, then the remaining
   * seconds read as hours, minutes and seconds by division toward zero.
   */
  function Split(n: real, unit: Unit): (d: Deltas)
    ensures Seconds(d) == OffsetSeconds(n, unit)
  {
    var day := if unit == Days then Trunc(n) else 0;
    Clock(day, OffsetSeconds(n, unit) - 86400 * day)
  }

  /** Whole days, and the remaining seconds read as hours, minutes and seconds toward zero. */
  function Clock(day: int, rest: int): (d: Deltas)
    ensures Seconds(d) == 86400 * day + rest
  {
    var r := IntRem(rest, 3600);
    Deltas(day, Quot(rest, 3600), Quot(r, 60), IntRem(r, 60))
  }

  /** `x` has the sign `pos` stands for (zero has both). */
  predicate Signed(pos: bool, x: real) {
    if pos then x >= 0.0 else x <= 0.0
  }

  predicate SignedInt(pos: bool, k: int) {
    if pos then k >= 0 else k <= 0
  }

  /** Every part has the sign of the offset; hours stay within a day, minutes and seconds within 60. */
  predicate WellSplit(n: real, d: Deltas) {
    && SignedInt(n >= 0.0, d.day) && SignedInt(n >= 0.0, d.hour)
    && SignedInt(n >= 0.0, d.minute) && SignedInt(n >= 0.0, d.second)
    && -24 < d.hour < 24 && -60 < d.minute < 60 && -60 < d.second < 60
  }

  // ---------------------------------------------------------------------
  // Properties of the reference split

  /** What is left after the whole days has the sign of the offset and is less than a day. */
  lemma RestBounds(n: real, unit: Unit)
    ensures var rest := OffsetSeconds(n, unit) - 86400 * (if unit == Days then Trunc(n) else 0);
      && SignedInt(n >= 0.0, rest) && -86400 < rest < 86400
      && (unit != Days && unit != Hours ==> -3600 < rest < 3600)
  {
    if unit == Days {
      TruncSplit(n, 86400);
      var f := (n - Trunc(n) as real) * 86400.0;
      assert n >= 0.0 ==> 0.0 <= f < 86400.0;
      assert n <= 0.0 ==> -86400.0 < f <= 0.0;
    } else if unit == Hours {
      var f := Rem(n, 24.0) * 3600.0;
      assert n >= 0.0 ==> 0.0 <= f < 86400.0;
      assert n <= 0.0 ==> -86400.0 < f <= 0.0;
    } else {
      var f := Rem(n, 60.0) * 60.0;
      assert n >= 0.0 ==> 0.0 <= f < 3600.0;
      assert n <= 0.0 ==> -3600.0 < f <= 0.0;
    }
  }

  /**
   * The split has the sign of the offset and canonical clock ranges; the day part is
   * the truncated number of days, and an offset in neither days nor hours has no hours.
   */
  lemma SplitBounds(n: real, unit: Unit)
    ensures WellSplit(n, Split(n, unit))
    ensures Split(n, unit).day == if unit == Days then Trunc(n) else 0
    ensures unit != Days && unit != Hours ==> Split(n, unit).hour == 0
  {
    RestBounds(n, unit);
  }

  /** The split is the only well-signed clock reading of the shift. */
  lemma {:induction false} SplitUnique(n: real, unit: Unit, d: Deltas)
    requires WellSplit(n, d)
    requires d.day == if unit == Days then Trunc(n) else 0
    requires Seconds(d) == OffsetSeconds(n, unit)
    ensures d == Split(n, unit)
  {
    var rest := OffsetSeconds(n, unit) - 86400 * d.day;
    assert rest == d.hour * 3600 + d.minute * 60 + d.second;
    assert Split(n, unit) == Clock(d.day, rest);
    ClockUnique(n >= 0.0, d.day, rest, d.hour, d.minute, d.second);
  }

  lemma ClockUnique(pos: bool, day: int, rest: int, h: int, m: int, s: int)
    requires SignedInt(pos, h) && SignedInt(pos, m) && SignedInt(pos, s)
    requires -60 < m < 60 && -60 < s < 60
    requires rest == h * 3600 + m * 60 + s
    ensures Clock(day, rest) == Deltas(day, h, m, s)
  {
    assert Quot(rest, 3600) == h;
    assert IntRem(rest, 3600) == m * 60 + s;
  }

  // ---------------------------------------------------------------------
  // The steps of the chain

  /** JavaScript `%` of a value that is a small part `a` plus whole multiples of the divisor. */
  lemma RemShift(p: real, a: real, k: int, m: real)
    requires m == 24.0 || m == 60.0
    requires -m < a < m
    requires (a >= 0.0 && k >= 0) || (a <= 0.0 && k <= 0)
    requires p == a + m * k as real
    ensures Rem(p, m) == a
  {
    if m == 24.0 {
      TruncShift(p / 24.0, k, a / 24.0);
    } else {
      TruncShift(p / 60.0, k, a / 60.0);
    }
  }

  /**
   * The hour step on `number == b + 24 * k` (`b` below a day): it takes `trunc(b)` hours
   * and leaves, scaled to minutes, `a + 60 * (24 * k)` with `a` below an hour.
   */
  lemma HourStep(pos: bool, p: real, b: real, k: int)
    requires -24.0 < b < 24.0 && Signed(pos, b) && SignedInt(pos, k)
    requires p == b + 24.0 * k as real
    ensures Trunc(Rem(p, 24.0)) == Trunc(b)
    ensures var a := (b - Trunc(b) as real) * 60.0;
      && -60.0 < a < 60.0 && Signed(pos, a)
      && (p - Trunc(b) as real) * 60.0 == a + 60.0 * (24 * k) as real
      && Trunc(b * 3600.0) == 3600 * Trunc(b) + Trunc(a * 60.0)
  {
    RemShift(p, b, k, 24.0);
    TruncSplit(b, 3600);
    var a := (b - Trunc(b) as real) * 60.0;
    assert (b - Trunc(b) as real) * 3600.0 == a * 60.0;
  }

  /**
   * The minute step on `number == a + 60 * k` (`a` below an hour, in minutes): it takes
   * `trunc(a)` minutes and leaves, scaled to seconds, `c + 60 * (60 * k)` with `c` below a minute.
   */
  lemma MinuteStep(pos: bool, p: real, a: real, k: int)
    requires -60.0 < a < 60.0 && Signed(pos, a) && SignedInt(pos, k)
    requires p == a + 60.0 * k as real
    ensures Trunc(Rem(p, 60.0)) == Trunc(a)
    ensures var c := (a - Trunc(a) as real) * 60.0;
      && -60.0 < c < 60.0 && Signed(pos, c)
      && (p - Trunc(a) as real) * 60.0 == c + 60.0 * (60 * k) as real
      && Trunc(a * 60.0) == 60 * Trunc(a) + Trunc(c)
  {
    RemShift(p, a, k, 60.0);
    TruncSplit(a, 60);
  }

  /** The second step: what is left below a minute, plus whole minutes, is truncated to seconds. */
  lemma SecondStep(pos: bool, q: real, c: real, k: int)
    requires -60.0 < c < 60.0 && Signed(pos, c) && SignedInt(pos, k)
    requires q == c + 60.0 * (60 * k) as real
    ensures Trunc(Rem(q, 60.0)) == Trunc(c)
  {
    RemShift(q, c, 60 * k, 60.0);
  }

  /** The minute and second steps together take the truncated seconds of `a` minutes. */
  lemma MinuteSecondSteps(pos: bool, p: real, a: real, k: int, minute: int, second: int)
    requires -60.0 < a < 60.0 && Signed(pos, a) && SignedInt(pos, k)
    requires p == a + 60.0 * k as real
    requires minute == Trunc(Rem(p, 60.0))
    requires second == Trunc(Rem((p - minute as real) * 60.0, 60.0))
    ensures minute * 60 + second == Trunc(a * 60.0)
    ensures SignedInt(pos, minute) && SignedInt(pos, second)
    ensures -60 < minute < 60 && -60 < second < 60
  {
    MinuteStep(pos, p, a, k);
    var c := (a - Trunc(a) as real) * 60.0;
    SecondStep(pos, (p - minute as real) * 60.0, c, k);
  }

  /** The day step: the whole days, and the fraction of a day left, scaled to hours. */
  lemma DayStep(n: real)
    ensures var b := (n - Trunc(n) as real) * 24.0;
      && -24.0 < b < 24.0 && Signed(n >= 0.0, b)
      && Trunc(n * 86400.0) == 86400 * Trunc(n) + Trunc(b * 3600.0)
  {
    TruncSplit(n, 86400);
    var b := (n - Trunc(n) as real) * 24.0;
    assert (n - Trunc(n) as real) * 86400.0 == b * 3600.0;
  }

  /** An offset in hours enters the hour step as its remainder modulo a day plus whole days. */
  lemma HoursEntry(n: real)
    ensures var b := Rem(n, 24.0);
      && -24.0 < b < 24.0 && Signed(n >= 0.0, b) && SignedInt(n >= 0.0, Trunc(n / 24.0))
      && n == b + 24.0 * Trunc(n / 24.0) as real
  {
  }

  /** Any other offset enters the minute step as its remainder modulo an hour plus whole hours. */
  lemma MinutesEntry(n: real)
    ensures var a := Rem(n, 60.0);
      && -60.0 < a < 60.0 && Signed(n >= 0.0, a) && SignedInt(n >= 0.0, Trunc(n / 60.0))
      && n == a + 60.0 * Trunc(n / 60.0) as real
  {
  }

  // ---------------------------------------------------------------------
  // The chain

  /**
   * The decomposition of setOffset with `hour` starting at 0, as `day` does: the parts
   * are the reference split (which `SplitBounds` shows to have the offset's sign and
   * clock ranges, and which adds up to the truncated shift).
   */
  method Decompose(n: real, unit: Unit) returns (d: Deltas)
    ensures d == Split(n, unit)
  {
    var number := n;
    var day, hour := 0, 0;
    if unit == Days {
      day := Trunc(number);
      number := number - day as real;
      number := number * 24.0;
    }
    ghost var afterDays := number;
    if unit == Days || unit == Hours {
      hour := Trunc(Rem(number, 24.0));
      number := number - hour as real;
      number := number * 60.0;
    }
    ghost var afterHours := number;
    var minute := Trunc(Rem(number, 60.0));
    number := number - minute as real;
    number := number * 60.0;
    var second := Trunc(Rem(number, 60.0));
    d := Deltas(day, hour, minute, second);
    match unit
    case Days => ChainDays(n, afterDays, afterHours, d);
    case Hours => ChainHours(n, afterHours, d);
    case Minutes => ChainMinutes(n, d);
  }

  /** The chain for an offset in days computes the reference split. */
  lemma ChainDays(n: real, r1: real, r2: real, d: Deltas)
    requires d.day == Trunc(n) && r1 == (n - d.day as real) * 24.0
    requires d.hour == Trunc(Rem(r1, 24.0)) && r2 == (r1 - d.hour as real) * 60.0
    requires d.minute == Trunc(Rem(r2, 60.0))
    requires d.second == Trunc(Rem((r2 - d.minute as real) * 60.0, 60.0))
    ensures d == Split(n, Days)
  {
    var pos := n >= 0.0;
    DayStep(n);
    HourStep(pos, r1, r1, 0);
    MinuteSecondSteps(pos, r2, r2, 0, d.minute, d.second);
    assert OffsetSeconds(n, Days) == 86400 * d.day + 3600 * d.hour + Trunc(r2 * 60.0);
    SplitUnique(n, Days, d);
  }

  /** The chain for an offset in hours computes the reference split. */
  lemma ChainHours(n: real, r2: real, d: Deltas)
    requires d.day == 0
    requires d.hour == Trunc(Rem(n, 24.0)) && r2 == (n - d.hour as real) * 60.0
    requires d.minute == Trunc(Rem(r2, 60.0))
    requires d.second == Trunc(Rem((r2 - d.minute as real) * 60.0, 60.0))
    ensures d == Split(n, Hours)
  {
    var pos := n >= 0.0;
    HoursEntry(n);
    var b, j := Rem(n, 24.0), Trunc(n / 24.0);
    HourStep(pos, n, b, j);
    var a := (b - d.hour as real) * 60.0;
    MinuteSecondSteps(pos, r2, a, 24 * j, d.minute, d.second);
    assert OffsetSeconds(n, Hours) == 3600 * d.hour + Trunc(a * 60.0);
    SplitUnique(n, Hours, d);
  }

  /** The chain for an offset in minutes (or any other unit, with no hours taken) computes the reference split. */
  lemma ChainMinutes(n: real, d: Deltas)
    requires d.day == 0 && d.hour == 0
    requires d.minute == Trunc(Rem(n, 60.0))
    requires d.second == Trunc(Rem((n - d.minute as real) * 60.0, 60.0))
    ensures d == Split(n, Minutes)
  {
    var pos := n >= 0.0;
    MinutesEntry(n);
    MinuteSecondSteps(pos, n, Rem(n, 60.0), Trunc(n / 60.0), d.minute, d.second);
    SplitUnique(n, Minutes, d);
  }

  /**
   * The hour part as src/CalDate.ts computes it: `o.hour` is only assigned for the units
   * 'd' and 'h', so for any other unit it is `undefined`.
   */
  function HourPartAsWritten(n: real, unit: Unit): (r: JsNum)
    ensures r.Undefined? <==> unit == Minutes
    ensures r.Int? ==> r.i == Split(n, unit).hour
  {
    if unit == Minutes then Undefined else Int(Split(n, unit).hour)
  }

  /**
   * The chain exactly as src/CalDate.ts writes it: `hour` is only assigned for days and
   * hours, so for any other unit it stays `undefined`.
   */
  method DecomposeAsWritten(n: real, unit: Unit) returns (day: int, hour: JsNum, minute: int, second: int)
    ensures hour == HourPartAsWritten(n, unit)
    ensures day == Split(n, unit).day && minute == Split(n, unit).minute && second == Split(n, unit).second
  {
    var number := n;
    day, hour := 0, Undefined;
    if unit == Days {
      day := Trunc(number);
      number := number - day as real;
      number := number * 24.0;
    }
    ghost var afterDays := number;
    if unit == Days || unit == Hours {
      var h := Trunc(Rem(number, 24.0));
      hour := Int(h);
      number := number - h as real;
      number := number * 60.0;
    }
    ghost var afterHours := number;
    minute := Trunc(Rem(number, 60.0));
    number := number - minute as real;
    number := number * 60.0;
    second := Trunc(Rem(number, 60.0));
    match unit
    case Days => ChainDays(n, afterDays, afterHours, Deltas(day, hour.i, minute, second));
    case Hours => ChainHours(n, afterHours, Deltas(day, hour.i, minute, second));
    case Minutes => ChainMinutes(n, Deltas(day, 0, minute, second));
  }

  // ---------------------------------------------------------------------
  // Values

  /** 1.55 days are one day, 13 hours and 12 minutes. */
  lemma SplitDaysFraction()
    ensures Split(1.55, Days) == Deltas(1, 13, 12, 0)
  {
    assert Trunc(1.55) == 1;
    TruncOfInt(133920);
    assert OffsetSeconds(1.55, Days) == 133920;
    SplitUnique(1.55, Days, Deltas(1, 13, 12, 0));
  }

  /** 12.555 hours are 12:33:18 in exact arithmetic. */
  lemma SplitHoursFraction()
    ensures Split(12.555, Hours) == Deltas(0, 12, 33, 18)
  {
    RemShift(12.555, 12.555, 0, 24.0);
    TruncOfInt(45198);
    assert OffsetSeconds(12.555, Hours) == 45198;
    SplitUnique(12.555, Hours, Deltas(0, 12, 33, 18));
  }

  lemma SplitWholeDays()
    ensures Split(5.0, Days) == Deltas(5, 0, 0, 0)
  {
    TruncOfInt(5);
    TruncOfInt(432000);
    assert OffsetSeconds(5.0, Days) == 432000;
    SplitUnique(5.0, Days, Deltas(5, 0, 0, 0));
  }

  lemma SplitWholeHours()
    ensures Split(12.0, Hours) == Deltas(0, 12, 0, 0)
  {
    RemShift(12.0, 12.0, 0, 24.0);
    TruncOfInt(43200);
    assert OffsetSeconds(12.0, Hours) == 43200;
    SplitUnique(12.0, Hours, Deltas(0, 12, 0, 0));
  }

  /** A negative offset is split into negative parts. */
  lemma SplitNegative()
    ensures Split(-1.5, Days) == Deltas(-1, -12, 0, 0)
  {
    assert Trunc(-1.5) == -1;
    TruncOfInt(-129600);
    assert OffsetSeconds(-1.5, Days) == -129600;
    SplitUnique(-1.5, Days, Deltas(-1, -12, 0, 0));
  }

  /** Of an hour offset only its part below a day is taken ... */
  lemma SplitHoursBeyondDay()
    ensures Split(30.0, Hours) == Deltas(0, 6, 0, 0)
  {
    RemShift(30.0, 6.0, 1, 24.0);
    TruncOfInt(21600);
    assert OffsetSeconds(30.0, Hours) == 21600;
    SplitUnique(30.0, Hours, Deltas(0, 6, 0, 0));
  }

  /** ... and of a minute offset only its part below an hour. */
  lemma SplitMinutesBeyondHour()
    ensures Split(90.0, Minutes) == Deltas(0, 0, 30, 0)
  {
    RemShift(90.0, 30.0, 1, 60.0);
    TruncOfInt(1800);
    assert OffsetSeconds(90.0, Minutes) == 1800;
    SplitUnique(90.0, Minutes, Deltas(0, 0, 30, 0));
  }
}
