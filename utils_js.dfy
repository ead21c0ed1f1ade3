/**
 * The older helpers of src/utils.js: `pad0`, whose width is `len || 2`, `toNumber`,
 * which is `parseInt(_, 10)` with NaN reported as `undefined`, and `toYear`.
 */
module UtilsJs {
  import opened Wrappers
  import opened JsValues
  import opened EcmaDate
  import Utils

  /** The width of `pad0`: `len || 2`, so a zero width also means 2. */
  function Width(len: Option<int>): int {
    if len.None? || len.value == 0 then 2 else len.value
  }

  /**
   * `pad0(number, len)`: the same padding as in src/utils.ts, except that a zero
   * length falls back to the default width.
   */
  function Pad0(a: Utils.PadArg, len: Option<int>): (r: string)
    ensures len != Some(0) ==> r == Utils.Pad0(a, len)
    ensures len == Some(0) ==> r == Utils.Pad0(a, None)
  {
    var w := Width(len);
    assert len != Some(0) ==> w == Utils.Width(len);
    assert len == Some(0) ==> w == Utils.Width(None);
    PadStart(Utils.ArgString(a), w)
  }

  /** The two `pad0`s differ on a zero length. */
  lemma Pad0ZeroLength()
    ensures Pad0(Utils.PadInt(5), Some(0)) == "05"
    ensures Utils.Pad0(Utils.PadInt(5), Some(0)) == "5"
  {
    assert IntToString(5) == "5";
  }

  /** `toNumber(str)`: the integer `parseInt(str, 10)` reads, or `undefined`. */
  function ToNumber(v: Value): (r: Option<int>)
    ensures r == Utils.ToInt(v)
  {
    ParseIntValue(v)
  }

  /** What `toYear` is given: a plain value or a Date. */
  datatype YearArg = YearValue(v: Value) | YearDate(d: Instant)

  /** `getFullYear()` of a Date; NaN for an Invalid Date. */
  function FullYear(d: Instant): (r: Value)
    ensures r.NaNValue? <==> d.Invalid?
    ensures d.At? ==> exists c :: Canonical(c) && CivilSeconds(c) == d.t && r == Num(c.year as real)
  {
    match LocalFields(d)
    case None => NaNValue
    case Some(c) => Num(c.year as real)
  }

  /** `toNumber`'s result as a JavaScript value. */
  function NumberOrUndefined(n: Option<int>): Value {
    match n
    case None => UndefinedValue
    case Some(i) => Num(i as real)
  }

  /**
   * `toYear(year)`: the current year (a parameter here) for a falsy argument, the full
   * year of a Date, `toNumber` of a string, and any other value as it is.
   */
  function ToYear(year: YearArg, currentYear: int): (r: Value)
    ensures year.YearValue? && !Truthy(year.v) ==> r == Num(currentYear as real)
    ensures year.YearDate? ==> r == FullYear(year.d)
    ensures year.YearValue? && year.v.Str? && year.v.s != "" ==> r == NumberOrUndefined(Utils.ToInt(year.v))
    ensures year.YearValue? && year.v.Num? && year.v.x != 0.0 ==> r == year.v
  {
    match year
    case YearDate(d) => FullYear(d)
    case YearValue(v) =>
      if !Truthy(v) then Num(currentYear as real)
      else if v.Str? then NumberOrUndefined(ToNumber(v))
      else v
  }

  /** A year written out as a string reads back as that year, zero included. */
  lemma ToYearOfString(i: int, currentYear: int)
    ensures ToYear(YearValue(Str(IntToString(i))), currentYear) == Num(i as real)
  {
    ParseIntIntToString(i, []);
    assert IntToString(i) + [] == IntToString(i);
  }

  /** The full year of the instant of canonical fields is their year. */
  lemma ToYearOfDate(c: Civil, currentYear: int)
    requires Canonical(c)
    ensures ToYear(YearDate(At(CivilSeconds(c))), currentYear) == Num(c.year as real)
  {
    CivilRoundTrip(c);
  }

  /** A number is returned as it is. */
  lemma ToYearOfNumber()
    ensures ToYear(YearValue(Num(2000.0)), 1999) == Num(2000.0)
  {
  }

  /** A numeric string is parsed. */
  lemma ToYearOfNumericString()
    ensures ToYear(YearValue(Str("2000")), 1999) == Num(2000.0)
  {
    assert IntToString(2000) == "2000";
    ToYearOfString(2000, 1999);
  }

  /** Without an argument, and for the empty string, the current year is used. */
  lemma ToYearOfNothing()
    ensures ToYear(YearValue(UndefinedValue), 2024) == Num(2024.0)
    ensures ToYear(YearValue(Str("")), 2024) == Num(2024.0)
  {
  }

  /** A string without leading digits gives `undefined`. */
  lemma ToYearOfText()
    ensures ToYear(YearValue(Str("abc")), 2024) == UndefinedValue
  {
    ParseIntLeadingNonDigit("abc");
  }
}
