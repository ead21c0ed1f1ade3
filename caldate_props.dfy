/**
 * Properties of the CalDate model: what construction, `set`, the normaliser,
 * `setOffset`, `setTime`/`toEndDate`, `isEqualDate`, `getDay` and `toString` promise,
 * and the values the repository's tests state.
 */
module CalDateProperties {
  import opened Wrappers
  import opened JsValues
  import opened EcmaDate
  import Utils
  import opened Offsets
  import opened CalDates

  /** 1900-01-01 00:00:00 with a duration of 24 hours. */
  const DefaultSnapshot: Snapshot := Snapshot(Fields(Int(1900), Int(1), Int(1), Int(0), Int(0), Int(0)), Some(24.0))

  /** The Date a time value denotes, an Invalid Date beyond the TimeClip bound. */
  function Clipped(t: int): (r: Instant)
    ensures r.At? <==> -MaxTimeSeconds <= t <= MaxTimeSeconds
    ensures r.At? ==> r.t == t
  {
    if -MaxTimeSeconds <= t <= MaxTimeSeconds then At(t) else Invalid
  }

  /** The calendar fields as they stand, without the two-digit year mapping. */
  function Reading(f: Fields): EcmaDate.Civil
    requires AllInt(f)
  {
    EcmaDate.Civil(f.year.i, f.month.i, f.day.i, f.hour.i, f.minute.i, f.second.i)
  }

  // ---------------------------------------------------------------------
  // Construction and set

  /** `new CalDate()` holds the defaults: 1900-01-01 00:00:00, duration 24. */
  lemma DefaultsConstruct()
    ensures Construct(NoArg) == DefaultSnapshot
  {
    TruncOfInt(1900);
    TruncOfInt(1);
    TruncOfInt(0);
  }

  /**
   * `new CalDate(opts)`: every field is `toInt` of the merged option, the year
   * excepted when a month comes without a year: that year is `undefined`.
   */
  lemma ConstructFromOptions(opts: map<Key, Value>)
    ensures var f := Construct(OptionsArg(opts)).fields;
      && (forall p :: p != Year ==> Prop(f, p) == ToIntNum(Get(Defaults + opts, PropKey(p))))
      && f.year == if Truthy(Get(opts, PropKey(Month))) && !Truthy(Get(opts, PropKey(Year))) then Undefined
                   else ToIntNum(Get(Defaults + opts, PropKey(Year)))
  {
    forall p | p != Year
      ensures Prop(Construct(OptionsArg(opts)).fields, p) == ToIntNum(Get(Defaults + opts, PropKey(p)))
    {
      ConstructProp(opts, p);
    }
    ConstructYear(opts);
  }

  lemma ConstructProp(opts: map<Key, Value>, p: PropName)
    requires p != Year
    ensures Prop(Construct(OptionsArg(opts)).fields, p) == ToIntNum(Get(Defaults + opts, PropKey(p)))
  {
    var m := Merge(opts);
    var v := Get(Defaults + opts, PropKey(p));
    ConstructOptions(opts, m);
    MergedProp(opts, p, m, v);
    SetPropsProp(Unset.fields, m, p, v);
  }

  lemma ConstructOptions(opts: map<Key, Value>, m: map<Key, Value>)
    requires m == Merge(opts)
    ensures Construct(OptionsArg(opts)).fields == SetProps(Unset.fields, m)
  {
    assert Construct(OptionsArg(opts)) == ApplyOptions(Unset, m);
  }

  /** The merged options carry every property but the year as `Object.assign` leaves it. */
  lemma MergedProp(opts: map<Key, Value>, p: PropName, m: map<Key, Value>, v: Value)
    requires p != Year && m == Merge(opts) && v == Get(Defaults + opts, PropKey(p))
    ensures PropKey(p) in m && m[PropKey(p)] == v
  {
    assert PropKey(p) in Defaults by {
      match p
      case Month =>
      case Day =>
      case Hour =>
      case Minute =>
      case Second =>
    }
  }

  lemma SetPropsProp(f: Fields, m: map<Key, Value>, p: PropName, v: Value)
    requires PropKey(p) in m && m[PropKey(p)] == v
    ensures Prop(SetProps(f, m), p) == ToIntNum(v)
  {
  }

  lemma ConstructYear(opts: map<Key, Value>)
    ensures Construct(OptionsArg(opts)).fields.year
         == if Truthy(Get(opts, PropKey(Month))) && !Truthy(Get(opts, PropKey(Year))) then Undefined
            else ToIntNum(Get(Defaults + opts, PropKey(Year)))
  {
    var m := Merge(opts);
    ConstructOptions(opts, m);
    SetPropsProp(Unset.fields, m, Year, m[PropKey(Year)]);
  }

  /** A month without a year leaves the year `undefined`, whatever else is given. */
  lemma MonthWithoutYear(opts: map<Key, Value>)
    requires Truthy(Get(opts, PropKey(Month))) && !Truthy(Get(opts, PropKey(Year)))
    ensures Construct(OptionsArg(opts)).fields.year == Undefined
  {
    ConstructFromOptions(opts);
  }

  /**
   * `set(opts)`: each property present in the options becomes `toInt` of its value,
   * `undefined` when that does not parse; the others keep their value.
   */
  lemma SetOptionsFields(s: Snapshot, opts: map<Key, Value>, p: PropName)
    ensures PropKey(p) in opts && Utils.ToInt(opts[PropKey(p)]).None? ==> Prop(ApplyOptions(s, opts).fields, p) == Undefined
    ensures PropKey(p) in opts && Utils.ToInt(opts[PropKey(p)]).Some? ==>
      Prop(ApplyOptions(s, opts).fields, p) == Int(Utils.ToInt(opts[PropKey(p)]).value)
    ensures PropKey(p) !in opts ==> Prop(ApplyOptions(s, opts).fields, p) == Prop(s.fields, p)
  {
  }

  /** `set(opts)` copies the duration only when it is truthy, as `Number(duration)`. */
  lemma SetOptionsDuration(s: Snapshot, opts: map<Key, Value>)
    ensures !Truthy(Get(opts, DurationKey)) ==> ApplyOptions(s, opts).duration == s.duration
    ensures forall x :: Get(opts, DurationKey) == Num(x) && x != 0.0 ==> ApplyOptions(s, opts).duration == Some(x)
  {
  }

  /** `set(date)` takes the date's fields and resets the duration to 24 hours. */
  lemma SetDateResets(s: Snapshot, d: Instant)
    ensures ApplySet(s, DateValue(d)).fields == FromInstant(d)
    ensures ApplySet(s, DateValue(d)).duration == Some(24.0)
  {
  }

  /** A field that is not NaN survives being read back with `toInt`. */
  lemma ToIntNumOfField(n: JsNum)
    requires !n.NaN?
    ensures ToIntNum(NumValue(n)) == n
  {
    if n.Int? {
      TruncOfInt(n.i);
    }
  }

  /**
   * `new CalDate(caldate)` is a copy: equal in all seven properties when no field is
   * NaN and the duration is not 0 (a zero duration is falsy and is not copied).
   */
  lemma CloneEqual(o: Snapshot)
    requires !o.fields.year.NaN? && !o.fields.month.NaN? && !o.fields.day.NaN?
    requires !o.fields.hour.NaN? && !o.fields.minute.NaN? && !o.fields.second.NaN?
    requires o.duration != Some(0.0)
    ensures Construct(CalDateArg(o)) == o
  {
    ToIntNumOfField(o.fields.year);
    ToIntNumOfField(o.fields.month);
    ToIntNumOfField(o.fields.day);
    ToIntNumOfField(o.fields.hour);
    ToIntNumOfField(o.fields.minute);
    ToIntNumOfField(o.fields.second);
  }

  /** Copying an Invalid date turns its NaN fields into `undefined`. */
  lemma CloneOfNaN(o: Snapshot, p: PropName)
    requires Prop(o.fields, p).NaN?
    ensures Prop(Construct(CalDateArg(o)).fields, p) == Undefined
  {
  }

  // ---------------------------------------------------------------------
  // The normaliser

  /** Canonical fields outside the two-digit years denote the instant they read, and read it back. */
  lemma CanonicalFields(c: EcmaDate.Civil)
    requires Canonical(c) && !(0 <= c.year <= 99)
    requires -MaxTimeSeconds <= CivilSeconds(c) <= MaxTimeSeconds
    ensures ToInstant(FieldsOf(c)) == At(CivilSeconds(c))
    ensures FromInstant(At(CivilSeconds(c))) == FieldsOf(c)
  {
    CivilRoundTrip(c);
  }

  /** The fields of a Date are the canonical reading of its time value. */
  lemma FromInstantAt(t: int, c: EcmaDate.Civil)
    requires Canonical(c) && CivilSeconds(c) == t
    ensures FromInstant(At(t)) == FieldsOf(c)
  {
    CivilRoundTrip(c);
  }

  /**
   * `update()` with a truthy year: an Invalid Date makes every field NaN; otherwise the
   * fields become canonical (month 1..12, a real day, hour < 24, minute and second < 60)
   * and denote the same instant.
   */
  lemma NormalizeReading(f: Fields)
    requires TruthyNum(f.year)
    ensures ToInstant(f).Invalid? ==> Normalize(f) == Fields(NaN, NaN, NaN, NaN, NaN, NaN)
    ensures ToInstant(f).At? ==> var r := Normalize(f);
      AllInt(r) && Canonical(Reading(r)) && CivilSeconds(Reading(r)) == CivilSeconds(CivilOf(f))
  {
  }

  /** `update()` with a falsy year (0, `undefined`, NaN) changes nothing. */
  lemma NormalizeFalsyYear(f: Fields)
    requires !TruthyNum(f.year)
    ensures Normalize(f) == f
  {
  }

  /** A second `update()` changes nothing, unless the first left a year from 1 to 99. */
  lemma NormalizeIdempotent(f: Fields)
    requires !(Normalize(f).year.Int? && 1 <= Normalize(f).year.i <= 99)
    ensures Normalize(Normalize(f)) == Normalize(f)
  {
    var r := Normalize(f);
    if TruthyNum(f.year) && ToInstant(f).At? && TruthyNum(r.year) {
      var c := Reading(r);
      assert r == FieldsOf(c);
      CanonicalFields(c);
    }
  }

  /**
   * Why idempotence excludes years 1 to 99: `toDate()` reads years 0 to 99 as 1900 to
   * 1999, so such fields denote an instant in another century.
   */
  lemma ToDateTwoDigitYear(f: Fields)
    requires AllInt(f) && 0 <= f.year.i <= 99
    ensures CivilOf(f).year == 1900 + f.year.i
  {
  }

  /** Fields with a truthy year normalise to the canonical reading of the instant they denote. */
  lemma NormalizeDenotes(f: Fields, c: EcmaDate.Civil)
    requires AllInt(f) && TruthyNum(f.year) && Canonical(c)
    requires CivilSeconds(CivilOf(f)) == CivilSeconds(c)
    requires -MaxTimeSeconds <= CivilSeconds(c) <= MaxTimeSeconds
    ensures Normalize(f) == FieldsOf(c)
  {
    FromInstantAt(CivilSeconds(c), c);
  }

  // ---------------------------------------------------------------------
  // setOffset

  /** A falsy number (0, '', `undefined`, NaN) only normalises. */
  lemma OffsetFalsyNumber(s: Snapshot, number: Value, unit: Option<string>)
    requires !Truthy(number)
    ensures OffsetResult(s, Positional(number, unit)) == Ok(s.(fields := Normalize(s.fields)))
  {
  }

  /** A number that `Number()` reads as NaN throws "Number required"; the object form always gets that far. */
  lemma OffsetNotANumber(s: Snapshot, arg: OffsetArg)
    requires arg.Config? || Truthy(arg.number)
    requires ToNumber(arg.number).None?
    ensures OffsetResult(s, arg) == Err("Number required")
  {
  }

  /** The unit defaults to days; 'h' means hours and every other unit minutes. */
  lemma OffsetUnitDefault()
    ensures OffsetUnit(None) == Days && OffsetUnit(Some("")) == Days
    ensures OffsetUnit(Some("d")) == Days && OffsetUnit(Some("h")) == Hours && OffsetUnit(Some("m")) == Minutes
  {
  }

  /** Adding the parts of an offset to the fields moves the instant they denote by its seconds. */
  lemma ShiftSeconds(f: Fields, d: Deltas)
    requires AllInt(f)
    ensures AllInt(Shift(f, d))
    ensures CivilSeconds(CivilOf(Shift(f, d))) == CivilSeconds(CivilOf(f)) + Seconds(d)
  {
  }

  /**
   * `setOffset` on a valid date with a truthy year: the result is the reading of the
   * instant moved by `OffsetSeconds` (for days trunc(n * 86400), for hours
   * trunc((n % 24) * 3600), for minutes trunc((n % 60) * 60)), or every field NaN past TimeClip.
   */
  lemma OffsetMovesInstant(s: Snapshot, arg: OffsetArg, n: real)
    requires arg.Config? || Truthy(arg.number)
    requires ToNumber(arg.number) == Some(n)
    requires AllInt(s.fields) && TruthyNum(s.fields.year)
    ensures OffsetResult(s, arg) ==
      Ok(s.(fields := FromInstant(Clipped(CivilSeconds(CivilOf(s.fields)) + OffsetSeconds(n, OffsetUnit(arg.unit))))))
  {
    ShiftSeconds(s.fields, Split(n, OffsetUnit(arg.unit)));
  }

  /**
   * `setOffset` on canonical fields (year outside 0..99): the result is the canonical
   * reading of the instant moved by the offset's seconds, the duration unchanged.
   */
  lemma OffsetOnCanonical(c: EcmaDate.Civil, e: EcmaDate.Civil, duration: Option<real>, arg: OffsetArg, n: real)
    requires Canonical(c) && Canonical(e) && !(0 <= c.year <= 99)
    requires arg.Config? || Truthy(arg.number)
    requires ToNumber(arg.number) == Some(n)
    requires CivilSeconds(e) == CivilSeconds(c) + OffsetSeconds(n, OffsetUnit(arg.unit))
    requires -MaxTimeSeconds <= CivilSeconds(e) <= MaxTimeSeconds
    ensures OffsetResult(Snapshot(FieldsOf(c), duration), arg) == Ok(Snapshot(FieldsOf(e), duration))
  {
    var f := FieldsOf(c);
    var u := OffsetUnit(arg.unit);
    var sh := Shift(f, Split(n, u));
    OffsetUnfold(Snapshot(f, duration), arg, n);
    CivilOfFieldsOf(c);
    ShiftSeconds(f, Split(n, u));
    NormalizeDenotes(sh, e);
  }

  /** `setOffset` with a number that is not NaN adds the split and normalises. */
  lemma OffsetUnfold(s: Snapshot, arg: OffsetArg, n: real)
    requires arg.Config? || Truthy(arg.number)
    requires ToNumber(arg.number) == Some(n)
    ensures OffsetResult(s, arg) == Ok(s.(fields := Normalize(Shift(s.fields, Split(n, OffsetUnit(arg.unit))))))
  {
  }

  lemma CivilOfFieldsOf(c: EcmaDate.Civil)
    requires !(0 <= c.year <= 99)
    ensures AllInt(FieldsOf(c)) && CivilOf(FieldsOf(c)) == c
  {
  }

  /** A whole number of days, as the chain splits it. */
  lemma SplitWholeDaysAny(k: int)
    ensures OffsetSeconds(k as real, Days) == 86400 * k
  {
    assert (k as real) * 86400.0 == (k * 86400) as real;
    TruncOfInt(k * 86400);
  }

  /**
   * `setOffset(k)` for a whole, non-zero number of days that stays within the month
   * moves only the day of month.
   */
  lemma OffsetWholeDaysWithinMonth(c: EcmaDate.Civil, k: int, duration: Option<real>)
    requires Canonical(c) && 100 <= c.year <= 9999 && k != 0
    requires 1 <= c.day + k <= DaysInMonth(c.year, c.month)
    ensures OffsetResult(Snapshot(FieldsOf(c), duration), Positional(Num(k as real), None))
         == Ok(Snapshot(FieldsOf(c.(day := c.day + k)), duration))
  {
    var e := c.(day := c.day + k);
    var arg := Positional(Num(k as real), None);
    assert OffsetUnit(arg.unit) == Days;
    SplitWholeDaysAny(k);
    OffsetWithinMonth(c, e, duration, arg, k as real);
  }

  /** `setOffset(5)` moves 2000-01-01 00:00:00 to 2000-01-06 00:00:00. */
  lemma OffsetFiveDays(c: EcmaDate.Civil)
    requires c == EcmaDate.Civil(2000, 1, 1, 0, 0, 0)
    ensures OffsetResult(Snapshot(FieldsOf(c), Some(24.0)), Positional(Num(5.0), None))
         == Ok(Snapshot(FieldsOf(EcmaDate.Civil(2000, 1, 6, 0, 0, 0)), Some(24.0)))
  {
    OffsetWholeDaysWithinMonth(c, 5, Some(24.0));
  }

  /**
   * `setOffset` whose shift keeps a canonical date within its month: the result is the
   * date with the shifted day and clock, the duration unchanged.
   */
  lemma OffsetWithinMonth(c: EcmaDate.Civil, e: EcmaDate.Civil, duration: Option<real>, arg: OffsetArg, n: real)
    requires Canonical(c) && Canonical(e) && 100 <= c.year <= 9999
    requires e.year == c.year && e.month == c.month
    requires arg.Config? || Truthy(arg.number)
    requires ToNumber(arg.number) == Some(n)
    requires OffsetSeconds(n, OffsetUnit(arg.unit))
          == 86400 * (e.day - c.day) + 3600 * (e.hour - c.hour) + 60 * (e.minute - c.minute) + (e.second - c.second)
    ensures OffsetResult(Snapshot(FieldsOf(c), duration), arg) == Ok(Snapshot(FieldsOf(e), duration))
  {
    var d := MakeDay(c.year, c.month - 1, c.day);
    SameMakeDay(e.year, e.month - 1, e.day, c.year, c.month - 1, e.day);
    MakeDayShift(c.year, c.month - 1, c.day, e.day);
    CivilSecondsOfDay(c, d);
    CivilSecondsOfDay(e, d + e.day - c.day);
    FourDigitYearsClipped(e);
    OffsetOnCanonical(c, e, duration, arg, n);
  }

  /** `setOffset({number: 1.55, unit: 'd'})` moves 2000-01-01 00:00:00 to 2000-01-02 13:12:00. */
  lemma OffsetFractionalDays(c: EcmaDate.Civil)
    requires c == EcmaDate.Civil(2000, 1, 1, 0, 0, 0)
    ensures OffsetResult(Snapshot(FieldsOf(c), Some(24.0)), Config(Num(1.55), Some("d")))
         == Ok(Snapshot(FieldsOf(EcmaDate.Civil(2000, 1, 2, 13, 12, 0)), Some(24.0)))
  {
    SplitDaysFraction();
    OffsetWithinMonth(c, EcmaDate.Civil(2000, 1, 2, 13, 12, 0), Some(24.0), Config(Num(1.55), Some("d")), 1.55);
  }

  /** Whole hours below a day, as the chain splits them. */
  lemma WholeHoursSeconds(k: int)
    requires 0 <= k < 24
    ensures OffsetSeconds(k as real, Hours) == 3600 * k
  {
    RemShift(k as real, k as real, 0, 24.0);
    assert (k as real) * 3600.0 == (3600 * k) as real;
    TruncOfInt(3600 * k);
  }

  /** `setOffset(12, 'h')` moves 2000-01-01 00:00:00 to 12:00:00. */
  lemma OffsetWholeHours(c: EcmaDate.Civil, arg: OffsetArg)
    requires c == EcmaDate.Civil(2000, 1, 1, 0, 0, 0)
    requires arg == Positional(Num(12.0), Some("h"))
    ensures OffsetResult(Snapshot(FieldsOf(c), Some(24.0)), arg)
         == Ok(Snapshot(FieldsOf(EcmaDate.Civil(2000, 1, 1, 12, 0, 0)), Some(24.0)))
  {
    assert OffsetUnit(arg.unit) == Hours;
    WholeHoursSeconds(12);
    OffsetWithinMonth(c, EcmaDate.Civil(2000, 1, 1, 12, 0, 0), Some(24.0), arg, 12.0);
  }

  /**
   * `setOffset({number: 12.555, unit: 'h'})` moves 2000-01-01 00:00:00 to 12:33:18 in exact
   * arithmetic (12.555 hours are 45198 seconds).
   */
  lemma OffsetFractionalHours(c: EcmaDate.Civil)
    requires c == EcmaDate.Civil(2000, 1, 1, 0, 0, 0)
    ensures OffsetResult(Snapshot(FieldsOf(c), Some(24.0)), Config(Num(12.555), Some("h")))
         == Ok(Snapshot(FieldsOf(EcmaDate.Civil(2000, 1, 1, 12, 33, 18)), Some(24.0)))
  {
    SplitHoursFraction();
    OffsetWithinMonth(c, EcmaDate.Civil(2000, 1, 1, 12, 33, 18), Some(24.0), Config(Num(12.555), Some("h")), 12.555);
  }

  // ---------------------------------------------------------------------
  // setOffset with a unit other than 'd' and 'h', as written

  /** For the units 'd' and 'h' (and the default) the code as written computes the corrected result. */
  lemma AsWrittenAgreesOnDaysAndHours(s: Snapshot, arg: OffsetArg)
    requires OffsetUnit(arg.unit) != Minutes
    ensures OffsetResultAsWritten(s, arg) == OffsetResult(s, arg)
  {
  }

  /**
   * As written, any offset in another unit ('m') on a date with a truthy year leaves every
   * field NaN: the hour becomes `hour + undefined`, so `toDate()` is an Invalid Date.
   */
  lemma MinuteOffsetAsWrittenInvalid(s: Snapshot, arg: OffsetArg, n: real)
    requires arg.Config? || Truthy(arg.number)
    requires ToNumber(arg.number) == Some(n)
    requires OffsetUnit(arg.unit) == Minutes && TruthyNum(s.fields.year)
    ensures OffsetResultAsWritten(s, arg) == Ok(s.(fields := Fields(NaN, NaN, NaN, NaN, NaN, NaN)))
  {
  }

  /** `setOffset(30, 'm')` on 2000-01-01 00:00:00 as written: every field is NaN. */
  lemma ThirtyMinutesAsWritten(c: EcmaDate.Civil)
    requires c == EcmaDate.Civil(2000, 1, 1, 0, 0, 0)
    ensures OffsetResultAsWritten(Snapshot(FieldsOf(c), Some(24.0)), Positional(Num(30.0), Some("m")))
         == Ok(Snapshot(Fields(NaN, NaN, NaN, NaN, NaN, NaN), Some(24.0)))
  {
    var arg := Positional(Num(30.0), Some("m"));
    assert OffsetUnit(arg.unit) == Minutes;
    MinuteOffsetAsWrittenInvalid(Snapshot(FieldsOf(c), Some(24.0)), arg, 30.0);
  }

  /** Whole minutes below an hour, as the chain splits them. */
  lemma WholeMinutesSeconds(k: int)
    requires 0 <= k < 60
    ensures OffsetSeconds(k as real, Minutes) == 60 * k
  {
    RemShift(k as real, k as real, 0, 60.0);
    assert (k as real) * 60.0 == (60 * k) as real;
    TruncOfInt(60 * k);
  }

  /**
   * With the corrected split, `setOffset(k, 'm')` for whole minutes that stay within the
   * hour moves only the minute.
   */
  lemma OffsetWholeMinutesWithinHour(c: EcmaDate.Civil, k: int, duration: Option<real>)
    requires Canonical(c) && 100 <= c.year <= 9999 && 0 < k && c.minute + k < 60
    ensures OffsetResult(Snapshot(FieldsOf(c), duration), Positional(Num(k as real), Some("m")))
         == Ok(Snapshot(FieldsOf(c.(minute := c.minute + k)), duration))
  {
    var arg := Positional(Num(k as real), Some("m"));
    assert OffsetUnit(arg.unit) == Minutes;
    var e := c.(minute := c.minute + k);
    WholeMinutesSeconds(k);
    var d := MakeDay(c.year, c.month - 1, c.day);
    CivilSecondsOfDay(c, d);
    CivilSecondsOfDay(e, d);
    FourDigitYearsClipped(e);
    OffsetOnCanonical(c, e, duration, arg, k as real);
  }

  /** `setOffset(30, 'm')` on 2000-01-01 00:00:00 with the corrected split: 00:30:00. */
  lemma ThirtyMinutes(c: EcmaDate.Civil)
    requires c == EcmaDate.Civil(2000, 1, 1, 0, 0, 0)
    ensures OffsetResult(Snapshot(FieldsOf(c), Some(24.0)), Positional(Num(30.0), Some("m")))
         == Ok(Snapshot(FieldsOf(c.(minute := 30)), Some(24.0)))
  {
    OffsetWholeMinutesWithinHour(c, 30, Some(24.0));
  }
}
