/**
 * The `CalDate` class of src/CalDate.ts: a calendar date and wall-clock time kept as
 * six separate numeric fields plus a duration in hours, normalised through the
 * built-in Date object. The local time zone is taken at offset zero, so a Date's
 * local getters read the ECMA-262 UTC decomposition.
 */
module CalDates {
  import opened Wrappers
  import opened JsValues
  import opened EcmaDate
  import Utils
  import UtilsJs
  import opened Offsets

  // ---------------------------------------------------------------------
  // The state of a CalDate, as values

  /** The six date and time properties; each may be `undefined` or NaN. */
  datatype Fields = Fields(year: JsNum, month: JsNum, day: JsNum, hour: JsNum, minute: JsNum, second: JsNum)

  /** All seven properties; a NaN duration is merged with `undefined` (`None`). */
  datatype Snapshot = Snapshot(fields: Fields, duration: Option<real>)

  /** The six properties `set` converts with `toInt` (every default but `duration`). */
  datatype PropName = Year | Month | Day | Hour | Minute | Second

  /**
   * A key of an options object: one of the six properties, `duration`, or any other
   * name (`name` is then none of the seven).
   */
  datatype Key = PropKey(prop: PropName) | DurationKey | OtherKey(name: string)

  /** `defaultValues`: 1900-01-01 00:00:00 with a duration of 24 hours. */
  const Defaults: map<Key, Value> := map[
    PropKey(Year) := Num(1900.0), PropKey(Month) := Num(1.0), PropKey(Day) := Num(1.0),
    PropKey(Hour) := Num(0.0), PropKey(Minute) := Num(0.0), PropKey(Second) := Num(0.0),
    DurationKey := Num(24.0)]

  /** A freshly allocated instance, before `set` runs: every property `undefined`. */
  const Unset: Snapshot := Snapshot(Fields(Undefined, Undefined, Undefined, Undefined, Undefined, Undefined), None)

  /** Property lookup on an options object; a missing key reads as `undefined`. */
  function Get(opts: map<Key, Value>, k: Key): Value {
    if k in opts then opts[k] else UndefinedValue
  }

  /** `toInt(v)` stored in a property: `undefined` when it reads NaN. */
  function ToIntNum(v: Value): (r: JsNum)
    ensures !r.NaN?
    ensures r.Undefined? <==> Utils.ToInt(v).None?
    ensures r.Int? ==> Utils.ToInt(v) == Some(r.i)
  {
    match Utils.ToInt(v)
    case None => Undefined
    case Some(i) => Int(i)
  }

  /** A numeric property read back as a value. */
  function NumValue(n: JsNum): Value {
    match n
    case Undefined => UndefinedValue
    case NaN => NaNValue
    case Int(i) => Num(i as real)
  }

  function DurationValue(d: Option<real>): Value {
    match d
    case None => UndefinedValue
    case Some(x) => Num(x)
  }

  /** The property named `p`. */
  function Prop(f: Fields, p: PropName): JsNum {
    match p
    case Year => f.year
    case Month => f.month
    case Day => f.day
    case Hour => f.hour
    case Minute => f.minute
    case Second => f.second
  }

  /** What the `forEach` of `set` leaves in the properties: `toInt` of every property key present. */
  function SetProps(f: Fields, opts: map<Key, Value>): (r: Fields)
    ensures forall p: PropName :: Prop(r, p) == if PropKey(p) in opts then ToIntNum(opts[PropKey(p)]) else Prop(f, p)
  {
    Fields(
      Converted(f.year, opts, Year), Converted(f.month, opts, Month), Converted(f.day, opts, Day),
      Converted(f.hour, opts, Hour), Converted(f.minute, opts, Minute), Converted(f.second, opts, Second))
  }

  /** `toInt` of option `p` when the options have it, else the property as it was. */
  function Converted(current: JsNum, opts: map<Key, Value>, p: PropName): JsNum {
    if PropKey(p) in opts then ToIntNum(opts[PropKey(p)]) else current
  }

  /** `set(opts)` with an options object: the properties, then `duration` only when it is truthy. */
  function ApplyOptions(s: Snapshot, opts: map<Key, Value>): Snapshot {
    Snapshot(SetProps(s.fields, opts),
      if Truthy(Get(opts, DurationKey)) then ToNumber(opts[DurationKey]) else s.duration)
  }

  /** `set(date)`: the date's local fields, and the default duration. */
  function ApplyDate(d: Instant): Snapshot {
    Snapshot(FromInstant(d), Some(24.0))
  }

  /** What `set` is given: a Date or an options object. */
  datatype SetArg = DateValue(date: Instant) | OptionsValue(opts: map<Key, Value>)

  function ApplySet(s: Snapshot, arg: SetArg): Snapshot {
    match arg
    case DateValue(d) => ApplyDate(d)
    case OptionsValue(opts) => ApplyOptions(s, opts)
  }

  /**
   * The options the constructor passes on: `Object.assign({}, defaultValues, opts)`, with
   * the year cleared when a month is given without a year.
   */
  function Merge(opts: map<Key, Value>): (r: map<Key, Value>)
    ensures r.Keys == Defaults.Keys + opts.Keys
    ensures forall k :: k in opts && k != PropKey(Year) ==> r[k] == opts[k]
    ensures forall k :: k in Defaults && k !in opts && k != PropKey(Year) ==> r[k] == Defaults[k]
    ensures r[PropKey(Year)] == if Truthy(Get(opts, PropKey(Month))) && !Truthy(Get(opts, PropKey(Year))) then UndefinedValue
                                else Get(Defaults + opts, PropKey(Year))
  {
    var m := Defaults + opts;
    assert PropKey(Year) in Defaults;
    if Truthy(Get(opts, PropKey(Month))) && !Truthy(Get(opts, PropKey(Year))) then m[PropKey(Year) := UndefinedValue] else m
  }

  /** The own enumerable properties of a CalDate, which is what `set` sees when given one. */
  function Entries(s: Snapshot): map<Key, Value>
  {
    map[PropKey(Year) := NumValue(s.fields.year), PropKey(Month) := NumValue(s.fields.month),
        PropKey(Day) := NumValue(s.fields.day), PropKey(Hour) := NumValue(s.fields.hour),
        PropKey(Minute) := NumValue(s.fields.minute), PropKey(Second) := NumValue(s.fields.second),
        DurationKey := DurationValue(s.duration)]
  }

  /** What the constructor is given: nothing, a Date, another CalDate, or an options object. */
  datatype CtorArg = NoArg | DateArg(date: Instant) | CalDateArg(other: Snapshot) | OptionsArg(opts: map<Key, Value>)

  /** The state a new CalDate starts in. */
  function Construct(arg: CtorArg): Snapshot {
    match arg
    case NoArg => ApplyOptions(Unset, Defaults)
    case DateArg(d) => ApplyDate(d)
    case CalDateArg(o) => ApplyOptions(Unset, Entries(o))
    case OptionsArg(opts) => ApplyOptions(Unset, Merge(opts))
  }

  // ---------------------------------------------------------------------
  // To and from Date

  predicate AllInt(f: Fields) {
    f.year.Int? && f.month.Int? && f.day.Int? && f.hour.Int? && f.minute.Int? && f.second.Int?
  }

  /** The calendar fields `new Date(year, month - 1, day, hour, minute, second, 0)` reads. */
  function CivilOf(f: Fields): Civil
    requires AllInt(f)
  {
    EcmaDate.Civil(FullYearArgument(f.year.i), f.month.i, f.day.i, f.hour.i, f.minute.i, f.second.i)
  }

  /**
   * `toDate()`: a property that is `undefined` or NaN makes an Invalid Date; otherwise the
   * instant the fields denote, each allowed out of range, unless it lies beyond TimeClip.
   */
  function ToInstant(f: Fields): (r: Instant)
    ensures r.At? <==> AllInt(f) && -MaxTimeSeconds <= CivilSeconds(CivilOf(f)) <= MaxTimeSeconds
    ensures r.At? ==> r.t == CivilSeconds(CivilOf(f))
  {
    if AllInt(f) then NewDate(f.year.i, f.month.i - 1, f.day.i, f.hour.i, f.minute.i, f.second.i)
    else Invalid
  }

  /** The fields of a calendar reading. */
  function FieldsOf(c: EcmaDate.Civil): Fields {
    Fields(Int(c.year), Int(c.month), Int(c.day), Int(c.hour), Int(c.minute), Int(c.second))
  }

  /** `assignDateToSelf(dt)`: the local getters of the date, all NaN for an Invalid Date. */
  function FromInstant(d: Instant): (r: Fields)
    ensures d.Invalid? ==> r == Fields(NaN, NaN, NaN, NaN, NaN, NaN)
    ensures d.At? ==>
      AllInt(r) && LocalFields(d) == Some(EcmaDate.Civil(r.year.i, r.month.i, r.day.i, r.hour.i, r.minute.i, r.second.i))
  {
    match LocalFields(d)
    case None => Fields(NaN, NaN, NaN, NaN, NaN, NaN)
    case Some(c) => FieldsOf(c)
  }

  /** `update()`: with a truthy year the fields are replaced by their normalised reading; otherwise nothing happens. */
  function Normalize(f: Fields): Fields {
    if TruthyNum(f.year) then FromInstant(ToInstant(f)) else f
  }

  // ---------------------------------------------------------------------
  // Operations, as functions of the state

  /** The arguments of `setOffset`: positional, or one `{number, unit}` object. */
  datatype OffsetArg = Positional(number: Value, unit: Option<string>) | Config(number: Value, unit: Option<string>)

  /** `unit || 'd'`. */
  function OffsetUnit(unit: Option<string>): Unit {
    UnitOf(if unit.None? || unit.value == "" then "d" else unit.value)
  }

  /** The fields after the parts of an offset are added (`undefined` or NaN stay NaN). */
  function Shift(f: Fields, d: Deltas): Fields {
    f.(day := Plus(f.day, d.day), hour := Plus(f.hour, d.hour),
       minute := Plus(f.minute, d.minute), second := Plus(f.second, d.second))
  }

  /**
   * `setOffset`: nothing but `update()` for a falsy number; otherwise `Number(number)`,
   * a TypeError when that is NaN, else the split offset added and the fields normalised.
   */
  function OffsetResult(s: Snapshot, arg: OffsetArg): Result<Snapshot, string> {
    if arg.Positional? && !Truthy(arg.number) then Ok(s.(fields := Normalize(s.fields)))
    else
      match ToNumber(arg.number)
      case None => Err("Number required")
      case Some(n) => Ok(s.(fields := Normalize(Shift(s.fields, Split(n, OffsetUnit(arg.unit))))))
  }

  /** `this.hour += o.hour`: adding `undefined` gives NaN. */
  function PlusPart(a: JsNum, k: JsNum): (r: JsNum)
    ensures k.Int? ==> r == Plus(a, k.i)
    ensures !k.Int? ==> r.NaN?
  {
    if k.Int? then Plus(a, k.i) else NaN
  }

  /** `setOffset` exactly as written, with the hour part of `HourPartAsWritten`. */
  function OffsetResultAsWritten(s: Snapshot, arg: OffsetArg): Result<Snapshot, string> {
    if arg.Positional? && !Truthy(arg.number) then Ok(s.(fields := Normalize(s.fields)))
    else
      match ToNumber(arg.number)
      case None => Err("Number required")
      case Some(n) =>
        var d := Split(n, OffsetUnit(arg.unit));
        var f := s.fields;
        Ok(s.(fields := Normalize(f.(day := Plus(f.day, d.day), hour := PlusPart(f.hour, HourPartAsWritten(n, OffsetUnit(arg.unit))),
                                      minute := Plus(f.minute, d.minute), second := Plus(f.second, d.second)))))
  }

  /** The hours left until midnight after `setTime(hour, minute, second)`. */
  function HoursToMidnight(hour: int, minute: int, second: int): real {
    24.0 - (hour as real + minute as real / 60.0 + second as real / 3600.0)
  }

  /** `setTime(hour, minute, second)`: the clock is set, the duration runs to midnight, the fields are normalised. */
  function ApplyTime(s: Snapshot, hour: int, minute: int, second: int): Snapshot {
    Snapshot(Normalize(s.fields.(hour := Int(hour), minute := Int(minute), second := Int(second))),
      Some(HoursToMidnight(hour, minute, second)))
  }

  /** `d.minute += Math.trunc(duration * 60)`; an undefined duration gives NaN. */
  function AddMinutes(m: JsNum, duration: Option<real>): JsNum {
    match duration
    case None => NaN
    case Some(x) => Plus(m, Trunc(x * 60.0))
  }

  /** `toEndDate()`: a new CalDate of this date, moved on by the duration in whole minutes. */
  function EndState(s: Snapshot): Snapshot {
    var e := ApplyDate(ToInstant(s.fields));
    Snapshot(Normalize(e.fields.(minute := AddMinutes(e.fields.minute, s.duration))), e.duration)
  }

  /** `===` on numeric properties: NaN equals nothing, `undefined` equals `undefined`. */
  predicate StrictEq(a: JsNum, b: JsNum) {
    a == b && !a.NaN?
  }

  /** `isEqualDate`'s comparison of year, month and day. */
  predicate SameDate(f: Fields, g: Fields) {
    StrictEq(f.year, g.year) && StrictEq(f.month, g.month) && StrictEq(f.day, g.day)
  }

  /** `getDay()` of `toDate()`: 0 for Sunday, NaN for an Invalid Date. */
  function WeekDayOf(f: Fields): (r: JsNum)
    ensures r.NaN? <==> ToInstant(f).Invalid?
    ensures r.Int? ==> 0 <= r.i < 7 && r.i == WeekDay(ToInstant(f).t)
  {
    match ToInstant(f)
    case Invalid => NaN
    case At(t) => Int(WeekDay(t))
  }

  /** `pad0` of a Date getter's result. */
  function Pad(n: Option<int>, len: Option<int>): string {
    match n
    case None => Utils.Pad0(Utils.PadNaN, len)
    case Some(i) => Utils.Pad0(Utils.PadInt(i), len)
  }

  /** NaN padded to four places is "0NaN"; to two it is "NaN" unchanged. */
  lemma PadOfNaN()
    ensures Pad(None, Some(4)) == "0NaN" && Pad(None, None) == "NaN"
  {
    var p := Pad(None, Some(4));
    assert |p| == 4 && p[1..] == "NaN" && p[0] == '0';
    assert p == [p[0]] + p[1..];
  }

  /** The layout of `toString` with "0NaN" for the year and "NaN" in every other place. */
  lemma InvalidLayout(y: string, p: string, iso: bool)
    requires y == "0NaN" && p == "NaN"
    ensures y + "-" + p + "-" + p + (if iso then "T" else " ") + p + ":" + p + ":" + p + (if iso then "Z" else "")
      == if iso then "0NaN-NaN-NaNTNaN:NaN:NaNZ" else "0NaN-NaN-NaN NaN:NaN:NaN"
  {
  }

  /** Each getter of an optional reading; `None` when the date is invalid. */
  function Getters(date: Option<EcmaDate.Civil>): (Option<int>, Option<int>, Option<int>, Option<int>, Option<int>, Option<int>) {
    match date
    case None => (None, None, None, None, None, None)
    case Some(c) => (Some(c.year), Some(c.month), Some(c.day), Some(c.hour), Some(c.minute), Some(c.second))
  }

  /**
   * `toString(iso)`: `YYYY-MM-DD HH:MM:SS`, or `YYYY-MM-DDTHH:MM:SSZ` for ISO. The pieces
   * are never narrower than their widths; an Invalid Date pads "NaN" in every place.
   */
  function Format(date: Option<EcmaDate.Civil>, iso: bool): (r: string)
    ensures |r| >= (if iso then 20 else 19)
    ensures iso ==> r[|r| - 1] == 'Z'
    ensures date.None? ==> r == (if iso then "0NaN-NaN-NaNTNaN:NaN:NaNZ" else "0NaN-NaN-NaN NaN:NaN:NaN")
  {
    PadOfNaN();
    InvalidLayout(Pad(None, Some(4)), Pad(None, None), iso);
    var g := Getters(date);
    Pad(g.0, Some(4)) + "-" + Pad(g.1, None) + "-" + Pad(g.2, None)
      + (if iso then "T" else " ")
      + Pad(g.3, None) + ":" + Pad(g.4, None) + ":" + Pad(g.5, None)
      + (if iso then "Z" else "")
  }

  /** `CalDate.toYear`: like `toYear` of src/utils.js, with `toInt` for strings. */
  function ToYear(year: UtilsJs.YearArg, currentYear: int): (r: Value)
    ensures r == UtilsJs.ToYear(year, currentYear)
  {
    match year
    case YearDate(d) => UtilsJs.FullYear(d)
    case YearValue(v) =>
      if !Truthy(v) then Num(currentYear as real)
      else if v.Str? then UtilsJs.NumberOrUndefined(Utils.ToInt(v))
      else v
  }

  // ---------------------------------------------------------------------
  // The class

  class CalDate {
    var year: JsNum
    var month: JsNum
    var day: JsNum
    var hour: JsNum
    var minute: JsNum
    var second: JsNum
    var duration: Option<real>

    /** The seven properties as a value. */
    function Model(): Snapshot
      reads this
    {
      Snapshot(Fields(year, month, day, hour, minute, second), duration)
    }

    /** `new CalDate(opts)`: defaults when nothing is given, merged defaults for an options object. */
    constructor (arg: CtorArg)
      ensures Model() == Construct(arg)
    {
      year, month, day, hour, minute, second := Undefined, Undefined, Undefined, Undefined, Undefined, Undefined;
      duration := None;
      new;
      match arg
      case NoArg => Set(OptionsValue(Defaults));
      case DateArg(d) => Set(DateValue(d));
      case CalDateArg(o) => Set(OptionsValue(Entries(o)));
      case OptionsArg(opts) => Set(OptionsValue(Merge(opts)));
    }

    /** `set(opts)`: a Date is copied with the default duration; an options object is read key by key. */
    method Set(arg: SetArg)
      modifies this
      ensures Model() == ApplySet(old(Model()), arg)
    {
      match arg
      case DateValue(d) =>
        AssignDateToSelf(d);
        duration := Some(24.0);
      case OptionsValue(opts) =>
        var keys := opts.Keys;
        ghost var f0 := Model().fields;
        while keys != {}
          invariant keys <= opts.Keys
          invariant forall p :: Prop(Model().fields, p) == Converted(Prop(f0, p), Restrict(opts, keys), p)
          invariant duration == old(duration)
          decreases keys
        {
          var k :| k in keys;
          RestrictStep(opts, keys, k);
          AssignKey(k, ToIntNum(opts[k]));
          keys := keys - {k};
        }
        PropsDetermine(Model().fields, SetProps(f0, opts));
        if Truthy(Get(opts, DurationKey)) {
          duration := ToNumber(opts[DurationKey]);
        }
    }

    /** `this[k] = v` when `k` is one of the numeric properties; any other key changes nothing. */
    method AssignKey(k: Key, v: JsNum)
      modifies this
      ensures forall p :: Prop(Model().fields, p) == if k == PropKey(p) then v else Prop(old(Model().fields), p)
      ensures duration == old(duration)
    {
      match k {
        case PropKey(Year) => year := v;
        case PropKey(Month) => month := v;
        case PropKey(Day) => day := v;
        case PropKey(Hour) => hour := v;
        case PropKey(Minute) => minute := v;
        case PropKey(Second) => second := v;
        case _ =>
      }
    }

    /** `update()`: normalises the fields through a Date when the year is truthy; the duration stays. */
    method Update()
      modifies this
      ensures Model() == old(Model()).(fields := Normalize(old(Model()).fields))
    {
      if TruthyNum(year) {
        AssignDateToSelf(ToDate());
      }
    }

    /** `toDate()`. */
    function ToDate(): Instant
      reads this
    {
      ToInstant(Model().fields)
    }

    method AssignDateToSelf(dt: Instant)
      modifies this
      ensures Model() == old(Model()).(fields := FromInstant(dt))
    {
      var f := FromInstant(dt);
      year, month, day, hour, minute, second := f.year, f.month, f.day, f.hour, f.minute, f.second;
    }

    /**
     * `setOffset(number, unit)` or `setOffset({number, unit})`: a NaN number throws before
     * anything changes; otherwise the split offset is added and the fields normalised.
     */
    method SetOffset(arg: OffsetArg) returns (r: Outcome<string>)
      modifies this
      ensures OffsetResult(old(Model()), arg).Ok? ==> r == Pass && Model() == OffsetResult(old(Model()), arg).value
      ensures OffsetResult(old(Model()), arg).Err? ==>
        r == Fail(OffsetResult(old(Model()), arg).error) && Model() == old(Model())
    {
      if arg.Config? || Truthy(arg.number) {
        var unit := if arg.unit.None? || arg.unit.value == "" then "d" else arg.unit.value;
        var number := ToNumber(arg.number);
        if number.None? {
          return Fail("Number required");
        }
        var o := Decompose(number.value, UnitOf(unit));
        day := Plus(day, o.day);
        hour := Plus(hour, o.hour);
        minute := Plus(minute, o.minute);
        second := Plus(second, o.second);
      }
      Update();
      r := Pass;
    }

    /** `setTime(hour, minute, second)`: the duration becomes the hours left until midnight. */
    method SetTime(hour: int := 0, minute: int := 0, second: int := 0)
      modifies this
      ensures Model() == ApplyTime(old(Model()), hour, minute, second)
    {
      this.hour, this.minute, this.second := Int(hour), Int(minute), Int(second);
      this.duration := Some(HoursToMidnight(hour, minute, second));
      Update();
    }

    /** `setDuration(duration)`. */
    method SetDuration(duration: real)
      modifies this
      ensures Model() == old(Model()).(duration := Some(duration))
    {
      this.duration := Some(duration);
    }

    /**
     * `isEqualDate(other)`: normalises this date, then compares year, month and day with
     * `===`; when `other` is this same object it sees the normalised fields.
     */
    method IsEqualDate(other: CalDate) returns (b: bool)
      modifies this
      ensures Model() == old(Model()).(fields := Normalize(old(Model()).fields))
      ensures b == SameDate(Model().fields, other.Model().fields)
    {
      Update();
      b := StrictEq(year, other.year) && StrictEq(month, other.month) && StrictEq(day, other.day);
    }

    /** `getDay()`. */
    function GetDay(): JsNum
      reads this
    {
      WeekDayOf(Model().fields)
    }

    /** `toEndDate()`: a fresh CalDate; this one is left as it is. */
    method ToEndDate() returns (e: CalDate)
      ensures fresh(e)
      ensures e.Model() == EndState(Model())
    {
      e := new CalDate(DateArg(ToDate()));
      e.minute := AddMinutes(e.minute, duration);
      e.Update();
    }

    /** `toTimezone()` without a time zone: the Date of the fields. */
    function ToTimezone(): Instant
      reads this
    {
      ToDate()
    }

    /** `fromTimezone(dateUTC)` without a time zone: `set(dateUTC)`. */
    method FromTimezone(dateUTC: Instant)
      modifies this
      ensures Model() == ApplyDate(dateUTC)
    {
      Set(DateValue(dateUTC));
    }

    /** `toString(iso)`, formatted from a CalDate made of `toDate()`. */
    function ToString(iso: bool := false): string
      reads this
    {
      Format(LocalFields(ToDate()), iso)
    }

    /** `toISOString()`. */
    function ToISOString(): string
      reads this
    {
      ToString(true)
    }
  }

  // ---------------------------------------------------------------------
  // Proof helpers for the class

  /** The options whose keys have been visited: all but those still in `pending`. */
  function Restrict(opts: map<Key, Value>, pending: set<Key>): map<Key, Value> {
    map k | k in opts && k !in pending :: opts[k]
  }

  /** Taking key `k` out of the pending keys makes its option visible and leaves the others as they were. */
  lemma RestrictStep(opts: map<Key, Value>, keys: set<Key>, k: Key)
    requires k in keys && keys <= opts.Keys
    ensures forall x, p :: Converted(x, Restrict(opts, keys - {k}), p)
                        == if k == PropKey(p) then ToIntNum(opts[k]) else Converted(x, Restrict(opts, keys), p)
  {
    assert Restrict(opts, keys - {k}) == Restrict(opts, keys)[k := opts[k]];
  }

  /** Fields that agree on every property are equal. */
  lemma PropsDetermine(f: Fields, g: Fields)
    requires forall p :: Prop(f, p) == Prop(g, p)
    ensures f == g
  {
    assert Prop(f, Year) == Prop(g, Year) && Prop(f, Month) == Prop(g, Month) && Prop(f, Day) == Prop(g, Day);
    assert Prop(f, Hour) == Prop(g, Hour) && Prop(f, Minute) == Prop(g, Minute) && Prop(f, Second) == Prop(g, Second);
  }
}
