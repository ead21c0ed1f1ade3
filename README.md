# caldate in Dafny

A model of `caldate`, a small library for calendar dates. At its centre is the class
`CalDate`, an object with seven properties: `year`, `month`, `day`, `hour`, `minute`,
`second` and a `duration` in hours. It builds and changes them in these ways:

- from defaults, an options object, a `Date` or another `CalDate`;
- by offsets in days, hours or minutes (`setOffset`);
- by setting the clock (`setTime`) or the duration (`setDuration`);
- by normalising through a JavaScript `Date` (`update`).

It compares dates (`isEqualDate`), gives the weekday (`getDay`) and the end of the date's
duration (`toEndDate`), and formats dates as `YYYY-MM-DD HH:MM:SS` or in ISO form. The helpers
`pad0`, `toInt`, `toNumber` and `toYear` of `src/utils.ts` and `src/utils.js` are modelled too.

## How the model is built

- `wrappers.dfy` (module `Wrappers`): `Option`, `Outcome` and `Result`.
- `js_values.dfy` (module `JsValues`): the JavaScript values the library handles.
  - `Value` stands for an option value or an argument: `undefined`, NaN, a number or a string.
  - `JsNum` stands for a numeric property: `undefined`, NaN or an integer.
  - Truthiness, `Math.trunc` and `%` (remainder with the sign of the dividend) are defined here.
  - So are `parseInt(s, 10)`, `Number(s)` for decimal strings, `String(n)` of an integer and
    `padStart`.
- `ecma_date.dfy` (module `EcmaDate`): the arithmetic of the `Date` built-in from section 21.4
  of ECMA-262.
  - It covers MakeDay, MakeTime, MakeDate, TimeClip, the year, month and date of a day number,
    WeekDay, and the reading of years 0 to 99 as 1900 to 1999.
  - Time values are counted in whole seconds. The dates the library builds have zero
    milliseconds. A `Date` a caller passes in stands for the floor of its milliseconds divided
    by 1000, which is all that the getters from year to seconds and the weekday read.
  - Its lemmas prove that canonical calendar fields and time values are a round trip.
- `utils.dfy` (module `Utils`) models `src/utils.ts`, and `utils_js.dfy` (module `UtilsJs`)
  models `src/utils.js`.
- `offset.dfy` (module `Offsets`) models the chain of `Math.trunc` and `%` steps that splits
  an offset into days, hours, minutes and seconds.
  - `Decompose` is the corrected chain as a method: for a unit other than 'd' and 'h' it takes
    an hour part of 0 (see "## Findings"). It is proved equal to `Split`, a reference
    definition in integer seconds.
  - `DecomposeAsWritten` is the chain exactly as the source writes it, with the hour part of
    `HourPartAsWritten`, which is `undefined` for such a unit.
- `caldate.dfy` (module `CalDates`) holds the class `CalDate` and the pure functions that
  specify its methods.
  - The class has the seven properties as mutable fields.
  - Each method ensures that the new state (`Model()`) is a function of the old one:
    `Construct`, `ApplySet`, `Normalize`, `OffsetResult`, `ApplyTime` and `EndState`.
- `caldate_props.dfy` (module `CalDateProperties`) and `caldate_views.dfy` (module
  `CalDateViews`) prove what those functions do. Some lemmas cover all inputs. Others check the
  values the library's examples use.

The local time zone is taken to be UTC, so the local getters of a `Date` are the calendar
fields of its time value.

## Model

| member | source | states |
|---|---|---|
| Utils.Pad0 | src/utils.ts:7-9 | the result is the number's string, left-padded with '0' to the width (2 by default); a longer string is returned unchanged |
| Utils.ToInt | src/utils.ts:16-21 | the integer `parseInt(_, 10)` reads, `undefined` where it reads NaN: a number reads as its truncation, a string as `parseInt` of it; proved to agree with `toNumber` of src/utils.js, and its meaning for every string is given by ToIntLeadingDigits and ToIntNoDigits |
| Utils.ToIntLeadingDigits | src/utils.ts:16-21 | after leading white space, an optional sign and digits, the digits' value is read and whatever follows is ignored |
| Utils.ToIntNoDigits | src/utils.ts:16-21 | for all inputs, `undefined` when no digit follows the leading white space and optional sign; `undefined` and NaN also give `undefined`. With ToIntLeadingDigits this covers every string |
| Utils.ToIntSignNoDigit | src/utils.ts:16-21 | white space, a sign, then no digit: `undefined` |
| Utils.ToIntUnsignedNoDigit | src/utils.ts:16-21 | white space, then nothing or a character that is no sign and no digit: `undefined` |
| Utils.ToIntOfNonText | src/utils.ts:16-21 | `undefined` and NaN give `undefined` |
| Utils.ToIntOfText | src/utils.ts:16-21 | "" and "this is not a number" give `undefined` |
| Utils.ToIntTrailingIgnored | src/utils.ts:16-21 | "12abc" reads as 12 |
| Utils.ToIntPad0 | src/utils.ts:7-21 | round trip: `toInt(pad0(n, len))` is `n` for every natural `n` and width |
| Utils.Pad0Negative | src/utils.ts:7-9 | a negative number is padded in front of its sign ("00-5") |
| Utils.ToIntOfPaddedNegative | src/utils.ts:16-21 | such a padded negative reads back as 0, so the round trip holds only for naturals |
| UtilsJs.Pad0 | src/utils.js:19-21 | equals `pad0` of src/utils.ts, except that a zero length also means width 2 (`len \|\| 2`) |
| UtilsJs.Pad0ZeroLength | src/utils.js:19-21 | with length 0, src/utils.js gives "05" and src/utils.ts gives "5" |
| UtilsJs.ToNumber | src/utils.js:28-33 | agrees with `toInt` of src/utils.ts on every input |
| UtilsJs.ToYear | src/utils.js:40-49 | a falsy argument gives the current year, a Date its full year, a non-empty string its `toNumber`, a non-zero number itself |
| UtilsJs.ToYearOfString | src/utils.js:40-49 | a year written as a string reads back as that year, for every integer |
| UtilsJs.ToYearOfDate | src/utils.js:43-44 | the full year of the Date of canonical fields is their year |
| UtilsJs.ToYearOfNothing | src/utils.js:41-42 | `undefined` and "" give the current year |
| UtilsJs.ToYearOfText | src/utils.js:45-46 | "abc" gives `undefined` |
| CalDates.ToYear | src/CalDate.ts:257-266 | the static `CalDate.toYear` agrees with `toYear` of src/utils.js on every input |
| CalDates.ToIntNum | src/CalDate.ts:75 | a property set from an option is never NaN; it is `undefined` exactly when `toInt` fails, else `toInt`'s integer |
| CalDates.Merge | src/CalDate.ts:59-60 | the merged options have the keys of defaults and options; options win; the year is `undefined` when a month comes without a year |
| CalDates.SetProps | src/CalDate.ts:74-76 | every property key present becomes `toInt` of its value; the other properties keep their values |
| CalDates.ToInstant | src/CalDate.ts:214-219 | `toDate()` is valid exactly when all six fields are integers and the instant lies within TimeClip; it then holds that instant |
| CalDates.FromInstant | src/CalDate.ts:244-251 | an Invalid Date gives six NaN fields; a valid Date gives integer fields that are its local reading |
| CalDates.WeekDayOf | src/CalDate.ts:97-99 | `getDay()` is NaN exactly for an Invalid Date, else a weekday 0..6 of its time value |
| CalDates.CalDate.constructor | src/CalDate.ts:56-67 | the new object's state is `Construct(arg)`: defaults, merged options, a Date's fields or another CalDate's properties |
| CalDates.CalDate.Set | src/CalDate.ts:69-81 | the loop over the option keys leaves the state `ApplySet(old, arg)`; its invariant says the visited keys are converted and the rest untouched |
| CalDates.CalDate.AssignKey | src/CalDate.ts:75 | assigning key `k` changes property `k` only; any other key changes nothing |
| CalDates.CalDate.Update | src/CalDate.ts:170-175 | the fields become `Normalize(old fields)`; the duration stays |
| CalDates.CalDate.AssignDateToSelf | src/CalDate.ts:244-251 | the fields become the Date's local getters; the duration stays |
| CalDates.CalDate.SetOffset | src/CalDate.ts:103-138 | a NaN number fails with "Number required" and leaves the state unchanged; otherwise the state becomes `OffsetResult`, which uses the corrected split (for unit 'm' the source itself gives NaN fields; see "## Left out") |
| CalDates.CalDate.SetTime | src/CalDate.ts:146-156 | the state becomes `ApplyTime`: the clock set, the duration the hours to midnight, the fields normalised |
| CalDates.CalDate.SetDuration | src/CalDate.ts:162-165 | only the duration changes |
| CalDates.CalDate.IsEqualDate | src/CalDate.ts:88-91 | this object is normalised first, and the answer is `===` on year, month and day |
| CalDates.CalDate.ToEndDate | src/CalDate.ts:181-186 | a fresh object in state `EndState(this)`; this object is unchanged |
| CalDates.CalDate.FromTimezone | src/CalDate.ts:205-208 | without a zone the state becomes the Date's fields with duration 24 |
| Offsets.Split | src/CalDate.ts:115-129 | the parts add up to the offset's seconds: trunc(n·86400) for days, trunc((n % 24)·3600) for hours, trunc((n % 60)·60) for minutes |
| Offsets.SplitBounds | src/CalDate.ts:115-129 | every part has the sign of the offset, hours lie within a day, minutes and seconds within 60; the days are trunc(n) for unit 'd' |
| Offsets.SplitUnique | src/CalDate.ts:115-129 | any well-signed split with the same days and seconds is the split |
| Offsets.Decompose | src/CalDate.ts:115-129 | the truncate-and-remainder chain, as a method, computes exactly `Split` |
| Offsets.ChainDays | src/CalDate.ts:116-129 | the steps for unit 'd' compute `Split(n, Days)` |
| Offsets.ChainHours | src/CalDate.ts:121-129 | the steps for unit 'h' compute `Split(n, Hours)` |
| Offsets.ChainMinutes | src/CalDate.ts:126-129 | the minute and second steps alone compute `Split(n, Minutes)` |
| Offsets.HourPartAsWritten | src/CalDate.ts:115-129 | the hour part as written: `undefined` exactly for unit 'm', otherwise the hour part of `Split` |
| Offsets.DecomposeAsWritten | src/CalDate.ts:115-129 | as written, the hour part is `undefined` for unit 'm'; the other parts are those of `Split` |
| Offsets.SplitDaysFraction | src/CalDate.ts:115-129 | 1.55 days split into 1 day, 13 hours and 12 minutes |
| Offsets.SplitNegative | src/CalDate.ts:115-129 | -1.5 days split into -1 day and -12 hours |
| Offsets.SplitHoursBeyondDay | src/CalDate.ts:121-125 | 30 hours contribute only 6 hours: the whole days are dropped by `% 24` |
| Offsets.SplitMinutesBeyondHour | src/CalDate.ts:126 | 90 minutes contribute only 30 minutes: the whole hours are dropped by `% 60` |
| EcmaDate.CivilRoundTrip | src/CalDate.ts:244-251 | canonical fields turned into a time value read back as the same fields |
| EcmaDate.CanonicalUnique | src/CalDate.ts:244-251 | two canonical readings of one time value are equal |
| EcmaDate.DateFromDayRoundTrip | src/CalDate.ts:244-247 | a valid date's day number reads back as that date |
| EcmaDate.SameDateSameDay | src/CalDate.ts:88-91 | canonical fields share year, month and day exactly when their time values fall on the same day |
| EcmaDate.FourDigitYearsClipped | src/CalDate.ts:214-219 | canonical fields of years 0 to 9999 lie within TimeClip |
| CalDateProperties.DefaultsConstruct | src/CalDate.ts:27-35 | `new CalDate()` is 1900-01-01 00:00:00 with duration 24 |
| CalDateProperties.ConstructFromOptions | src/CalDate.ts:56-67 | each property is `toInt` of the merged option; the year is `undefined` when a month comes without a year |
| CalDateProperties.MonthWithoutYear | src/CalDate.ts:60 | a month without a year leaves the year `undefined`, whatever else is given |
| CalDateProperties.SetOptionsFields | src/CalDate.ts:74-76 | a present property becomes `toInt` of its value, or `undefined` when that fails; an absent one keeps its value |
| CalDateProperties.SetOptionsDuration | src/CalDate.ts:78 | the duration is copied only when truthy, else kept |
| CalDateProperties.SetDateResets | src/CalDate.ts:70-72 | `set(date)` takes the Date's fields and resets the duration to 24 |
| CalDateProperties.CloneEqual | src/CalDate.ts:56-76 | `new CalDate(caldate)` equals the original when no field is NaN and the duration is not 0 |
| CalDateProperties.CloneOfNaN | src/CalDate.ts:56-76 | copying turns a NaN field into `undefined` |
| CalDateProperties.CanonicalFields | src/CalDate.ts:214-251 | canonical fields of a year outside 0..99 denote their instant and read it back |
| CalDateProperties.NormalizeReading | src/CalDate.ts:170-175 | with a truthy year, an Invalid Date gives six NaN fields, else canonical fields denoting the same instant |
| CalDateProperties.NormalizeFalsyYear | src/CalDate.ts:171 | with a falsy year `update()` changes nothing |
| CalDateProperties.NormalizeIdempotent | src/CalDate.ts:170-175 | a second `update()` changes nothing, unless the first left a year from 1 to 99 |
| CalDateProperties.ToDateTwoDigitYear | src/CalDate.ts:214-219 | years 0 to 99 denote an instant 1900 years later, which is why idempotence needs the exclusion |
| CalDateProperties.NormalizeDenotes | src/CalDate.ts:170-175 | normalised fields are the canonical reading of the instant the fields denote |
| CalDateProperties.OffsetFalsyNumber | src/CalDate.ts:104 | a falsy number only normalises |
| CalDateProperties.OffsetNotANumber | src/CalDate.ts:110-113 | a number that `Number()` reads as NaN gives the "Number required" error |
| CalDateProperties.OffsetUnitDefault | src/CalDate.ts:109 | a missing or empty unit means days; 'h' means hours; 'm' means minutes |
| CalDateProperties.ShiftSeconds | src/CalDate.ts:131-134 | adding the parts moves the denoted instant by the parts' seconds |
| CalDateProperties.OffsetMovesInstant | src/CalDate.ts:103-138 | on integer fields with a truthy year, the result is the reading of the instant moved by `OffsetSeconds` |
| CalDateProperties.OffsetOnCanonical | src/CalDate.ts:103-138 | on canonical fields, the result is the canonical date whose instant is the shifted one; the duration is kept |
| CalDateProperties.OffsetWholeDaysWithinMonth | src/CalDate.ts:103-138 | whole days that stay within the month move only the day of month |
| CalDateProperties.OffsetFiveDays | src/CalDate.ts:103-138 | `setOffset(5)` on 2000-01-01 gives 2000-01-06 |
| CalDateProperties.OffsetFractionalDays | src/CalDate.ts:103-138 | `setOffset({number: 1.55, unit: 'd'})` on 2000-01-01 gives 2000-01-02 13:12:00 |
| CalDateProperties.OffsetWholeHours | src/CalDate.ts:103-138 | `setOffset(12, 'h')` on 2000-01-01 gives 12:00:00 |
| CalDateProperties.OffsetFractionalHours | src/CalDate.ts:103-138 | `setOffset({number: 12.555, unit: 'h'})` gives 12:33:18 in exact arithmetic |
| CalDateProperties.AsWrittenAgreesOnDaysAndHours | src/CalDate.ts:115-134 | for units 'd' and 'h' the code as written gives the corrected result |
| CalDateProperties.MinuteOffsetAsWrittenInvalid | src/CalDate.ts:115-134 | as written, any offset in minutes on a date with a truthy year makes every field NaN |
| CalDateProperties.ThirtyMinutesAsWritten | src/CalDate.ts:115-134 | as written, `setOffset(30, 'm')` on 2000-01-01 makes every field NaN |
| CalDateProperties.OffsetWholeMinutesWithinHour | src/CalDate.ts:115-134 | corrected, whole minutes that stay within the hour move only the minute |
| CalDateProperties.ThirtyMinutes | src/CalDate.ts:115-134 | corrected, `setOffset(30, 'm')` on 2000-01-01 gives 00:30:00 |
| CalDateViews.NormalizeOverflow | src/CalDate.ts:170-175 | 2000-02-30 25:61:62 normalises to 2000-03-02 02:02:02 |
| CalDateViews.WeekDayOfCanonical | src/CalDate.ts:97-99 | `getDay()` of canonical fields is (day number + 4) mod 7 |
| CalDateViews.WeekDayNormalized | src/CalDate.ts:97-99 | `getDay()` is unchanged by normalising first |
| CalDateViews.WeekDayOfOverflow | src/CalDate.ts:97-99 | 2000-02-30 25:61:62 is a Thursday (4) |
| CalDateViews.SameDateIffSameDay | src/CalDate.ts:88-91 | against a CalDate made from a Date, `isEqualDate` holds exactly when both instants fall on the same day |
| CalDateViews.EqualDateOfOverflow | src/CalDate.ts:88-91 | 2000-02-30 25:61:62 is the same date as 2000-03-02 02:02:02 |
| CalDateViews.ToInstantClipped | src/CalDate.ts:214-219 | `toDate()` of integer fields is the Date of their time value, clipped |
| CalDateViews.EndStateMoves | src/CalDate.ts:181-186 | `toEndDate()` of canonical fields is the reading of the instant trunc(duration·60) minutes later, with duration 24 |
| CalDateViews.EndWithinMonth | src/CalDate.ts:181-186 | when the end falls within the month, `toEndDate()` gives exactly the end's fields |
| CalDateViews.EndOfSixthDay | src/CalDate.ts:181-186 | 2000-01-06 with duration 24 ends at 2000-01-07 00:00:00 |
| CalDateViews.SetTimeFields | src/CalDate.ts:146-156 | on canonical fields `setTime(h, m, s)` sets the clock and makes the duration the hours to midnight |
| CalDateViews.MinutesToMidnight | src/CalDate.ts:152 | those hours, in whole minutes, are 1440 − 60h − m, less one for a started minute |
| CalDateViews.SetTimeThenEnd | src/CalDate.ts:146-186 | after `setTime`, `toEndDate()` is the next midnight, or its last minute with the set seconds |
| CalDateViews.SetTimeEndsAtMidnight | src/CalDate.ts:146-186 | with whole minutes, `toEndDate()` after `setTime` is 00:00:00 of the next day |
| CalDateViews.SetNoonEndsNextDay | src/CalDate.ts:146-186 | `setTime(12)` on 2000-01-01 gives duration 12 and ends at 2000-01-02 00:00:00 |
| CalDateViews.EndAfterTwentyThreeHours | src/CalDate.ts:146-186 | after `setTime(12)` and `setDuration(23)`, the end is 2000-01-02 11:00:00 |
| CalDates.Format | src/CalDate.ts:231-243 | the padded `YYYY-MM-DD HH:MM:SS` layout (`T` and a final `Z` for ISO) of a reading: never shorter than 19 (20) characters, and "0NaN-NaN-NaN NaN:NaN:NaN" for an Invalid Date; the layout of a valid reading is FormatLayout and FormatOfCanonical |
| CalDateViews.FormatLayout | src/CalDate.ts:231-243 | for a four-digit year: 19 characters (20 for ISO), separators in place, year, month and day read back by `toInt` |
| CalDateViews.FormatOfCanonical | src/CalDate.ts:231-243 | `toString` of canonical fields formats exactly those fields |
| CalDateViews.FormatNormalized | src/CalDate.ts:231-243 | `toString` is unchanged by normalising first |
| CalDateViews.DefaultString | src/CalDate.ts:231-243 | `new CalDate().toString()` is "1900-01-01 00:00:00" |
| CalDateViews.IsoText | src/CalDate.ts:224-243 | the ISO form of 2000-01-06 is "2000-01-06T00:00:00Z" |

## Left out

- Time zones: the branches of `toTimezone` and `fromTimezone` that take a zone call
  `zonedTimeToUtc` and `utcToZonedTime` from a time-zone library. That library is not part of
  this model. Only the branches without a zone are modelled.
- The host's local time zone: local getters and the `Date` constructor are taken in UTC. Daylight
  saving transitions are therefore not modelled.
- IEEE doubles: numbers are exact reals (`duration`, offsets, `Number(s)`) or integers
  (properties). Rounding error is not modelled. For example, 12.555 hours is 12:33:18 here,
  where doubles give 12:33:17.
- Number-to-string conversion: only integers and NaN are converted. The exponent forms of
  `String(x)` are not modelled, and `toInt` of a number truncates it directly.
- `Number(s)` of a string is modelled for plain decimals only: an optional sign, digits and an
  optional fraction, surrounded by white space. Hex, binary, octal, exponent and "Infinity" forms
  read as NaN. So `CalDates.CalDate.SetOffset` fails with "Number required" on such a string.
  The source goes on instead: "0x10" shifts by 16 days, and "Infinity" gives NaN fields when the
  year is truthy.
- Milliseconds: time values count whole seconds. A `Date` given from outside stands for the
  floor of its milliseconds divided by 1000. That is exact for every getter the library reads,
  but the milliseconds themselves are not kept.
- `CalDates.CalDate.SetOffset`: for unit 'm' (and any unit other than 'd' and 'h') the method
  follows the corrected chain `Offsets.Decompose`, which adds an hour part of 0. The code as
  written leaves that part `undefined`, so `this.hour += o.hour` is NaN. When the year is truthy,
  `update()` then makes every field NaN. That behaviour is modelled by `Offsets.DecomposeAsWritten`
  and `CalDates.OffsetResultAsWritten` rather than by the class method. The difference is the
  row of "## Findings".
- `CalDates.CalDate.IsEqualDate`: the argument is a `CalDate`. The source takes any object with
  `year`, `month` and `day` properties (`CalDateInterface`, src/CalDate.ts:15-23). A plain object
  is compared the same way, `===` on those three properties, but the model does not take one.
- `CalDates.CalDate.SetTime`: the arguments are integers. The source accepts any number.
  - `setTime(12.5)` stores hour 12.5 and duration 11.5.
  - With a falsy year the fractional hour stays in the property.
  - With a truthy year `toDate()` truncates the hour to 12 while the duration keeps 11.5, so
    `toEndDate()` ends at 23:30:00 rather than midnight.
  - Fractional arguments, and the end dates that follow from them, are not modelled.
- `CalDates.Snapshot`: the `duration` is an `Option<real>`, and `None` stands for both
  `undefined` and NaN. The source keeps these apart.
  - `set({duration: "abc"})` and `new CalDate({duration: "x"})` store a NaN duration, which the
    public property shows.
  - The model shows `undefined` there.
  - `toEndDate()` is unaffected, since both give NaN minutes.
- The order of `Object.entries`: `set` visits the option keys in an arbitrary order. Each key
  sets a different property, so the final state does not depend on the order.
- `CalDates.ToYear` and `UtilsJs.ToYear`: the clock read by `new Date().getFullYear()` is a
  parameter, `currentYear`.
- `instanceof Date`, `instanceof CalDate` and `isDate` are modelled as the constructors of
  tagged argument types. The argument of `setOffset` is likewise tagged as positional or as a
  `{number, unit}` object.
- The methods return `this` for chaining. The model's methods return nothing, except
  `SetOffset`, which returns the outcome that stands for the thrown `TypeError`.
- `CalDateProperties.NormalizeIdempotent`: it excludes states whose normalised year is 1 to 99,
  because `toDate()` reads such years as 1901 to 1999.
- `CalDateViews.WeekDayNormalized` and `CalDateViews.FormatNormalized`: they exclude normalised
  years 0 to 99, for the same reason.
- `CalDates.CalDate.ToString`, `CalDates.CalDate.ToISOString`, `CalDates.CalDate.GetDay`,
  `CalDates.CalDate.ToDate` and `CalDates.CalDate.ToTimezone` are functions without a contract
  of their own. Their properties are stated on `Format`, `WeekDayOf` and `ToInstant` by the
  lemmas above.

## Findings

| source | as written | input that shows it | evidently intended | confidence | as-written member | corrected member |
|---|---|---|---|---|---|---|
| src/CalDate.ts:115-132 | `o.hour` is assigned only for the units 'd' and 'h'; for 'm' it stays `undefined`, so `this.hour += o.hour` makes the hour NaN and `update()` makes every field NaN | `new CalDate({year: 2000}).setOffset(30, 'm')` | an hour part of 0, giving 2000-01-01 00:30:00 | not executed | CalDateProperties.ThirtyMinutesAsWritten | CalDateProperties.ThirtyMinutes |
