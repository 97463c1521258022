# PrayerCalc in Dafny

A model of `PrayerCalc`, the offline prayer-time calculator of the
etijah-alhuda web app (`www/js/prayer.js`). For a date, a latitude and
longitude, a calculation-convention number and a country name, `calculate`
returns the six daily times (Fajr, Sunrise, Dhuhr, Asr, Maghrib, Isha) as
"HH:MM" strings. It converts the date to a Julian Day, takes the sun's
declination and the equation of time from a low-order ephemeris, finds local
solar noon, solves for the hour angle at which the sun reaches each prayer's
angle, and formats each result.

The project has one module per stage:

- `Wrappers` (`wrappers.dfy`): `Option`, which stands for JavaScript's `null`.
- `Calendar` (`calendar.dfy`): `toJD`, together with the proleptic Gregorian
  calendar (`NextDay`) that the formula is checked against.
- `TimeFormat` (`timeformat.dfy`): `toHHMM`, with JavaScript's truncating `%`
  and `Math.round` written out. `ParseClock` reads its output back in.
- `HourAngle` (`hourangle.dfy`): `angleTime` and `asrTime` over an abstract
  `Trig` record whose arccosine returns degrees in [0, 180].
- `Conventions` (`conventions.dfy`): the `METHODS` and `COUNTRY_TZ` tables,
  the fallback to convention 5, and the UTC-offset rule.
- `PrayerCalc` (`prayercalc.dfy`): `midDay`, `calculate`, and the
  properties that tie the stages together.

The model follows the code as written, including where it may not behave as intended:

- When an offset convention has no Maghrib, Isha is not reported as missing.
  `angleTime` receives `null` as the Isha angle, and `null * RAD` is 0, so
  Isha is solved with the sun on the geometric horizon
  (`IshaWithoutMaghrib`).
- A missing time prints "00:00", the same text as a real midnight.
- A positive angle means below the horizon (Sunrise and Maghrib use 0.833).
- The device offset is read at the moment `calculate` runs, not for the
  date being calculated.

## Model

| member | source | states |
|---|---|---|
| `Calendar.ToJD` | www/js/prayer.js:47-51 | the Julian Day of a date is always a whole number plus one half |
| `Calendar.ToJDCountsDays` | www/js/prayer.js:47-51 | for dates in 1901..2099, the Julian Day of the Gregorian next day is exactly one more, across month ends, year ends and leap days |
| `Calendar.MonthEndStep` | www/js/prayer.js:49-50 | from the last day of any month but February and December to the first of the next, the month term adds exactly the month's length |
| `Calendar.FebruaryEndStep` | www/js/prayer.js:49-50 | from the last day of February to 1 March is one day for 1901..2099, because the year term's jump matches the leap years |
| `Calendar.YearEndStep` | www/js/prayer.js:49-50 | from 31 December to 1 January of the next year is one day, for every year |
| `Calendar.ToJDEpoch` | www/js/prayer.js:47-51 | 2000-01-01 maps to 2451544.5 |
| `Calendar.ToJDDayStep` | www/js/prayer.js:47-51 | day + 1 gives Julian Day + 1 for any integers |
| `Calendar.ToJDMissesCenturyRule` | www/js/prayer.js:47-51 | in 2100 the formula puts two days between 28 February and 1 March, which the Gregorian calendar makes consecutive |
| `TimeFormat.Trunc` | www/js/prayer.js:90 | the quotient behind JavaScript's `%` rounds toward zero: the whole number at most 1 from x, on the side of zero |
| `TimeFormat.JsRem24` | www/js/prayer.js:90 | JavaScript `x % 24` is x less a whole multiple of 24, keeps the sign of x and has magnitude below 24 |
| `TimeFormat.NormalizeHours` | www/js/prayer.js:90 | `((h % 24) + 24) % 24` lies in [0, 24) and is h less a whole number of days |
| `TimeFormat.Round` | www/js/prayer.js:92 | `Math.round` is within one half of its argument, halves rounded up |
| `TimeFormat.WholeAndMinutes` | www/js/prayer.js:91-92 | the whole hour is 0..23, the rounded minutes 0..60, and together they are the rounded minute count of the normalized hour |
| `TimeFormat.Carry` | www/js/prayer.js:93-95 | after the carry the reading is valid and equals the minute count modulo one day, so ":60" and "24:" never appear |
| `TimeFormat.ClockOf` | www/js/prayer.js:90-95 | the printed hour is 0..23 and the minute 0..59, and the reading is the minute of the day nearest to h, modulo one day |
| `TimeFormat.DecimalString` | www/js/prayer.js:95 | `String(n)` is a non-empty run of decimal digits whose value is n, with no leading zero, one digit exactly when n < 10 |
| `TimeFormat.Pad2` | www/js/prayer.js:95 | `padStart(2, '0')` of a number below 100 is its tens digit and its units digit |
| `TimeFormat.FormatClock` | www/js/prayer.js:95 | the text is five characters with a colon in the middle |
| `TimeFormat.ToHHMM` | www/js/prayer.js:88-96 | every result, for null, NaN or any finite number, parses as a valid "HH:MM" reading |
| `TimeFormat.ParseFormat` | www/js/prayer.js:95 | parsing the text of a valid reading gives back that reading |
| `TimeFormat.FormatParse` | www/js/prayer.js:95 | formatting what the parser accepted gives back the text |
| `TimeFormat.ClockOfIs` | www/js/prayer.js:90-95 | the reading of h is c exactly when c is the nearest minute of the day to h |
| `TimeFormat.ClockOfPeriodic` | www/js/prayer.js:90 | h + 24k gives the same reading as h |
| `TimeFormat.PrintsAs` | www/js/prayer.js:88-96 | h prints as a reading exactly when that reading is the nearest minute of the day to h |
| `TimeFormat.PrintsText` | www/js/prayer.js:88-96 | a value whose nearest minute of the day is a reading prints as that reading's text |
| `TimeFormat.MidnightPrints` | www/js/prayer.js:88-96 | a value whose nearest minute of the day is midnight prints "00:00" |
| `TimeFormat.ToHHMMIdempotent` | www/js/prayer.js:88-96 | re-parsing a printed time and printing its hour value gives the same text |
| `TimeFormat.ToHHMMPeriodic` | www/js/prayer.js:90 | h and h + 24k print the same for every integer k, negative included |
| `TimeFormat.UnavailableLooksLikeMidnight` | www/js/prayer.js:89 | null or NaN prints "00:00", the same text as midnight |
| `TimeFormat.CarryIntoHour` | www/js/prayer.js:92-95 | 5.999999 prints "06:00", never "05:60" |
| `TimeFormat.CarryIntoMidnight` | www/js/prayer.js:92-95 | 23.9999 prints "00:00", never "24:00" |
| `TimeFormat.NegativeWrapsBack` | www/js/prayer.js:90-95 | -0.5 prints "23:30" |
| `HourAngle.HourAngleTime` | www/js/prayer.js:76-78 | no result exactly when abs(cosH) > 1; otherwise 'ccw' is at most 12 hours before noon and 'cw' at most 12 hours after it |
| `HourAngle.CosHourAngle` | www/js/prayer.js:74-75 | the cosine is undefined exactly when its divisor cos(lat)·cos(decl) is zero; otherwise it solves the altitude equation −sin(angle) = sin(lat)·sin(decl) + cos(lat)·cos(decl)·cosH |
| `HourAngle.AngleTime` | www/js/prayer.js:73-79 | no result exactly when the hour angle's cosine is out of [-1, 1], or its divisor is zero; otherwise the result lies on the side of noon its direction names, within 12 hours |
| `HourAngle.AsrAngle` | www/js/prayer.js:83 | when the divisor is zero, where the source takes the arctangent of `1/0` = Infinity, the Asr angle is −90 degrees |
| `HourAngle.NoonZenith` | www/js/prayer.js:83 | `Math.abs(lat - decl)` is non-negative and is lat − decl or decl − lat |
| `HourAngle.AsrAngleNoonZenith` | www/js/prayer.js:83 | the Asr angle depends on latitude and declination only through the noon zenith distance |
| `HourAngle.AsrTime` | www/js/prayer.js:82-85 | Asr has the same undefined-result rule as the general solver at the shadow angle, and when defined lies 0 to 12 hours after noon |
| `HourAngle.AngleTimeSymmetric` | www/js/prayer.js:77-78 | the 'ccw' and 'cw' solutions at one angle are defined together and average to noon |
| `HourAngle.AngleTimeShift` | www/js/prayer.js:78 | moving noon moves each solution by the same amount and does not change whether it exists |
| `Conventions.MethodFor` | www/js/prayer.js:11-24 | every convention number resolves to a table entry with exactly one Isha rule, an angle or an offset |
| `Conventions.MethodNumbers` | www/js/prayer.js:11-24 | the table holds exactly the numbers 1..13 except 6 |
| `Conventions.UnknownMethodIsEgyptian` | www/js/prayer.js:107 | an unknown number gets convention 5: Fajr 19.5 degrees, Isha 17.5 degrees |
| `Conventions.IshaAngle` | www/js/prayer.js:123 | a null Isha angle reaches the solver as 0 degrees |
| `Conventions.UtcOffset` | www/js/prayer.js:108-111 | a country with a non-null entry gets that offset; any other name gets the device's `getTimezoneOffset()` negated and converted to hours |
| `Conventions.OffsetFollowsDeviceIff` | www/js/prayer.js:108-111 | the offset ignores the device reading exactly when the country has a fixed entry |
| `Conventions.SeasonalCountries` | www/js/prayer.js:28-44 | Egypt, Jordan, Lebanon, Palestine, Syria, Morocco and unlisted names follow the device; Saudi Arabia is +3 and the Emirates +4 |
| `PrayerCalc.MidDay` | www/js/prayer.js:67-70 | at the returned clock time the apparent solar time at the longitude is 12:00: UTC time plus lon/15 plus the equation of time is 12 |
| `PrayerCalc.MidDayShift` | www/js/prayer.js:67-70 | noon is one hour later per extra hour of UTC offset and one hour earlier per 15 degrees east |
| `PrayerCalc.PrayerTimes` | www/js/prayer.js:112-123 | Dhuhr is noon + 0.0333; Sunrise exists exactly when Maghrib does and the two average to noon; with an offset convention and a defined Maghrib, Isha is Maghrib plus the offset |
| `PrayerCalc.RawTimes` | www/js/prayer.js:106-114 | noon, and so Dhuhr, uses the country's fixed offset when it has one, and otherwise the device's `getTimezoneOffset()` in hours west |
| `PrayerCalc.Format` | www/js/prayer.js:125-132 | all six formatted fields are valid "HH:MM" readings |
| `PrayerCalc.Calculate` | www/js/prayer.js:106-133 | `calculate` returns six valid "HH:MM" readings for every finite input |
| `PrayerCalc.NoonOrdering` | www/js/prayer.js:114-123 | for every table convention, Fajr and Sunrise are at most 12 hours before noon, Dhuhr is noon + 0.0333 and always defined, Asr and Maghrib are at most 12 hours after noon, and Isha is at most 13.5 hours after noon |
| `PrayerCalc.IshaAfterMaghrib` | www/js/prayer.js:121-122 | with an offset convention and a defined Maghrib, Isha is Maghrib + 90 minutes |
| `PrayerCalc.IshaWithoutMaghrib` | www/js/prayer.js:121-123 | with an offset convention and no Maghrib, Isha is the evening solution at 0 degrees, not missing |
| `PrayerCalc.PrayerTimesShift` | www/js/prayer.js:109-123 | changing the UTC offset by delta moves all six times by delta and leaves which ones are defined unchanged |
| `PrayerCalc.DeviceClockChange` | www/js/prayer.js:109-111 | for a country that follows the device, a device clock one hour ahead moves all six times one hour later |
| `PrayerCalc.FixedCountryIgnoresDevice` | www/js/prayer.js:108-111 | for a country with a fixed offset, the schedule does not depend on the device clock |
| `PrayerCalc.UnknownMethodFallsBack` | www/js/prayer.js:107 | an unknown convention number gives exactly the schedule of convention 5 |
| `PrayerCalc.UnreachedShowsMidnight` | www/js/prayer.js:89-126 | a Fajr that is never reached is shown as the text of midnight |

## Left out

- `sunPos` (www/js/prayer.js:54-64), the solar ephemeris, is a floating-point trigonometric approximation. It is the parameter `sunPos: real -> Solar` of `RawTimes` and `Calculate`.
- Trigonometry: `Math.sin`, `cos`, `tan`, `atan` and `acos` are the fields of `HourAngle.Trig`. Only the arccosine's range, [0, 180] degrees, is assumed. So no concrete time, such as the Cairo equinox Dhuhr, is derived.
- Fajr < Sunrise < Dhuhr < Asr < Maghrib < Isha as a full chain is not proved. It depends on the trig functions being monotonic, which the abstraction does not assume. `NoonOrdering` proves each time's position relative to noon instead.
- Infinities: every number is a finite real. In the source, `toHHMM(Infinity)` passes the `isNaN` test, `Infinity % 24` is NaN and the text is "NaN:NaN"; a longitude of ±Infinity makes noon infinite and Dhuhr prints "NaN:NaN" too. `ToHHMM` and `Calculate` promise a valid reading only for finite values.
- Floating point: all arithmetic is on exact reals. Rounding of `h % 24`, of the `/ 15` and of the minute product is not modelled.
- `HourAngle.CosHourAngle`: a zero divisor gives None. In IEEE arithmetic x/0 is infinite, which the source also rejects, but 0/0 is NaN. NaN prints "00:00" like None, yet for an offset convention it would make Isha NaN rather than solve at 0 degrees. `Math.cos` never returns exactly 0 for a double argument, so this case does not arise in the source.
- `new Date()`, the `Date` getters and `getTimezoneOffset()` (www/js/prayer.js:48, 111) are reads of the host. Year, month, day and the device offset in minutes are parameters.
- `methodNum` and `countryEn` are modelled as an integer and a string. JavaScript property lookup would also accept other values and inherited names such as "constructor"; those are not modelled.
- `Calendar.ToJD` uses the Julian leap rule, so it matches the Gregorian calendar only from 1901 to 2099. `ToJDCountsDays` is proved only in that range, and `ToJDMissesCenturyRule` exhibits the failure in 2100.
- www/js/db.js (IndexedDB storage, fetching the Quran text) and www/sw.js (service-worker caching) are persistence and caching glue, not part of this model.
