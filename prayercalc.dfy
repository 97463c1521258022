/** `calculate` of www/js/prayer.js: the six daily times for a date, a
    place, a convention number and a country. The solar ephemeris (`sunPos`)
    and the trigonometry are parameters; the lookups, the noon formula, the
    choice of angle and direction per prayer, the Isha rule and the final
    formatting are modelled as written. */
module PrayerCalc {
  import opened Wrappers
  import opened Calendar
  import opened TimeFormat
  import opened HourAngle
  import opened Conventions

  /** What `sunPos` gives for a Julian Day: the solar declination in degrees
      and the equation of time in hours. */
  datatype Solar = Solar(decl: real, eqt: real)

  /** The six times as fractional hours of the local day, before formatting;
      None where the sun never reaches the prayer's angle. Dhuhr is always
      defined. */
  datatype Times = Times(
    fajr: Option<real>,
    sunrise: Option<real>,
    dhuhr: real,
    asr: Option<real>,
    maghrib: Option<real>,
    isha: Option<real>)

  /** The object `calculate` returns: six "HH:MM" strings. */
  datatype Schedule = Schedule(
    fajr: string,
    sunrise: string,
    dhuhr: string,
    asr: string,
    maghrib: string,
    isha: string)

  /** Sunrise and sunset: the sun's upper limb on the horizon, with
      refraction, 0.833 degrees below it. */
  const SunAngle: real := 0.833

  /** Dhuhr is taken this many hours (about two minutes) after noon. */
  const DhuhrMargin: real := 0.0333

  /** `midDay`: local solar noon in hours, from the equation of time, the
      longitude (degrees east) and the UTC offset (hours east). */
  function MidDay(eqt: real, lon: real, tz: real): (md: real)
    ensures (md - tz) + lon / 15.0 + eqt == 12.0
  {
    12.0 - eqt - lon / 15.0 + tz
  }

  /** Noon moves with the clock: one more hour of UTC offset makes it one
      hour later, and 15 degrees further east one hour earlier. */
  lemma MidDayShift(eqt: real, lon: real, tz: real, delta: real)
    ensures MidDay(eqt, lon, tz + delta) == MidDay(eqt, lon, tz) + delta
    ensures MidDay(eqt, lon + 15.0, tz) == MidDay(eqt, lon, tz) - 1.0
  {
  }

  /** The body of `calculate` once the convention, the offset and the sun's
      position are known. */
  function PrayerTimes(t: Trig, sun: Solar, lat: real, lon: real, m: Method, tz: real): (r: Times)
    ensures r.dhuhr == MidDay(sun.eqt, lon, tz) + DhuhrMargin
    ensures r.sunrise.Some? <==> r.maghrib.Some?
    ensures r.sunrise.Some? ==> r.sunrise.value + r.maghrib.value == 2.0 * MidDay(sun.eqt, lon, tz)
    ensures Truthy(m.ishaMin) && r.maghrib.Some? ==>
              r.isha == Some(r.maghrib.value + m.ishaMin.value / 60.0)
  {
    var md := MidDay(sun.eqt, lon, tz);
    AngleTimeSymmetric(t, sun.decl, lat, SunAngle, md);
    var maghrib := AngleTime(t, sun.decl, lat, SunAngle, md, Cw);
    Times(
      AngleTime(t, sun.decl, lat, m.fajr, md, Ccw),
      AngleTime(t, sun.decl, lat, SunAngle, md, Ccw),
      md + DhuhrMargin,
      AsrTime(t, sun.decl, lat, 1.0, md),
      maghrib,
      if Truthy(m.ishaMin) && maghrib.Some? then Some(maghrib.value + m.ishaMin.value / 60.0)
      else AngleTime(t, sun.decl, lat, IshaAngle(m), md, Cw))
  }

  /** `calculate` before formatting: the convention number and the country
      are looked up, the date converted to a Julian Day and the ephemeris
      evaluated there. `deviceOffsetMinutes` is the device's
      `getTimezoneOffset()`. */
  function RawTimes(t: Trig, sunPos: real -> Solar, year: int, month: int, day: int,
                    lat: real, lon: real, methodNum: int, country: string,
                    deviceOffsetMinutes: int): (r: Times)
    ensures var eqt := sunPos(ToJD(year, month, day)).eqt;
            && (HasFixedOffset(country) ==>
                  r.dhuhr == MidDay(eqt, lon, CountryTz[country].value) + DhuhrMargin)
            && (!HasFixedOffset(country) ==>
                  r.dhuhr == MidDay(eqt, lon, 0.0) - deviceOffsetMinutes as real / 60.0 + DhuhrMargin)
  {
    PrayerTimes(t, sunPos(ToJD(year, month, day)), lat, lon, MethodFor(methodNum),
                UtcOffset(country, deviceOffsetMinutes))
  }

  /** Formatting of the six times; every field is a well-formed reading. */
  function Format(times: Times): (s: Schedule)
    ensures ParseClock(s.fajr).Some? && ParseClock(s.sunrise).Some? && ParseClock(s.dhuhr).Some?
    ensures ParseClock(s.asr).Some? && ParseClock(s.maghrib).Some? && ParseClock(s.isha).Some?
  {
    Schedule(ToHHMM(times.fajr), ToHHMM(times.sunrise), ToHHMM(Some(times.dhuhr)),
             ToHHMM(times.asr), ToHHMM(times.maghrib), ToHHMM(times.isha))
  }

  /** `calculate(date, lat, lon, methodNum, countryEn)`. Every field is an
      "HH:MM" text with hour 00..23 and minute 00..59. */
  function Calculate(t: Trig, sunPos: real -> Solar, year: int, month: int, day: int,
                     lat: real, lon: real, methodNum: int, country: string,
                     deviceOffsetMinutes: int): (s: Schedule)
    ensures ParseClock(s.fajr).Some? && ParseClock(s.sunrise).Some? && ParseClock(s.dhuhr).Some?
    ensures ParseClock(s.asr).Some? && ParseClock(s.maghrib).Some? && ParseClock(s.isha).Some?
  {
    Format(RawTimes(t, sunPos, year, month, day, lat, lon, methodNum, country, deviceOffsetMinutes))
  }

  /** Every defined time moved by `delta` hours. */
  function ShiftTimes(times: Times, delta: real): Times {
    Times(Shift(times.fajr, delta), Shift(times.sunrise, delta), times.dhuhr + delta,
          Shift(times.asr, delta), Shift(times.maghrib, delta), Shift(times.isha, delta))
  }

  function Shift(x: Option<real>, delta: real): Option<real> {
    match x
    case None => None
    case Some(v) => Some(v + delta)
  }

  /** Where every time lies relative to local noon, for any table convention:
      Fajr and Sunrise at most 12 hours before it, Dhuhr 0.0333 hours after,
      Asr, Maghrib and Isha after it (Isha at most 13.5 hours after). */
  lemma {:induction false} NoonOrdering(t: Trig, sun: Solar, lat: real, lon: real, methodNum: int, tz: real)
    ensures var md := MidDay(sun.eqt, lon, tz);
            var times := PrayerTimes(t, sun, lat, lon, MethodFor(methodNum), tz);
            && (times.fajr.Some? ==> md - 12.0 <= times.fajr.value <= md)
            && (times.sunrise.Some? ==> md - 12.0 <= times.sunrise.value <= md)
            && md < times.dhuhr == md + DhuhrMargin
            && (times.asr.Some? ==> md <= times.asr.value <= md + 12.0)
            && (times.maghrib.Some? ==> md <= times.maghrib.value <= md + 12.0)
            && (times.isha.Some? ==> md <= times.isha.value <= md + 13.5)
  {
    var m := MethodFor(methodNum);
    assert m.ishaMin.Some? ==> m.ishaMin.value == 90.0;
  }

  /** With an offset convention (Umm al-Qura, Gulf, Qatar) and a defined
      Maghrib, Isha is exactly 90 minutes after Maghrib. */
  lemma {:induction false} IshaAfterMaghrib(t: Trig, sun: Solar, lat: real, lon: real, methodNum: int, tz: real)
    requires MethodFor(methodNum).ishaMin.Some?
    requires PrayerTimes(t, sun, lat, lon, MethodFor(methodNum), tz).maghrib.Some?
    ensures var times := PrayerTimes(t, sun, lat, lon, MethodFor(methodNum), tz);
            times.isha == Some(times.maghrib.value + 1.5)
  {
    var m := MethodFor(methodNum);
    assert m.ishaMin == Some(90.0);
  }

  /** With an offset convention and no Maghrib, the source does not report
      Isha as missing: it solves for the sun on the geometric horizon (a null
      angle coerced to 0), not at the Maghrib angle. */
  lemma {:induction false} IshaWithoutMaghrib(t: Trig, sun: Solar, lat: real, lon: real, methodNum: int, tz: real)
    requires MethodFor(methodNum).ishaMin.Some?
    requires PrayerTimes(t, sun, lat, lon, MethodFor(methodNum), tz).maghrib.None?
    ensures PrayerTimes(t, sun, lat, lon, MethodFor(methodNum), tz).isha
              == AngleTime(t, sun.decl, lat, 0.0, MidDay(sun.eqt, lon, tz), Cw)
  {
    var m := MethodFor(methodNum);
    assert m.isha.None? && IshaAngle(m) == 0.0;
  }

  /** A different UTC offset moves all six times by the difference and leaves
      which of them are defined unchanged. */
  lemma {:induction false} PrayerTimesShift(t: Trig, sun: Solar, lat: real, lon: real, m: Method, tz: real, delta: real)
    ensures PrayerTimes(t, sun, lat, lon, m, tz + delta) == ShiftTimes(PrayerTimes(t, sun, lat, lon, m, tz), delta)
  {
    var md := MidDay(sun.eqt, lon, tz);
    MidDayShift(sun.eqt, lon, tz, delta);
    AngleTimeShift(t, sun.decl, lat, m.fajr, md, Ccw, delta);
    AngleTimeShift(t, sun.decl, lat, SunAngle, md, Ccw, delta);
    AngleTimeShift(t, sun.decl, lat, AsrAngle(t, sun.decl, lat, 1.0), md, Cw, delta);
    AngleTimeShift(t, sun.decl, lat, SunAngle, md, Cw, delta);
    AngleTimeShift(t, sun.decl, lat, IshaAngle(m), md, Cw, delta);
  }

  /** For a country that follows the device (listed as null, or not listed),
      the device moving its clock forward an hour, as at the start of summer
      time, moves all six times an hour later. */
  lemma {:induction false} DeviceClockChange(t: Trig, sunPos: real -> Solar, year: int, month: int, day: int,
                                             lat: real, lon: real, methodNum: int, country: string,
                                             deviceOffsetMinutes: int)
    requires !HasFixedOffset(country)
    ensures RawTimes(t, sunPos, year, month, day, lat, lon, methodNum, country, deviceOffsetMinutes - 60)
              == ShiftTimes(RawTimes(t, sunPos, year, month, day, lat, lon, methodNum, country, deviceOffsetMinutes), 1.0)
  {
    var tz := UtcOffset(country, deviceOffsetMinutes);
    assert UtcOffset(country, deviceOffsetMinutes - 60) == tz + 1.0;
    PrayerTimesShift(t, sunPos(ToJD(year, month, day)), lat, lon, MethodFor(methodNum), tz, 1.0);
  }

  /** For a country with a fixed offset the device's clock plays no part. */
  lemma {:induction false} FixedCountryIgnoresDevice(t: Trig, sunPos: real -> Solar, year: int, month: int, day: int,
                                                     lat: real, lon: real, methodNum: int, country: string,
                                                     before: int, after: int)
    requires HasFixedOffset(country)
    ensures Calculate(t, sunPos, year, month, day, lat, lon, methodNum, country, before)
              == Calculate(t, sunPos, year, month, day, lat, lon, methodNum, country, after)
  {
    assert UtcOffset(country, before) == UtcOffset(country, after);
  }

  /** An unknown convention number gives exactly the schedule of the
      Egyptian convention, number 5. */
  lemma {:induction false} UnknownMethodFallsBack(t: Trig, sunPos: real -> Solar, year: int, month: int, day: int,
                                                  lat: real, lon: real, methodNum: int, country: string,
                                                  deviceOffsetMinutes: int)
    requires methodNum !in Methods
    ensures Calculate(t, sunPos, year, month, day, lat, lon, methodNum, country, deviceOffsetMinutes)
              == Calculate(t, sunPos, year, month, day, lat, lon, DefaultMethod, country, deviceOffsetMinutes)
  {
    UnknownMethodIsEgyptian(methodNum);
  }

  /** A prayer whose angle is never reached is shown as "00:00", the same
      text as a time that really falls at midnight. */
  lemma {:induction false} UnreachedShowsMidnight(t: Trig, sunPos: real -> Solar, year: int, month: int, day: int,
                                                  lat: real, lon: real, methodNum: int, country: string,
                                                  deviceOffsetMinutes: int)
    requires RawTimes(t, sunPos, year, month, day, lat, lon, methodNum, country, deviceOffsetMinutes).fajr.None?
    ensures Calculate(t, sunPos, year, month, day, lat, lon, methodNum, country, deviceOffsetMinutes).fajr
              == ToHHMM(Some(0.0))
  {
    UnavailableLooksLikeMidnight(0.0);
  }
}
