/** The two constant tables of www/js/prayer.js, `METHODS` and `COUNTRY_TZ`,
    and the lookups `calculate` makes in them. */
module Conventions {
  import opened Wrappers

  /** A calculation convention: the Fajr depression angle in degrees, and
      either an Isha depression angle or a fixed number of minutes after
      Maghrib (`null` in the source is None). */
  datatype Method = Method(fajr: real, isha: Option<real>, ishaMin: Option<real>)

  /** `METHODS`, keyed by the convention numbers of aladhan.com; 6 is absent. */
  const Methods: map<int, Method> := map[
    1 := Method(18.0, Some(17.0), None),    // Muslim World League
    2 := Method(15.0, Some(15.0), None),    // ISNA
    3 := Method(18.0, Some(17.0), None),    // Iraq, MWL angles
    4 := Method(18.5, None, Some(90.0)),    // Umm al-Qura
    5 := Method(19.5, Some(17.5), None),    // Egyptian General Authority
    7 := Method(17.7, Some(14.0), None),    // Tehran
    8 := Method(19.5, None, Some(90.0)),    // Gulf
    9 := Method(18.0, Some(17.5), None),    // Kuwait
    10 := Method(18.0, None, Some(90.0)),   // Qatar
    11 := Method(20.0, Some(18.0), None),   // Singapore
    12 := Method(12.0, Some(12.0), None),   // France, UOIF
    13 := Method(18.0, Some(17.0), None)    // Turkey
  ]

  /** The convention used for a number the table does not know. */
  const DefaultMethod: int := 5

  /** A convention that settles Isha one way only: an angle or an offset. */
  predicate HasOneIshaRule(m: Method) {
    m.isha.Some? != m.ishaMin.Some?
  }

  /** `METHODS[methodNum] || METHODS[5]`: every number resolves to a table
      entry, and that entry has exactly one Isha rule. */
  function MethodFor(methodNum: int): (m: Method)
    ensures m in Methods.Values
    ensures HasOneIshaRule(m)
  {
    if methodNum in Methods then Methods[methodNum] else Methods[DefaultMethod]
  }

  /** The numbers the table knows. */
  lemma {:induction false} MethodNumbers(methodNum: int)
    ensures methodNum in Methods <==> 1 <= methodNum <= 13 && methodNum != 6
  {
  }

  /** An unknown number, 6 or 0 or 99 alike, gets the Egyptian convention:
      Fajr at 19.5 degrees and Isha at 17.5. */
  lemma {:induction false} UnknownMethodIsEgyptian(methodNum: int)
    requires methodNum !in Methods
    ensures MethodFor(methodNum) == MethodFor(DefaultMethod)
    ensures MethodFor(methodNum) == Method(19.5, Some(17.5), None)
  {
  }

  /** JavaScript truthiness of a possibly-null number: null and 0 are false. */
  predicate Truthy(x: Option<real>) {
    x.Some? && x.value != 0.0
  }

  /** The angle `angleTime` receives for Isha: `m.isha`, where `null * RAD`
      coerces to 0, so a missing angle acts as the horizon itself. */
  function IshaAngle(m: Method): (angle: real)
    ensures m.isha.None? ==> angle == 0.0
    ensures m.isha.Some? ==> angle == m.isha.value
  {
    m.isha.GetOr(0.0)
  }

  /** `COUNTRY_TZ`: a fixed UTC offset in hours, or None for countries whose
      civil time shifts with the seasons and is read from the device. */
  const CountryTz: map<string, Option<real>> := map[
    "Egypt" := None,
    "Saudi Arabia" := Some(3.0),
    "United Arab Emirates" := Some(4.0),
    "Kuwait" := Some(3.0),
    "Qatar" := Some(3.0),
    "Bahrain" := Some(3.0),
    "Oman" := Some(4.0),
    "Jordan" := None,
    "Lebanon" := None,
    "Palestine" := None,
    "Syria" := None,
    "Iraq" := Some(3.0),
    "Yemen" := Some(3.0),
    "Morocco" := None,
    "Algeria" := Some(1.0),
    "Tunisia" := Some(1.0),
    "Libya" := Some(2.0),
    "Sudan" := Some(3.0)
  ]

  /** The country has a non-null entry in the table. */
  predicate HasFixedOffset(country: string) {
    country in CountryTz && CountryTz[country].Some?
  }

  /** The UTC offset `calculate` uses, in hours east of Greenwich. The device's
      `getTimezoneOffset()` is minutes WEST of Greenwich, hence the negation. */
  function UtcOffset(country: string, deviceOffsetMinutes: int): (tz: real)
    ensures HasFixedOffset(country) ==> tz == CountryTz[country].value
    ensures !HasFixedOffset(country) ==> tz * 60.0 == -deviceOffsetMinutes as real
  {
    if HasFixedOffset(country) then CountryTz[country].value
    else -(deviceOffsetMinutes as real / 60.0)
  }

  /** The offset ignores the device exactly for countries with a fixed entry:
      for every other name, listed as null or not listed at all, two
      different device readings give two different offsets. */
  lemma {:induction false} OffsetFollowsDeviceIff(country: string, before: int, after: int)
    requires before != after
    ensures UtcOffset(country, before) == UtcOffset(country, after) <==> HasFixedOffset(country)
  {
    if !HasFixedOffset(country) {
      assert UtcOffset(country, before) * 60.0 != UtcOffset(country, after) * 60.0;
    }
  }

  /** The countries the table marks for the device, and a name it does not
      list, follow the device; the Gulf states keep their fixed offsets. */
  lemma SeasonalCountries(deviceOffsetMinutes: int)
    ensures forall c :: c in {"Egypt", "Jordan", "Lebanon", "Palestine", "Syria", "Morocco", "France"} ==>
              UtcOffset(c, deviceOffsetMinutes) * 60.0 == -deviceOffsetMinutes as real
    ensures UtcOffset("Saudi Arabia", deviceOffsetMinutes) == 3.0
    ensures UtcOffset("United Arab Emirates", deviceOffsetMinutes) == 4.0
  {
  }
}
