/** `angleTime` and `asrTime` of www/js/prayer.js: the time at which the sun
    stands at a given angle to the horizon, before or after local noon, or
    None where it never does. The trigonometry is abstract. */
module HourAngle {
  import opened Wrappers

  /** An angle in degrees in [0, 180]: the range of the arccosine. */
  type HalfTurn = x: real | 0.0 <= x <= 180.0 witness 0.0

  /** The host's trigonometric functions, taken and returned in degrees (the
      source converts with RAD and DEG around each `Math` call). Only the
      range of the arccosine is assumed; the rest is arbitrary. */
  datatype Trig = Trig(
    sin: real -> real,
    cos: real -> real,
    tan: real -> real,
    atan: real -> real,
    acos: real -> HalfTurn)

  /** 'ccw' counts back from noon (morning events), 'cw' forward (evening). */
  datatype Direction = Ccw | Cw

  /** The solver once the cosine of the hour angle is known: None exactly when
      its magnitude exceeds 1 (the angle is never reached, as near the poles),
      otherwise noon less or plus the hour angle, which is at most 12 hours. */
  function HourAngleTime(cosH: real, md: real, dir: Direction, acos: real -> HalfTurn): (r: Option<real>)
    ensures r.None? <==> cosH < -1.0 || 1.0 < cosH
    ensures r.Some? && dir == Ccw ==> md - 12.0 <= r.value <= md
    ensures r.Some? && dir == Cw ==> md <= r.value <= md + 12.0
  {
    if cosH < -1.0 || 1.0 < cosH then None
    else
      var h := acos(cosH) / 15.0;
      if dir == Ccw then Some(md - h) else Some(md + h)
  }

  /** The hour angle's cosine for the sun at `angle` degrees below the
      horizon (a negative angle is above it), at latitude `lat` with solar
      declination `decl`. None when the divisor is zero: in IEEE arithmetic
      the quotient is then infinite, which the source's test rejects. */
  function CosHourAngle(t: Trig, decl: real, lat: real, angle: real): (c: Option<real>)
    ensures c.None? <==> t.cos(lat) * t.cos(decl) == 0.0
    ensures c.Some? ==>
              -t.sin(angle) == t.sin(lat) * t.sin(decl) + t.cos(lat) * t.cos(decl) * c.value
  {
    var den := t.cos(lat) * t.cos(decl);
    if den == 0.0 then None
    else
      var num := -t.sin(angle) - t.sin(lat) * t.sin(decl);
      assert den * (num / den) == num;
      Some(num / den)
  }

  /** `angleTime(decl, lat, angle, md, dir)`. */
  function AngleTime(t: Trig, decl: real, lat: real, angle: real, md: real, dir: Direction): (r: Option<real>)
    ensures r.None? <==> match CosHourAngle(t, decl, lat, angle)
                         case None => true
                         case Some(c) => c < -1.0 || 1.0 < c
    ensures r.Some? && dir == Ccw ==> md - 12.0 <= r.value <= md
    ensures r.Some? && dir == Cw ==> md <= r.value <= md + 12.0
  {
    match CosHourAngle(t, decl, lat, angle)
    case None => None
    case Some(c) => HourAngleTime(c, md, dir, t.acos)
  }

  /** The angle at which an object's shadow is `factor` times its height plus
      its noon shadow (1 for the standard Asr, 2 for Hanafi), negative since
      the sun is then above the horizon. `1 / 0` is infinite in the source and
      its arctangent is exactly 90 degrees. */
  function AsrAngle(t: Trig, decl: real, lat: real, factor: real): (a: real)
    ensures factor + t.tan(NoonZenith(decl, lat)) == 0.0 ==> a == -90.0
  {
    var den := factor + t.tan(NoonZenith(decl, lat));
    if den == 0.0 then -90.0 else -t.atan(1.0 / den)
  }

  /** `Math.abs(lat - decl)`: the sun's distance from the zenith at noon. */
  function NoonZenith(decl: real, lat: real): (z: real)
    ensures 0.0 <= z && (z == lat - decl || z == decl - lat)
  {
    if lat - decl < 0.0 then decl - lat else lat - decl
  }

  /** The Asr angle depends on the place and the date only through the noon
      zenith distance: mirrored latitude and declination give the same angle. */
  lemma {:induction false} AsrAngleNoonZenith(t: Trig, decl: real, lat: real, decl': real, lat': real, factor: real)
    requires lat - decl == decl' - lat'
    ensures AsrAngle(t, decl, lat, factor) == AsrAngle(t, decl', lat', factor)
  {
    assert NoonZenith(decl, lat) == NoonZenith(decl', lat');
  }

  /** `asrTime(decl, lat, factor, md)`: the after-noon solution at the Asr
      angle, so it shares the solver's undefined-result rule. */
  function AsrTime(t: Trig, decl: real, lat: real, factor: real, md: real): (r: Option<real>)
    ensures r.None? <==> match CosHourAngle(t, decl, lat, AsrAngle(t, decl, lat, factor))
                         case None => true
                         case Some(c) => c < -1.0 || 1.0 < c
    ensures r.Some? ==> md <= r.value <= md + 12.0
  {
    AngleTime(t, decl, lat, AsrAngle(t, decl, lat, factor), md, Cw)
  }

  /** The morning and evening solutions at the same angle exist together and
      lie the same distance either side of noon: their mean is noon. */
  lemma {:induction false} AngleTimeSymmetric(t: Trig, decl: real, lat: real, angle: real, md: real)
    ensures AngleTime(t, decl, lat, angle, md, Ccw).Some? <==> AngleTime(t, decl, lat, angle, md, Cw).Some?
    ensures AngleTime(t, decl, lat, angle, md, Ccw).Some? ==>
              AngleTime(t, decl, lat, angle, md, Ccw).value + AngleTime(t, decl, lat, angle, md, Cw).value == 2.0 * md
  {
  }

  /** Moving noon moves every solution by the same amount; whether one exists
      does not depend on noon at all. */
  lemma {:induction false} AngleTimeShift(t: Trig, decl: real, lat: real, angle: real, md: real, dir: Direction, delta: real)
    ensures AngleTime(t, decl, lat, angle, md + delta, dir).Some? == AngleTime(t, decl, lat, angle, md, dir).Some?
    ensures AngleTime(t, decl, lat, angle, md, dir).Some? ==>
              AngleTime(t, decl, lat, angle, md + delta, dir).value == AngleTime(t, decl, lat, angle, md, dir).value + delta
  {
  }
}
