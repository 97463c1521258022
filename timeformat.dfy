/** `toHHMM` of www/js/prayer.js: a fractional hour, possibly negative, past
    24 or missing, rendered as a zero-padded "HH:MM" wall-clock string. */
module TimeFormat {
  import opened Wrappers

  /** A wall-clock reading, hour 0..23 and minute 0..59 when well formed. */
  datatype Clock = Clock(hour: int, minute: int)

  predicate ValidClock(c: Clock) {
    0 <= c.hour < 24 && 0 <= c.minute < 60
  }

  /** Minutes since midnight. */
  function MinuteOfDay(c: Clock): int {
    60 * c.hour + c.minute
  }

  /** The fractional hour a clock reading stands for. */
  function HoursOf(c: Clock): real {
    c.hour as real + c.minute as real / 60.0
  }

  /** Rounding toward zero, as JavaScript's `%` uses for its quotient. */
  function Trunc(x: real): (n: int)
    ensures 0.0 <= x ==> n as real <= x < n as real + 1.0
    ensures x < 0.0 ==> n as real - 1.0 < x <= n as real
  {
    if x < 0.0 then -((-x).Floor) else x.Floor
  }

  /** JavaScript's `x % 24` on numbers: `x` less a whole multiple of 24,
      the remainder taking the sign of the dividend. */
  function JsRem24(x: real): (r: real)
    ensures (x - r) / 24.0 == ((x - r) / 24.0).Floor as real
    ensures 0.0 <= x ==> 0.0 <= r < 24.0
    ensures x < 0.0 ==> -24.0 < r <= 0.0
  {
    var q := Trunc(x / 24.0);
    assert (x - (x - 24.0 * q as real)) / 24.0 == q as real;
    x - 24.0 * q as real
  }

  /** `Math.round`: the nearest integer, halves rounded up. */
  function Round(x: real): (n: int)
    ensures x - 0.5 < n as real <= x + 0.5
  {
    (x + 0.5).Floor
  }

  /** Shifting by a whole number shifts the floor by the same amount. */
  lemma FloorShift(x: real, k: int)
    ensures (x + k as real).Floor == x.Floor + k
  {
  }

  /** `((h % 24) + 24) % 24`: the hour reduced into [0, 24), which is `h`
      less a whole number of days. */
  function NormalizeHours(h: real): (r: real)
    ensures 0.0 <= r < 24.0
    ensures r == h - 24.0 * (h / 24.0).Floor as real
  {
    var once := JsRem24(h);
    var shifted := once + 24.0;
    var r := JsRem24(shifted);
    if h / 24.0 == (h / 24.0).Floor as real then
      assert once == 0.0;
      r
    else if h < 0.0 then
      assert Trunc(h / 24.0) == (h / 24.0).Floor + 1;
      assert 0.0 < shifted < 24.0;
      assert (shifted / 24.0).Floor == 0;
      r
    else
      assert Trunc(h / 24.0) == (h / 24.0).Floor;
      assert 24.0 <= shifted < 48.0;
      assert (shifted / 24.0).Floor == 1;
      r
  }

  /** The whole hour and the rounded minutes of a normalized hour value, as
      `Math.floor(h)` and `Math.round((h - hh) * 60)`. Together they are the
      rounded minute count of the value; the minutes may reach 60. */
  function WholeAndMinutes(n: real): (hm: (int, int))
    requires 0.0 <= n < 24.0
    ensures 0 <= hm.0 < 24 && 0 <= hm.1 <= 60
    ensures 60 * hm.0 + hm.1 == Round(60.0 * n)
  {
    var hh := n.Floor;
    var mm := Round((n - hh as real) * 60.0);
    assert (n - hh as real) * 60.0 + 0.5 == 60.0 * n + 0.5 + (-60 * hh) as real;
    FloorShift(60.0 * n + 0.5, -60 * hh);
    (hh, mm)
  }

  /** The carry: rounded minutes of 60 become the next hour, which wraps past
      23. The reading is the minute count modulo one day. */
  function Carry(hh: int, mm: int): (c: Clock)
    requires 0 <= hh < 24 && 0 <= mm <= 60
    ensures ValidClock(c)
    ensures MinuteOfDay(c) == (60 * hh + mm) % 1440
  {
    var fh := if mm == 60 then hh + 1 else hh;
    var m := if mm == 60 then 0 else mm;
    assert 60 * fh + m == 60 * hh + mm;
    if fh == 24 then
      assert fh % 24 == 0 && m == 0;
      Clock(fh % 24, m)
    else
      assert fh % 24 == fh;
      Clock(fh % 24, m)
  }

  /** The reading `toHHMM` prints for the hour value `h`: the hour is
      normalized, its minutes rounded, a rounded 60 carried into the hour and
      the hour wrapped again. It is the minute of the day nearest to `h`
      (halves rounded up), counted modulo one day. */
  function ClockOf(h: real): (c: Clock)
    ensures ValidClock(c)
    ensures MinuteOfDay(c) == Round(60.0 * h) % 1440
  {
    var hm := WholeAndMinutes(NormalizeHours(h));
    NormalizedMinutes(h);
    Carry(hm.0, hm.1)
  }

  /** Normalizing the hour removes whole days, so the rounded minute count is
      unchanged modulo one day. */
  lemma NormalizedMinutes(h: real)
    ensures Round(60.0 * NormalizeHours(h)) % 1440 == Round(60.0 * h) % 1440
  {
    var n := NormalizeHours(h);
    var days := (h / 24.0).Floor;
    assert 60.0 * n + 0.5 == 60.0 * h + 0.5 + (-1440 * days) as real;
    FloorShift(60.0 * h + 0.5, -1440 * days);
    ModShift(Round(60.0 * h), -days);
  }

  /** Adding whole multiples of 1440 does not change the remainder. */
  lemma ModShift(a: int, k: int)
    ensures (a + 1440 * k) % 1440 == a % 1440
  {
  }

  /** The decimal digit character for 0..9. */
  function Digit(d: int): (c: char)
    requires 0 <= d < 10
    ensures '0' <= c <= '9'
  {
    ('0' as int + d) as char
  }

  predicate AllDigits(s: string) {
    forall i :: 0 <= i < |s| ==> '0' <= s[i] <= '9'
  }

  /** The number a run of decimal digits spells, most significant first. */
  function DecimalValue(s: string): nat
    requires AllDigits(s)
  {
    if |s| == 0 then 0 else 10 * DecimalValue(s[..|s| - 1]) + DigitValue(s[|s| - 1])
  }

  /** `String(n)` for a natural number: decimal digits that spell `n`, most
      significant first, with no leading zero. */
  function DecimalString(n: nat): (s: string)
    ensures 1 <= |s| && AllDigits(s)
    ensures DecimalValue(s) == n
    ensures |s| > 1 ==> s[0] != '0'
    ensures |s| == 1 <==> n < 10
    ensures n < 100 ==> |s| <= 2
    decreases n
  {
    if n < 10 then [Digit(n)]
    else
      var front := DecimalString(n / 10);
      var s := front + [Digit(n % 10)];
      assert s[..|s| - 1] == front;
      s
  }

  /** `String(n).padStart(2, '0')`. */
  function Pad2(n: nat): (s: string)
    requires n < 100
    ensures s == [Digit(n / 10), Digit(n % 10)]
  {
    var digits := DecimalString(n);
    if |digits| < 2 then "0" + digits
    else
      assert digits == DecimalString(n / 10) + [Digit(n % 10)];
      digits
  }

  /** The "HH:MM" text of a reading. */
  function FormatClock(c: Clock): (s: string)
    requires ValidClock(c)
    ensures |s| == 5 && s[2] == ':'
  {
    Pad2(c.hour) + ":" + Pad2(c.minute)
  }

  /** `toHHMM`: None stands for `null` and `NaN`, which the source renders as
      "00:00". Every result is a well-formed reading. */
  function ToHHMM(h: Option<real>): (s: string)
    ensures ParseClock(s).Some?
  {
    var c := match h
      case None => Clock(0, 0)
      case Some(x) => ClockOf(x);
    ParseFormat(c);
    FormatClock(c)
  }

  /** The value of a decimal digit character. */
  function DigitValue(ch: char): (d: int)
    requires '0' <= ch <= '9'
    ensures 0 <= d < 10
  {
    ch as int - '0' as int
  }

  /** Reads an "HH:MM" text back into a reading: two digits, a colon, two
      digits, hour below 24 and minute below 60; anything else is None. */
  function ParseClock(s: string): (c: Option<Clock>)
    ensures c.Some? ==> ValidClock(c.value)
  {
    if |s| == 5 && s[2] == ':' && '0' <= s[0] <= '9' && '0' <= s[1] <= '9'
       && '0' <= s[3] <= '9' && '0' <= s[4] <= '9' then
      var hour := 10 * DigitValue(s[0]) + DigitValue(s[1]);
      var minute := 10 * DigitValue(s[3]) + DigitValue(s[4]);
      if hour < 24 && minute < 60 then Some(Clock(hour, minute)) else None
    else
      None
  }

  /** Formatting and parsing are inverse: every well-formed reading comes back
      from its text. */
  lemma ParseFormat(c: Clock)
    requires ValidClock(c)
    ensures ParseClock(FormatClock(c)) == Some(c)
  {
  }

  /** ...and every text the parser accepts is the formatting of what it read. */
  lemma FormatParse(s: string)
    requires ParseClock(s).Some?
    ensures FormatClock(ParseClock(s).value) == s
  {
    var c := ParseClock(s).value;
    assert c.hour / 10 == DigitValue(s[0]) && c.hour % 10 == DigitValue(s[1]);
    assert c.minute / 10 == DigitValue(s[3]) && c.minute % 10 == DigitValue(s[4]);
    var t := FormatClock(c);
    assert t == Pad2(c.hour) + ":" + Pad2(c.minute);
    assert t[0] == s[0] && t[1] == s[1] && t[3] == s[3] && t[4] == s[4];
  }

  /** Two well-formed readings with the same minute of the day are equal. */
  lemma ClockUnique(a: Clock, b: Clock)
    requires ValidClock(a) && ValidClock(b)
    requires MinuteOfDay(a) == MinuteOfDay(b)
    ensures a == b
  {
  }

  /** The reading of `h` is `c` exactly when `c` is the minute of the day
      nearest to `h`. */
  lemma {:induction false} ClockOfIs(h: real, c: Clock)
    requires ValidClock(c)
    ensures ClockOf(h) == c <==> Round(60.0 * h) % 1440 == MinuteOfDay(c)
  {
    if Round(60.0 * h) % 1440 == MinuteOfDay(c) {
      ClockUnique(ClockOf(h), c);
    }
  }

  /** `h` prints as the reading `c` exactly when `c` is the minute of the day
      nearest to `h`. */
  lemma {:induction false} PrintsAs(h: real, c: Clock)
    requires ValidClock(c)
    ensures ToHHMM(Some(h)) == FormatClock(c) <==> Round(60.0 * h) % 1440 == MinuteOfDay(c)
  {
    var d := ClockOf(h);
    ClockOfIs(h, c);
    if ToHHMM(Some(h)) == FormatClock(c) {
      ParseFormat(c);
      ParseFormat(d);
    }
  }

  /** The rounded minute count of a value within half a minute of `k`. */
  lemma RoundsTo(x: real, k: int)
    requires k as real - 0.5 <= x < k as real + 0.5
    ensures Round(x) == k
  {
  }

  /** The hour value of a reading is exactly its minute of the day. */
  lemma HoursOfMinutes(c: Clock)
    requires ValidClock(c)
    ensures Round(60.0 * HoursOf(c)) % 1440 == MinuteOfDay(c)
  {
    assert 60.0 * HoursOf(c) == MinuteOfDay(c) as real;
    RoundsTo(60.0 * HoursOf(c), MinuteOfDay(c));
  }

  /** The hour value of a reading prints as that reading. */
  lemma {:induction false} ClockOfHoursOf(c: Clock)
    requires ValidClock(c)
    ensures ClockOf(HoursOf(c)) == c
  {
    HoursOfMinutes(c);
    ClockOfIs(HoursOf(c), c);
  }

  /** A value within half a minute of minute `k`, where `k` is the minute of
      the day of `c` give or take whole days, has `c` as its nearest minute of
      the day. */
  lemma NearestMinuteIs(h: real, k: int, c: Clock, days: int)
    requires ValidClock(c) && k == MinuteOfDay(c) + 1440 * days
    requires k as real - 0.5 <= 60.0 * h < k as real + 0.5
    ensures Round(60.0 * h) % 1440 == MinuteOfDay(c)
  {
    RoundsTo(60.0 * h, k);
    MinuteGiveOrTakeDays(MinuteOfDay(c), days);
  }

  /** A minute of the day is its own remainder after whole days are added. */
  lemma MinuteGiveOrTakeDays(m: int, days: int)
    requires 0 <= m < 1440
    ensures (m + 1440 * days) % 1440 == m
  {
    ModShift(m, days);
  }

  /** A value whose nearest minute of the day is the reading `c` prints as
      the text of `c`. */
  lemma {:induction false} PrintsText(h: real, c: Clock, s: string)
    requires ValidClock(c) && Round(60.0 * h) % 1440 == MinuteOfDay(c)
    requires FormatClock(c) == s
    ensures ToHHMM(Some(h)) == s
  {
    PrintsAs(h, c);
  }

  /** Formatting is idempotent: re-parsing what was printed and printing the
      hour value it stands for gives back the same text. */
  lemma {:induction false} ToHHMMIdempotent(h: Option<real>)
    ensures ParseClock(ToHHMM(h)).Some?
    ensures ToHHMM(Some(HoursOf(ParseClock(ToHHMM(h)).value))) == ToHHMM(h)
  {
    var s := ToHHMM(h);
    var c := ParseClock(s).value;
    ClockOfHoursOf(c);
    FormatParse(s);
  }

  /** Whole days added to an hour value leave its rounded minute count
      unchanged modulo one day. */
  lemma {:induction false} RoundedMinutesPeriodic(h: real, k: int)
    ensures Round(60.0 * (h + 24.0 * k as real)) % 1440 == Round(60.0 * h) % 1440
  {
    assert 60.0 * (h + 24.0 * k as real) + 0.5 == 60.0 * h + 0.5 + (1440 * k) as real;
    FloorShift(60.0 * h + 0.5, 1440 * k);
    ModShift(Round(60.0 * h), k);
  }

  /** The result depends on the hour only modulo 24: adding any whole number
      of days, negative included, prints the same text. */
  lemma {:induction false} ToHHMMPeriodic(h: real, k: int)
    ensures ToHHMM(Some(h + 24.0 * k as real)) == ToHHMM(Some(h))
  {
    ClockOfPeriodic(h, k);
  }

  /** The reading of `h + 24k` is the reading of `h`. */
  lemma {:induction false} ClockOfPeriodic(h: real, k: int)
    ensures ClockOf(h + 24.0 * k as real) == ClockOf(h)
  {
    RoundedMinutesPeriodic(h, k);
    ClockOfIs(h + 24.0 * k as real, ClockOf(h));
  }

  /** The text of midnight. */
  lemma MidnightText()
    ensures FormatClock(Clock(0, 0)) == "00:00"
  {
  }

  /** A value within half a minute of a whole number of days rounds to
      midnight. */
  lemma NearMidnight(h: real, days: int)
    requires 1440.0 * days as real - 0.5 <= 60.0 * h < 1440.0 * days as real + 0.5
    ensures Round(60.0 * h) % 1440 == 0
  {
    RoundsTo(60.0 * h, 1440 * days);
    ModShift(0, days);
  }

  /** A value whose nearest minute is midnight prints as "00:00". */
  lemma {:induction false} MidnightPrints(h: real)
    requires Round(60.0 * h) % 1440 == 0
    ensures ToHHMM(Some(h)) == "00:00"
  {
    PrintsAs(h, Clock(0, 0));
    MidnightText();
  }

  /** A missing value prints exactly as a genuine midnight does. */
  lemma UnavailableLooksLikeMidnight(midnight: real)
    requires midnight == 0.0
    ensures ToHHMM(None) == ToHHMM(Some(midnight)) == "00:00"
  {
    NearMidnight(midnight, 0);
    MidnightPrints(midnight);
    MidnightText();
  }

  /** Rounding never prints ":60": a value a moment before the hour carries
      into the next hour. */
  lemma CarryIntoHour(h: real)
    requires h == 5.999999
    ensures ToHHMM(Some(h)) == "06:00"
  {
    NearestMinuteIs(h, 360, Clock(6, 0), 0);
    PrintsText(h, Clock(6, 0), "06:00");
  }

  /** Rounding never prints "24:": a value a moment before midnight carries
      into the next day. */
  lemma CarryIntoMidnight(h: real)
    requires h == 23.9999
    ensures ToHHMM(Some(h)) == "00:00"
  {
    NearMidnight(h, 1);
    MidnightPrints(h);
  }

  /** A negative value is counted back from midnight. */
  lemma NegativeWrapsBack(h: real)
    requires h == -0.5
    ensures ToHHMM(Some(h)) == "23:30"
  {
    NearestMinuteIs(h, -30, Clock(23, 30), -1);
    PrintsText(h, Clock(23, 30), "23:30");
  }
}
