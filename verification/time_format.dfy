/** `util::time_format::format_timestamp_ms`: a millisecond timestamp shown
    as the time of day `HH:MM:SS.mmm` (the day itself is dropped). */
module TimeFormat {
  import opened Ints
  import opened Decimal

  const MS_PER_DAY: nat := 86_400_000

  datatype Clock = Clock(hours: nat, minutes: nat, seconds: nat, millis: nat)

  /** The clock fields, split out the way the source does it. */
  function ClockOf(t: uint64): (c: Clock)
    ensures c.hours < 24 && c.minutes < 60 && c.seconds < 60 && c.millis < 1000
  {
    var totalSeconds := t / 1000;
    var totalMinutes := totalSeconds / 60;
    Clock((totalMinutes / 60) % 24, totalMinutes % 60, totalSeconds % 60, t % 1000)
  }

  function MillisOfDay(c: Clock): nat {
    ((c.hours * 60 + c.minutes) * 60 + c.seconds) * 1000 + c.millis
  }

  /** The `HH:MM:SS.mmm` pattern around four digit groups. */
  function Join(h: string, m: string, s: string, ms: string): (r: string)
    requires |h| == 2 && |m| == 2 && |s| == 2 && |ms| == 3
    ensures |r| == 12 && r[2] == ':' && r[5] == ':' && r[8] == '.'
    ensures r[0..2] == h && r[3..5] == m && r[6..8] == s && r[9..12] == ms
  {
    [h[0], h[1], ':', m[0], m[1], ':', s[0], s[1], '.', ms[0], ms[1], ms[2]]
  }

  /** `format_timestamp_ms`: zero-padded hours, minutes and seconds, then
      three digits of milliseconds. */
  function FormatTimestampMs(t: uint64): (s: string)
    ensures |s| == 12
    ensures s[2] == ':' && s[5] == ':' && s[8] == '.'
    ensures AllDigits(s[0..2]) && AllDigits(s[3..5]) && AllDigits(s[6..8]) && AllDigits(s[9..12])
  {
    var c := ClockOf(t);
    Join(FixedDigits(c.hours, 2), FixedDigits(c.minutes, 2), FixedDigits(c.seconds, 2), FixedDigits(c.millis, 3))
  }

  /** Reads a formatted time of day back. */
  function ParseClock(s: string): Clock
    requires |s| == 12
    requires AllDigits(s[0..2]) && AllDigits(s[3..5]) && AllDigits(s[6..8]) && AllDigits(s[9..12])
  {
    Clock(Value(s[0..2]), Value(s[3..5]), Value(s[6..8]), Value(s[9..12]))
  }

  /** The four fields are the time of day, in milliseconds since midnight. */
  lemma ClockIsTimeOfDay(t: uint64)
    ensures MillisOfDay(ClockOf(t)) == t % MS_PER_DAY
  {
    var ms := t % 1000;
    var ts := t / 1000;
    var tm := ts / 60;
    var th := tm / 60;
    var days := th / 24;
    var h, m, s := th % 24, tm % 60, ts % 60;
    assert ClockOf(t) == Clock(h, m, s, ms);
    assert t == ts * 1000 + ms;
    assert ts == tm * 60 + s;
    assert tm == th * 60 + m;
    assert th == days * 24 + h;
    assert t == (tm * 60 + s) * 1000 + ms;
    assert t == ((th * 60 + m) * 60 + s) * 1000 + ms;
    assert t == (((days * 24 + h) * 60 + m) * 60 + s) * 1000 + ms;
    var x := ((h * 60 + m) * 60 + s) * 1000 + ms;
    assert t == days * MS_PER_DAY + x;
    DayRemainder(t, days, x);
  }

  lemma DayRemainder(t: nat, days: nat, x: nat)
    requires t == days * MS_PER_DAY + x && x < MS_PER_DAY
    ensures t % MS_PER_DAY == x
  {
  }

  /** Parsing the rendered text gives back the clock fields, so the text
      is the time of day of the timestamp. */
  lemma ParseFormatted(t: uint64)
    ensures ParseClock(FormatTimestampMs(t)) == ClockOf(t)
    ensures MillisOfDay(ParseClock(FormatTimestampMs(t))) == t % MS_PER_DAY
  {
    ClockIsTimeOfDay(t);
  }

  /** Timestamps a whole day apart look the same. */
  lemma FormatIsDaily(t: uint64)
    requires t + MS_PER_DAY < 0x1_0000_0000_0000_0000
    ensures FormatTimestampMs(t) == FormatTimestampMs(t + MS_PER_DAY)
  {
    ClockDeterminedByTimeOfDay(t, t + MS_PER_DAY);
  }

  /** Two timestamps with the same time of day have the same clock. */
  lemma ClockDeterminedByTimeOfDay(t: uint64, u: uint64)
    requires t % MS_PER_DAY == u % MS_PER_DAY
    ensures ClockOf(t) == ClockOf(u)
  {
    ClockIsTimeOfDay(t);
    ClockIsTimeOfDay(u);
    MillisOfDayInjective(ClockOf(t), ClockOf(u));
  }

  lemma MillisOfDayInjective(a: Clock, b: Clock)
    requires a.hours < 24 && a.minutes < 60 && a.seconds < 60 && a.millis < 1000
    requires b.hours < 24 && b.minutes < 60 && b.seconds < 60 && b.millis < 1000
    requires MillisOfDay(a) == MillisOfDay(b)
    ensures a == b
  {
    var sa := (a.hours * 60 + a.minutes) * 60 + a.seconds;
    var sb := (b.hours * 60 + b.minutes) * 60 + b.seconds;
    assert MillisOfDay(a) / 1000 == sa && MillisOfDay(b) / 1000 == sb;
    assert sa / 60 == a.hours * 60 + a.minutes && sb / 60 == b.hours * 60 + b.minutes;
  }

  /** Equal texts mean the same time of day: the rendering loses the day
      and nothing else. */
  lemma FormatInjectiveWithinDay(t: uint64, u: uint64)
    requires FormatTimestampMs(t) == FormatTimestampMs(u)
    ensures t % MS_PER_DAY == u % MS_PER_DAY
  {
    ParseFormatted(t);
    ParseFormatted(u);
  }
}
