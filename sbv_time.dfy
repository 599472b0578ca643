/** The SBV timestamp `H:MM:SS.mmm` of a millisecond offset
    (`ms_to_sbv_time`), computed with exact integer division, and a reader
    for that format that recovers the offset. */
module SbvTime {
  import opened Decimal

  datatype Option<T> = None | Some(value: T)

  const MS_PER_HOUR := 3600000
  const MS_PER_MINUTE := 60000
  const MS_PER_SECOND := 1000

  /** The four fields a timestamp shows. */
  datatype Clock = Clock(hours: nat, minutes: nat, seconds: nat, millis: nat)

  /** The number of milliseconds the fields of `c` add up to. */
  function TotalMs(c: Clock): nat {
    c.hours * MS_PER_HOUR + c.minutes * MS_PER_MINUTE + c.seconds * MS_PER_SECOND + c.millis
  }

  predicate InRange(c: Clock) {
    c.minutes < 60 && c.seconds < 60 && c.millis < 1000
  }

  /** Whole hours first, then whole minutes and whole seconds of what remains,
      then the truncated sub-second remainder: no field reaches 60 (or 1000),
      and together they are exactly `ms`. */
  function ToClock(ms: nat): (c: Clock)
    ensures InRange(c)
    ensures TotalMs(c) == ms
  {
    var hours := ms / MS_PER_HOUR;
    var rest := ms % MS_PER_HOUR;
    var minutes := rest / MS_PER_MINUTE;
    var inMinute := rest % MS_PER_MINUTE;
    Clock(hours, minutes, inMinute / MS_PER_SECOND, inMinute % MS_PER_SECOND)
  }

  /** The fields are determined by `ms`: any in-range fields adding up to `ms`
      are the ones ToClock computes. */
  lemma ClockUnique(c: Clock, ms: nat)
    requires InRange(c) && TotalMs(c) == ms
    ensures c == ToClock(ms)
  {
    var rest := c.minutes * MS_PER_MINUTE + c.seconds * MS_PER_SECOND + c.millis;
    assert ms / MS_PER_HOUR == c.hours && ms % MS_PER_HOUR == rest;
    var inMinute := c.seconds * MS_PER_SECOND + c.millis;
    assert rest / MS_PER_MINUTE == c.minutes && rest % MS_PER_MINUTE == inMinute;
  }

  /** `ms_to_sbv_time`: hours unpadded, minutes and seconds in two digits,
      milliseconds in three. */
  function FormatTime(ms: nat): string {
    var c := ToClock(ms);
    NatToString(c.hours) + ":" + ZeroPad(c.minutes, 2) + ":" + ZeroPad(c.seconds, 2)
      + "." + ZeroPad(c.millis, 3)
  }

  /** Reads `H:MM:SS.mmm` (one or more hour digits, then fixed-width fields
      with minutes and seconds below 60) back into milliseconds. */
  function ParseTime(s: string): (r: Option<nat>)
    ensures r.Some? ==> |s| >= 11 && s[|s| - 10] == ':' && s[|s| - 7] == ':' && s[|s| - 4] == '.'
  {
    var n := |s|;
    if n < 11 then None
    else
      var h, m, sec, f := s[..n - 10], s[n - 9..n - 7], s[n - 6..n - 4], s[n - 3..];
      if s[n - 10] == ':' && s[n - 7] == ':' && s[n - 4] == '.'
         && IsDigits(h) && IsDigits(m) && IsDigits(sec) && IsDigits(f)
         && Value(m) < 60 && Value(sec) < 60
      then Some(TotalMs(Clock(Value(h), Value(m), Value(sec), Value(f))))
      else None
  }

  /** The formatted timestamp has the `H:MM:SS.mmm` layout and reads back as
      the offset it was made from. */
  lemma FormatTimeRoundTrip(ms: nat)
    ensures ParseTime(FormatTime(ms)) == Some(ms)
  {
    var c := ToClock(ms);
    ZeroPadExact(c.minutes, 2);
    ZeroPadExact(c.seconds, 2);
    ZeroPadExact(c.millis, 3);
    ZeroPadValue(c.minutes, 2);
    ZeroPadValue(c.seconds, 2);
    ZeroPadValue(c.millis, 3);
    ValueOfNatToString(c.hours);
    ParseLayout(NatToString(c.hours), ZeroPad(c.minutes, 2), ZeroPad(c.seconds, 2), ZeroPad(c.millis, 3));
  }

  /** ParseTime takes the four digit groups of the layout apart again. */
  lemma ParseLayout(h: string, m: string, sec: string, f: string)
    requires |h| >= 1 && |m| == 2 && |sec| == 2 && |f| == 3
    requires IsDigits(h) && IsDigits(m) && IsDigits(sec) && IsDigits(f)
    requires Value(m) < 60 && Value(sec) < 60
    ensures ParseTime(h + ":" + m + ":" + sec + "." + f)
      == Some(TotalMs(Clock(Value(h), Value(m), Value(sec), Value(f))))
  {
    var s := h + ":" + m + ":" + sec + "." + f;
    var n := |s|;
    assert n == |h| + 10;
    assert s[..n - 10] == h;
    assert s[n - 9..n - 7] == m;
    assert s[n - 6..n - 4] == sec;
    assert s[n - 3..] == f;
    assert s[n - 10] == ':' && s[n - 7] == ':' && s[n - 4] == '.';
    var r := ParseTime(s);
    assert r.Some?;
    assert r.value == TotalMs(Clock(Value(h), Value(m), Value(sec), Value(f)));
  }

  /** The layout `H:MM:SS.mmm`: the unpadded hour count, then exactly ten
      characters with ':' , ':' and '.' at fixed places. */
  lemma FormatTimeShape(ms: nat)
    ensures |FormatTime(ms)| == |NatToString(ms / MS_PER_HOUR)| + 10
    ensures var t := FormatTime(ms);
      t[|t| - 10] == ':' && t[|t| - 7] == ':' && t[|t| - 4] == '.'
  {
    var c := ToClock(ms);
    ZeroPadExact(c.minutes, 2);
    ZeroPadExact(c.seconds, 2);
    ZeroPadExact(c.millis, 3);
    FormatTimeRoundTrip(ms);
  }

  /** The hour field is `str(hours)`: never zero-padded, so a leading '0'
      appears only for the hour count 0. */
  lemma FormatTimeHoursUnpadded(ms: nat)
    ensures |FormatTime(ms)| >= 10
    ensures FormatTime(ms)[..|FormatTime(ms)| - 10] == NatToString(ms / MS_PER_HOUR)
    ensures FormatTime(ms)[0] == '0' <==> ms < MS_PER_HOUR
  {
    var c := ToClock(ms);
    var h, m, sec, f := NatToString(c.hours), ZeroPad(c.minutes, 2), ZeroPad(c.seconds, 2), ZeroPad(c.millis, 3);
    ZeroPadExact(c.minutes, 2);
    ZeroPadExact(c.seconds, 2);
    ZeroPadExact(c.millis, 3);
    var t := h + ":" + m + ":" + sec + "." + f;
    assert FormatTime(ms) == t;
    assert t[..|t| - 10] == h;
    assert t[0] == h[0];
    NoLeadingZero(c.hours);
    if c.hours == 0 {
      assert h == "0";
    }
  }

  /** A timestamp is made of digits, ':' and '.' only. */
  lemma FormatTimeAlphabet(ms: nat)
    ensures forall i :: 0 <= i < |FormatTime(ms)| ==>
      IsDigit(FormatTime(ms)[i]) || FormatTime(ms)[i] == ':' || FormatTime(ms)[i] == '.'
  {
    var c := ToClock(ms);
    var h, m, sec, f := NatToString(c.hours), ZeroPad(c.minutes, 2), ZeroPad(c.seconds, 2), ZeroPad(c.millis, 3);
    ZeroPadValue(c.minutes, 2);
    ZeroPadValue(c.seconds, 2);
    ZeroPadValue(c.millis, 3);
    assert FormatTime(ms) == h + ":" + m + ":" + sec + "." + f;
  }

  /** Distinct offsets give distinct timestamps. */
  lemma FormatTimeInjective(a: nat, b: nat)
    requires FormatTime(a) == FormatTime(b)
    ensures a == b
  {
    FormatTimeRoundTrip(a);
    FormatTimeRoundTrip(b);
  }

  lemma FormatTimeExample()
    ensures FormatTime(3725007) == "1:02:05.007"
  {
    ClockUnique(Clock(1, 2, 5, 7), 3725007);
    assert NatToString(1) == "1";
    assert Zeros(1) == "0" && Zeros(2) == "00";
    assert ZeroPad(2, 2) == "02";
    assert ZeroPad(5, 2) == "05";
    assert ZeroPad(7, 3) == "007";
  }
}
