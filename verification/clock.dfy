/** `formatTime`: a 24-hour "HH:MM" value shown as "H:MM AM" or "H:MM PM",
    together with a reader for the 12-hour form that undoes it. */
module Clock {
  import opened Text
  import opened Options

  /** The two numbers `formatTime` destructures from its input. */
  datatype ClockTime = ClockTime(hour: nat, minute: nat)

  /** One of the 1440 minutes of a day. */
  predicate Valid(c: ClockTime) {
    c.hour < 24 && c.minute < 60
  }

  /** 2^53: every integer up to it is a double, so `Number` reads a numeral
      of at most this value exactly, and `String` prints it back in plain
      decimal. Beyond it `Number` rounds. */
  const MaxExact: nat := 0x20_0000_0000_0000

  /** `t.split(':').map(Number)` destructured into `[h, m]`, for inputs whose
      first two pieces are non-empty decimal digit strings of value at most
      `MaxExact`; None marks an input outside that domain (where `Number`
      rounds, yields NaN or reads other syntax). */
  function ParseTime(t: string): (r: Option<ClockTime>)
    ensures r.Some? ==> ':' in t
    ensures r.Some? ==> r.value.hour <= MaxExact && r.value.minute <= MaxExact
  {
    var parts := Split(t, ':');
    if |parts| >= 2 && parts[0] != "" && IsDigits(parts[0]) && parts[1] != "" && IsDigits(parts[1])
       && ParseNat(parts[0]) <= MaxExact && ParseNat(parts[1]) <= MaxExact
    then
      assert t[|parts[0]|] == ':' by {
        assert t == parts[0] + [':'] + Join(parts[1..], ':');
      }
      Some(ClockTime(ParseNat(parts[0]), ParseNat(parts[1])))
    else None
  }

  /** The displayed hour: 13..23 drop by twelve, then 0 becomes 12. On a valid
      hour it is the 12-hour clock hour: in 1..12 and equal modulo 12. */
  function TwelveHour(h: nat): (d: nat)
    ensures h < 24 ==> 1 <= d <= 12 && d % 12 == h % 12
  {
    if h > 12 then h - 12 else if h == 0 then 12 else h
  }

  function Meridiem(h: nat): string {
    if h >= 12 then "PM" else "AM"
  }

  /** The string `formatTime` builds from `[h, m]`: the hour as a numeral,
      ':', the minute padded to two digits with '0', a space, and the suffix. */
  function FormatClock(c: ClockTime): (r: string)
    ensures |r| >= 7
    ensures r[|r| - 2..] == "AM" <==> c.hour < 12
    ensures r[|r| - 2..] == "PM" <==> c.hour >= 12
  {
    var front := NatToString(TwelveHour(c.hour)) + ":" + TwoDigit(c.minute) + " ";
    var r := front + Meridiem(c.hour);
    assert r[|r| - 2..] == Meridiem(c.hour);
    r
  }

  /** `formatTime` on a stored time string. */
  function FormatTime(t: string): (r: Option<string>)
    ensures r.Some? <==> ParseTime(t).Some?
    ensures r.Some? ==> |r.value| >= 7
    ensures r.Some? ==> (r.value[|r.value| - 2..] == "PM" <==> ParseTime(t).value.hour >= 12)
  {
    match ParseTime(t)
    case None => None
    case Some(c) => Some(FormatClock(c))
  }

  /** The hour of the day a 12-hour reading names. */
  function To24(d: nat, pm: bool): nat {
    if d == 12 then (if pm then 12 else 0) else if pm then d + 12 else d
  }

  /** Reads "H:MM AM" / "HH:MM PM" back into a time of day: the hour numeral
      must be in 1..12, the minutes exactly two digits. */
  function ReadClock(s: string): Option<ClockTime> {
    if |s| < 7 then None
    else
      var hh := s[..|s| - 6];
      var mm := s[|s| - 5..|s| - 3];
      var suffix := s[|s| - 2..];
      if s[|s| - 6] == ':' && s[|s| - 3] == ' ' && IsDigits(hh) && IsDigits(mm)
         && (suffix == "AM" || suffix == "PM") && 1 <= ParseNat(hh) <= 12
      then Some(ClockTime(To24(ParseNat(hh), suffix == "PM"), ParseNat(mm)))
      else None
  }

  /** The value an `<input type="time">` holds: two-digit hour, ':', two-digit minute. */
  function TimeInput(c: ClockTime): string {
    TwoDigit(c.hour) + ":" + TwoDigit(c.minute)
  }

  /** A number written with at least two digits, padded with '0'. */
  function TwoDigit(n: nat): string {
    PadStart(NatToString(n), 2, '0')
  }

  /** Leading zeros do not change a numeral's value. */
  lemma {:induction false} ParseNatZeros(z: string, s: string)
    requires forall i :: 0 <= i < |z| ==> z[i] == '0'
    requires IsDigits(s)
    ensures IsDigits(z + s)
    ensures ParseNat(z + s) == ParseNat(s)
    decreases |z| + |s|
  {
    var zs := z + s;
    if |s| == 0 {
      assert zs == z;
      if |z| > 0 {
        assert zs[..|zs| - 1] == z[..|z| - 1] + [];
        ParseNatZeros(z[..|z| - 1], []);
      }
    } else {
      assert zs[..|zs| - 1] == z + s[..|s| - 1];
      assert zs[|zs| - 1] == s[|s| - 1];
      ParseNatZeros(z, s[..|s| - 1]);
    }
  }

  /** A number padded to two digits still reads as that number. */
  lemma {:induction false} TwoDigits(n: nat)
    requires n < 100
    ensures var p := TwoDigit(n);
      |p| == 2 && IsDigits(p) && ParseNat(p) == n
  {
    var s := NatToString(n);
    var p := PadStart(s, 2, '0');
    var z := p[..|p| - |s|];
    assert p == z + s;
    ParseNatZeros(z, s);
  }

  /** Every valid time, written as a time input holds it, is read back by
      `formatTime`'s split-and-convert step. */
  lemma ParseTimeInput(c: ClockTime)
    requires Valid(c)
    ensures ParseTime(TimeInput(c)) == Some(c)
  {
    TwoDigits(c.hour);
    TwoDigits(c.minute);
    ParseTimePair(TimeInput(c), TwoDigit(c.hour), TwoDigit(c.minute), c);
  }

  lemma ParseTimePair(t: string, hh: string, mm: string, c: ClockTime)
    requires Valid(c)
    requires t == hh + ":" + mm
    requires hh != "" && IsDigits(hh) && ParseNat(hh) == c.hour
    requires mm != "" && IsDigits(mm) && ParseNat(mm) == c.minute
    ensures ParseTime(t) == Some(c)
  {
    assert ':' !in hh && ':' !in mm by {
      assert !IsDigit(':');
    }
    SplitPair(hh, mm, ':');
  }

  /** What a 12-hour display of a valid time must look like: suffix "AM"
      exactly before noon and "PM" otherwise; a numeral for the hour in 1..12,
      equal to the hour modulo 12, so 12 for both midnight and noon; ':' and a
      space around exactly two minute digits that read as the minute. The
      hour numeral is never padded: it does not start with '0'. */
  predicate ShowsClock(r: string, c: ClockTime) {
    && 7 <= |r| <= 8
    && r[0] != '0'
    && (r[|r| - 2..] == "AM" <==> c.hour < 12)
    && (r[|r| - 2..] == "PM" <==> c.hour >= 12)
    && r[|r| - 6] == ':' && r[|r| - 3] == ' '
    && IsDigits(r[..|r| - 6])
    && 1 <= ParseNat(r[..|r| - 6]) <= 12
    && ParseNat(r[..|r| - 6]) % 12 == c.hour % 12
    && (c.hour == 0 || c.hour == 12 ==> ParseNat(r[..|r| - 6]) == 12)
    && IsDigits(r[|r| - 5..|r| - 3])
    && ParseNat(r[|r| - 5..|r| - 3]) == c.minute
  }

  /** `formatTime` shows every valid time as a 12-hour display should. */
  lemma FormatClockFields(c: ClockTime)
    requires Valid(c)
    ensures ShowsClock(FormatClock(c), c)
  {
    var hs := NatToString(TwelveHour(c.hour));
    var mm := TwoDigit(c.minute);
    assert |mm| == 2 && IsDigits(mm) && ParseNat(mm) == c.minute by {
      TwoDigits(c.minute);
    }
    assert hs[0] != '0' by {
      assert ParseNat("0") == 0;
    }
    DisplayFields(c, hs, mm, Meridiem(c.hour));
  }

  lemma DisplayFields(c: ClockTime, hs: string, mm: string, suffix: string)
    requires Valid(c)
    requires 1 <= |hs| <= 2 && IsDigits(hs) && ParseNat(hs) == TwelveHour(c.hour) && hs[0] != '0'
    requires |mm| == 2 && IsDigits(mm) && ParseNat(mm) == c.minute
    requires suffix == Meridiem(c.hour)
    ensures ShowsClock(hs + ":" + mm + " " + suffix, c)
  {
    DisplayLayout(hs, mm, suffix);
  }

  /** Where the pieces of "<hour>:<mm> <suffix>" sit, counted from the end. */
  lemma DisplayLayout(hs: string, mm: string, suffix: string)
    requires |mm| == 2 && |suffix| == 2
    ensures var r := hs + ":" + mm + " " + suffix;
      && |r| == |hs| + 6
      && r[..|r| - 6] == hs
      && (|hs| > 0 ==> r[0] == hs[0])
      && r[|r| - 6] == ':'
      && r[|r| - 5..|r| - 3] == mm
      && r[|r| - 3] == ' '
      && r[|r| - 2..] == suffix
  {
  }

  /** Any string laid out as a 12-hour display of a valid time reads back as
      that time. */
  lemma ReadShownClock(r: string, c: ClockTime)
    requires Valid(c) && ShowsClock(r, c)
    ensures ReadClock(r) == Some(c)
  {
  }

  /** Reading the 12-hour form gives back the time that was formatted. */
  lemma FormatClockRoundTrip(c: ClockTime)
    requires Valid(c)
    ensures ReadClock(FormatClock(c)) == Some(c)
  {
    FormatClockFields(c);
    ReadShownClock(FormatClock(c), c);
  }

  /** `formatTime` is defined on all 1440 times a time input can hold, and what
      it shows reads back as the stored time. */
  lemma FormatTimeRoundTrip(c: ClockTime)
    requires Valid(c)
    ensures FormatTime(TimeInput(c)) == Some(FormatClock(c))
    ensures ReadClock(FormatClock(c)) == Some(c)
  {
    ParseTimeInput(c);
    FormatClockRoundTrip(c);
  }

  // Worked values: midnight, noon, the last minute of the day and a morning
  // time, as `formatTime` shows the time-input values that hold them.

  /** A worked value of `formatTime`: the input `t` is the two digit strings
      `hh` and `mm` around ':', they read as `c`, and `shown` is its 12-hour
      display. */
  lemma FormatTimeShows(t: string, hh: string, mm: string, shown: string, c: ClockTime)
    requires Valid(c) && t == hh + ":" + mm
    requires hh != "" && IsDigits(hh) && ParseNat(hh) == c.hour
    requires mm != "" && IsDigits(mm) && ParseNat(mm) == c.minute
    requires shown == FormatClock(c)
    ensures FormatTime(t) == Some(shown)
  {
    ParseTimePair(t, hh, mm, c);
  }

  lemma FormatTimeMidnight(t: string)
    requires t == "00:00"
    ensures FormatTime(t) == Some("12:00 AM")
  {
    FormatTimeShows(t, "00", "00", FormatClock(ClockTime(0, 0)), ClockTime(0, 0));
    FormatClockMidnight();
  }

  lemma FormatClockMidnight()
    ensures FormatClock(ClockTime(0, 0)) == "12:00 AM"
  {
    Numeral(12);
    Numeral(0);
    assert TwoDigit(0) == "00";
  }

  lemma FormatTimeNoon(t: string)
    requires t == "12:00"
    ensures FormatTime(t) == Some("12:00 PM")
  {
    FormatTimeShows(t, "12", "00", FormatClock(ClockTime(12, 0)), ClockTime(12, 0));
    FormatClockNoon();
  }

  lemma FormatClockNoon()
    ensures FormatClock(ClockTime(12, 0)) == "12:00 PM"
  {
    Numeral(12);
    Numeral(0);
    assert TwoDigit(0) == "00";
  }

  lemma FormatTimeLastMinute(t: string)
    requires t == "23:59"
    ensures FormatTime(t) == Some("11:59 PM")
  {
    FormatTimeShows(t, "23", "59", FormatClock(ClockTime(23, 59)), ClockTime(23, 59));
    FormatClockLastMinute();
  }

  lemma FormatClockLastMinute()
    ensures FormatClock(ClockTime(23, 59)) == "11:59 PM"
  {
    Numeral(11);
    Numeral(59);
    assert TwoDigit(59) == "59";
  }

  lemma FormatTimeMorning(t: string)
    requires t == "09:05"
    ensures FormatTime(t) == Some("9:05 AM")
  {
    FormatTimeShows(t, "09", "05", FormatClock(ClockTime(9, 5)), ClockTime(9, 5));
    FormatClockMorning();
  }

  lemma FormatClockMorning()
    ensures FormatClock(ClockTime(9, 5)) == "9:05 AM"
  {
    Numeral(9);
    Numeral(5);
    assert TwoDigit(5) == "05";
  }
}
