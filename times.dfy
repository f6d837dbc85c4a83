/** Times of day. Django's `TimeField` holds a `datetime.time`; every comparison
    in the scheduler combines two such times with one and the same date, so a
    time of day is modelled as its offset from midnight in microseconds (the
    resolution of `datetime.time`), and comparing instants is comparing ints. */
module Times {
  import opened Strings

  const MicrosPerSecond := 1000000
  const MicrosPerMinute := 60 * MicrosPerSecond
  const MicrosPerHour := 60 * MicrosPerMinute
  const MicrosPerDay := 24 * MicrosPerHour

  /** A `datetime.time` without time zone, as microseconds since midnight. */
  type TimeOfDay = t: int | 0 <= t < MicrosPerDay

  /** `datetime.time(hour, minute)`. */
  function Clock(hour: nat, minute: nat): (t: TimeOfDay)
    requires hour < 24 && minute < 60
    ensures t / MicrosPerMinute == hour * 60 + minute && t % MicrosPerMinute == 0
  {
    hour * MicrosPerHour + minute * MicrosPerMinute
  }

  /** The whole minutes elapsed since midnight: all that the `H:i` format keeps. */
  function MinuteOfDay(t: TimeOfDay): (m: nat)
    ensures m < 24 * 60
  {
    t / MicrosPerMinute
  }

  /** Two times at least a minute apart fall in different minutes. */
  lemma MinuteOfDayApart(a: TimeOfDay, b: TimeOfDay)
    requires b - a >= MicrosPerMinute
    ensures MinuteOfDay(a) < MinuteOfDay(b)
  {
    var qa, qb := a / MicrosPerMinute, b / MicrosPerMinute;
    assert a == qa * MicrosPerMinute + a % MicrosPerMinute;
    assert b == qb * MicrosPerMinute + b % MicrosPerMinute;
  }

  /** Django's `time` template filter with the format 'H:i': the hour 00-23 and
      the minute 00-59, both zero-padded, joined by a colon. */
  function FormatHi(t: TimeOfDay): (s: string)
    ensures |s| == 5 && s[2] == ':'
  {
    TwoDigits(MinuteOfDay(t) / 60) + ":" + TwoDigits(MinuteOfDay(t) % 60)
  }

  /** Python's `str()` of a `datetime.time`: 'HH:MM:SS', followed by
      '.ffffff' when the microseconds are not zero. */
  function IsoFormat(t: TimeOfDay): (s: string)
    ensures |s| == 8 || |s| == 15
  {
    var seconds := t / MicrosPerSecond;
    var micros := t % MicrosPerSecond;
    TwoDigits(seconds / 3600) + ":" + TwoDigits(seconds / 60 % 60) + ":" + TwoDigits(seconds % 60)
      + (if micros == 0 then "" else "." + SixDigits(micros))
  }

  /** A whole-minute time prints as 'HH:MM:00', with no fraction. */
  lemma IsoFormatWholeMinute(hour: nat, minute: nat)
    requires hour < 24 && minute < 60
    ensures IsoFormat(Clock(hour, minute)) == TwoDigits(hour) + ":" + TwoDigits(minute) + ":00"
  {
    var t := Clock(hour, minute);
    var seconds := hour * 3600 + minute * 60;
    assert t == seconds * MicrosPerSecond;
    assert t / MicrosPerSecond == seconds && t % MicrosPerSecond == 0;
    assert seconds / 3600 == hour;
    assert seconds / 60 == hour * 60 + minute;
    assert seconds / 60 % 60 == minute;
    assert seconds % 60 == 0;
    assert TwoDigits(0) == "00";
  }

  /** 'H:i' strings compare, as strings, exactly as the minutes they show:
      sorting by this string is sorting by start minute. */
  lemma FormatHiOrder(a: TimeOfDay, b: TimeOfDay)
    ensures Less(FormatHi(a), FormatHi(b)) <==> MinuteOfDay(a) < MinuteOfDay(b)
    ensures FormatHi(a) == FormatHi(b) <==> MinuteOfDay(a) == MinuteOfDay(b)
  {
    var ma, mb := MinuteOfDay(a), MinuteOfDay(b);
    var ha, hb := TwoDigits(ma / 60), TwoDigits(mb / 60);
    var ta, tb := ":" + TwoDigits(ma % 60), ":" + TwoDigits(mb % 60);
    assert FormatHi(a) == ha + ta && FormatHi(b) == hb + tb;
    TwoDigitsOrder(ma / 60, mb / 60);
    TwoDigitsOrder(ma % 60, mb % 60);
    LessConcat(ha, ta, hb, tb);
    LessConcat(hb, tb, ha, ta);
    LessConcat(":", TwoDigits(ma % 60), ":", TwoDigits(mb % 60));
    assert ma == ma / 60 * 60 + ma % 60 && mb == mb / 60 * 60 + mb % 60;
    if Less(hb, ha) {
      LessAsymmetric(hb + tb, ha + ta);
    }
    if FormatHi(a) == FormatHi(b) {
      assert ha == (ha + ta)[..2] && hb == (hb + tb)[..2];
      assert TwoDigits(ma % 60) == (ha + ta)[3..] && TwoDigits(mb % 60) == (hb + tb)[3..];
    }
  }

  /** Later (or equal) times never print as smaller 'H:i' strings. */
  lemma FormatHiMonotone(a: TimeOfDay, b: TimeOfDay)
    requires a <= b
    ensures LessEq(FormatHi(a), FormatHi(b))
  {
    FormatHiOrder(a, b);
  }
}
