/** Durations as `seconds_to_human` renders them: the number of seconds is truncated to an
    integer, normalised as `datetime.timedelta` does (whole days and a remainder of seconds
    within the day), rendered as `str(timedelta)` does and zero-filled to 8 characters. */
module Durations {
  import opened Decimal
  import opened Wrappers

  const SecondsPerDay: int := 86400

  /** The largest number of days, positive or negative, a `timedelta` can hold. */
  const MaxDays: int := 999999999

  /** `int(x)`: truncation toward zero. */
  function Trunc(x: real): (i: int)
    ensures 0.0 <= x ==> 0 <= i && i as real <= x < i as real + 1.0
    ensures x < 0.0 ==> i <= 0 && i as real - 1.0 < x <= i as real
  {
    if x >= 0.0 then x.Floor else -((-x).Floor)
  }

  /** A normalised `timedelta` of whole seconds. */
  datatype Timedelta = Timedelta(days: int, seconds: nat)

  /** `timedelta(seconds=total)`: floor division into days and seconds of the day. */
  function Normalize(total: int): (t: Timedelta)
    ensures t.seconds < SecondsPerDay
    ensures t.days * SecondsPerDay + t.seconds == total
  {
    Timedelta(total / SecondsPerDay, total % SecondsPerDay)
  }

  /** The normal form is unique: it is the only day count and second count within the day
      that make up `total`. */
  lemma NormalizeUnique(total: int, days: int, seconds: nat)
    requires seconds < SecondsPerDay && days * SecondsPerDay + seconds == total
    ensures Normalize(total) == Timedelta(days, seconds)
  {
    var t := Normalize(total);
    assert (days - t.days) * SecondsPerDay == t.seconds - seconds;
  }

  /** The `"s"` of `"days"`: absent exactly when the count is 1 or -1. */
  function Plural(n: int): (s: string)
    ensures s == "" <==> (n == 1 || n == -1)
    ensures s == "" || s == "s"
  {
    if n == 1 || n == -1 then "" else "s"
  }

  /** `"%d:%02d:%02d" % (hh, mm, ss)` for a second of the day, with the fields taken as
      `timedelta` takes them: `mm, ss = divmod(seconds, 60)`, then `hh, mm = divmod(mm, 60)`. */
  function Clock(seconds: nat): (s: string)
    requires seconds < SecondsPerDay
    ensures |s| == (if seconds < 36000 then 7 else 8)
    ensures s[|s| - 6] == ':' && s[|s| - 3] == ':'
  {
    var mm, ss := seconds / 60, seconds % 60;
    var hh, mm := mm / 60, mm % 60;
    assert |NatToStr(hh)| == (if hh < 10 then 1 else 2) by {
      if hh >= 10 {
        assert |NatToStr(hh / 10)| == 1;
      }
    }
    NatToStr(hh) + ":" + Pad2(mm) + ":" + Pad2(ss)
  }

  /** `str(t)` for a `timedelta` with no microseconds: the clock, after `"D day(s), "` when
      the day count is not zero. */
  function TimedeltaStr(t: Timedelta): (s: string)
    requires t.seconds < SecondsPerDay
    ensures |Clock(t.seconds)| <= |s| && s[|s| - |Clock(t.seconds)|..] == Clock(t.seconds)
    ensures t.days == 0 <==> |s| <= 8
  {
    var clock := Clock(t.seconds);
    if t.days == 0 then clock
    else IntToStr(t.days) + " day" + Plural(t.days) + ", " + clock
  }

  /** `s.zfill(width)`: zeros inserted on the left, after a leading sign, up to `width`. */
  function ZFill(s: string, width: nat): (r: string)
    ensures |r| == if |s| >= width then |s| else width
    ensures |s| >= width ==> r == s
    ensures |s| < width && (s == [] || (s[0] != '+' && s[0] != '-')) ==>
      r[width - |s|..] == s && forall i | 0 <= i < width - |s| :: r[i] == '0'
    ensures |s| < width && s != [] && (s[0] == '+' || s[0] == '-') ==>
      r[0] == s[0] && r[width - |s| + 1..] == s[1..] && forall i | 1 <= i <= width - |s| :: r[i] == '0'
  {
    if |s| >= width then s
    else
      var zeros := seq(width - |s|, i => '0');
      if s != [] && (s[0] == '+' || s[0] == '-') then [s[0]] + zeros + s[1..]
      else zeros + s
  }

  /** `seconds_to_human(seconds)`, or `None` where `timedelta` raises `OverflowError`
      because the day count exceeds `MaxDays` in magnitude. */
  function SecondsToHuman(seconds: real): (r: Option<string>)
    ensures r.None? <==> MaxDays < Normalize(Trunc(seconds)).days || Normalize(Trunc(seconds)).days < -MaxDays
  {
    var t := Normalize(Trunc(seconds));
    if t.days < -MaxDays || MaxDays < t.days then None
    else Some(ZFill(TimedeltaStr(t), 8))
  }

  /** The fractional part of the input plays no role. */
  lemma TruncatesFirst(seconds: real)
    ensures SecondsToHuman(seconds) == SecondsToHuman(Trunc(seconds) as real)
  {
    assert Trunc(Trunc(seconds) as real) == Trunc(seconds);
  }

  /** Zero-filling an hour of the day followed by `":MM:SS"` gives the hour two digits. */
  lemma PaddedHour(h: nat, rest: string)
    requires h < 24 && |rest| == 6
    ensures ZFill(NatToStr(h) + rest, 8) == Pad2(h) + rest
  {
    var s := NatToStr(h) + rest;
    if h < 10 {
      var r := ZFill(s, 8);
      assert IsDigit(s[0]);
      assert r == [r[0]] + r[1..];
      assert Pad2(h) == "0" + NatToStr(h);
    } else {
      assert Pad2(h) == NatToStr(h);
    }
  }

  /** Zero-filling the clock of a second of the day to 8 characters gives two digits each
      for hours, minutes and seconds. */
  lemma ClockPadded(total: int)
    requires 0 <= total < SecondsPerDay
    ensures ZFill(Clock(total), 8) == Pad2(total / 60 / 60) + ":" + Pad2(total / 60 % 60) + ":" + Pad2(total % 60)
  {
    var rest := ":" + Pad2(total / 60 % 60) + ":" + Pad2(total % 60);
    PaddedHour(total / 60 / 60, rest);
  }

  /** The fields as `timedelta` takes them are hours `t / 3600`, minutes `t % 3600 / 60`
      and seconds `t % 60`, which add up to `t`. */
  lemma ClockFieldsAgree(t: int)
    requires 0 <= t
    ensures t / 60 / 60 == t / 3600 && t / 60 % 60 == t % 3600 / 60
    ensures 3600 * (t / 3600) + 60 * (t % 3600 / 60) + t % 60 == t
  {
    var q, r := t / 3600, t % 3600;
    var a, b := r / 60, r % 60;
    assert t == 60 * (60 * q + a) + b;
    DivMod60(t, 60 * q + a, b);
    DivMod60(60 * q + a, q, a);
  }

  /** Within a day the result is `"HH:MM:SS"`: hours, minutes and seconds, two digits each. */
  lemma WithinADay(total: int)
    requires 0 <= total < SecondsPerDay
    ensures SecondsToHuman(total as real) ==
      Some(Pad2(total / 3600) + ":" + Pad2(total % 3600 / 60) + ":" + Pad2(total % 60))
  {
    assert Trunc(total as real) == total;
    assert Normalize(total) == Timedelta(0, total);
    ClockPadded(total);
    ClockFieldsAgree(total);
  }

  /** The number of seconds a rendering `"HH:MM:SS"` stands for. */
  function ClockValue(s: string): (n: nat)
    requires |s| == 8 && AllDigits(s[..2]) && AllDigits(s[3..5]) && AllDigits(s[6..])
  {
    3600 * ParseNat(s[..2]) + 60 * ParseNat(s[3..5]) + ParseNat(s[6..])
  }

  /** Within a day the rendering can be read back: it is `"HH:MM:SS"` and stands for the
      input truncated to whole seconds. */
  lemma WithinADayRoundTrip(seconds: real)
    requires 0.0 <= seconds < SecondsPerDay as real
    ensures SecondsToHuman(seconds).Some?
    ensures var r := SecondsToHuman(seconds).value;
      |r| == 8 && r[2] == ':' && r[5] == ':'
      && AllDigits(r[..2]) && AllDigits(r[3..5]) && AllDigits(r[6..])
      && ClockValue(r) == Trunc(seconds)
  {
    var total := Trunc(seconds);
    var h, m, s := total / 3600, total % 3600 / 60, total % 60;
    var r := Pad2(h) + ":" + Pad2(m) + ":" + Pad2(s);
    assert SecondsToHuman(seconds) == Some(r) by {
      TruncatesFirst(seconds);
      WithinADay(total);
    }
    ClockFields(h, m, s);
    assert ClockValue(r) == 3600 * h + 60 * m + s;
    ClockFieldsAgree(total);
  }

  /** The remainder of division by 60 is the only one below 60. */
  lemma DivMod60(t: int, q: int, r: int)
    requires t == 60 * q + r && 0 <= r < 60
    ensures t / 60 == q && t % 60 == r
  {
  }

  /** The fields of a `"HH:MM:SS"` rendering can be read back. */
  lemma ClockFields(h: nat, m: nat, s: nat)
    requires h < 100 && m < 100 && s < 100
    ensures var r := Pad2(h) + ":" + Pad2(m) + ":" + Pad2(s);
      |r| == 8 && r[2] == ':' && r[5] == ':' && r[..2] == Pad2(h) && r[3..5] == Pad2(m) && r[6..] == Pad2(s)
  {
  }

  /** From one day on the rendering is `"D day(s), H:MM:SS"`, which is never zero-filled. */
  lemma DaysForm(total: int)
    requires total >= SecondsPerDay && total / SecondsPerDay <= MaxDays
    ensures var days, rest := total / SecondsPerDay, total % SecondsPerDay;
      SecondsToHuman(total as real) == Some(NatToStr(days) + " day" + Plural(days) + ", " + Clock(rest))
  {
    assert Trunc(total as real) == total;
  }

  /** A negative total renders with its negative floor day count and the clock of the
      seconds that follow the start of that day. */
  lemma NegativeForm(total: int)
    requires total < 0 && -MaxDays <= total / SecondsPerDay
    ensures var days, rest := total / SecondsPerDay, total % SecondsPerDay;
      days < 0 && SecondsToHuman(total as real) == Some("-" + NatToStr(-days) + " day" + Plural(days) + ", " + Clock(rest))
  {
    assert Trunc(total as real) == total;
  }

  /** `timedelta` overflows exactly beyond `MaxDays` days either way. */
  lemma OverflowBound(total: int)
    ensures SecondsToHuman(total as real).None? <==>
      total < -MaxDays * SecondsPerDay || (MaxDays + 1) * SecondsPerDay <= total
  {
    assert Trunc(total as real) == total;
  }

  lemma Pad2Zero()
    ensures Pad2(0) == "00"
  {
  }

  lemma Pad2One()
    ensures Pad2(1) == "01"
  {
  }

  lemma Pad2Five()
    ensures Pad2(5) == "05"
  {
  }

  /** 65 seconds are 0 hours, 1 minute and 5 seconds. */
  lemma FieldsOf65()
    ensures SecondsToHuman(65.0) == Some(Pad2(0) + ":" + Pad2(1) + ":" + Pad2(5))
  {
    WithinADay(65);
    assert 65 / 3600 == 0 && 65 % 3600 / 60 == 1 && 65 % 60 == 5;
  }

  /** 3661 seconds are 1 hour, 1 minute and 1 second. */
  lemma FieldsOf3661()
    ensures SecondsToHuman(3661.0) == Some(Pad2(1) + ":" + Pad2(1) + ":" + Pad2(1))
  {
    WithinADay(3661);
    assert 3661 / 3600 == 1 && 3661 % 3600 / 60 == 1 && 3661 % 60 == 1;
  }

  /** 65 seconds render as "00:01:05". */
  lemma Example65()
    ensures SecondsToHuman(65.0) == Some("00:01:05")
  {
    FieldsOf65();
    Pad2Zero();
    Pad2One();
    Pad2Five();
    assert Pad2(0) + ":" + Pad2(1) + ":" + Pad2(5) == "00:01:05";
  }

  /** 3661 seconds render as "01:01:01". */
  lemma Example3661()
    ensures SecondsToHuman(3661.0) == Some("01:01:01")
  {
    FieldsOf3661();
    Pad2One();
    assert Pad2(1) + ":" + Pad2(1) + ":" + Pad2(1) == "01:01:01";
  }
}
