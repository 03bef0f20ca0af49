/**
 * The two renderings of a number of seconds used by the timer component:
 * the clock face `HH : MM : SS` of one timer (formatTime and pad) and the
 * total-time summary that names the two coarsest units (calculateTotalTime).
 */
module TimeFormat {
  import opened Decimal
  import opened Options

  /** `pad`: two-digit rendering, a '0' prefixed below ten. */
  function Pad(n: nat): (r: string)
    ensures AllDigits(r) && |r| >= 2 && Value(r) == n
    ensures n < 100 ==> |r| == 2
    ensures r[0] == '0' <==> n < 10
  {
    ValueOfShow(n);
    if n < 10 then
      ValueLeadingZero(Show(n));
      "0" + Show(n)
    else
      Show(n)
  }

  // The clock fields, as Math.floor of the non-negative quotients.
  function Hours(s: nat): nat { s / 3600 }
  function Minutes(s: nat): nat { (s % 3600) / 60 }
  function Seconds(s: nat): nat { s % 60 }

  /** The three fields decompose the count exactly, minutes and seconds below sixty. */
  lemma {:induction false} Decomposition(s: nat)
    ensures Hours(s) * 3600 + Minutes(s) * 60 + Seconds(s) == s
    ensures Minutes(s) < 60 && Seconds(s) < 60
  {
    var h, r := s / 3600, s % 3600;
    assert s == h * 3600 + r;
    var m, q := r / 60, r % 60;
    assert r == m * 60 + q;
    assert s == (h * 60 + m) * 60 + q;
    assert s % 60 == q;
  }

  const Separator := " : "

  /** `formatTime`: `HH : MM : SS`; the hour field grows beyond two digits past 99 hours. */
  function FormatTime(s: nat): (r: string)
    ensures s < 360000 ==> |r| == 12
    ensures ParseClock(r) == Some(s)
    ensures r[0] == '0' <==> Hours(s) < 10
  {
    var hh, mm, ss := Pad(Hours(s)), Pad(Minutes(s)), Pad(Seconds(s));
    Decomposition(s);
    ClockRoundTrip(hh, mm, ss);
    hh + Separator + mm + Separator + ss
  }

  /** A face joined from digit fields reads back as the fields' weighted sum. */
  lemma {:induction false} ClockRoundTrip(hh: string, mm: string, ss: string)
    requires AllDigits(hh) && AllDigits(mm) && AllDigits(ss)
    requires |hh| >= 2 && |mm| == 2 && |ss| == 2
    requires Value(mm) < 60 && Value(ss) < 60
    ensures ParseClock(hh + Separator + mm + Separator + ss)
            == Some(Value(hh) * 3600 + Value(mm) * 60 + Value(ss))
  {
    var tail := Separator + mm + Separator + ss;
    var r := hh + tail;
    assert hh + Separator + mm + Separator + ss == r;
    assert r[..|r| - 10] == hh;
    assert r[|r| - 10..] == tail;
    assert tail[..3] == Separator && tail[3..5] == mm && tail[5..8] == Separator && tail[8..] == ss;
    assert r[|r| - 10..|r| - 7] == tail[..3];
    assert r[|r| - 7..|r| - 5] == tail[3..5];
    assert r[|r| - 5..|r| - 2] == tail[5..8];
    assert r[|r| - 2..] == tail[8..];
  }

  /**
   * Reads a clock face back: the last two digit pairs are minutes and
   * seconds, each below sixty, everything before the first separator the hours.
   */
  function ParseClock(r: string): Option<nat> {
    if |r| < 12 then None
    else
      var hh, mm, ss := r[..|r| - 10], r[|r| - 7..|r| - 5], r[|r| - 2..];
      if AllDigits(hh) && r[|r| - 10..|r| - 7] == Separator && AllDigits(mm)
         && r[|r| - 5..|r| - 2] == Separator && AllDigits(ss)
         && Value(mm) < 60 && Value(ss) < 60
      then Some(Value(hh) * 3600 + Value(mm) * 60 + Value(ss))
      else None
  }

  /** Distinct durations never share a clock face. */
  lemma {:induction false} FormatTimeInjective(s: nat, t: nat)
    requires FormatTime(s) == FormatTime(t)
    ensures s == t
  {
    assert ParseClock(FormatTime(s)) == Some(s);
  }

  lemma FormatTimeExample()
    ensures FormatTime(3725) == "01 : 02 : 05"
  {
    assert Hours(3725) == 1 && Minutes(3725) == 2 && Seconds(3725) == 5;
    assert Show(1) == "1" && Show(2) == "2" && Show(5) == "5";
  }

  /** The units calculateTotalTime keeps: the coarsest non-empty one and the next. */
  datatype Summary =
    | NoTime
    | HoursMinutes(hours: nat, minutes: nat)
    | MinutesSeconds(minutes: nat, seconds: nat)
    | SecondsOnly(seconds: nat)

  function Summarize(total: int): (r: Summary)
    ensures r.NoTime? <==> total <= 0
  {
    if total <= 0 then NoTime
    else if Hours(total) > 0 then HoursMinutes(Hours(total), Minutes(total))
    else if Minutes(total) > 0 then MinutesSeconds(Minutes(total), Seconds(total))
    else SecondsOnly(Seconds(total))
  }

  /**
   * The summary keeps whole hours and minutes below the next minute, or
   * minutes and seconds exactly, or the seconds alone; nothing for no time.
   */
  lemma {:induction false} SummarizeMeaning(total: int)
    ensures var r := Summarize(total);
      && (r == NoTime <==> total <= 0)
      && (r.HoursMinutes? ==>
            && r.hours >= 1 && r.minutes < 60
            && r.hours * 3600 + r.minutes * 60 <= total < r.hours * 3600 + r.minutes * 60 + 60)
      && (r.MinutesSeconds? ==>
            && 60 <= total < 3600 && 1 <= r.minutes && r.seconds < 60
            && r.minutes * 60 + r.seconds == total)
      && (r.SecondsOnly? ==> 0 < total < 60 && r.seconds == total)
  {
    if total > 0 {
      Decomposition(total);
    }
  }

  /** A quantity and its unit, with an "s" only when the quantity exceeds one. */
  function Unit(q: nat, name: string): string
    requires |name| > 0 && name[|name| - 1] != 's'
  {
    Show(q) + " " + name + (if q > 1 then "s" else "")
  }

  lemma {:induction false} UnitPlural(q: nat, name: string)
    requires |name| > 0 && name[|name| - 1] != 's'
    ensures var r := Unit(q, name);
      && |r| > |name| + 1
      && (r[|r| - 1] == 's' <==> q > 1)
  {
  }

  function Render(sm: Summary): string {
    match sm
    case NoTime => "0 hour"
    case HoursMinutes(h, m) => Unit(h, "hour") + " " + Unit(m, "minute")
    case MinutesSeconds(m, s) => Unit(m, "minute") + " " + Unit(s, "second")
    case SecondsOnly(s) => Unit(s, "second")
  }

  /** The text calculateTotalTime publishes for a total number of seconds. */
  function TotalTimeText(total: int): string {
    Render(Summarize(total))
  }

  /** "0 hour" is published exactly when there is no positive total. */
  lemma {:induction false} TotalTimeNone(total: int)
    ensures TotalTimeText(total) == "0 hour" <==> total <= 0
  {
    SummarizeMeaning(total);
    match Summarize(total)
    case NoTime =>
    case HoursMinutes(h, m) => UnitPlural(h, "hour");
    case MinutesSeconds(m, s) => UnitPlural(m, "minute");
    case SecondsOnly(s) => UnitPlural(s, "second");
  }

  lemma TotalTimeSecondsExample()
    ensures TotalTimeText(45) == "45 seconds"
  {
    assert Summarize(45) == SecondsOnly(45);
    assert Show(45) == "45" by { assert Show(4) == "4"; }
  }

  lemma TotalTimeMinutesExample()
    ensures TotalTimeText(90) == "1 minute 30 seconds"
  {
    assert Summarize(90) == MinutesSeconds(1, 30) by {
      assert Hours(90) == 0 && Minutes(90) == 1 && Seconds(90) == 30;
    }
    assert Unit(1, "minute") == "1 minute" by { assert Show(1) == "1"; }
    assert Unit(30, "second") == "30 seconds" by {
      assert Show(30) == "30" by { assert Show(3) == "3"; }
    }
  }

  lemma TotalTimeHoursExample()
    ensures TotalTimeText(3661) == "1 hour 1 minute"
  {
    assert Hours(3661) == 1 && Minutes(3661) == 1;
    assert Summarize(3661) == HoursMinutes(1, 1);
    assert Show(1) == "1";
  }

  /** Seconds are dropped once there is an hour, and zero minutes stay singular. */
  lemma TotalTimeTwoHoursExample()
    ensures TotalTimeText(7200) == "2 hours 0 minute"
  {
    assert Hours(7200) == 2 && Minutes(7200) == 0;
    assert Summarize(7200) == HoursMinutes(2, 0);
    assert Show(2) == "2" && Show(0) == "0";
  }
}
