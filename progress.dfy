/** The work-shift progress bar under the flip clock (the live
    `updateWorkProgressBar`, content.js:3876-4042) and the hover tooltip of its
    track (content.js:681-688). The shift is fixed at 10:00-19:00; the wall
    clock arrives as an hour and a minute. Percentages are exact rationals
    (`real`), not floating point. */
module WorkProgress {
  import opened JsText
  import Clock

  const WorkStartHour: int := 10
  const WorkEndHour: int := 19
  /** Length of the shift in minutes: 540. */
  const WorkTotalMinutes: int := (WorkEndHour - WorkStartHour) * 60
  const WorkdayStart: int := WorkStartHour * 60
  const WorkdayEnd: int := WorkEndHour * 60

  /** What `Date.getHours()` and `Date.getMinutes()` can return. */
  predicate ValidClock(hour: int, minute: int) {
    0 <= hour < 24 && 0 <= minute < 60
  }

  function MinuteOfDay(hour: int, minute: int): int {
    hour * 60 + minute
  }

  /** The fill colours of the bar, in the order the shift moves through them. */
  datatype Fill = Grey | PrimaryBlue | Orange | Yellow | Teal | Green

  function Rank(f: Fill): nat {
    match f
    case Grey => 0
    case PrimaryBlue => 1
    case Orange => 2
    case Yellow => 3
    case Teal => 4
    case Green => 5
  }

  /** The text under the bar: time to the start of the shift, time since its
      end, or the elapsed percentage and the time remaining. */
  datatype Status =
    | UntilStart(hours: int, minutes: int)
    | SinceEnd(hours: int, minutes: int)
    | InShift(percent: real, hoursRemaining: int, minutesRemaining: int)

  datatype Snapshot = Snapshot(progress: real, status: Status, fill: Fill)

  /** The in-shift colour tier: green from 90%, teal from 75%, yellow from 50%,
      orange from 25%, the primary blue below. */
  function InShiftFill(progress: real): Fill {
    if progress >= 90.0 then Green
    else if progress >= 75.0 then Teal
    else if progress >= 50.0 then Yellow
    else if progress >= 25.0 then Orange
    else PrimaryBlue
  }

  /** The progress computation of `updateWorkProgressBar`. */
  function Progress(hour: int, minute: int): (s: Snapshot)
    requires ValidClock(hour, minute)
    ensures 0.0 <= s.progress <= 100.0
    ensures hour < WorkStartHour ==>
      && s.progress == 0.0 && s.fill == Grey && s.status.UntilStart?
      && s.status.hours * 60 + s.status.minutes == WorkdayStart - MinuteOfDay(hour, minute)
      && 0 <= s.status.minutes < 60
    ensures hour >= WorkEndHour ==>
      && s.progress == 100.0 && s.fill == Green && s.status.SinceEnd?
      && s.status.hours * 60 + s.status.minutes == MinuteOfDay(hour, minute) - WorkdayEnd
      && 0 <= s.status.hours && 0 <= s.status.minutes < 60
    ensures WorkStartHour <= hour < WorkEndHour ==>
      && s.progress < 100.0
      && s.progress * (WorkTotalMinutes as real) == ((MinuteOfDay(hour, minute) - WorkdayStart) * 100) as real
      && s.status.InShift? && s.status.percent == s.progress
      && s.status.hoursRemaining * 60 + s.status.minutesRemaining
         == WorkTotalMinutes - (MinuteOfDay(hour, minute) - WorkdayStart) > 0
      && 0 <= s.status.minutesRemaining < 60
      && s.fill == InShiftFill(s.progress)
  {
    var now := MinuteOfDay(hour, minute);
    if hour < WorkStartHour then
      var minutesUntilStart := WorkdayStart - now;
      Snapshot(0.0, UntilStart(minutesUntilStart / 60, minutesUntilStart % 60), Grey)
    else if hour >= WorkEndHour then
      var minutesAfterEnd := now - WorkdayEnd;
      Snapshot(100.0, SinceEnd(minutesAfterEnd / 60, minutesAfterEnd % 60), Green)
    else
      var minutesSinceStart := now - WorkdayStart;
      var ratio := (minutesSinceStart as real) / (WorkTotalMinutes as real) * 100.0;
      var progress := if ratio < 100.0 then ratio else 100.0;
      var minutesRemaining := WorkTotalMinutes - minutesSinceStart;
      Snapshot(progress, InShift(progress, minutesRemaining / 60, minutesRemaining % 60),
               InShiftFill(progress))
  }

  /** The reference points of the bar: 09:00, 10:00, 14:30, 19:00 and 23:30. */
  lemma ProgressExamples()
    ensures Progress(9, 0) == Snapshot(0.0, UntilStart(1, 0), Grey)
    ensures Progress(10, 0) == Snapshot(0.0, InShift(0.0, 9, 0), PrimaryBlue)
    ensures Progress(14, 30) == Snapshot(50.0, InShift(50.0, 4, 30), Yellow)
    ensures Progress(19, 0) == Snapshot(100.0, SinceEnd(0, 0), Green)
    ensures Progress(23, 30) == Snapshot(100.0, SinceEnd(4, 30), Green)
  {
  }

  /** The bar never moves backwards during a day, and neither does its
      colour. */
  lemma ProgressMonotone(h1: int, m1: int, h2: int, m2: int)
    requires ValidClock(h1, m1) && ValidClock(h2, m2)
    requires MinuteOfDay(h1, m1) <= MinuteOfDay(h2, m2)
    ensures Progress(h1, m1).progress <= Progress(h2, m2).progress
    ensures Rank(Progress(h1, m1).fill) <= Rank(Progress(h2, m2).fill)
  {
    var p1, p2 := Progress(h1, m1), Progress(h2, m2);
    if WorkStartHour <= h1 < WorkEndHour && WorkStartHour <= h2 < WorkEndHour {
      InShiftFillMonotone(p1.progress, p2.progress);
    }
  }

  /** The colour tier is a step function that never goes down as progress
      goes up. */
  lemma InShiftFillMonotone(p: real, q: real)
    requires p <= q
    ensures Rank(InShiftFill(p)) <= Rank(InShiftFill(q))
  {
  }

  /** The tier boundaries at 25, 50, 75 and 90 percent. */
  lemma InShiftFillBoundaries()
    ensures InShiftFill(24.9) == PrimaryBlue && InShiftFill(25.0) == Orange
    ensures InShiftFill(49.9) == Orange && InShiftFill(50.0) == Yellow
    ensures InShiftFill(74.9) == Yellow && InShiftFill(75.0) == Teal
    ensures InShiftFill(89.9) == Teal && InShiftFill(90.0) == Green
  {
  }

  // ------------------------------------------------------------ indicator

  /** Position of the current-time marker on the track, in percent: pinned to
      0 before the shift, to 100 after it, linear in between. */
  function IndicatorPosition(now: int): (r: real)
    ensures 0.0 <= r <= 100.0
  {
    if now < WorkdayStart then 0.0
    else if now > WorkdayEnd then 100.0
    else ((now - WorkdayStart) as real) / (WorkTotalMinutes as real) * 100.0
  }

  /** The marker is drawn at full opacity within three hours of the shift
      window and at half opacity further away. */
  function IndicatorOpaque(now: int): bool {
    now >= WorkdayStart - 180 && now <= WorkdayEnd + 180
  }

  /** Minutes from `now` to the nearest point of the shift window. */
  function DistanceFromShift(now: int): nat {
    if now < WorkdayStart then WorkdayStart - now
    else if now > WorkdayEnd then now - WorkdayEnd
    else 0
  }

  lemma IndicatorOpacity(now: int)
    ensures IndicatorOpaque(now) <==> DistanceFromShift(now) <= 180
    ensures IndicatorOpaque(now) <==> 420 <= now <= 1320
  {
  }

  /** The marker moves forward with the clock. */
  lemma IndicatorMonotone(a: int, b: int)
    requires a <= b
    ensures IndicatorPosition(a) <= IndicatorPosition(b)
  {
  }

  /** The marker always sits at the end of the filled part of the bar. */
  lemma IndicatorMatchesFill(hour: int, minute: int)
    requires ValidClock(hour, minute)
    ensures IndicatorPosition(MinuteOfDay(hour, minute)) == Progress(hour, minute).progress
  {
  }

  /** The marker's label: the time as `HH:MM`. */
  function TimeLabel(hour: int, minute: int): string
    requires ValidClock(hour, minute)
  {
    PadStart2(DecimalString(hour)) + ":" + PadStart2(DecimalString(minute))
  }

  lemma PadSmall(n: nat)
    requires n < 100
    ensures |PadStart2(DecimalString(n))| == 2 && AllAsciiDigits(PadStart2(DecimalString(n)))
  {
    var d := DecimalString(n);
    if n >= 10 {
      assert DecimalString(n / 10) == [DigitChar(n / 10)];
    }
    assert |d| <= 2;
    var p := PadStart2(d);
    forall k | 0 <= k < 2 ensures IsAsciiDigit(p[k]) {
      if k < 2 - |d| { } else { assert p[k] == d[k - (2 - |d|)]; }
    }
  }

  /** The label is already a normalised two-part clock text: the flip clock's
      normaliser only appends the seconds. */
  lemma TimeLabelNormalizes(hour: int, minute: int)
    requires ValidClock(hour, minute)
    ensures |TimeLabel(hour, minute)| == 5
    ensures Clock.NormalizeTimeFormat(TimeLabel(hour, minute)) == TimeLabel(hour, minute) + ":00"
    ensures Clock.MatchesHms(TimeLabel(hour, minute) + ":00")
  {
    var a, b := PadStart2(DecimalString(hour)), PadStart2(DecimalString(minute));
    PadSmall(hour);
    PadSmall(minute);
    assert ':' !in a by { assert forall k :: 0 <= k < |a| ==> IsAsciiDigit(a[k]); }
    assert ':' !in b by { assert forall k :: 0 <= k < |b| ==> IsAsciiDigit(b[k]); }
    Clock.NormalizeTwoParts(a, b);
    Clock.ShortDigitPartsGiveHms(a, b);
    assert PadStart2(a) == a && PadStart2(b) == b;
  }

  // ------------------------------------------------------------ tooltip

  /** The tooltip over the track: the cursor position as a percentage of
      the track width, clamped to [0, 100], is read back as a time of the
      10:00-19:00 window (whole minutes, rounded down). */
  function TooltipTime(rawPercent: real): (t: (int, int))
    ensures WorkStartHour <= t.0 <= WorkEndHour && 0 <= t.1 < 60
    ensures t.0 == WorkEndHour ==> t.1 == 0
  {
    var percent := if rawPercent < 0.0 then 0.0 else if rawPercent > 100.0 then 100.0 else rawPercent;
    var mins := (percent / 100.0 * (WorkTotalMinutes as real)).Floor;
    (WorkStartHour + mins / 60, mins % 60)
  }

  /** The text of the tooltip: hours unpadded, minutes padded to two digits. */
  function TooltipLabel(rawPercent: real): string {
    var t := TooltipTime(rawPercent);
    DecimalString(t.0) + ":" + PadStart2(DecimalString(t.1))
  }

  /** Hovering over the current-time marker during the shift shows the current
      time. */
  lemma TooltipRoundTrip(hour: int, minute: int)
    requires ValidClock(hour, minute)
    requires WorkdayStart <= MinuteOfDay(hour, minute) <= WorkdayEnd
    ensures TooltipTime(IndicatorPosition(MinuteOfDay(hour, minute))) == (hour, minute)
  {
    var x := MinuteOfDay(hour, minute) - WorkdayStart;
    var p := IndicatorPosition(MinuteOfDay(hour, minute));
    assert p == (x as real) / 540.0 * 100.0;
    assert p / 100.0 * 540.0 == x as real;
    assert (x as real).Floor == x;
    assert 0.0 <= p <= 100.0;
    assert (p / 100.0 * (WorkTotalMinutes as real)).Floor == x;
    assert x == (hour - WorkStartHour) * 60 + minute;
    DivModUnique(x, hour - WorkStartHour, minute);
    var t := TooltipTime(p);
    assert t.0 == WorkStartHour + x / 60 == hour;
    assert t.1 == x % 60 == minute;
  }

  /** Euclidean division by 60 recovers an hour/minute split. */
  lemma DivModUnique(x: int, q: int, r: int)
    requires x == q * 60 + r && 0 <= r < 60
    ensures x / 60 == q && x % 60 == r
  {
  }

  /** Further right on the track never shows an earlier time. */
  lemma TooltipMonotone(p: real, q: real)
    requires p <= q
    ensures TooltipTime(p).0 * 60 + TooltipTime(p).1 <= TooltipTime(q).0 * 60 + TooltipTime(q).1
  {
    var cp := if p < 0.0 then 0.0 else if p > 100.0 then 100.0 else p;
    var cq := if q < 0.0 then 0.0 else if q > 100.0 then 100.0 else q;
    var mp := (cp / 100.0 * 540.0).Floor;
    var mq := (cq / 100.0 * 540.0).Floor;
    assert mp <= mq;
  }
}
