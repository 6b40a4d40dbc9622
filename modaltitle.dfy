/** The title reformat of `enhanceModalTitle` (content.js:1549-1581): the
    edit dialog's title, such as 2025年03月11日(火)実労働時間＝08:51, is shown
    as a time 08:51 above a date 2025/03/11(火). Both parts are read with a
    regular expression; a title without a date is left alone, and a title
    without a working time shows 00:00. */
module ModalTitle {
  import opened Wrappers
  import opened JsText

  /** 年, 月 and 日. */
  const Nen: char := '\U{5E74}'
  const Gatsu: char := '\U{6708}'
  const Nichi: char := '\U{65E5}'

  /** 実労働時間＝, the label in front of the working time. */
  const WorkTimeLabel: string := "\U{5B9F}\U{52B4}\U{50CD}\U{6642}\U{9593}\U{FF1D}"

  /** The characters a regular-expression `.` does not match without the
      `s` flag. */
  predicate IsLineTerminator(c: char) {
    c == '\n' || c == '\r' || c == '\U{2028}' || c == '\U{2029}'
  }

  /** `(\d{4})年(\d{2})月(\d{2})日\((.)\)` matches the 14 characters of `t`
      starting at `i`. */
  predicate DateMatchAt(t: string, i: nat) {
    i + 14 <= |t|
    && AllAsciiDigits(t[i..i + 4]) && t[i + 4] == Nen
    && AllAsciiDigits(t[i + 5..i + 7]) && t[i + 7] == Gatsu
    && AllAsciiDigits(t[i + 8..i + 10]) && t[i + 10] == Nichi
    && t[i + 11] == '(' && !IsLineTerminator(t[i + 12]) && t[i + 13] == ')'
  }

  /** `実労働時間＝(\d{2}):(\d{2})` matches the 11 characters of `t` starting
      at `i`. */
  predicate TimeMatchAt(t: string, i: nat) {
    i + 11 <= |t|
    && OccursAt(t, WorkTimeLabel, i)
    && AllAsciiDigits(t[i + 6..i + 8]) && t[i + 8] == ':' && AllAsciiDigits(t[i + 9..i + 11])
  }

  /** The leftmost date match at or after `from`, as `String.prototype.match`
      finds it. */
  function FindDate(t: string, from: nat): (r: Option<nat>)
    ensures r.Some? ==> from <= r.value && DateMatchAt(t, r.value)
    ensures forall j: nat :: from <= j && (r.None? || j < r.value) ==> !DateMatchAt(t, j)
    decreases |t| - from
  {
    if from + 14 > |t| then None
    else if DateMatchAt(t, from) then Some(from)
    else FindDate(t, from + 1)
  }

  /** The leftmost working-time match at or after `from`. */
  function FindTime(t: string, from: nat): (r: Option<nat>)
    ensures r.Some? ==> from <= r.value && TimeMatchAt(t, r.value)
    ensures forall j: nat :: from <= j && (r.None? || j < r.value) ==> !TimeMatchAt(t, j)
    decreases |t| - from
  {
    if from + 11 > |t| then None
    else if TimeMatchAt(t, from) then Some(from)
    else FindTime(t, from + 1)
  }

  /** The two texts the dialog shows instead of the title. */
  datatype Display = Display(time: string, date: string)

  /** The reformat: `None` when the title holds no date (the title is then
      left as it is). */
  function EnhanceTitle(t: string): (r: Option<Display>)
    ensures r.None? <==> forall j: nat :: !DateMatchAt(t, j)
    ensures r.Some? && (forall j: nat :: !TimeMatchAt(t, j)) ==> r.value.time == "00:00"
  {
    match FindDate(t, 0)
    case None => None
    case Some(i) =>
      var date := t[i..i + 4] + "/" + t[i + 5..i + 7] + "/" + t[i + 8..i + 10] + "(" + [t[i + 12]] + ")";
      var time :=
        match FindTime(t, 0)
        case Some(j) => t[j + 6..j + 8] + ":" + t[j + 9..j + 11]
        case None => "00:00";
      Some(Display(time, date))
  }

  // ------------------------------------------------------------ dates

  /** The captured groups of a date. */
  datatype Date = Date(year: string, month: string, day: string, weekday: char)

  predicate ValidDate(d: Date) {
    |d.year| == 4 && AllAsciiDigits(d.year)
    && |d.month| == 2 && AllAsciiDigits(d.month)
    && |d.day| == 2 && AllAsciiDigits(d.day)
    && !IsLineTerminator(d.weekday)
  }

  /** The page's spelling, YYYY年MM月DD日(W). */
  function JapaneseDate(d: Date): (s: string)
    ensures |s| == |d.year| + |d.month| + |d.day| + 6
  {
    d.year + [Nen] + d.month + [Gatsu] + d.day + [Nichi] + "(" + [d.weekday] + ")"
  }

  /** The shown spelling, YYYY/MM/DD(W). */
  function SlashDate(d: Date): (s: string)
    ensures |s| == |d.year| + |d.month| + |d.day| + 5
  {
    d.year + "/" + d.month + "/" + d.day + "(" + [d.weekday] + ")"
  }

  /** The slash spelling loses nothing: two valid dates with the same slash
      spelling are the same date. */
  lemma SlashDateInjective(d: Date, e: Date)
    requires ValidDate(d) && ValidDate(e)
    requires SlashDate(d) == SlashDate(e)
    ensures d == e
  {
    var s := SlashDate(d);
    assert d.year == s[..4] == e.year;
    assert d.month == s[5..7] == e.month;
    assert d.day == s[8..10] == e.day;
    assert d.weekday == s[11] == e.weekday;
  }

  /** Where the page spells a valid date, the pattern matches. */
  lemma JapaneseDateMatches(p: string, d: Date, rest: string)
    requires ValidDate(d)
    ensures DateMatchAt(p + JapaneseDate(d) + rest, |p|)
  {
    var t := p + JapaneseDate(d) + rest;
    var i := |p|;
    assert t[i..i + 4] == d.year;
    assert t[i + 5..i + 7] == d.month;
    assert t[i + 8..i + 10] == d.day;
  }

  /** A title whose first date is `d` is shown with `d` in slash form. */
  lemma {:induction false} DateOfTitle(p: string, d: Date, rest: string)
    requires ValidDate(d)
    requires forall j: nat :: j < |p| ==> !DateMatchAt(p + JapaneseDate(d) + rest, j)
    ensures EnhanceTitle(p + JapaneseDate(d) + rest).Some?
    ensures EnhanceTitle(p + JapaneseDate(d) + rest).value.date == SlashDate(d)
  {
    var t := p + JapaneseDate(d) + rest;
    var i := |p|;
    JapaneseDateMatches(p, d, rest);
    var r := FindDate(t, 0);
    assert r == Some(i);
    assert t[i..i + 4] == d.year;
    assert t[i + 5..i + 7] == d.month;
    assert t[i + 8..i + 10] == d.day;
    assert t[i + 12] == d.weekday;
  }

  // ------------------------------------------------------------ times

  /** A title holding the label and two-digit hours and minutes is shown with
      that time, when no earlier label-and-time precedes it. */
  lemma TimeOfTitle(p: string, hh: string, mm: string, rest: string)
    requires |hh| == 2 && AllAsciiDigits(hh) && |mm| == 2 && AllAsciiDigits(mm)
    requires forall j: nat :: j < |p| ==> !TimeMatchAt(p + WorkTimeLabel + hh + ":" + mm + rest, j)
    ensures FindTime(p + WorkTimeLabel + hh + ":" + mm + rest, 0) == Some(|p|)
    ensures var t := p + WorkTimeLabel + hh + ":" + mm + rest;
      t[|p| + 6..|p| + 8] + ":" + t[|p| + 9..|p| + 11] == hh + ":" + mm
  {
    var t := p + WorkTimeLabel + hh + ":" + mm + rest;
    var i := |p|;
    assert t[i..i + 6] == WorkTimeLabel;
    assert t[i + 6..i + 8] == hh;
    assert t[i + 9..i + 11] == mm;
    assert TimeMatchAt(t, i);
  }

  /** A date spelled by the page holds no working-time label. */
  lemma NoTimeInDate(d: Date, s: string, j: nat)
    requires ValidDate(d)
    requires j < |JapaneseDate(d)|
    ensures !TimeMatchAt(JapaneseDate(d) + s, j)
  {
    var t := JapaneseDate(d) + s;
    if j + 6 <= |t| {
      // 実 and 労 open the label; the date holds 実 only as its weekday,
      // which is followed by a parenthesis.
      if j < 4 {
        assert t[j] == d.year[j];
      } else if 5 <= j < 7 {
        assert t[j] == d.month[j - 5];
      } else if 8 <= j < 10 {
        assert t[j] == d.day[j - 8];
      } else if j == 12 {
        assert t[j + 1] == ')';
      }
      assert t[j] != WorkTimeLabel[0] || t[j + 1] != WorkTimeLabel[1];
      assert t[j..j + 6][0] == t[j] && t[j..j + 6][1] == t[j + 1];
    }
  }

  /** The whole reformat on a title as the page writes it: the date followed
      by the label and the working time. */
  lemma TitleRoundTrip(d: Date, hh: string, mm: string, rest: string)
    requires ValidDate(d)
    requires |hh| == 2 && AllAsciiDigits(hh) && |mm| == 2 && AllAsciiDigits(mm)
    ensures EnhanceTitle(JapaneseDate(d) + WorkTimeLabel + hh + ":" + mm + rest)
      == Some(Display(hh + ":" + mm, SlashDate(d)))
  {
    var p := JapaneseDate(d);
    var s := WorkTimeLabel + hh + ":" + mm + rest;
    var t := p + WorkTimeLabel + hh + ":" + mm + rest;
    assert t == p + s;
    assert t == "" + p + s;
    DateOfTitle("", d, s);
    forall j: nat | j < |p| ensures !TimeMatchAt(t, j) {
      NoTimeInDate(d, s, j);
    }
    TimeOfTitle(p, hh, mm, rest);
  }
}
