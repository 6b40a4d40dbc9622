/** The flip clock: normalising the host page's clock text to `HH:MM:SS`
    (content.js `normalizeTimeFormat`), pushing the digits of that text onto
    the flip cards once a second (the live `updateFlipClock`), and deciding
    whether a clock-style change has to rebuild the cards (`updateClockStyle`). */
module Clock {
  import opened JsText
  import opened Wrappers

  /** `/^\d{2}:\d{2}:\d{2}$/`. */
  predicate MatchesHms(s: string) {
    && |s| == 8
    && IsAsciiDigit(s[0]) && IsAsciiDigit(s[1]) && s[2] == ':'
    && IsAsciiDigit(s[3]) && IsAsciiDigit(s[4]) && s[5] == ':'
    && IsAsciiDigit(s[6]) && IsAsciiDigit(s[7])
  }

  /** `normalizeTimeFormat`: text already in `HH:MM:SS` form is kept; text with
      exactly two `:`-separated parts gets both parts zero-padded to width two
      and `:00` appended; anything else becomes `00:00:00`. */
  function NormalizeTimeFormat(s: string): (r: string)
    ensures MatchesHms(s) ==> r == s
    ensures !MatchesHms(s) && CountIn(s, {':'}) != 1 ==> r == "00:00:00"
  {
    if MatchesHms(s) then s
    else
      var parts := Split(s, {':'});
      if |parts| == 2 then PadStart2(parts[0]) + ":" + PadStart2(parts[1]) + ":00"
      else "00:00:00"
  }

  /** A string with a single colon never has the `HH:MM:SS` shape. */
  lemma OneColonIsNotHms(a: string, b: string)
    requires ':' !in a && ':' !in b
    ensures !MatchesHms(a + ":" + b)
  {
    var s := a + ":" + b;
    if |s| == 8 {
      if |a| == 2 {
        assert s[5] == b[2];
      } else if |a| < 2 {
        assert s[2] == b[1 - |a|];
      } else {
        assert s[2] == a[2];
      }
    }
  }

  /** Exactly two parts: each is left-padded with `0` to width two (never
      truncated) and `:00` is appended. */
  lemma NormalizeTwoParts(a: string, b: string)
    requires ':' !in a && ':' !in b
    ensures NormalizeTimeFormat(a + ":" + b) == PadStart2(a) + ":" + PadStart2(b) + ":00"
  {
    OneColonIsNotHms(a, b);
    assert a + ":" + b == a + [':'] + b;
    SplitPair(a, b, ':');
  }

  /** Normalised two-part text has the `HH:MM:SS` shape exactly when both parts
      are at most two ASCII digits. */
  lemma TwoPartsShape(a: string, b: string)
    requires ':' !in a && ':' !in b
    ensures MatchesHms(NormalizeTimeFormat(a + ":" + b)) <==>
            |a| <= 2 && |b| <= 2 && AllAsciiDigits(a) && AllAsciiDigits(b)
  {
    NormalizeTwoParts(a, b);
    if |a| <= 2 && |b| <= 2 && AllAsciiDigits(a) && AllAsciiDigits(b) {
      ShortDigitPartsGiveHms(a, b);
    }
    if MatchesHms(PadStart2(a) + ":" + PadStart2(b) + ":00") {
      HmsGivesShortDigitParts(a, b);
    }
  }

  lemma PadDigitPair(a: string)
    requires |a| <= 2 && AllAsciiDigits(a)
    ensures |PadStart2(a)| == 2 && IsAsciiDigit(PadStart2(a)[0]) && IsAsciiDigit(PadStart2(a)[1])
  {
    var pa := PadStart2(a);
    if |a| == 1 { assert pa[1] == a[0]; } else if |a| == 2 { assert pa == a; }
  }

  lemma ShortDigitPartsGiveHms(a: string, b: string)
    requires |a| <= 2 && |b| <= 2 && AllAsciiDigits(a) && AllAsciiDigits(b)
    ensures MatchesHms(PadStart2(a) + ":" + PadStart2(b) + ":00")
  {
    var pa, pb := PadStart2(a), PadStart2(b);
    PadDigitPair(a);
    PadDigitPair(b);
    var r := pa + ":" + pb + ":00";
    assert r[0] == pa[0] && r[1] == pa[1] && r[2] == ':';
    assert r[3] == pb[0] && r[4] == pb[1] && r[5] == ':';
    assert r[6] == '0' && r[7] == '0';
  }

  lemma HmsGivesShortDigitParts(a: string, b: string)
    requires ':' !in a
    requires MatchesHms(PadStart2(a) + ":" + PadStart2(b) + ":00")
    ensures |a| <= 2 && |b| <= 2 && AllAsciiDigits(a) && AllAsciiDigits(b)
  {
    var pa, pb := PadStart2(a), PadStart2(b);
    var r := pa + ":" + pb + ":00";
    assert |pa| == 2 && |pb| == 2;
    assert r[0] == pa[0] && r[1] == pa[1] && r[3] == pb[0] && r[4] == pb[1];
    UnpadDigitPair(a);
    UnpadDigitPair(b);
  }

  lemma UnpadDigitPair(a: string)
    requires |PadStart2(a)| == 2 && IsAsciiDigit(PadStart2(a)[0]) && IsAsciiDigit(PadStart2(a)[1])
    ensures |a| <= 2 && AllAsciiDigits(a)
  {
    var pa := PadStart2(a);
    if |a| == 1 { assert a[0] == pa[1]; } else if |a| == 2 { assert pa == a; }
  }

  /** Normalising twice is the same as once exactly when the first result is
      already in `HH:MM:SS` form; in particular it is when the text had two
      parts of at most two digits each. */
  lemma NormalizeIdempotentIff(s: string)
    ensures NormalizeTimeFormat(NormalizeTimeFormat(s)) == NormalizeTimeFormat(s)
            <==> MatchesHms(NormalizeTimeFormat(s))
  {
    var r := NormalizeTimeFormat(s);
    if !MatchesHms(r) {
      Renormalize(s);
      MidnightMatches();
    }
  }

  lemma MidnightMatches()
    ensures MatchesHms("00:00:00")
  {
  }

  /** Text that normalises to something other than `HH:MM:SS` had two parts,
      so its normal form holds two colons and normalises to `00:00:00`. */
  lemma Renormalize(s: string)
    requires !MatchesHms(NormalizeTimeFormat(s))
    ensures NormalizeTimeFormat(NormalizeTimeFormat(s)) == "00:00:00"
  {
    var parts := Split(s, {':'});
    assert !MatchesHms(s) && |parts| == 2;
    var pa, pb := PadStart2(parts[0]), PadStart2(parts[1]);
    assert NormalizeTimeFormat(s) == pa + ":" + pb + ":00";
    ColonCountAtLeastTwo(pa, pb);
  }

  lemma ColonCountAtLeastTwo(pa: string, pb: string)
    ensures CountIn(pa + ":" + pb + ":00", {':'}) >= 2
  {
    var r := pa + ":" + pb + ":00";
    CountInSplit(pa, ":" + pb + ":00");
    assert r == pa + (":" + pb + ":00");
    var t := ":" + pb + ":00";
    assert t[1..] == pb + ":00";
    CountInSplit(pb, ":00");
    assert (pb + ":00")[|pb|..] == ":00";
  }

  lemma {:induction false} CountInSplit(x: string, y: string)
    ensures CountIn(x + y, {':'}) == CountIn(x, {':'}) + CountIn(y, {':'})
  {
    if x != [] {
      var xy := x + y;
      assert xy[0] == x[0];
      assert xy[1..] == x[1..] + y;
      CountInSplit(x[1..], y);
      assert CountIn(xy, {':'}) == (if xy[0] in {':'} then 1 else 0) + CountIn(xy[1..], {':'});
    } else {
      assert x + y == y;
    }
  }

  // ------------------------------------------------------------ flip cards

  /** The clock text without its colons: the characters the flip cards show,
      in order. */
  function ClockDigits(t: string): (d: string)
    ensures |d| <= |t| && ':' !in d
  {
    if t == [] then []
    else ClockDigits(t[..|t| - 1]) + (if t[|t| - 1] == ':' then [] else [t[|t| - 1]])
  }

  /** The digits of a prefix are a prefix of the digits. */
  lemma {:induction false} ClockDigitsPrefix(t: string, i: nat)
    requires i <= |t|
    ensures |ClockDigits(t[..i])| <= |ClockDigits(t)|
    ensures ClockDigits(t[..i]) == ClockDigits(t)[..|ClockDigits(t[..i])|]
    decreases |t| - i
  {
    if i < |t| {
      ClockDigitsPrefix(t, i + 1);
      assert t[..i + 1][..i] == t[..i];
    } else {
      assert t[..i] == t;
    }
  }

  /** How many non-colon characters come before position `i` of `t`. */
  ghost function DigitsBefore(t: string, i: nat): nat
    requires i <= |t|
  {
    if i == 0 then 0 else DigitsBefore(t, i - 1) + (if t[i - 1] == ':' then 0 else 1)
  }

  lemma {:induction false} DigitsBeforeCount(t: string, i: nat)
    requires i <= |t|
    ensures DigitsBefore(t, i) == |ClockDigits(t[..i])|
  {
    if i > 0 {
      DigitsBeforeCount(t, i - 1);
      ClockDigitsSnoc(t, i - 1);
    }
  }

  /** Walking one more character of `t` never runs past its digits, and a
      non-colon character is the digit at the count of those before it. */
  lemma DigitStep(t: string, i: nat)
    requires i < |t|
    ensures DigitsBefore(t, i + 1) <= |ClockDigits(t)|
    ensures t[i] != ':' ==> ClockDigits(t)[DigitsBefore(t, i)] == t[i]
  {
    DigitsBeforeCount(t, i);
    DigitsBeforeCount(t, i + 1);
    ClockDigitsPrefix(t, i + 1);
    ClockDigitsSnoc(t, i);
  }

  /** One more character of `t` adds itself to the digits unless it is a
      colon. */
  lemma ClockDigitsSnoc(t: string, i: nat)
    requires i < |t|
    ensures ClockDigits(t[..i + 1]) == ClockDigits(t[..i]) + (if t[i] == ':' then [] else [t[i]])
  {
    assert t[..i + 1][..i] == t[..i];
  }

  /** For `HH:MM:SS` text the cards show the six digits, in order. */
  lemma HmsDigits(t: string)
    requires MatchesHms(t)
    ensures ClockDigits(t) == [t[0], t[1], t[3], t[4], t[6], t[7]]
    ensures AllAsciiDigits(ClockDigits(t))
  {
    HmsMinuteDigits(t);
    ClockDigitsSnoc(t, 6);
    ClockDigitsSnoc(t, 7);
    assert t[..8] == t;
    var d := ClockDigits(t);
    forall k | 0 <= k < |d| ensures IsAsciiDigit(d[k]) {
      assert k == 0 || k == 1 || k == 2 || k == 3 || k == 4 || k == 5;
    }
  }

  lemma HmsHourDigits(t: string)
    requires MatchesHms(t)
    ensures ClockDigits(t[..3]) == [t[0], t[1]]
  {
    assert t[..0] == [];
    ClockDigitsSnoc(t, 0);
    ClockDigitsSnoc(t, 1);
    ClockDigitsSnoc(t, 2);
  }

  lemma HmsMinuteDigits(t: string)
    requires MatchesHms(t)
    ensures ClockDigits(t[..6]) == [t[0], t[1], t[3], t[4]]
  {
    HmsHourDigits(t);
    ClockDigitsSnoc(t, 3);
    ClockDigitsSnoc(t, 4);
    ClockDigitsSnoc(t, 5);
  }

  /** One tick of the live `updateFlipClock`: trim and normalise the clock
      text, then push its digits onto the cards. Returns the indices of the
      flipped cards in increasing order. */
  method UpdateFlipDigits(cards: array<char>, clockText: string) returns (flipped: seq<nat>)
    modifies cards
    ensures var d := ClockDigits(NormalizeTimeFormat(Trim(clockText)));
      forall k :: 0 <= k < cards.Length ==>
        cards[k] == if k < |d| then d[k] else old(cards[k])
    ensures cards.Length == |ClockDigits(NormalizeTimeFormat(Trim(clockText)))| ==>
      cards[..] == ClockDigits(NormalizeTimeFormat(Trim(clockText)))
    ensures forall k :: k in flipped <==> 0 <= k < cards.Length && cards[k] != old(cards[k])
    ensures forall p, q :: 0 <= p < q < |flipped| ==> flipped[p] < flipped[q]
  {
    ghost var shown := cards[..];
    var time := NormalizeTimeFormat(Trim(clockText));
    ghost var d := ClockDigits(time);
    flipped := PushDigits(cards, time);
    ghost var m := if |d| < |shown| then |d| else |shown|;
    FlippedBelowMeaning(shown, d, m);
    PushedOutcome(shown, d, m);
    assert forall k :: 0 <= k < cards.Length ==> old(cards[k]) == shown[k] && cards[k] == cards[..][k];
  }

  /** The cards once the first `m` digits have been pushed onto cards that
      showed `shown`. */
  ghost function Pushed(shown: seq<char>, d: seq<char>, m: nat): (r: seq<char>)
    requires m <= |shown| && m <= |d|
    ensures |r| == |shown|
  {
    if m == 0 then shown else Pushed(shown, d, m - 1)[m - 1 := d[m - 1]]
  }

  /** Card `k` shows its digit once `k`
      digits have gone by, and what it showed before that. */
  lemma {:induction false} PushedCards(shown: seq<char>, d: seq<char>, m: nat)
    requires m <= |shown| && m <= |d|
    ensures forall k :: 0 <= k < |shown| ==> Pushed(shown, d, m)[k] == if k < m then d[k] else shown[k]
  {
    if m > 0 {
      PushedCards(shown, d, m - 1);
    }
  }

  /** The cards that flip while the first `m` digits are pushed, in order. */
  ghost function FlippedBelow(shown: seq<char>, d: seq<char>, m: nat): seq<nat>
    requires m <= |shown| && m <= |d|
  {
    if m == 0 then []
    else FlippedBelow(shown, d, m - 1) + (if shown[m - 1] != d[m - 1] then [m - 1] else [])
  }

  /** A card flips exactly when the digit pushed onto it differs from the
      one it showed; the flips are listed in increasing order. */
  lemma {:induction false} FlippedBelowMeaning(shown: seq<char>, d: seq<char>, m: nat)
    requires m <= |shown| && m <= |d|
    ensures forall k :: k in FlippedBelow(shown, d, m) <==> 0 <= k < m && shown[k] != d[k]
    ensures forall p, q :: 0 <= p < q < |FlippedBelow(shown, d, m)| ==>
      FlippedBelow(shown, d, m)[p] < FlippedBelow(shown, d, m)[q]
  {
    if m > 0 {
      FlippedBelowMeaning(shown, d, m - 1);
      var f := FlippedBelow(shown, d, m - 1);
      assert forall p :: 0 <= p < |f| ==> f[p] in f;
    }
  }

  /** The walk over the normalised text: the k-th non-colon character goes
      to the k-th card when that card exists, and a card whose shown digit
      differs is flipped. */
  method PushDigits(cards: array<char>, time: string) returns (flipped: seq<nat>)
    modifies cards
    ensures var d := ClockDigits(time);
      var m := if |d| < cards.Length then |d| else cards.Length;
      cards[..] == Pushed(old(cards[..]), d, m) && flipped == FlippedBelow(old(cards[..]), d, m)
  {
    ghost var d := ClockDigits(time);
    ghost var shown := cards[..];
    ghost var n := 0;
    var digitIndex := 0;
    flipped := [];
    var i := 0;
    while i < |time|
      invariant 0 <= i <= |time|
      invariant n == DigitsBefore(time, i) <= |d|
      invariant digitIndex == if n < cards.Length then n else cards.Length
      invariant cards[..] == Pushed(shown, d, digitIndex)
      invariant flipped == FlippedBelow(shown, d, digitIndex)
    {
      DigitStep(time, i);
      var c := time[i];
      if c != ':' {
        if digitIndex < cards.Length {
          assert d[digitIndex] == c;
          flipped := ShowDigit(cards, shown, d, digitIndex, c, flipped);
          digitIndex := digitIndex + 1;
        }
        n := n + 1;
      }
      i := i + 1;
    }
    DigitsBeforeCount(time, i);
    assert time[..i] == time;
  }

  /** One card of the walk: card `m` gets digit `d[m]`, and is listed as
      flipped when it showed another one. */
  method ShowDigit(cards: array<char>, ghost shown: seq<char>, ghost d: seq<char>, m: nat, c: char, flipped: seq<nat>)
    returns (flipped': seq<nat>)
    requires m < cards.Length == |shown| && m < |d| && d[m] == c
    requires cards[..] == Pushed(shown, d, m)
    requires flipped == FlippedBelow(shown, d, m)
    modifies cards
    ensures cards[..] == Pushed(shown, d, m + 1)
    ensures flipped' == FlippedBelow(shown, d, m + 1)
  {
    ghost var before := cards[..];
    assert cards[m] == shown[m] by {
      PushedCards(shown, d, m);
      assert cards[m] == before[m];
    }
    flipped' := flipped;
    if cards[m] != c {
      cards[m] := c;
      flipped' := flipped + [m];
    }
    assert cards[..] == before[m := c];
  }

  /** Once every digit that has a card is pushed, the cards show the digits
      and keep what they showed beyond them, and a card changed exactly when
      its digit differed. */
  lemma PushedOutcome(shown: seq<char>, d: seq<char>, m: nat)
    requires m == if |d| < |shown| then |d| else |shown|
    ensures forall k :: 0 <= k < |shown| ==>
      Pushed(shown, d, m)[k] == if k < |d| then d[k] else shown[k]
    ensures |shown| == |d| ==> Pushed(shown, d, m) == d
    ensures forall k :: 0 <= k < |shown| ==>
      (Pushed(shown, d, m)[k] != shown[k] <==> k < m && shown[k] != d[k])
  {
    PushedCards(shown, d, m);
  }

  // ------------------------------------------------------------ clock style

  /** `updateClockStyle`: the stored style, `gradient` when it is missing or
      empty, against the newly chosen one; the cards are rebuilt only when
      one of the two is `default` and the other is not. */
  function RequiresReload(stored: Option<string>, newStyle: string): (reload: bool)
  {
    var oldStyle := if stored.None? || stored.value == "" then "gradient" else stored.value;
    (oldStyle == "default" && newStyle != "default") || (oldStyle != "default" && newStyle == "default")
  }

  /** Reloading happens exactly on a switch into or out of the plain
      (`default`) display; a missing setting counts as a flip-card style, and
      re-selecting the stored style never reloads. */
  lemma RequiresReloadCases(stored: Option<string>, newStyle: string)
    ensures RequiresReload(stored, newStyle) <==>
      ((stored == Some("default")) != (newStyle == "default"))
    ensures stored.Some? && stored.value != "" ==> !RequiresReload(stored, stored.value)
    ensures RequiresReload(None, newStyle) == RequiresReload(Some("gradient"), newStyle)
  {
  }
}
