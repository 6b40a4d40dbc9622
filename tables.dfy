/** Three small table rules: the zero-value row test of
    `enhanceCollapseInfo` (content.js:2058-2072), the column-span decrement
    after the action column is removed (content.js:3168-3174), and the
    header rename of `simplifyTableHeaders` (content.js:2016-2043). */
module Tables {
  import opened Wrappers
  import opened JsText

  // ------------------------------------------------------------ zero rows

  /** `value.replace(/[^0-9]/g, '')`: the ASCII digits of `s`, in order. */
  function DigitsOf(s: string): (d: string)
    ensures AllAsciiDigits(d) && |d| <= |s|
  {
    if s == [] then []
    else DigitsOf(s[..|s| - 1]) + (if IsAsciiDigit(s[|s| - 1]) then [s[|s| - 1]] else [])
  }

  /** The filter keeps every digit of `s` and nothing else. */
  lemma {:induction false} DigitsOfMembers(s: string)
    ensures forall c :: c in DigitsOf(s) <==> c in s && IsAsciiDigit(c)
  {
    if s != [] {
      var init := s[..|s| - 1];
      DigitsOfMembers(init);
      assert s == init + [s[|s| - 1]];
    }
  }

  /** `/^0+$/`. */
  predicate AllZeros(d: string) {
    |d| >= 1 && forall i :: 0 <= i < |d| ==> d[i] == '0'
  }

  /** The literal zero spellings the test lists: 0, 0.0, 0 日, 0 回, 0時間
      and 0分. */
  const ZeroLiterals: set<string> := {
    "0", "0.0", "0 \U{65E5}", "0 \U{56DE}", "0\U{6642}\U{9593}", "0\U{5206}"
  }

  /** Whether a row whose first cell has text `cellText` is hidden as a zero
      row. */
  predicate IsZeroValue(cellText: string) {
    var value := Trim(cellText);
    value in ZeroLiterals || AllZeros(DigitsOf(value))
  }

  /** The digit test hides a value exactly when it holds a digit and every
      digit it holds is `0`. */
  lemma AllZerosDigitsOf(s: string)
    ensures AllZeros(DigitsOf(s)) <==>
      (exists i :: 0 <= i < |s| && IsAsciiDigit(s[i])) &&
      forall i :: 0 <= i < |s| && IsAsciiDigit(s[i]) ==> s[i] == '0'
  {
    var d := DigitsOf(s);
    DigitsOfMembers(s);
    if AllZeros(d) {
      assert d[0] in d;
      forall i | 0 <= i < |s| && IsAsciiDigit(s[i])
        ensures s[i] == '0'
      {
        assert s[i] in d;
      }
    }
    if (exists i :: 0 <= i < |s| && IsAsciiDigit(s[i])) &&
       forall i :: 0 <= i < |s| && IsAsciiDigit(s[i]) ==> s[i] == '0' {
      var i :| 0 <= i < |s| && IsAsciiDigit(s[i]);
      assert s[i] in d;
      forall k | 0 <= k < |d|
        ensures d[k] == '0'
      {
        assert d[k] in d;
      }
    }
  }

  lemma {:induction false} DigitsOfConcat(a: string, b: string)
    ensures DigitsOf(a + b) == DigitsOf(a) + DigitsOf(b)
    decreases |b|
  {
    if b == [] {
      assert a + b == a;
    } else {
      var b' := b[..|b| - 1];
      assert (a + b)[..|a + b| - 1] == a + b';
      DigitsOfConcat(a, b');
    }
  }

  lemma {:induction false} DigitsOfSpace(s: string)
    requires AllJsSpace(s)
    ensures DigitsOf(s) == []
  {
    if s != [] {
      assert !IsAsciiDigit(s[|s| - 1]);
      DigitsOfSpace(s[..|s| - 1]);
    }
  }

  /** Trimming never removes a digit. */
  lemma DigitsOfTrim(cellText: string)
    ensures DigitsOf(Trim(cellText)) == DigitsOf(cellText)
  {
    var lead, trail := TrimAround(cellText);
    DigitsOfAround(lead, Trim(cellText), trail);
  }

  lemma DigitsOfAround(lead: string, v: string, trail: string)
    requires AllJsSpace(lead) && AllJsSpace(trail)
    ensures DigitsOf(lead + (v + trail)) == DigitsOf(v)
  {
    DigitsOfSpace(lead);
    DigitsOfSpace(trail);
    DigitsOfConcat(lead, v + trail);
    DigitsOfConcat(v, trail);
    assert DigitsOf(v) + DigitsOf(trail) == DigitsOf(v);
  }

  /** The spelled-out literals are all caught by the digit test anyway, and
      trimming never removes a digit: a row is hidden exactly when its cell
      holds at least one digit and every digit in it is 0. */
  lemma ZeroValueIsDigitTest(cellText: string)
    ensures IsZeroValue(cellText) <==> AllZeros(DigitsOf(cellText))
    ensures IsZeroValue(cellText) <==>
      (exists i :: 0 <= i < |cellText| && IsAsciiDigit(cellText[i])) &&
      forall i :: 0 <= i < |cellText| && IsAsciiDigit(cellText[i]) ==> cellText[i] == '0'
  {
    DigitsOfTrim(cellText);
    LiteralsAreZeros();
    AllZerosDigitsOf(cellText);
  }

  lemma LiteralsAreZeros()
    ensures forall value :: value in ZeroLiterals ==> AllZeros(DigitsOf(value))
  {
    LiteralDigits();
  }

  /** The digits of each literal: a single 0, or two for 0.0. */
  lemma LiteralDigits()
    ensures DigitsOf("0") == "0" && DigitsOf("0.0") == "00"
    ensures DigitsOf("0 \U{65E5}") == "0" && DigitsOf("0 \U{56DE}") == "0"
    ensures DigitsOf("0\U{6642}\U{9593}") == "0" && DigitsOf("0\U{5206}") == "0"
  {
  }

  /** A row is hidden when it has a data cell whose text passes the test;
      a row without one is `None`. */
  predicate HiddenRow(firstCell: Option<string>) {
    firstCell.Some? && IsZeroValue(firstCell.value)
  }

  /** Which rows of a table are hidden, row by row. */
  function HiddenRows(firstCells: seq<Option<string>>): seq<bool>
  {
    if firstCells == [] then []
    else HiddenRows(firstCells[..|firstCells| - 1]) + [HiddenRow(firstCells[|firstCells| - 1])]
  }

  /** A row is marked exactly when it passes the test. */
  lemma {:induction false} HiddenRowsMeaning(firstCells: seq<Option<string>>)
    ensures |HiddenRows(firstCells)| == |firstCells|
    ensures forall k :: 0 <= k < |firstCells| ==> HiddenRows(firstCells)[k] == HiddenRow(firstCells[k])
  {
    if firstCells != [] {
      var front := firstCells[..|firstCells| - 1];
      HiddenRowsMeaning(front);
      forall k | 0 <= k < |firstCells| ensures HiddenRows(firstCells)[k] == HiddenRow(firstCells[k]) {
        if k < |front| {
          assert firstCells[k] == front[k];
        }
      }
    }
  }

  /** The row loop: each row whose first cell passes the test is marked, and
      the table gets its "show all" control exactly when a row was marked. */
  method MarkZeroRows(firstCells: seq<Option<string>>) returns (hidden: seq<bool>, hasHiddenRows: bool)
    ensures hidden == HiddenRows(firstCells)
    ensures hasHiddenRows <==> true in hidden
  {
    hidden := [];
    hasHiddenRows := false;
    for k := 0 to |firstCells|
      invariant hidden == HiddenRows(firstCells[..k])
      invariant hasHiddenRows <==> true in hidden
    {
      assert firstCells[..k + 1][..k] == firstCells[..k];
      var mark := HiddenRow(firstCells[k]);
      if mark {
        hasHiddenRows := true;
      }
      hidden := hidden + [mark];
    }
    assert firstCells[..|firstCells|] == firstCells;
  }

  /** The "show all" control appears exactly when some row is hidden. */
  lemma ShowAllWhenHidden(firstCells: seq<Option<string>>)
    ensures true in HiddenRows(firstCells) <==> exists k :: 0 <= k < |firstCells| && HiddenRow(firstCells[k])
  {
    HiddenRowsMeaning(firstCells);
    var h := HiddenRows(firstCells);
    if true in h {
      var k :| 0 <= k < |h| && h[k];
      assert HiddenRow(firstCells[k]);
    }
    if exists k :: 0 <= k < |firstCells| && HiddenRow(firstCells[k]) {
      var k :| 0 <= k < |firstCells| && HiddenRow(firstCells[k]);
      assert h[k];
    }
  }

  // ------------------------------------------------------------ colspan

  /** The new `colspan` attribute once one column is gone: a span of more
      than one column loses one, anything else (including an attribute that
      does not parse) is left as it is. */
  function AdjustedColspan(attr: string): string
  {
    match ParseInt(attr)
    case Some(n) => if n > 1 then IntToString(n - 1) else attr
    case None => attr
  }

  /** Read back, the new attribute is one less exactly when the old one was
      more than one. */
  lemma AdjustedColspanValue(attr: string)
    ensures ParseInt(AdjustedColspan(attr)) ==
      match ParseInt(attr)
      case Some(n) => Some(if n > 1 then n - 1 else n)
      case None => None
  {
    match ParseInt(attr)
    case Some(n) =>
      if n > 1 {
        ParseIntRoundTrip(n - 1, "");
        assert IntToString(n - 1) + "" == IntToString(n - 1);
      }
    case None =>
  }

  /** A span written by `toString` loses exactly one column when it spans
      more than one, and is otherwise left as it is. */
  lemma AdjustedColspanOfNumber(n: int)
    ensures AdjustedColspan(IntToString(n)) == if n > 1 then IntToString(n - 1) else IntToString(n)
  {
    var s := IntToString(n);
    ParseIntRoundTrip(n, "");
    assert s + "" == s;
    assert ParseInt(s) == Some(n);
  }

  /** A span of at least one column never drops below one. */
  lemma AdjustedColspanAtLeastOne(attr: string)
    requires ParseInt(attr).Some? && ParseInt(attr).value >= 1
    ensures ParseInt(AdjustedColspan(attr)).Some?
    ensures ParseInt(AdjustedColspan(attr)).value >= 1
  {
    AdjustedColspanValue(attr);
  }

  // ------------------------------------------------------------ headers

  /** A `<th>`: its text and its `data-simplified` attribute (`None` when
      absent). */
  datatype Header = Header(text: string, simplified: Option<string>)

  /** 工数(時間) and 工数. */
  const LongManHourTitle: string := "\U{5DE5}\U{6570}(\U{6642}\U{9593})"
  const ShortManHourTitle: string := "\U{5DE5}\U{6570}"

  /** `!header.dataset.simplified`: absent or empty. */
  predicate Unmarked(h: Header) {
    h.simplified == None || h.simplified == Some("")
  }

  /** The rename of one header. */
  function Simplify(h: Header): Header
  {
    if h.text == LongManHourTitle && Unmarked(h) then Header(ShortManHourTitle, Some("true")) else h
  }

  /** Only an unmarked 工数(時間) header changes; it becomes a marked 工数. */
  lemma SimplifyCases(h: Header)
    ensures Simplify(h) != h <==> h.text == LongManHourTitle && Unmarked(h)
    ensures Simplify(h) != h ==> Simplify(h).text == ShortManHourTitle && !Unmarked(Simplify(h))
  {
  }

  /** Renaming is idempotent, so the observer may run it any number of
      times. */
  lemma SimplifyIdempotent(h: Header)
    ensures Simplify(Simplify(h)) == Simplify(h)
  {
    assert ShortManHourTitle != LongManHourTitle by {
      assert |ShortManHourTitle| == 2 && |LongManHourTitle| == 6;
    }
  }

  /** The header loop, applied in place to every `<th>`. */
  method SimplifyTableHeaders(headers: array<Header>)
    modifies headers
    ensures forall k :: 0 <= k < headers.Length ==> headers[k] == Simplify(old(headers[k]))
  {
    for k := 0 to headers.Length
      invariant forall j :: 0 <= j < k ==> headers[j] == Simplify(old(headers[j]))
      invariant forall j :: k <= j < headers.Length ==> headers[j] == old(headers[j])
    {
      var header := headers[k];
      if header.text == LongManHourTitle && (header.simplified == None || header.simplified == Some("")) {
        headers[k] := Header(ShortManHourTitle, Some("true"));
      }
    }
  }
}
