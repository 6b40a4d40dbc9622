/** The JavaScript string primitives the script relies on, stated on
    `seq<char>`: the white-space class shared by `\s`, `String.prototype.trim`
    and `parseInt`; `trim`; `split` on a character class; `padStart(2, '0')`;
    `Number.prototype.toString()` for integers; `parseInt(s, 10)`; and
    `String.prototype.includes`. */
module JsText {
  import opened Wrappers

  /** ECMAScript WhiteSpace and LineTerminator code points. */
  const JsWhitespace: set<char> := {
    '\t', '\n', '\U{000B}', '\U{000C}', '\r', ' ', '\U{00A0}', '\U{1680}',
    '\U{2000}', '\U{2001}', '\U{2002}', '\U{2003}', '\U{2004}', '\U{2005}',
    '\U{2006}', '\U{2007}', '\U{2008}', '\U{2009}', '\U{200A}',
    '\U{2028}', '\U{2029}', '\U{202F}', '\U{205F}', '\U{3000}', '\U{FEFF}'
  }

  /** Membership in `JsWhitespace`, written as ranges. */
  predicate IsJsSpace(c: char) {
    '\t' <= c <= '\r' || c == ' ' || c == '\U{00A0}' || c == '\U{1680}'
    || '\U{2000}' <= c <= '\U{200A}' || c == '\U{2028}' || c == '\U{2029}'
    || c == '\U{202F}' || c == '\U{205F}' || c == '\U{3000}' || c == '\U{FEFF}'
  }

  lemma JsSpaceIsWhitespace(c: char)
    ensures IsJsSpace(c) <==> c in JsWhitespace
  {
  }

  predicate IsAsciiDigit(c: char) {
    '0' <= c <= '9'
  }

  predicate AllAsciiDigits(s: string) {
    forall i :: 0 <= i < |s| ==> IsAsciiDigit(s[i])
  }

  predicate AllJsSpace(s: string) {
    forall i :: 0 <= i < |s| ==> IsJsSpace(s[i])
  }

  // ---------------------------------------------------------------- trim

  /** Length of the leading run of white space. */
  function LeadingSpaces(s: string): (k: nat)
    ensures k <= |s|
    ensures forall i :: 0 <= i < k ==> IsJsSpace(s[i])
    ensures k < |s| ==> !IsJsSpace(s[k])
  {
    if s == [] || !IsJsSpace(s[0]) then 0 else 1 + LeadingSpaces(s[1..])
  }

  /** Length of the trailing run of white space. */
  function TrailingSpaces(s: string): (k: nat)
    ensures k <= |s|
    ensures forall i :: |s| - k <= i < |s| ==> IsJsSpace(s[i])
    ensures k < |s| ==> !IsJsSpace(s[|s| - k - 1])
  {
    if s == [] || !IsJsSpace(s[|s| - 1]) then 0 else 1 + TrailingSpaces(s[..|s| - 1])
  }

  /** Drops the leading white space. */
  function TrimStart(s: string): (r: string)
    ensures |r| <= |s| && r == s[|s| - |r|..]
    ensures AllJsSpace(s[..|s| - |r|])
    ensures r == [] || !IsJsSpace(r[0])
  {
    s[LeadingSpaces(s)..]
  }

  /** Drops the trailing white space. */
  function TrimEnd(s: string): (r: string)
    ensures |r| <= |s| && r == s[..|r|]
    ensures AllJsSpace(s[|r|..])
    ensures r == [] || !IsJsSpace(r[|r| - 1])
  {
    s[..|s| - TrailingSpaces(s)]
  }

  /** `String.prototype.trim`. */
  function Trim(s: string): (r: string)
  {
    TrimEnd(TrimStart(s))
  }

  /** What `trim` keeps is a contiguous piece of the input with white space
      only around it and no white space at either of its ends; the result is
      empty exactly when the input is all white space. */
  lemma TrimProperties(s: string)
    ensures exists i :: OccursAt(s, Trim(s), i)
    ensures Trim(s) == [] <==> AllJsSpace(s)
    ensures Trim(s) != [] ==> !IsJsSpace(Trim(s)[0]) && !IsJsSpace(Trim(s)[|Trim(s)| - 1])
  {
    TrimOccurs(s);
    TrimBlank(s);
    TrimSolidEnds(s);
  }

  lemma TrimOccurs(s: string)
    ensures OccursAt(s, Trim(s), |s| - |TrimStart(s)|)
  {
    var t := TrimStart(s);
    var i := |s| - |t|;
    assert Trim(s) == t[..|Trim(s)|];
    assert t[..|Trim(s)|] == s[i..i + |Trim(s)|];
  }

  lemma TrimBlank(s: string)
    ensures Trim(s) == [] <==> AllJsSpace(s)
  {
    var t := TrimStart(s);
    var r := TrimEnd(t);
    var i := |s| - |t|;
    assert s == s[..i] + t;
    if r == [] {
      assert t == t[|r|..];
      AllJsSpaceConcat(s[..i], t);
    } else {
      assert r[0] == t[0] == s[i];
    }
  }

  lemma TrimSolidEnds(s: string)
    ensures Trim(s) != [] ==> !IsJsSpace(Trim(s)[0]) && !IsJsSpace(Trim(s)[|Trim(s)| - 1])
  {
    var t := TrimStart(s);
    var r := TrimEnd(t);
    if r != [] {
      assert r[0] == t[0];
    }
  }

  /** The input is the trimmed text with white space around it. */
  lemma TrimAround(s: string) returns (lead: string, trail: string)
    ensures s == lead + (Trim(s) + trail)
    ensures AllJsSpace(lead) && AllJsSpace(trail)
  {
    var t := TrimStart(s);
    var v := TrimEnd(t);
    lead, trail := s[..|s| - |t|], t[|v|..];
    SplitAt(s, |s| - |t|);
    SplitAt(t, |v|);
    assert s == lead + t && t == v + trail;
    assert Trim(s) == v;
  }

  lemma SplitAt(s: string, k: nat)
    requires k <= |s|
    ensures s == s[..k] + s[k..]
  {
  }

  lemma AllJsSpaceConcat(a: string, b: string)
    requires AllJsSpace(a) && AllJsSpace(b)
    ensures AllJsSpace(a + b)
  {
    forall k | 0 <= k < |a + b| ensures IsJsSpace((a + b)[k]) {
      if k >= |a| {
        assert (a + b)[k] == b[k - |a|];
      }
    }
  }

  // ---------------------------------------------------------------- split

  /** Number of characters of `s` that belong to `d`. */
  function CountIn(s: string, d: set<char>): nat
  {
    if s == [] then 0 else (if s[0] in d then 1 else 0) + CountIn(s[1..], d)
  }

  /** `s.split(/[…]/)` for a one-character class `d`: the pieces between the
      delimiters, empty pieces included, and `[""]` for the empty string. */
  function Split(s: string, d: set<char>): (r: seq<string>)
    ensures |r| == 1 + CountIn(s, d)
    ensures forall k, i :: 0 <= k < |r| && 0 <= i < |r[k]| ==> r[k][i] !in d
  {
    if s == [] then [""]
    else
      var rest := Split(s[1..], d);
      if s[0] in d then [""] + rest
      else [[s[0]] + rest[0]] + rest[1..]
  }

  /** The characters of `s` that belong to `d`, in order: the delimiters the
      split consumes. */
  function DelimsOf(s: string, d: set<char>): (r: string)
    ensures |r| == CountIn(s, d)
    ensures forall i :: 0 <= i < |r| ==> r[i] in d
  {
    if s == [] then ""
    else (if s[0] in d then [s[0]] else "") + DelimsOf(s[1..], d)
  }

  /** Glues pieces back together, putting the `k`-th delimiter between piece
      `k` and piece `k + 1`. */
  function Interleave(pieces: seq<string>, delims: string): string
    requires |pieces| == |delims| + 1
  {
    if delims == [] then pieces[0]
    else pieces[0] + [delims[0]] + Interleave(pieces[1..], delims[1..])
  }

  /** Splitting loses nothing: putting each consumed delimiter back between
      the pieces gives the original string. */
  lemma {:induction false} SplitInterleave(s: string, d: set<char>)
    ensures |Split(s, d)| == |DelimsOf(s, d)| + 1
    ensures Interleave(Split(s, d), DelimsOf(s, d)) == s
  {
    if s != [] {
      var rest := Split(s[1..], d);
      var ds := DelimsOf(s[1..], d);
      SplitInterleave(s[1..], d);
      if s[0] in d {
        assert Split(s, d) == [""] + rest;
        assert DelimsOf(s, d) == [s[0]] + ds;
        assert ([""] + rest)[1..] == rest;
        assert ([s[0]] + ds)[1..] == ds;
        assert [s[0]] + s[1..] == s;
      } else {
        assert Split(s, d) == [[s[0]] + rest[0]] + rest[1..];
        assert DelimsOf(s, d) == ds;
        InterleaveFirst(s[0], rest, ds);
        assert [s[0]] + s[1..] == s;
      }
    }
  }

  /** A character put in front of the first piece comes out in front. */
  lemma InterleaveFirst(c: char, pieces: seq<string>, delims: string)
    requires |pieces| == |delims| + 1
    ensures Interleave([[c] + pieces[0]] + pieces[1..], delims) == [c] + Interleave(pieces, delims)
  {
    var p := [[c] + pieces[0]] + pieces[1..];
    assert p[1..] == pieces[1..];
  }

  /** Glues pieces back together with one separator between neighbours. */
  function Join(pieces: seq<string>, sep: char): string
  {
    if pieces == [] then ""
    else if |pieces| == 1 then pieces[0]
    else pieces[0] + [sep] + Join(pieces[1..], sep)
  }

  /** Splitting on a single character is undone by joining with it. */
  lemma {:induction false} JoinSplit(s: string, c: char)
    ensures Join(Split(s, {c}), c) == s
  {
    if s != [] {
      var rest := Split(s[1..], {c});
      JoinSplit(s[1..], c);
      if s[0] == c {
        assert Split(s, {c}) == [""] + rest;
        assert ([""] + rest)[1..] == rest;
      } else {
        var r := Split(s, {c});
        assert r[0] == [s[0]] + rest[0] && r[1..] == rest[1..];
        if |rest| == 1 {
          assert Join(r, c) == [s[0]] + rest[0];
        } else {
          assert Join(rest, c) == rest[0] + [c] + Join(rest[1..], c);
        }
      }
    }
  }

  /** Splitting `a` + `c` + `b` on `c`, where neither part holds `c`, gives
      back the two parts. */
  lemma {:induction false} SplitPair(a: string, b: string, c: char)
    requires c !in a && c !in b
    ensures Split(a + [c] + b, {c}) == [a, b]
  {
    if a == [] {
      assert a + [c] + b == [c] + b;
      SplitNone(b, c);
      assert ([c] + b)[1..] == b;
    } else {
      SplitPair(a[1..], b, c);
      assert (a + [c] + b)[1..] == a[1..] + [c] + b;
      assert [a[0]] + a[1..] == a;
    }
  }

  /** A string without the delimiter is a single piece. */
  lemma {:induction false} SplitNone(s: string, c: char)
    requires c !in s
    ensures Split(s, {c}) == [s]
  {
    if s != [] {
      SplitNone(s[1..], c);
      assert [s[0]] + s[1..] == s;
    }
  }

  // ---------------------------------------------------------------- padStart

  /** `s.padStart(2, '0')`: at least two characters, padded on the left with
      zeros and never truncated. */
  function PadStart2(s: string): (r: string)
    ensures |r| == if |s| >= 2 then |s| else 2
    ensures r[|r| - |s|..] == s
    ensures forall i :: 0 <= i < |r| - |s| ==> r[i] == '0'
  {
    if |s| >= 2 then s else seq(2 - |s|, _ => '0') + s
  }

  // ---------------------------------------------------------------- numbers

  function DigitChar(d: nat): (c: char)
    requires d < 10
    ensures IsAsciiDigit(c)
  {
    ('0' as int + d) as char
  }

  /** Value of a string of decimal digits. */
  function DigitsValue(s: string): nat
    requires AllAsciiDigits(s)
  {
    if s == [] then 0
    else DigitsValue(s[..|s| - 1]) * 10 + (s[|s| - 1] as int - '0' as int)
  }

  /** `String(n)` for a non-negative integer: its decimal digits, without
      leading zeros. */
  function DecimalString(n: nat): (r: string)
    ensures |r| >= 1 && AllAsciiDigits(r)
    ensures r[0] == '0' ==> n == 0
  {
    if n < 10 then [DigitChar(n)] else DecimalString(n / 10) + [DigitChar(n % 10)]
  }

  /** `String(i)` for any integer. */
  function IntToString(i: int): string
  {
    if i < 0 then ['-'] + DecimalString(-i) else DecimalString(i)
  }

  /** Reading back the digits `String(n)` writes gives `n`. */
  lemma {:induction false} DecimalRoundTrip(n: nat)
    ensures DigitsValue(DecimalString(n)) == n
  {
    if n >= 10 {
      var s := DecimalString(n);
      assert s[..|s| - 1] == DecimalString(n / 10);
      DecimalRoundTrip(n / 10);
    }
  }

  /** Length of the leading run of decimal digits. */
  function DigitRun(s: string): (k: nat)
    ensures k <= |s| && AllAsciiDigits(s[..k])
    ensures k < |s| ==> !IsAsciiDigit(s[k])
  {
    if s == [] || !IsAsciiDigit(s[0]) then 0 else 1 + DigitRun(s[1..])
  }

  /** `parseInt(s, 10)`: skip leading white space, read an optional sign and
      the longest run of decimal digits after it; `None` (NaN) when that run
      is empty. */
  function ParseInt(s: string): Option<int>
  {
    var t := TrimStart(s);
    if |t| > 0 && t[0] == '-' then
      match ReadDigits(t[1..])
      case None => None
      case Some(n) => Some(-(n as int))
    else if |t| > 0 && t[0] == '+' then ReadDigits(t[1..])
    else ReadDigits(t)
  }

  /** The value of the leading run of digits, `None` when there is none. */
  function ReadDigits(u: string): Option<nat>
  {
    var k := DigitRun(u);
    if k == 0 then None else Some(DigitsValue(u[..k]))
  }

  lemma {:induction false} DigitRunOf(d: string, rest: string)
    requires AllAsciiDigits(d)
    requires rest == [] || !IsAsciiDigit(rest[0])
    ensures DigitRun(d + rest) == |d|
  {
    if d != [] {
      assert (d + rest)[1..] == d[1..] + rest;
      DigitRunOf(d[1..], rest);
    }
  }

  /** `parseInt` of a digit string followed by a non-digit reads the digits. */
  lemma ParseIntDigits(d: string, suffix: string)
    requires |d| >= 1 && AllAsciiDigits(d)
    requires suffix == [] || !IsAsciiDigit(suffix[0])
    ensures ParseInt(d + suffix) == Some(DigitsValue(d))
  {
    assert (d + suffix)[0] == d[0];
    ParseIntUnsigned(d + suffix);
    ReadDigitsOf(d, suffix);
  }

  /** Nothing is skipped before a leading digit. */
  lemma ParseIntUnsigned(s: string)
    requires |s| > 0 && IsAsciiDigit(s[0])
    ensures ParseInt(s) == ReadDigits(s)
  {
    assert !IsJsSpace(s[0]);
    assert TrimStart(s) == s;
  }

  /** A leading minus sign negates the digits after it. */
  lemma ParseIntSigned(s: string, v: nat)
    requires |s| > 0 && s[0] == '-' && ReadDigits(s[1..]) == Some(v)
    ensures ParseInt(s) == Some(-(v as int))
  {
    assert !IsJsSpace(s[0]);
    assert TrimStart(s) == s;
  }

  lemma ReadDigitsOf(d: string, suffix: string)
    requires |d| >= 1 && AllAsciiDigits(d)
    requires suffix == [] || !IsAsciiDigit(suffix[0])
    ensures ReadDigits(d + suffix) == Some(DigitsValue(d))
  {
    DigitRunOf(d, suffix);
    assert (d + suffix)[..|d|] == d;
  }

  /** `parseInt(String(i) + suffix, 10)` is `i` whenever the suffix does not
      start with a digit, as with the `"px"` of a CSS length. */
  lemma ParseIntRoundTrip(i: int, suffix: string)
    requires suffix == [] || !IsAsciiDigit(suffix[0])
    ensures ParseInt(IntToString(i) + suffix) == Some(i)
  {
    if i < 0 {
      NegativeRoundTrip(i, suffix);
    } else {
      DecimalRoundTrip(i);
      ParseIntDigits(DecimalString(i), suffix);
    }
  }

  lemma NegativeRoundTrip(i: int, suffix: string)
    requires i < 0
    requires suffix == [] || !IsAsciiDigit(suffix[0])
    ensures ParseInt(IntToString(i) + suffix) == Some(i)
  {
    assert IntToString(i) == ['-'] + DecimalString(-i);
    DecimalReadBack(-i, suffix);
    ParseIntNegative(DecimalString(-i), suffix, -i);
  }

  /** A minus sign in front of digits that read as `v` reads as `-v`. */
  lemma ParseIntNegative(d: string, suffix: string, v: nat)
    requires ReadDigits(d + suffix) == Some(v)
    ensures ParseInt(['-'] + d + suffix) == Some(-(v as int))
  {
    var s := ['-'] + d + suffix;
    assert s[1..] == d + suffix;
    ParseIntSigned(s, v);
  }

  /** The digits `String(n)` writes are read back whole. */
  lemma DecimalReadBack(n: nat, suffix: string)
    requires suffix == [] || !IsAsciiDigit(suffix[0])
    ensures ReadDigits(DecimalString(n) + suffix) == Some(n)
  {
    DecimalRoundTrip(n);
    ReadDigitsOf(DecimalString(n), suffix);
  }

  // ---------------------------------------------------------------- includes

  predicate OccursAt(t: string, w: string, i: int) {
    0 <= i && i + |w| <= |t| && t[i..i + |w|] == w
  }

  /** `t.includes(w)`, scanning from the left. */
  function Includes(t: string, w: string): (r: bool)
    ensures r <==> exists i :: OccursAt(t, w, i)
    decreases |t|
  {
    if |w| <= |t| && t[..|w|] == w then
      assert OccursAt(t, w, 0);
      true
    else if t == [] then
      false
    else
      var r' := Includes(t[1..], w);
      if r' then
        var i :| OccursAt(t[1..], w, i);
        assert OccursAt(t, w, i + 1) by {
          assert t[1..][i..i + |w|] == t[i + 1..i + 1 + |w|];
        }
        true
      else
        assert forall i | OccursAt(t, w, i) :: i > 0 && OccursAt(t[1..], w, i - 1) by {
          forall i | OccursAt(t, w, i) ensures i > 0 && OccursAt(t[1..], w, i - 1) {
            assert i != 0;
            assert t[1..][i - 1..i - 1 + |w|] == t[i..i + |w|];
          }
        }
        false
  }
}
