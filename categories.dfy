/** Category generation for the enhanced option lists
    (`generateCategories`, content.js:1962-2000) and the tagging of an option
    with the categories it belongs to (`assignOptionToCategories`,
    content.js:2003-2013). */
module Categories {
  import opened JsText

  /** An `<option>`: its `value` property (the attribute, or the option's
      text when the attribute is absent) and its visible text. */
  datatype SelectOption = SelectOption(value: string, text: string)

  datatype Category = Category(id: string, name: string, word: string)

  /** The split class `[\/\s,、・【】]`. */
  const Delimiters: set<char> :=
    {'/', ',', '\U{3001}', '\U{30FB}', '\U{3010}', '\U{3011}'} + JsWhitespace

  const MaxCategories: nat := 10
  const MinOccurrences: nat := 2

  /** 選択 and 未分類, the placeholder words that never name a category. */
  const Placeholders: set<string> := {"\U{9078}\U{629E}", "\U{672A}\U{5206}\U{985E}"}

  /** Words of at least two characters that are not a plain number and not a
      placeholder. */
  predicate IsSignificantWord(w: string) {
    |w| >= 2 && !AllAsciiDigits(w) && w !in Placeholders
  }

  predicate Distinct(s: seq<string>) {
    forall p, q :: 0 <= p < q < |s| ==> s[p] != s[q]
  }

  // ------------------------------------------------------------ words

  /** The significant pieces, in their order. */
  function SignificantWords(pieces: seq<string>): (r: seq<string>)
    ensures forall w :: w in r <==> w in pieces && IsSignificantWord(w)
    ensures forall w :: multiset(r)[w] == if IsSignificantWord(w) then multiset(pieces)[w] else 0
  {
    if pieces == [] then []
    else
      var last := pieces[|pieces| - 1];
      assert pieces == pieces[..|pieces| - 1] + [last];
      assert forall w :: w in pieces <==> w in pieces[..|pieces| - 1] || w == last;
      SignificantWords(pieces[..|pieces| - 1]) + (if IsSignificantWord(last) then [last] else [])
  }

  /** Options other than the first whose value is empty (the "please select"
      entries) contribute no words. */
  predicate Skipped(options: seq<SelectOption>, i: nat)
    requires i < |options|
  {
    options[i].value == "" && i > 0
  }

  function OptionWords(options: seq<SelectOption>, i: nat): seq<string>
    requires i < |options|
  {
    if Skipped(options, i) then [] else SignificantWords(Split(options[i].text, Delimiters))
  }

  /** The words of each option, option by option. */
  function WordLists(options: seq<SelectOption>): (r: seq<seq<string>>)
    ensures |r| == |options|
    ensures forall i :: 0 <= i < |options| ==> r[i] == OptionWords(options, i)
  {
    seq(|options|, i requires 0 <= i < |options| => OptionWords(options, i))
  }

  /** The first `n` lists, one after the other. */
  function Flatten(parts: seq<seq<string>>, n: nat): seq<string>
    requires n <= |parts|
  {
    if n == 0 then [] else Flatten(parts, n - 1) + parts[n - 1]
  }

  /** Every word occurrence of the first `n` options, in document order. */
  function Tokens(options: seq<SelectOption>, n: nat): seq<string>
    requires n <= |options|
  {
    Flatten(WordLists(options), n)
  }

  /** A word of an option that is not skipped is a significant piece of its
      text, and every such piece is one. */
  lemma OptionWordsMeaning(options: seq<SelectOption>, i: nat, w: string)
    requires i < |options|
    ensures w in OptionWords(options, i) <==>
      !Skipped(options, i) && w in Split(options[i].text, Delimiters) && IsSignificantWord(w)
  {
  }

  /** Every word of one of the first `n` lists is in their concatenation, ... */
  lemma {:induction false} FlattenIncludes(parts: seq<seq<string>>, n: nat, i: nat, w: string)
    requires i < n <= |parts| && w in parts[i]
    ensures w in Flatten(parts, n)
  {
    var p, q := Flatten(parts, n - 1), parts[n - 1];
    if i < n - 1 {
      FlattenIncludes(parts, n - 1, i, w);
      assert w in p;
    } else {
      assert w in q;
    }
    InSnoc(p, q, w);
  }

  /** ... and every word of the concatenation comes from one of them. */
  lemma {:induction false} FlattenComesFrom(parts: seq<seq<string>>, n: nat, w: string) returns (i: nat)
    requires n <= |parts| && w in Flatten(parts, n)
    ensures i < n && w in parts[i]
  {
    var p, q := Flatten(parts, n - 1), parts[n - 1];
    InSnoc(p, q, w);
    if w in q {
      i := n - 1;
    } else {
      i := FlattenComesFrom(parts, n - 1, w);
    }
  }

  /** Every word of one of the first `n` options is counted, ... */
  lemma TokensIncludeOptionWords(options: seq<SelectOption>, n: nat, i: nat, w: string)
    requires i < n <= |options| && w in OptionWords(options, i)
    ensures w in Tokens(options, n)
  {
    FlattenIncludes(WordLists(options), n, i, w);
  }

  /** ... and every counted word comes from one of them. */
  lemma TokensComeFromOptions(options: seq<SelectOption>, n: nat, w: string) returns (i: nat)
    requires n <= |options| && w in Tokens(options, n)
    ensures i < n && w in OptionWords(options, i)
  {
    i := FlattenComesFrom(WordLists(options), n, w);
  }

  lemma InSnoc(p: seq<string>, q: seq<string>, w: string)
    ensures w in p + q <==> w in p || w in q
  {
  }

  /** The distinct elements of `t` in order of first appearance. */
  function Dedup(t: seq<string>): seq<string>
  {
    if t == [] then []
    else
      var d := Dedup(t[..|t| - 1]);
      if t[|t| - 1] in d then d else d + [t[|t| - 1]]
  }

  lemma {:induction false} DedupProperties(t: seq<string>)
    ensures forall w :: w in Dedup(t) <==> w in t
    ensures Distinct(Dedup(t))
  {
    if t != [] {
      DedupProperties(t[..|t| - 1]);
      assert forall w :: w in t <==> w in t[..|t| - 1] || w == t[|t| - 1];
    }
  }

  /** The `wordCounts` dictionary: how often each word occurs. */
  function CountMap(t: seq<string>): map<string, nat>
  {
    map w | w in t :: multiset(t)[w]
  }

  /** The count of a word, zero when it is absent. */
  function Freq(counts: map<string, nat>, w: string): nat {
    if w in counts then counts[w] else 0
  }

  lemma FreqCountMap(t: seq<string>, w: string)
    ensures Freq(CountMap(t), w) == multiset(t)[w]
  {
  }

  lemma CountMapSnoc(t: seq<string>, w: string)
    ensures CountMap(t + [w]) == CountMap(t)[w := Freq(CountMap(t), w) + 1]
  {
    assert multiset(t + [w]) == multiset(t) + multiset{w};
    var l, r := CountMap(t + [w]), CountMap(t)[w := Freq(CountMap(t), w) + 1];
    forall u | u in l ensures u in r && l[u] == r[u] {
      assert u in t + [w];
    }
    assert l.Keys == r.Keys;
  }

  lemma DedupSnoc(t: seq<string>, w: string)
    ensures Dedup(t + [w]) == if w in Dedup(t) then Dedup(t) else Dedup(t) + [w]
  {
    assert (t + [w])[..|t|] == t;
  }

  /** The counting pass of `generateCategories`: `allWords` lists each word
      once, in order of first appearance, and `counts` maps it to its number
      of occurrences. */
  method CountWords(options: seq<SelectOption>) returns (allWords: seq<string>, counts: map<string, nat>)
    ensures allWords == Dedup(Tokens(options, |options|))
    ensures counts == CountMap(Tokens(options, |options|))
  {
    allWords := [];
    counts := map[];
    for i := 0 to |options|
      invariant allWords == Dedup(Tokens(options, i))
      invariant counts == CountMap(Tokens(options, i))
    {
      if options[i].value == "" && i > 0 {
        SkipStep(options, i);
        continue;
      }
      var words := SignificantWords(Split(options[i].text, Delimiters));
      allWords, counts := CountEach(Tokens(options, i), words, allWords, counts);
      TokensStep(options, i, words);
    }
  }

  /** The inner loop over the words of one option. */
  method CountEach(ghost before: seq<string>, words: seq<string>, allWords: seq<string>, counts: map<string, nat>)
    returns (allWords': seq<string>, counts': map<string, nat>)
    requires allWords == Dedup(before) && counts == CountMap(before)
    ensures allWords' == Dedup(before + words) && counts' == CountMap(before + words)
  {
    allWords', counts' := allWords, counts;
    ghost var done := before;
    for j := 0 to |words|
      invariant done == before + words[..j]
      invariant allWords' == Dedup(done)
      invariant counts' == CountMap(done)
    {
      var word := words[j];
      CountStep(done, word);
      SnocSlice(before, words, j);
      if word !in counts' {
        counts' := counts'[word := 0];
        allWords' := allWords' + [word];
      }
      counts' := counts'[word := counts'[word] + 1];
      done := done + [word];
    }
    assert words[..|words|] == words;
  }

  lemma SkipStep(options: seq<SelectOption>, i: nat)
    requires i < |options| && Skipped(options, i)
    ensures Tokens(options, i + 1) == Tokens(options, i)
  {
    assert Tokens(options, i) + [] == Tokens(options, i);
  }

  lemma TokensStep(options: seq<SelectOption>, i: nat, words: seq<string>)
    requires i < |options| && !Skipped(options, i)
    requires words == SignificantWords(Split(options[i].text, Delimiters))
    ensures Tokens(options, i) + words == Tokens(options, i + 1)
  {
  }

  /** One word of the counting pass: a new word is appended and counted once,
      a known word gets one more. */
  lemma CountStep(done: seq<string>, word: string)
    ensures word in CountMap(done) <==> word in Dedup(done)
    ensures Dedup(done + [word]) == if word in Dedup(done) then Dedup(done) else Dedup(done) + [word]
    ensures word in CountMap(done) ==> CountMap(done + [word]) == CountMap(done)[word := CountMap(done)[word] + 1]
    ensures word !in CountMap(done) ==> CountMap(done + [word]) == CountMap(done)[word := 0][word := 1]
  {
    assert word in CountMap(done) <==> word in Dedup(done) by {
      DedupProperties(done);
    }
    DedupSnoc(done, word);
    CountMapStep(done, word);
  }

  lemma CountMapStep(done: seq<string>, word: string)
    ensures word in CountMap(done) ==> CountMap(done + [word]) == CountMap(done)[word := CountMap(done)[word] + 1]
    ensures word !in CountMap(done) ==> CountMap(done + [word]) == CountMap(done)[word := 0][word := 1]
  {
    CountMapSnoc(done, word);
    var m := CountMap(done);
    if word !in m {
      assert m[word := 0][word := 1] == m[word := 1];
    }
  }

  lemma SnocSlice(p: seq<string>, words: seq<string>, j: nat)
    requires j < |words|
    ensures p + words[..j] + [words[j]] == p + words[..j + 1]
  {
    assert words[..j + 1] == words[..j] + [words[j]];
  }

  // ------------------------------------------------------------ sorting

  /** Places `x` behind every element counted at least as often. */
  function InsertByCount(t: seq<string>, x: string, counts: map<string, nat>): seq<string>
  {
    if t == [] || Freq(counts, t[|t| - 1]) >= Freq(counts, x) then t + [x]
    else InsertByCount(t[..|t| - 1], x, counts) + [t[|t| - 1]]
  }

  /** `allWords.sort((a, b) => wordCounts[b] - wordCounts[a])`: a stable sort
      by decreasing count. */
  function SortByCount(s: seq<string>, counts: map<string, nat>): seq<string>
  {
    if s == [] then []
    else InsertByCount(SortByCount(s[..|s| - 1], counts), s[|s| - 1], counts)
  }

  lemma InsertStep(p: seq<string>, y: string, x: string, counts: map<string, nat>)
    requires Freq(counts, y) < Freq(counts, x)
    ensures InsertByCount(p + [y], x, counts) == InsertByCount(p, x, counts) + [y]
  {
    assert (p + [y])[..|p|] == p;
  }

  /** Sorts the words in place, by insertion with adjacent swaps. */
  method SortByFrequency(a: array<string>, counts: map<string, nat>)
    modifies a
    ensures a[..] == SortByCount(old(a[..]), counts)
  {
    ghost var s := a[..];
    for i := 0 to a.Length
      invariant a[..i] == SortByCount(s[..i], counts)
      invariant a[i..] == s[i..]
    {
      assert s[..i + 1][..i] == s[..i] && s[i] == a[i];
      assert a[i + 1..] == a[i..][1..] == s[i..][1..] == s[i + 1..];
      InsertLast(a, i, counts);
    }
    assert s[..a.Length] == s;
  }

  /** Moves `a[i]` left past every word counted less often. */
  method InsertLast(a: array<string>, i: nat, counts: map<string, nat>)
    requires i < a.Length
    modifies a
    ensures a[..i + 1] == InsertByCount(old(a[..i]), old(a[i]), counts)
    ensures a[i + 1..] == old(a[i + 1..])
  {
    ghost var sorted := a[..i];
    ghost var x := a[i];
    var j := i;
    while j > 0 && Freq(counts, a[j - 1]) < Freq(counts, a[j])
      invariant 0 <= j <= i
      invariant a[j] == x
      invariant InsertByCount(a[..j], x, counts) + a[j + 1..i + 1] == InsertByCount(sorted, x, counts)
      invariant a[i + 1..] == old(a[i + 1..])
    {
      ghost var b := a[..];
      SwapStep(b, j, i, x, counts);
      a[j - 1], a[j] := a[j], a[j - 1];
      assert a[..] == b[j - 1 := x][j := b[j - 1]];
      assert a[..j - 1] == a[..][..j - 1] && a[j..i + 1] == a[..][j..i + 1] && a[i + 1..] == a[..][i + 1..];
      j := j - 1;
    }
    InsertDone(a[..], j, i, x, counts);
  }

  lemma SwapStep(b: seq<string>, j: nat, i: nat, x: string, counts: map<string, nat>)
    requires 0 < j <= i < |b| && b[j] == x
    requires Freq(counts, b[j - 1]) < Freq(counts, x)
    ensures var c := b[j - 1 := x][j := b[j - 1]];
      && InsertByCount(c[..j - 1], x, counts) + c[j..i + 1]
         == InsertByCount(b[..j], x, counts) + b[j + 1..i + 1]
      && c[i + 1..] == b[i + 1..]
  {
    var c := b[j - 1 := x][j := b[j - 1]];
    assert b[..j] == b[..j - 1] + [b[j - 1]];
    InsertStep(b[..j - 1], b[j - 1], x, counts);
    assert c[..j - 1] == b[..j - 1];
    assert c[j..i + 1] == [b[j - 1]] + b[j + 1..i + 1];
  }

  lemma InsertDone(b: seq<string>, j: nat, i: nat, x: string, counts: map<string, nat>)
    requires j <= i < |b| && b[j] == x
    requires j == 0 || Freq(counts, b[j - 1]) >= Freq(counts, x)
    ensures b[..i + 1] == InsertByCount(b[..j], x, counts) + b[j + 1..i + 1]
  {
    assert b[..i + 1] == b[..j] + [x] + b[j + 1..i + 1];
  }

  predicate NonIncreasing(r: seq<string>, counts: map<string, nat>) {
    forall p, q :: 0 <= p < q < |r| ==> Freq(counts, r[p]) >= Freq(counts, r[q])
  }

  /** The elements counted exactly `c` times, in their order. */
  function WithCount(s: seq<string>, counts: map<string, nat>, c: nat): seq<string>
  {
    if s == [] then []
    else WithCount(s[..|s| - 1], counts, c) + (if Freq(counts, s[|s| - 1]) == c then [s[|s| - 1]] else [])
  }

  lemma {:induction false} InsertPermutes(t: seq<string>, x: string, counts: map<string, nat>)
    ensures multiset(InsertByCount(t, x, counts)) == multiset(t) + multiset{x}
    decreases |t|
  {
    if t == [] || Freq(counts, t[|t| - 1]) >= Freq(counts, x) {
    } else {
      var u := t[..|t| - 1];
      InsertPermutes(u, x, counts);
      assert t == u + [t[|t| - 1]];
    }
  }

  lemma {:induction false} InsertKeepsOrder(t: seq<string>, x: string, counts: map<string, nat>)
    requires NonIncreasing(t, counts)
    ensures NonIncreasing(InsertByCount(t, x, counts), counts)
    ensures |InsertByCount(t, x, counts)| == |t| + 1
    ensures forall k :: 0 <= k < |InsertByCount(t, x, counts)| ==>
      InsertByCount(t, x, counts)[k] == x || InsertByCount(t, x, counts)[k] in t
    decreases |t|
  {
    if t == [] || Freq(counts, t[|t| - 1]) >= Freq(counts, x) {
    } else {
      var u := t[..|t| - 1];
      var y := t[|t| - 1];
      InsertKeepsOrder(u, x, counts);
      var v := InsertByCount(u, x, counts);
      forall k | 0 <= k < |v| ensures Freq(counts, v[k]) >= Freq(counts, y) {
        if v[k] != x {
          var m :| 0 <= m < |u| && u[m] == v[k];
          assert t[m] == u[m];
        }
      }
    }
  }

  lemma {:induction false} InsertFilters(t: seq<string>, x: string, counts: map<string, nat>, c: nat)
    ensures WithCount(InsertByCount(t, x, counts), counts, c)
         == WithCount(t, counts, c) + (if Freq(counts, x) == c then [x] else [])
    decreases |t|
  {
    if t == [] || Freq(counts, t[|t| - 1]) >= Freq(counts, x) {
      assert (t + [x])[..|t|] == t;
    } else {
      var u := t[..|t| - 1];
      var y := t[|t| - 1];
      InsertFilters(u, x, counts, c);
      var v := InsertByCount(u, x, counts);
      assert (v + [y])[..|v|] == v;
    }
  }

  /** The sort is a permutation of its input. */
  lemma {:induction false} SortPermutes(s: seq<string>, counts: map<string, nat>)
    ensures multiset(SortByCount(s, counts)) == multiset(s)
  {
    if s != [] {
      var u := s[..|s| - 1];
      SortPermutes(u, counts);
      InsertPermutes(SortByCount(u, counts), s[|s| - 1], counts);
      assert s == u + [s[|s| - 1]];
    }
  }

  /** The sort leaves the words in non-increasing order of count. */
  lemma {:induction false} SortOrders(s: seq<string>, counts: map<string, nat>)
    ensures NonIncreasing(SortByCount(s, counts), counts)
  {
    if s != [] {
      SortOrders(s[..|s| - 1], counts);
      InsertKeepsOrder(SortByCount(s[..|s| - 1], counts), s[|s| - 1], counts);
    }
  }

  /** The sort is stable: words counted equally keep their relative order. */
  lemma {:induction false} SortIsStable(s: seq<string>, counts: map<string, nat>, c: nat)
    ensures WithCount(SortByCount(s, counts), counts, c) == WithCount(s, counts, c)
  {
    if s != [] {
      SortIsStable(s[..|s| - 1], counts, c);
      InsertFilters(SortByCount(s[..|s| - 1], counts), s[|s| - 1], counts, c);
    }
  }

  /** `.filter(word => wordCounts[word] >= 2)`. */
  function Frequent(s: seq<string>, counts: map<string, nat>): seq<string>
  {
    if s == [] then []
    else Frequent(s[..|s| - 1], counts) + (if Freq(counts, s[|s| - 1]) >= MinOccurrences then [s[|s| - 1]] else [])
  }

  /** `.slice(0, 10)`. */
  function Top(f: seq<string>): seq<string>
  {
    if |f| <= MaxCategories then f else f[..MaxCategories]
  }

  /** `.map((word, index) => ({id: `cat_${index}`, name: word, word}))`. */
  function Numbered(words: seq<string>): (r: seq<Category>)
    ensures |r| == |words|
    ensures forall k :: 0 <= k < |r| ==> r[k] == Category("cat_" + DecimalString(k), words[k], words[k])
  {
    seq(|words|, k requires 0 <= k < |words| => Category("cat_" + DecimalString(k), words[k], words[k]))
  }

  function Words(categories: seq<Category>): (r: seq<string>)
    ensures |r| == |categories|
    ensures forall k :: 0 <= k < |r| ==> r[k] == categories[k].word
  {
    seq(|categories|, k requires 0 <= k < |categories| => categories[k].word)
  }

  /** The categories `generateCategories` builds for a list of options. */
  function CategoriesFor(options: seq<SelectOption>): seq<Category>
  {
    var tokens := Tokens(options, |options|);
    var counts := CountMap(tokens);
    Numbered(Top(Frequent(SortByCount(Dedup(tokens), counts), counts)))
  }

  /** `generateCategories`: count, sort in place, keep the ten most frequent
      words that occur at least twice, and number them. */
  method GenerateCategories(options: seq<SelectOption>) returns (categories: seq<Category>)
    ensures categories == CategoriesFor(options)
  {
    var allWords, counts := CountWords(options);
    var a := new string[|allWords|](k requires 0 <= k < |allWords| => allWords[k]);
    assert a[..] == allWords;
    SortByFrequency(a, counts);
    categories := Numbered(Top(Frequent(a[..], counts)));
  }

  // ------------------------------------------------------------ properties

  lemma {:induction false} FrequentMembers(s: seq<string>, counts: map<string, nat>)
    ensures forall w :: w in Frequent(s, counts) <==> w in s && Freq(counts, w) >= MinOccurrences
  {
    if s != [] {
      FrequentMembers(s[..|s| - 1], counts);
      assert forall w :: w in s <==> w in s[..|s| - 1] || w == s[|s| - 1];
    }
  }

  lemma {:induction false} FrequentKeepsOrder(s: seq<string>, counts: map<string, nat>)
    requires NonIncreasing(s, counts)
    ensures NonIncreasing(Frequent(s, counts), counts)
  {
    if s != [] {
      var u := s[..|s| - 1];
      assert NonIncreasing(u, counts);
      FrequentKeepsOrder(u, counts);
      FrequentMembers(u, counts);
      var f, x := Frequent(u, counts), s[|s| - 1];
      forall k | 0 <= k < |f| ensures Freq(counts, f[k]) >= Freq(counts, x) {
        assert f[k] in f;
        assert f[k] in u;
        var m :| 0 <= m < |u| && u[m] == f[k];
        assert s[m] == u[m];
      }
      if Freq(counts, x) >= MinOccurrences {
        assert Frequent(s, counts) == f + [x];
        NonIncreasingSnoc(f, x, counts);
      } else {
        assert Frequent(s, counts) == f;
      }
    }
  }

  lemma NonIncreasingSnoc(f: seq<string>, x: string, counts: map<string, nat>)
    requires NonIncreasing(f, counts)
    requires forall k :: 0 <= k < |f| ==> Freq(counts, f[k]) >= Freq(counts, x)
    ensures NonIncreasing(f + [x], counts)
  {
    var r := f + [x];
    forall p, q | 0 <= p < q < |r| ensures Freq(counts, r[p]) >= Freq(counts, r[q]) {
      assert r[p] == f[p];
    }
  }

  lemma {:induction false} FrequentKeepsDistinct(s: seq<string>, counts: map<string, nat>)
    requires Distinct(s)
    ensures Distinct(Frequent(s, counts))
  {
    if s != [] {
      var u := s[..|s| - 1];
      assert Distinct(u);
      FrequentKeepsDistinct(u, counts);
      FrequentMembers(u, counts);
      assert s[|s| - 1] !in u by {
        forall m | 0 <= m < |u| ensures u[m] != s[|s| - 1] { assert s[m] == u[m]; }
      }
    }
  }

  lemma {:induction false} FrequentWithCount(s: seq<string>, counts: map<string, nat>, c: nat)
    ensures WithCount(Frequent(s, counts), counts, c) == if c >= MinOccurrences then WithCount(s, counts, c) else []
  {
    if s != [] {
      var u := s[..|s| - 1];
      var x := s[|s| - 1];
      FrequentWithCount(u, counts, c);
      var f := Frequent(u, counts);
      if Freq(counts, x) >= MinOccurrences {
        assert (f + [x])[..|f|] == f;
      } else {
        assert f + [] == f;
      }
    }
  }

  /** Counting equal-count words over a prefix gives a prefix. */
  lemma {:induction false} WithCountPrefix(s: seq<string>, k: nat, counts: map<string, nat>, c: nat)
    requires k <= |s|
    ensures WithCount(s[..k], counts, c) <= WithCount(s, counts, c)
  {
    if k < |s| {
      var u := s[..|s| - 1];
      assert s[..k] == u[..k];
      WithCountPrefix(u, k, counts, c);
    } else {
      assert s[..k] == s;
    }
  }

  lemma {:induction false} DistinctPermutation(s: seq<string>, t: seq<string>)
    requires Distinct(s) && multiset(s) == multiset(t)
    ensures Distinct(t)
  {
    forall p, q | 0 <= p < q < |t| ensures t[p] != t[q] {
      if t[p] == t[q] {
        assert t == t[..q] + [t[q]] + t[q + 1..];
        assert t[p] in t[..q];
        assert multiset(t)[t[q]] >= 2;
        DistinctAtMostOnce(s, t[q]);
      }
    }
  }

  lemma {:induction false} DistinctAtMostOnce(s: seq<string>, x: string)
    requires Distinct(s)
    ensures multiset(s)[x] <= 1
  {
    if s != [] {
      var u := s[..|s| - 1];
      assert s == u + [s[|s| - 1]];
      assert Distinct(u);
      DistinctAtMostOnce(u, x);
      if x == s[|s| - 1] {
        assert x !in u by {
          forall m | 0 <= m < |u| ensures u[m] != x { assert s[m] == u[m]; }
        }
      }
    }
  }

  /** The categories' own shape: at most ten, numbered `cat_0`, `cat_1`, ...
      in order, named after their word. */
  lemma CategoriesNumbered(options: seq<SelectOption>)
    ensures |CategoriesFor(options)| <= MaxCategories
    ensures forall k :: 0 <= k < |CategoriesFor(options)| ==>
      CategoriesFor(options)[k].id == "cat_" + DecimalString(k) &&
      CategoriesFor(options)[k].name == CategoriesFor(options)[k].word
  {
  }

  /** The ranked words, with the facts every other property starts from. */
  lemma Ranked(options: seq<SelectOption>)
    ensures var tokens := Tokens(options, |options|);
      var counts := CountMap(tokens);
      var f := Frequent(SortByCount(Dedup(tokens), counts), counts);
      && Words(CategoriesFor(options)) == Top(f)
      && NonIncreasing(f, counts)
      && Distinct(f)
      && (forall w :: w in f <==> w in tokens && multiset(tokens)[w] >= MinOccurrences)
  {
    var tokens := Tokens(options, |options|);
    var counts := CountMap(tokens);
    var d := Dedup(tokens);
    var sorted := SortByCount(d, counts);
    var f := Frequent(sorted, counts);
    DedupProperties(tokens);
    SortPermutes(d, counts);
    SortOrders(d, counts);
    DistinctPermutation(d, sorted);
    FrequentMembers(sorted, counts);
    FrequentKeepsOrder(sorted, counts);
    FrequentKeepsDistinct(sorted, counts);
    forall w ensures w in sorted <==> w in d {
      assert w in sorted <==> w in multiset(sorted);
    }
    forall w ensures Freq(counts, w) == multiset(tokens)[w] {
      FreqCountMap(tokens, w);
    }
    assert Words(CategoriesFor(options)) == Top(f);
  }

  /** Each category word is a significant word of some option that is not
      skipped, and occurs at least twice over all options. */
  lemma CategoriesAreFrequentWords(options: seq<SelectOption>, k: nat)
    requires k < |CategoriesFor(options)|
    ensures var w := CategoriesFor(options)[k].word;
      && IsSignificantWord(w)
      && multiset(Tokens(options, |options|))[w] >= MinOccurrences
      && exists i :: 0 <= i < |options| && !Skipped(options, i) && w in Split(options[i].text, Delimiters)
  {
    Ranked(options);
    var w := CategoriesFor(options)[k].word;
    assert w == Words(CategoriesFor(options))[k];
    var i := TokensComeFromOptions(options, |options|, w);
    OptionWordsMeaning(options, i, w);
  }

  /** Categories come in non-increasing order of count and name distinct
      words. */
  lemma CategoriesOrdered(options: seq<SelectOption>)
    ensures var tokens := Tokens(options, |options|);
      var ws := Words(CategoriesFor(options));
      && (forall p, q :: 0 <= p < q < |ws| ==> multiset(tokens)[ws[p]] >= multiset(tokens)[ws[q]])
      && Distinct(ws)
  {
    Ranked(options);
  }

  /** A word that occurs at least twice but got no category lost out to ten
      words that occur at least as often. */
  lemma CategoriesComplete(options: seq<SelectOption>, w: string)
    requires multiset(Tokens(options, |options|))[w] >= MinOccurrences
    requires w !in Words(CategoriesFor(options))
    ensures |CategoriesFor(options)| == MaxCategories
    ensures forall k :: 0 <= k < MaxCategories ==>
      multiset(Tokens(options, |options|))[CategoriesFor(options)[k].word] >= multiset(Tokens(options, |options|))[w]
  {
    var tokens := Tokens(options, |options|);
    var counts := CountMap(tokens);
    var f := Frequent(SortByCount(Dedup(tokens), counts), counts);
    Ranked(options);
    assert w in tokens;
    var j :| 0 <= j < |f| && f[j] == w;
    assert j >= MaxCategories;
    forall k | 0 <= k < MaxCategories
      ensures multiset(tokens)[CategoriesFor(options)[k].word] >= multiset(tokens)[w]
    {
      assert CategoriesFor(options)[k].word == Words(CategoriesFor(options))[k] == f[k];
    }
  }

  /** Words with equal counts keep the order in which they first appeared:
      among the categories, those with any given count are a prefix of all
      the distinct words with that count, in first-appearance order. */
  lemma CategoriesTieOrder(options: seq<SelectOption>, c: nat)
    ensures var tokens := Tokens(options, |options|);
      WithCount(Words(CategoriesFor(options)), CountMap(tokens), c) <= WithCount(Dedup(tokens), CountMap(tokens), c)
  {
    var tokens := Tokens(options, |options|);
    var counts := CountMap(tokens);
    var d := Dedup(tokens);
    var sorted := SortByCount(d, counts);
    var f := Frequent(sorted, counts);
    Ranked(options);
    WithCountPrefix(f, |Top(f)|, counts, c);
    assert f[..|Top(f)|] == Top(f);
    FrequentWithCount(sorted, counts, c);
    SortIsStable(d, counts, c);
  }

  /** The first position of `w` in `t`. */
  function IndexOf(t: seq<string>, w: string): (k: nat)
    requires w in t
    ensures k < |t| && t[k] == w && w !in t[..k]
  {
    if t[0] == w then 0 else 1 + IndexOf(t[1..], w)
  }

  lemma IndexOfPrefix(t: seq<string>, n: nat, w: string)
    requires n <= |t| && w in t[..n]
    ensures IndexOf(t, w) == IndexOf(t[..n], w)
  {
    var k := IndexOf(t[..n], w);
    assert t[..n][..k] == t[..k];
    var m := IndexOf(t, w);
    assert t[..m] == t[..n][..m] || m >= n;
  }

  /** `Dedup` lists words in the order of their first occurrence. */
  lemma {:induction false} DedupFirstAppearance(t: seq<string>)
    ensures forall w :: w in Dedup(t) ==> w in t
    ensures forall p, q :: 0 <= p < q < |Dedup(t)| ==> IndexOf(t, Dedup(t)[p]) < IndexOf(t, Dedup(t)[q])
  {
    if t != [] {
      var u := t[..|t| - 1];
      var d := Dedup(u);
      DedupFirstAppearance(u);
      DedupProperties(u);
      DedupProperties(t);
      forall p, q | 0 <= p < q < |Dedup(t)|
        ensures IndexOf(t, Dedup(t)[p]) < IndexOf(t, Dedup(t)[q])
      {
        assert Dedup(t)[p] == d[p];
        IndexOfPrefix(t, |t| - 1, d[p]);
        if q < |d| {
          IndexOfPrefix(t, |t| - 1, d[q]);
        } else {
          assert Dedup(t)[q] == t[|t| - 1] && t[|t| - 1] !in u;
          assert t[..|t| - 1] == u;
        }
      }
    }
  }

  // ------------------------------------------------------------ assignment

  /** `assignOptionToCategories`: the ids of the categories whose word occurs
      in the option's text. */
  function AssignOptionToCategories(optionText: string, categories: seq<Category>): (ids: seq<string>)
    ensures |ids| <= |categories|
    ensures forall id :: id in ids <==>
      exists k, i :: 0 <= k < |categories| && categories[k].id == id && OccursAt(optionText, categories[k].word, i)
  {
    if categories == [] then []
    else
      var rest := AssignOptionToCategories(optionText, categories[1..]);
      assert forall k :: 1 <= k < |categories| ==> categories[k] == categories[1..][k - 1];
      (if Includes(optionText, categories[0].word) then [categories[0].id] else []) + rest
  }

  /** The ids come out in category order: the result over a concatenation of
      category lists is the concatenation of the results, ... */
  lemma {:induction false} AssignConcat(optionText: string, a: seq<Category>, b: seq<Category>)
    ensures AssignOptionToCategories(optionText, a + b)
         == AssignOptionToCategories(optionText, a) + AssignOptionToCategories(optionText, b)
  {
    if a == [] {
      assert a + b == b;
    } else {
      assert (a + b)[0] == a[0];
      assert (a + b)[1..] == a[1..] + b;
      AssignConcat(optionText, a[1..], b);
      var head := if Includes(optionText, a[0].word) then [a[0].id] else [];
      assert AssignOptionToCategories(optionText, a + b) == head + AssignOptionToCategories(optionText, a[1..] + b);
      assert AssignOptionToCategories(optionText, a) == head + AssignOptionToCategories(optionText, a[1..]);
    }
  }

  /** ... and one category contributes its id exactly when its word occurs
      in the text. */
  lemma AssignSingle(optionText: string, c: Category)
    ensures AssignOptionToCategories(optionText, [c]) ==
      if exists i :: OccursAt(optionText, c.word, i) then [c.id] else []
  {
  }
}
