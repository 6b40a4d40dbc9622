# Jobcan enhancer rules in Dafny

`content.js` is a browser content script that restyles the Jobcan attendance
pages. Almost all of it builds and styles DOM nodes. Inside that DOM code are
a few self-contained rules, and this project states and proves them:

- **Flip clock** (`clock.dfy`).
  - `normalizeTimeFormat` turns the page's clock text into `HH:MM:SS`.
  - Each one-second tick of the live `updateFlipClock` pushes the digits of that text onto the flip cards.
  - The `requiresReload` rule of `updateClockStyle`.
- **Work-shift progress bar** (`progress.dfy`).
  - The live `updateWorkProgressBar` gives progress, status text, fill colour, the current-time marker and its opacity.
  - The hover tooltip of the track maps a position back to a time.
  - The shift is 10:00–19:00. Percentages are exact rationals.
- **Option categories** (`categories.dfy`).
  - `generateCategories` counts words with a loop over the options, using the `wordCounts` map and the `allWords` list. It stable-sorts the words in place by count, then keeps the ten most frequent words that occur at least twice.
  - `assignOptionToCategories` tags an option with the categories it belongs to.
- **Duplicate side menus** (`sidemenu.dfy`): the `fixDuplicateSidemenus` loop over an array of visibility flags.
- **Region screenshot** (`screenshot.dfy`).
  - The selection overlay is a class whose fields are the closure state and the selection box's style. It has `mousedown`, `mousemove`, `mouseup` and the one-shot `keydown` handlers.
  - The crop coordinates for fixed and normal-flow content.
- **Un-match warning keeper** (`unmatch.dfy`).
  - `monitorUnmatchTime` and its `checkAndRestoreContent` are modelled as a state record with a step function.
  - A class runs the same steps in place.
- **Small table rules** (`tables.dfy`).
  - The zero-value row test of `enhanceCollapseInfo`.
  - The `colspan` decrement.
  - The `工数(時間)` header rename of `simplifyTableHeaders`.
- **Edit-dialog title** (`modaltitle.dfy`): `enhanceModalTitle` shows `YYYY年MM月DD日(W)実労働時間＝HH:MM` as a time `HH:MM` above a date `YYYY/MM/DD(W)`.
- **JavaScript string primitives** (`text.dfy`): the rules above rely on these, stated on `seq<char>`.
  - `trim` and the `\s` white-space class;
  - `split` on a character class and `padStart(2, '0')`;
  - integer `toString`, `parseInt(s, 10)` and `includes`.

The browser and the outside world become parameters:
- wall-clock time becomes an hour and a minute;
- page state becomes a sequence of visibility flags or cell texts;
- cursor positions, scroll offsets and the device pixel ratio are plain inputs;
- whether the content under the selection is fixed-positioned is also an input.

## Model

| member | source | states |
|---|---|---|
| JsText.Trim | content.js:1202 | `String.prototype.trim`; TrimProperties, TrimOccurs, TrimBlank, TrimSolidEnds and TrimAround prove it drops exactly the white space at both ends and keeps the rest as one contiguous piece |
| JsText.ParseInt | content.js:3170 | `parseInt(s, 10)`: skip leading white space, read an optional sign and the leading digit run, `None` for `NaN`; ParseIntDigits, ParseIntSigned and ParseIntRoundTrip prove it reads back what `toString` writes |
| JsText.IntToString | content.js:3172 | integer `toString`: a minus sign for negative values, then the decimal digits; ParseIntRoundTrip and NegativeRoundTrip prove `parseInt` inverts it |
| JsText.JsSpaceIsWhitespace | content.js:1973 | the range test for white space agrees with the explicit set of ECMAScript WhiteSpace and LineTerminator code points used by `\s` and `trim` |
| JsText.LeadingSpaces | content.js:1202 | the leading white-space run is maximal: all of it is white space and the next character is not |
| JsText.TrailingSpaces | content.js:1202 | the trailing white-space run is maximal |
| JsText.TrimStart | content.js:1202 | the result is a suffix of the input, what was dropped is white space, and the result does not start with white space |
| JsText.TrimEnd | content.js:1202 | the result is a prefix of the input, what was dropped is white space, and the result does not end with white space |
| JsText.TrimProperties | content.js:1202 | `trim` keeps a contiguous piece of the input; the result is empty iff the input is all white space; a non-empty result has no white space at either end |
| JsText.TrimOccurs | content.js:1202 | the trimmed text occurs in the input right after the leading white space |
| JsText.TrimBlank | content.js:3450 | `s.trim() === ''` iff `s` is all white space |
| JsText.TrimSolidEnds | content.js:2063 | a non-empty trimmed text starts and ends with a non-space character |
| JsText.TrimAround | content.js:2063 | the input is the trimmed text with white space in front and behind |
| JsText.AllJsSpaceConcat | content.js:2063 | white space followed by white space is white space |
| JsText.Split | content.js:1306 | `split` yields one more piece than there are delimiters, and no piece contains a delimiter |
| JsText.JoinSplit | content.js:1306 | joining the pieces of a one-character split with that character restores the input |
| JsText.SplitPair | content.js:1306 | `a:b` with no colon in `a` or `b` splits into exactly `[a, b]` |
| JsText.SplitNone | content.js:1306 | text without the delimiter is a single piece |
| JsText.DelimsOf | content.js:1973 | the delimiters a split consumes: as many as the delimiter count, each one in the class |
| JsText.SplitInterleave | content.js:1973 | a split on a character class loses nothing: it has one more piece than consumed delimiters, and putting each delimiter back between its neighbouring pieces rebuilds the input |
| JsText.PadStart2 | content.js:1310 | `padStart(2, '0')` keeps the text as its suffix, pads only with `0`, reaches length 2 and never truncates |
| JsText.DigitChar | content.js:3172 | a value below ten is written as an ASCII digit |
| JsText.DecimalString | content.js:3172 | the decimal spelling of a natural number is non-empty, all digits, and has no leading zero except for 0 itself |
| JsText.DecimalRoundTrip | content.js:3172 | reading back the digits of a natural number's decimal spelling gives the number |
| JsText.DigitRun | content.js:3170 | the leading digit run that `parseInt` reads is maximal |
| JsText.DigitRunOf | content.js:3170 | digits followed by a non-digit form a run exactly as long as the digits |
| JsText.ParseIntDigits | content.js:2349-2350 | `parseInt` of digits followed by a non-digit (such as `px`) is the value of the digits |
| JsText.ParseIntUnsigned | content.js:3170 | text that starts with a digit is read with no sign and nothing skipped |
| JsText.ParseIntSigned | content.js:3170 | a leading minus sign negates the digits after it |
| JsText.ReadDigitsOf | content.js:3170 | the digit reader returns the value of a digit run followed by a non-digit |
| JsText.ParseIntRoundTrip | content.js:3170-3172 | `parseInt(String(i) + suffix, 10) == i` for every integer `i`, when the suffix does not start with a digit |
| JsText.NegativeRoundTrip | content.js:3170-3172 | the same round trip for negative integers |
| JsText.ParseIntNegative | content.js:3170 | a minus sign in front of digits that read as `v` reads as `-v` |
| JsText.DecimalReadBack | content.js:3170-3172 | the digit reader recovers a natural number from its decimal spelling |
| JsText.Includes | content.js:2007 | `includes` is true iff the word occurs at some position of the text |
| Clock.MatchesHms | content.js:1301 | the test `/^\d{2}:\d{2}:\d{2}$/`: exactly eight characters, digits around two colons; HmsDigits proves such text puts six digits on the cards |
| Clock.RequiresReload | content.js:3844-3850 | the rebuild decision of `updateClockStyle`, a missing or empty stored style counting as `gradient`; RequiresReloadCases proves it holds iff exactly one of the two styles is `default` |
| Clock.NormalizeTimeFormat | content.js:1299-1315 | text already matching `^\d{2}:\d{2}:\d{2}$` is returned unchanged; text without exactly one colon that does not match becomes `00:00:00` |
| Clock.OneColonIsNotHms | content.js:1301-1310 | text with a single colon never matches `HH:MM:SS`, so the two-part branch is reached exactly for such text |
| Clock.NormalizeTwoParts | content.js:1306-1310 | two parts are each left-padded with `0` to width two, never truncated, and `:00` is appended |
| Clock.TwoPartsShape | content.js:1306-1310 | the normalised two-part text has the `HH:MM:SS` shape iff both parts are at most two ASCII digits (an empty part pads to `00`) |
| Clock.PadDigitPair | content.js:1310 | padding zero, one or two digits gives exactly two digits |
| Clock.ShortDigitPartsGiveHms | content.js:1310 | parts of at most two digits give a well-formed `HH:MM:00` |
| Clock.HmsGivesShortDigitParts | content.js:1310 | a well-formed padded result comes only from parts of at most two digits |
| Clock.UnpadDigitPair | content.js:1310 | a pad result of exactly two digits comes from at most two digits |
| Clock.NormalizeIdempotentIff | content.js:1299-1315 | normalising twice is the same as normalising once iff the first result has the `HH:MM:SS` shape |
| Clock.Renormalize | content.js:1299-1315 | a first result without the `HH:MM:SS` shape normalises to `00:00:00` |
| Clock.ColonCountAtLeastTwo | content.js:1310 | the two-part result contains at least two colons |
| Clock.CountInSplit | content.js:1306 | colon counts add up over concatenation |
| Clock.ClockDigits | content.js:1213-1217 | the characters the cards show are the text's non-colon characters, none of them a colon |
| Clock.ClockDigitsPrefix | content.js:1213-1251 | the digits of a prefix of the text are a prefix of its digits |
| Clock.DigitsBeforeCount | content.js:1213-1251 | the walk's `digitIndex` at position `i` is the number of digits before `i` |
| Clock.DigitStep | content.js:1216-1218 | the k-th non-colon character goes to card k |
| Clock.ClockDigitsSnoc | content.js:1216-1251 | a non-colon character advances `digitIndex` by one; a colon leaves it as it is |
| Clock.HmsDigits | content.js:1213-1251 | for `HH:MM:SS` text the six cards show H, H, M, M, S, S in order, all digits |
| Clock.HmsHourDigits | content.js:1213-1251 | the hour pair occupies the first two cards |
| Clock.HmsMinuteDigits | content.js:1213-1251 | the minute pair occupies cards two and three |
| Clock.UpdateFlipDigits | content.js:1200-1252 | one tick trims and normalises the clock text, then updates the cards. Each card shows its digit when it has one and otherwise keeps its old value. When the counts match, the cards equal the digits. Exactly the cards whose value changed are flipped, in increasing order |
| Clock.PushDigits | content.js:1213-1252 | the walk over the text leaves the cards equal to the first `min(#digits, #cards)` digits pushed, and flips exactly the cards listed by the specification function |
| Clock.ShowDigit | content.js:1218-1251 | setting one card extends both the pushed cards and the flipped list by one digit |
| Clock.Pushed | content.js:1213-1251 | pushing digits never changes the number of cards |
| Clock.PushedCards | content.js:1213-1251 | after `m` digits, card k shows digit k when k < m, and otherwise its old value |
| Clock.FlippedBelowMeaning | content.js:1224-1248 | a card flips exactly when the digit pushed onto it differs from what it showed; the flipped indices are strictly increasing |
| Clock.PushedOutcome | content.js:1219 | once every digit that has a card is pushed, cards beyond the digits are untouched, and with equal counts the cards are the digits |
| Clock.RequiresReloadCases | content.js:3844-3850 | the cards are rebuilt iff exactly one of the stored style (a missing or empty one counts as `gradient`) and the new style is `default`; re-selecting the stored style never rebuilds |
| WorkProgress.InShiftFill | content.js:3997-4012 | the in-shift colour tier; InShiftFillMonotone and InShiftFillBoundaries prove it is a non-decreasing step function with steps at 25, 50, 75 and 90 |
| WorkProgress.IndicatorOpaque | content.js:3946-3949 | the marker's full-opacity test; IndicatorOpacity proves it holds iff the time is within 180 minutes of the shift |
| WorkProgress.TimeLabel | content.js:3893 | the marker label `HH:MM`; TimeLabelNormalizes proves it is five characters and normalises to a well-formed `HH:MM:00` |
| WorkProgress.TooltipLabel | content.js:684-688 | the tooltip text: the hour unpadded, a colon, and the minute padded to two digits, from TooltipTime |
| WorkProgress.Progress | content.js:3955-4013 | progress is always in [0, 100]. Before 10:00 it is 0, with the minutes to 10:00 split into hours and minutes below 60, and grey. From 19:00 it is 100, with the minutes since 19:00, and green. Otherwise it is `(m - 600) / 540 * 100` in [0, 100), the remaining minutes `540 - (m - 600)` are positive and split the same way, and the fill is the in-shift tier |
| WorkProgress.ProgressExamples | content.js:3955-4013 | 09:00, 10:00, 14:30 (50%, yellow, 4h30 left), 19:00 and 23:30 give the expected snapshots |
| WorkProgress.ProgressMonotone | content.js:3955-4013 | later in the day, progress and the colour rank never go down |
| WorkProgress.InShiftFillMonotone | content.js:3997-4012 | the in-shift colour tier never goes down as progress grows |
| WorkProgress.InShiftFillBoundaries | content.js:3997-4012 | the tier changes exactly at 25, 50, 75 and 90 percent |
| WorkProgress.IndicatorPosition | content.js:3931-3940 | the marker position always lies in [0, 100] |
| WorkProgress.IndicatorOpacity | content.js:3946-3949 | the marker is opaque iff 420 <= m <= 1320, which is within three hours of the shift |
| WorkProgress.IndicatorMonotone | content.js:3931-3940 | the marker never moves left as the clock advances |
| WorkProgress.IndicatorMatchesFill | content.js:3931-3940 | the marker sits where the fill ends, at the progress percentage |
| WorkProgress.PadSmall | content.js:3893 | a number below 100, padded, is exactly two digits |
| WorkProgress.TimeLabelNormalizes | content.js:3893 | the marker label is `HH:MM` and normalises to a well-formed `HH:MM:00` |
| WorkProgress.TooltipTime | content.js:681-688 | the tooltip shows a time from 10:00 to 19:00 with minutes below 60, and 19 o'clock only with minute 0 |
| WorkProgress.TooltipRoundTrip | content.js:681-688 | with exact rational percentages, hovering over the marker during the shift reads back the current hour and minute |
| WorkProgress.TooltipMonotone | content.js:681-688 | further right on the track never shows an earlier time |
| Categories.Tokens | content.js:1968-1983 | every word occurrence of the counted options in document order; TokensIncludeOptionWords and TokensComeFromOptions prove it holds exactly the words of options that are not skipped |
| Categories.Dedup | content.js:1978-1981 | the `allWords` list; DedupProperties and DedupFirstAppearance prove it holds each word once, in order of first appearance |
| Categories.CountMap | content.js:1978-1982 | the `wordCounts` map; FreqCountMap proves each count is the number of occurrences |
| Categories.SortByCount | content.js:1987 | the stable sort by decreasing count; SortPermutes, SortOrders and SortIsStable prove it is a permutation, ordered, and stable |
| Categories.Frequent | content.js:1991 | the filter to words counted at least twice; FrequentMembers, FrequentKeepsOrder and FrequentWithCount prove what it keeps and that order survives |
| Categories.Top | content.js:1992 | `slice(0, 10)`; CategoriesNumbered and CategoriesComplete prove at most ten survive and that a left-out frequent word lost to ten others |
| Categories.CategoriesFor | content.js:1962-2000 | the whole pipeline; Ranked, CategoriesAreFrequentWords, CategoriesOrdered, CategoriesComplete and CategoriesTieOrder prove the ranking |
| Categories.SignificantWords | content.js:1973-1975 | the filter keeps every occurrence of a piece that is at least two characters long, not all digits, and not `選択`/`未分類`, and drops every occurrence of any other piece |
| Categories.WordLists | content.js:1968-1975 | one word list per option, and list i holds the words of option i |
| Categories.OptionWordsMeaning | content.js:1968-1975 | a word belongs to option i iff the option is not skipped (an empty value after the first option) and the word is a significant piece of its text |
| Categories.FlattenIncludes | content.js:1968-1983 | every word of one of the first n options is counted |
| Categories.FlattenComesFrom | content.js:1968-1983 | every counted word comes from one of the first n options |
| Categories.TokensIncludeOptionWords | content.js:1968-1983 | every word of a counted option is among the counted occurrences |
| Categories.TokensComeFromOptions | content.js:1968-1983 | every counted occurrence is a word of some option |
| Categories.InSnoc | content.js:1977-1983 | a word is in a concatenation iff it is in one of the parts |
| Categories.DedupProperties | content.js:1978-1981 | `allWords` holds each counted word, and only those, exactly once |
| Categories.FreqCountMap | content.js:1978-1982 | `wordCounts[w]` is the number of occurrences of `w` |
| Categories.CountMapSnoc | content.js:1978-1982 | one more occurrence adds one to that word's count |
| Categories.DedupSnoc | content.js:1978-1981 | a new word is appended to `allWords`; a known one leaves it unchanged |
| Categories.CountWords | content.js:1964-1984 | the counting loops give `allWords` = the distinct words in first-appearance order and `wordCounts` = their occurrence counts |
| Categories.CountEach | content.js:1977-1983 | one option's words extend both structures by exactly those words |
| Categories.SkipStep | content.js:1970 | a skipped option adds nothing |
| Categories.TokensStep | content.js:1973-1983 | a counted option adds its significant words in order |
| Categories.CountStep | content.js:1978-1982 | a word is in `wordCounts` iff it is in `allWords`; a new word is appended and set to 0 then 1; a known word is incremented |
| Categories.CountMapStep | content.js:1978-1982 | the `wordCounts` update for one word, the new and known cases |
| Categories.InsertStep | content.js:1987 | a word with a smaller count stays behind a word being inserted |
| Categories.SortByFrequency | content.js:1987 | sorting `allWords` in place yields the stable sort by decreasing count |
| Categories.InsertLast | content.js:1987 | inserting one word moves it behind every word with at least its count, and leaves the unsorted tail untouched |
| Categories.SwapStep | content.js:1987 | one adjacent swap keeps the insertion invariant |
| Categories.InsertDone | content.js:1987 | stopping at a word with at least the inserted word's count completes the insertion |
| Categories.InsertPermutes | content.js:1987 | inserting adds exactly the inserted word |
| Categories.InsertKeepsOrder | content.js:1987 | inserting keeps counts non-increasing |
| Categories.InsertFilters | content.js:1987 | among words of one count, the inserted word goes last |
| Categories.SortPermutes | content.js:1987 | the sort is a permutation of `allWords` |
| Categories.SortOrders | content.js:1987 | the sorted words have non-increasing counts |
| Categories.SortIsStable | content.js:1987 | words with equal counts keep their relative order |
| Categories.Numbered | content.js:1993-1997 | category k has id `cat_k` and is named after its word |
| Categories.Words | content.js:1993-1997 | the words of the categories, in order |
| Categories.GenerateCategories | content.js:1962-2000 | the method returns the categories of the specification function |
| Categories.FrequentMembers | content.js:1991 | the filter keeps exactly the words counted at least twice |
| Categories.FrequentKeepsOrder | content.js:1991 | filtering keeps counts non-increasing |
| Categories.NonIncreasingSnoc | content.js:1991 | appending a word counted at most as often as all before it keeps the order |
| Categories.FrequentKeepsDistinct | content.js:1991 | filtering keeps the words distinct |
| Categories.FrequentWithCount | content.js:1991 | for each count of at least two, the words with that count survive the filter in order; words with a lower count do not survive |
| Categories.WithCountPrefix | content.js:1992 | slicing to the top ten keeps a prefix of each equal-count group |
| Categories.DistinctPermutation | content.js:1987 | a permutation of distinct words is distinct |
| Categories.DistinctAtMostOnce | content.js:1978-1981 | a word occurs at most once in distinct words |
| Categories.CategoriesNumbered | content.js:1990-1997 | there are at most ten categories, numbered `cat_0` upwards, each named after its word |
| Categories.Ranked | content.js:1987-1992 | the category words are the top ten of the sorted, filtered distinct words, which are non-increasing, distinct, and exactly the words occurring at least twice |
| Categories.CategoriesAreFrequentWords | content.js:1962-2000 | each category word is significant, occurs at least twice, and is a piece of some option that is not skipped |
| Categories.CategoriesOrdered | content.js:1987-1997 | categories come in non-increasing order of count and name distinct words |
| Categories.CategoriesComplete | content.js:1990-1992 | a word occurring at least twice that got no category lost out to ten words that occur at least as often |
| Categories.CategoriesTieOrder | content.js:1987-1992 | among categories with equal counts, the words come in first-appearance order, as a prefix of that count's words |
| Categories.IndexOf | content.js:1980 | the first position of a word |
| Categories.IndexOfPrefix | content.js:1980 | the first position is the same within any prefix containing the word |
| Categories.DedupFirstAppearance | content.js:1978-1981 | `allWords` lists words in order of first occurrence |
| Categories.AssignOptionToCategories | content.js:2003-2013 | an id is in the result iff its category's word occurs in the option text; there is at most one id per category |
| Categories.AssignConcat | content.js:2006-2010 | the ids come out in category order: the result over `a + b` is the result over `a` followed by the result over `b` |
| Categories.AssignSingle | content.js:2007-2009 | one category contributes its id iff its word occurs in the text |
| Sidemenu.FirstVisibleOnly | content.js:116-134 | the menus as the repair leaves them; AtMostOneVisible, FirstVisibleKept, NothingRevealed, Idempotent and SingleMenuUntouched prove its meaning |
| Sidemenu.FixDuplicateSidemenus | content.js:112-135 | the loop leaves the visibility flags equal to the specification function |
| Sidemenu.AtMostOneVisible | content.js:116-134 | afterwards at most one menu is visible |
| Sidemenu.FirstVisibleKept | content.js:116-134 | the first menu that was visible is still visible |
| Sidemenu.NothingRevealed | content.js:116-134 | no hidden menu becomes visible, and the number of menus is unchanged |
| Sidemenu.Idempotent | content.js:112-135 | running the repair again changes nothing |
| Sidemenu.SingleMenuUntouched | content.js:116 | with at most one menu nothing changes |
| Screenshot.Accepts | content.js:2352 | the size test `width > 10 && height > 10`; ReleaseAfterDrag proves a drag is captured exactly when it passes |
| Screenshot.Release | content.js:2349-2361 | a captured area has both sides above 10 pixels and carries the scroll recorded at the start; a size that fails the test captures nothing |
| Screenshot.CropOrigin | content.js:2434-2442 | viewport coordinates for fixed content, page coordinates otherwise, in device pixels; CropOffsetIsScroll and CropScales relate the two choices and the pixel ratio |
| Screenshot.CropSize | content.js:2445-2452 | the selection size in device pixels; CropScales proves it scales with the pixel ratio |
| Screenshot.SelectionRect | content.js:2329-2334 | the box starts at the smaller coordinate and spans to the larger, so its size is the absolute difference in each direction |
| Screenshot.SelectionSymmetric | content.js:2329-2334 | dragging between the same two corners, in any direction, selects the same box |
| Screenshot.ParsePx | content.js:2355-2356 | reading back a `${n}px` length with `parseInt` gives `n` |
| Screenshot.ReleaseAfterDrag | content.js:2344-2365 | reading back the dragged box's style recovers it exactly; it is captured, with the recorded scroll, iff both sides exceed 10 pixels |
| Screenshot.ReleaseWithoutMove | content.js:2349-2352 | a release right after mousedown never captures |
| Screenshot.RegionSelector.constructor | content.js:2271-2305 | opening the overlay records the scroll position; no selection is in progress, the box is hidden, and Escape is armed |
| Screenshot.RegionSelector.MouseDown | content.js:2308-2319 | a selection starts at the cursor with a zero-size, shown box |
| Screenshot.RegionSelector.MouseMove | content.js:2322-2341 | during a drag the box spans the start and the cursor; outside a drag nothing changes |
| Screenshot.RegionSelector.MouseUp | content.js:2344-2369 | ending a drag hands over the area read back from the box iff it is large enough, and removes the overlay; a release outside a drag changes nothing |
| Screenshot.RegionSelector.KeyDown | content.js:2372-2376 | the first key press of any kind disarms the listener; the overlay closes only if that first key is Escape |
| Screenshot.DragSelect | content.js:2308-2369 | press, move and release capture exactly the rectangle between the two points when both its sides exceed 10 pixels |
| Screenshot.DragAcrossKeyPress | content.js:2308-2376 | a key other than Escape during a drag changes nothing: the release captures what the drag alone would |
| Screenshot.ClickOnly | content.js:2308-2352 | a click without a move captures nothing |
| Screenshot.EscapeAfterOtherKey | content.js:2372-2376 | Escape after another key leaves the overlay open |
| Screenshot.Center | content.js:2416-2417 | the probed centre lies inside the selection |
| Screenshot.CropOffsetIsScroll | content.js:2434-2442 | the normal-flow crop origin is the fixed one shifted by the recorded scroll times the pixel ratio; the two coincide without scrolling |
| Screenshot.CropScales | content.js:2434-2452 | the crop origin and the crop size scale linearly with the device pixel ratio |
| Unmatch.Check | content.js:3458-3469 | `checkAndRestoreContent` as a step; CheckInv, CheckMonotone, CheckRestores, CheckNoOp, CheckIdempotent and CheckLeavesBlank prove its properties |
| Unmatch.HostWrite | content.js:3458-3469 | the page rewriting the element between checks; HostWriteInv proves it keeps the invariant |
| Unmatch.Start | content.js:3449-3455 | the first state remembers the element's content; it is a warning, and styled, iff that content is not blank |
| Unmatch.StartInv | content.js:3449-3455 | the invariant holds at the start: a warning is remembered iff the remembered content is not blank, and styling matches |
| Unmatch.CheckInv | content.js:3458-3469 | a check keeps the invariant |
| Unmatch.HostWriteInv | content.js:3458-3469 | a page write keeps the invariant |
| Unmatch.CheckMonotone | content.js:3458-3469 | `isUnmatched` and the styling never go from true to false |
| Unmatch.CheckRestores | content.js:3460-3462 | after a check, a remembered warning is what the element shows, and it is not blank |
| Unmatch.CheckNoOp | content.js:3458-3469 | a check while the element shows the remembered content changes nothing, in any state |
| Unmatch.CheckIdempotent | content.js:3458-3469 | checking twice is checking once |
| Unmatch.CheckLeavesBlank | content.js:3458-3469 | without a remembered warning, blank content is left alone |
| Unmatch.RunKeepsInv | content.js:3458-3469 | the invariant holds after any run of checks and page writes |
| Unmatch.RunMonotone | content.js:3458-3469 | a warning, once seen, stays remembered and styled through any run |
| Unmatch.UnmatchMonitor.constructor | content.js:3449-3455 | the object starts in the state of the start function |
| Unmatch.UnmatchMonitor.CheckAndRestoreContent | content.js:3458-3469 | the in-place check moves the fields exactly as the check step does |
| Unmatch.UnmatchMonitor.SetInnerHtml | content.js:3458-3469 | a page write replaces only the element's content |
| Tables.IsZeroValue | content.js:2063-2067 | the zero-value test on the trimmed cell text; ZeroValueIsDigitTest proves it holds iff the cell has a digit and all its digits are 0 |
| Tables.HiddenRows | content.js:2060-2072 | which rows are marked; HiddenRowsMeaning proves row k is marked iff its data cell passes the test |
| Tables.AdjustedColspan | content.js:3170-3173 | the new `colspan`; AdjustedColspanValue, AdjustedColspanOfNumber and AdjustedColspanAtLeastOne prove the decrement |
| Tables.Simplify | content.js:2038-2041 | the rename of one header; SimplifyCases and SimplifyIdempotent prove which headers change and that renaming again changes nothing |
| Tables.DigitsOf | content.js:2067 | `replace(/[^0-9]/g, '')` keeps only ASCII digits and never lengthens the text |
| Tables.DigitsOfMembers | content.js:2067 | the filter keeps every ASCII digit of the text and nothing else |
| Tables.AllZerosDigitsOf | content.js:2067 | `/^0+$/` holds of the kept digits iff the text has at least one digit and every digit in it is 0 |
| Tables.DigitsOfConcat | content.js:2067 | the digits of a concatenation are the concatenated digits |
| Tables.DigitsOfSpace | content.js:2063 | white space contains no digits |
| Tables.DigitsOfTrim | content.js:2063-2067 | trimming never removes a digit |
| Tables.DigitsOfAround | content.js:2063-2067 | white space around a text adds no digits |
| Tables.ZeroValueIsDigitTest | content.js:2063-2067 | a row is hidden iff its cell holds at least one digit and every digit is 0; the listed literals add nothing to that test |
| Tables.LiteralsAreZeros | content.js:2066-2067 | each listed zero literal passes the digit test |
| Tables.HiddenRowsMeaning | content.js:2060-2072 | row k is marked iff it has a data cell that passes the test |
| Tables.MarkZeroRows | content.js:2056-2072 | the row loop marks the specified rows, and `hasHiddenRows` is set iff some row was marked |
| Tables.ShowAllWhenHidden | content.js:2056-2072 | some row is marked iff some row has a data cell passing the test |
| Tables.AdjustedColspanValue | content.js:3170-3173 | read back, the new span is the old one minus one when it was above 1; it is unchanged otherwise, and an attribute that does not parse stays unparseable |
| Tables.AdjustedColspanOfNumber | content.js:3170-3173 | a span written as a number loses exactly one column when above 1 |
| Tables.AdjustedColspanAtLeastOne | content.js:3170-3173 | a span of at least one never drops below one |
| Tables.SimplifyCases | content.js:2038-2041 | only an unmarked `工数(時間)` header changes, and it becomes a marked `工数` |
| Tables.SimplifyIdempotent | content.js:2036-2042 | renaming twice is renaming once, so the observer may repeat it |
| Tables.SimplifyTableHeaders | content.js:2036-2042 | every header in the array is replaced in place by its renamed form |
| ModalTitle.FindDate | content.js:1564 | the date search returns the leftmost match of `(\d{4})年(\d{2})月(\d{2})日\((.)\)`, or none when there is no match |
| ModalTitle.FindTime | content.js:1573 | the time search returns the leftmost match of `実労働時間＝(\d{2}):(\d{2})`, or none |
| ModalTitle.EnhanceTitle | content.js:1561-1581 | a title is left alone iff it holds no date; a title without a working time shows `00:00` |
| ModalTitle.JapaneseDate | content.js:1560-1564 | the page's date spelling has the lengths of its parts plus six marks |
| ModalTitle.SlashDate | content.js:1578 | the shown date spelling has the lengths of its parts plus five marks |
| ModalTitle.SlashDateInjective | content.js:1578 | the slash spelling loses nothing: equal spellings mean equal dates |
| ModalTitle.JapaneseDateMatches | content.js:1564 | the pattern matches wherever the page spells a valid date |
| ModalTitle.DateOfTitle | content.js:1564-1578 | a title whose first date is d shows d in slash form |
| ModalTitle.TimeOfTitle | content.js:1573-1581 | a title holding the label with two-digit hours and minutes shows that time |
| ModalTitle.NoTimeInDate | content.js:1573 | the date spelling holds no working-time label |
| ModalTitle.TitleRoundTrip | content.js:1561-1581 | a title written as `YYYY年MM月DD日(W)実労働時間＝HH:MM…` is shown as `HH:MM` over `YYYY/MM/DD(W)` |

## Left out

- `popup.js` is not part of this model. It only wires a settings form to browser storage.
- DOM construction, inline styles, class toggles, animations, hover effects and event wiring are left out. They act on a host page that cannot be modelled. The flip-card animation and its `setTimeout` reset (content.js:1228-1248) are among them.
- `updateFlipClockColors` is left out, for the same reason.
- `MutationObserver`s and `setInterval`/`setTimeout` polling are left out, because they depend on event-loop timing. This covers re-running the header rename and the un-match check, the modal title poll, and the one-second tick. Each rule is modelled as one run, and re-running is covered by the idempotence lemmas.
- The `dataset.enhanced` once-guard of the modal title is left out.
- Browser storage and runtime messages, `new Date()`, `html2canvas`, the clipboard, downloads and `document.elementFromPoint` are foreign services. Their results are parameters.
- The ancestor walk that decides whether the selection centre is fixed-positioned (content.js:2421-2429) is an input.
- The `pageXOffset || scrollLeft` fallback (content.js:2273-2274) is an input too.
- WorkProgress.TooltipRoundTrip: the read-back holds for exact rational percentages only. The program computes the marker position and the tooltip minute in doubles, so its read-back can land one minute early. For example, 10:39 can read back as 10:38.
- Floating point is left out:
  - percentages are exact rationals;
  - the `toFixed(1)` text and CSS percentage strings are left out;
  - cursor coordinates are integers, although a browser may report fractional `clientX`;
  - `JsText.ParseInt`, `JsText.IntToString` and `Tables.AdjustedColspan` use unbounded integers where JavaScript uses doubles. A colspan above 2^53 would lose precision, and `toString` writes values of 10^21 and above in exponent notation.
- The text of the status line is left out. Its numbers are modelled by `WorkProgress.Progress`.
- A string is a sequence of Unicode scalar values. JavaScript strings are sequences of UTF-16 code units. The two differ only for characters outside the Basic Multilingual Plane, which the model treats as one character where the program sees two:
  - the width-2 word filter (content.js:1975) and `padStart`;
  - the flip-card walk (content.js:1213-1215), which indexes by code unit, so such a character fills two cards;
  - the `(.)` of the date pattern (content.js:1564), which has no `u` flag and so matches one code unit, while `ModalTitle.DateMatchAt` matches one character.
- `wordCounts` is modelled as a map. A JavaScript object literal would also see inherited names such as `constructor` through its prototype.
- `Categories.SortByFrequency` is an insertion sort with adjacent swaps. The engine's own algorithm is not modelled. Because the sort is stable, any stable sort by the same comparator gives the same order, and the lemmas prove that order.
- The earlier definitions of `updateFlipClock` (content.js:734-830) and `updateWorkProgressBar` (content.js:833-999) are left out. Later declarations override them.
- The selector-based template removal (content.js:3000-3044) is left out. It relies on non-standard selector semantics.
- The `innerHTML` serialisation of the un-match element is left out. Contents are compared as the strings the page writes.
- Screenshot.Release: a `left` or `top` that does not parse gives no capture. The source would capture with a `NaN` coordinate. This cannot happen after a drag, because the handlers always write numbers.
- Screenshot.RegionSelector.MouseDown requires the overlay to be attached. Its listeners sit on the overlay, so they run only while it is in the document.
- Screenshot.RegionSelector.MouseMove requires the overlay to be attached, for the same reason.
- Screenshot.RegionSelector.MouseUp requires the overlay to be attached, for the same reason.
