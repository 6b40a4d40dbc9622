/** The un-match warning keeper (`monitorUnmatchTime`,
    content.js:3443-3469): it remembers the last non-empty content of the
    `#un-match-time` element and puts it back when the page empties the
    element. Contents are the element's `innerHTML` strings; `styled` is
    whether it carries the `enhanced-warning` class. */
module Unmatch {
  import opened JsText

  datatype Monitor = Monitor(original: string, isUnmatched: bool, content: string, styled: bool)

  /** The state right after the element is found. */
  function Start(html: string): (m: Monitor)
    ensures m.content == m.original == html
    ensures m.isUnmatched <==> !AllJsSpace(html)
    ensures m.styled == m.isUnmatched
  {
    TrimProperties(html);
    var unmatched := !Blank(html);
    Monitor(html, unmatched, html, unmatched)
  }

  /** `html.trim() === ''`. */
  predicate Blank(html: string) {
    Trim(html) == ""
  }

  /** `checkAndRestoreContent`. */
  function Check(m: Monitor): Monitor
  {
    if m.isUnmatched && Blank(m.content) then
      m.(content := m.original)
    else if !Blank(m.content) && m.content != m.original then
      m.(original := m.content, isUnmatched := true, styled := true)
    else
      m
  }

  /** The page replaces the element's content. */
  function HostWrite(m: Monitor, html: string): Monitor
  {
    m.(content := html)
  }

  /** The monitor remembers a warning exactly when the remembered content is
      not blank, and the element is styled exactly then. */
  ghost predicate Inv(m: Monitor) {
    (m.isUnmatched <==> !Blank(m.original)) && m.styled == m.isUnmatched
  }

  lemma StartInv(html: string)
    ensures Inv(Start(html))
  {
  }

  /** Both steps keep the invariant. */
  lemma CheckInv(m: Monitor)
    requires Inv(m)
    ensures Inv(Check(m))
  {
  }

  lemma HostWriteInv(m: Monitor, html: string)
    requires Inv(m)
    ensures Inv(HostWrite(m, html))
  {
  }

  /** Once a warning has been seen, the monitor never forgets it. */
  lemma CheckMonotone(m: Monitor)
    ensures m.isUnmatched ==> Check(m).isUnmatched
    ensures m.styled ==> Check(m).styled
  {
  }

  /** After a check, a remembered warning is what the element shows, and it
      is not blank. */
  lemma CheckRestores(m: Monitor)
    requires Inv(m)
    ensures Check(m).isUnmatched ==> Check(m).content == Check(m).original
    ensures Check(m).isUnmatched ==> !Blank(Check(m).content)
  {
  }

  /** A check when the element still shows the remembered content changes
      nothing. */
  lemma CheckNoOp(m: Monitor)
    requires m.content == m.original
    ensures Check(m) == m
  {
  }

  /** Checking twice is checking once. */
  lemma CheckIdempotent(m: Monitor)
    requires Inv(m)
    ensures Check(Check(m)) == Check(m)
  {
    CheckInv(m);
    CheckRestores(m);
  }

  /** Without any remembered warning, blank content is left alone. */
  lemma CheckLeavesBlank(m: Monitor)
    requires !m.isUnmatched && Blank(m.content)
    ensures Check(m) == m
  {
  }

  /** What can happen to the element between checks. */
  datatype Event = Checked | Written(html: string)

  function Step(m: Monitor, e: Event): Monitor
  {
    match e
    case Checked => Check(m)
    case Written(html) => HostWrite(m, html)
  }

  /** The state after a run of events, in order. */
  function Run(m: Monitor, events: seq<Event>): Monitor
    decreases |events|
  {
    if events == [] then m else Run(Step(m, events[0]), events[1..])
  }

  /** The invariant holds in every state reachable from the start. */
  lemma {:induction false} RunKeepsInv(m: Monitor, events: seq<Event>)
    requires Inv(m)
    ensures Inv(Run(m, events))
    decreases |events|
  {
    if events != [] {
      match events[0] {
        case Checked => CheckInv(m);
        case Written(html) => HostWriteInv(m, html);
      }
      RunKeepsInv(Step(m, events[0]), events[1..]);
    }
  }

  /** A warning, once seen, stays remembered and styled through any run. */
  lemma {:induction false} RunMonotone(m: Monitor, events: seq<Event>)
    ensures m.isUnmatched ==> Run(m, events).isUnmatched
    ensures m.styled ==> Run(m, events).styled
    decreases |events|
  {
    if events != [] {
      CheckMonotone(m);
      RunMonotone(Step(m, events[0]), events[1..]);
    }
  }

  /** The element and the closure state of `monitorUnmatchTime`; its
      methods follow `Start`, `Check` and `HostWrite`, so the lemmas above
      hold of every run. */
  class UnmatchMonitor {
    var originalContent: string
    var isUnmatched: bool
    var innerHtml: string
    var enhancedWarning: bool

    function State(): Monitor
      reads this
    {
      Monitor(originalContent, isUnmatched, innerHtml, enhancedWarning)
    }

    constructor (html: string)
      ensures State() == Start(html)
    {
      originalContent := html;
      isUnmatched := !Blank(html);
      innerHtml := html;
      enhancedWarning := isUnmatched;
    }

    /** `checkAndRestoreContent`, run by the observers and the change
        listeners. */
    method CheckAndRestoreContent()
      modifies this
      ensures State() == Check(old(State()))
    {
      var blank := Blank(innerHtml);
      if isUnmatched && blank {
        innerHtml := originalContent;
      } else if !blank && innerHtml != originalContent {
        originalContent := innerHtml;
        isUnmatched := true;
        enhancedWarning := true;
      }
    }

    /** The page rewrites the element. */
    method SetInnerHtml(html: string)
      modifies this
      ensures State() == HostWrite(old(State()), html)
    {
      innerHtml := html;
    }
  }
}
