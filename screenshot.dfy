/** The region screenshot: the drag-to-select overlay of
    `initScreenshotCapture` (content.js:2271-2377) and the crop arithmetic of
    `captureScreenshot` (content.js:2380-2452). Cursor positions, scroll
    offsets and the device pixel ratio are inputs; whether the element under
    the centre of the selection is fixed-positioned is an input too. */
module Screenshot {
  import opened Wrappers
  import opened JsText

  function Min(a: int, b: int): int {
    if a <= b then a else b
  }

  function Abs(a: int): nat {
    if a < 0 then -a else a
  }

  /** The selection rectangle in viewport pixels. */
  datatype Rect = Rect(left: int, top: int, width: nat, height: nat)

  /** The `area` handed to the capture: the rectangle and the scroll offsets
      recorded when the overlay was opened. */
  datatype Area = Area(x: int, y: int, w: int, h: int, scrollX: int, scrollY: int)

  /** The rectangle spanned by the drag start and the current cursor. */
  function SelectionRect(startX: int, startY: int, currentX: int, currentY: int): (r: Rect)
    ensures (r.left == startX && r.left + r.width == currentX)
         || (r.left == currentX && r.left + r.width == startX)
    ensures (r.top == startY && r.top + r.height == currentY)
         || (r.top == currentY && r.top + r.height == startY)
  {
    Rect(Min(startX, currentX), Min(startY, currentY), Abs(currentX - startX), Abs(currentY - startY))
  }

  /** Dragging from either corner selects the same rectangle. */
  lemma SelectionSymmetric(ax: int, ay: int, bx: int, bY: int)
    ensures SelectionRect(ax, ay, bx, bY) == SelectionRect(bx, bY, ax, ay)
    ensures SelectionRect(ax, ay, bx, bY) == SelectionRect(ax, bY, bx, ay)
  {
  }

  /** Small selections are treated as accidental clicks. */
  predicate Accepts(width: int, height: int) {
    width > 10 && height > 10
  }

  /** A CSS pixel length as the handlers write it. */
  function Px(n: int): string {
    IntToString(n) + "px"
  }

  lemma ParsePx(n: int)
    ensures ParseInt(Px(n)) == Some(n)
  {
    ParseIntRoundTrip(n, "px");
  }

  lemma ParseZero()
    ensures ParseInt("0") == Some(0)
  {
    ParseIntRoundTrip(0, "");
    assert IntToString(0) + "" == "0";
  }

  /** What `mouseup` makes of the selection's style once read back with
      `parseInt`: the area to capture, or nothing when the selection is too
      small (or a length is not a number, which `> 10` also rejects). */
  function Release(left: Option<int>, top: Option<int>, width: Option<int>, height: Option<int>,
                   scrollX: int, scrollY: int): (r: Option<Area>)
    ensures r.Some? ==> r.value.w > 10 && r.value.h > 10
    ensures r.Some? ==> r.value.scrollX == scrollX && r.value.scrollY == scrollY
    ensures width.Some? && height.Some? && !Accepts(width.value, height.value) ==> r.None?
  {
    match (left, top, width, height)
    case (Some(x), Some(y), Some(w), Some(h)) =>
      if Accepts(w, h) then Some(Area(x, y, w, h, scrollX, scrollY)) else None
    case _ => None
  }

  /** Reading the style back recovers the dragged rectangle exactly, and the
      capture happens exactly when both sides exceed 10 pixels. */
  lemma ReleaseAfterDrag(startX: int, startY: int, currentX: int, currentY: int, scrollX: int, scrollY: int)
    ensures var r := SelectionRect(startX, startY, currentX, currentY);
      Release(ParseInt(Px(r.left)), ParseInt(Px(r.top)), ParseInt(Px(r.width)), ParseInt(Px(r.height)), scrollX, scrollY)
      == if Accepts(r.width, r.height) then Some(Area(r.left, r.top, r.width, r.height, scrollX, scrollY)) else None
  {
    var r := SelectionRect(startX, startY, currentX, currentY);
    ParsePx(r.left);
    ParsePx(r.top);
    ParsePx(r.width);
    ParsePx(r.height);
  }

  /** The zero size written on `mousedown` never passes the size test. */
  lemma ReleaseWithoutMove(left: Option<int>, top: Option<int>, scrollX: int, scrollY: int)
    ensures Release(left, top, ParseInt("0"), ParseInt("0"), scrollX, scrollY) == None
  {
    ParseZero();
  }

  /** The overlay and its listeners. `attached` is whether the overlay is in
      the document; the mouse listeners sit on the overlay, so they run only
      while it is. */
  class RegionSelector {
    var attached: bool
    var isSelecting: bool
    var startX: int
    var startY: int
    var currentX: int
    var currentY: int
    /** The selection box's `style.left`, `top`, `width` and `height`. */
    var left: string
    var top: string
    var width: string
    var height: string
    var shown: bool
    /** The one-shot `keydown` listener is still registered. */
    var escapeArmed: bool
    const startScrollX: int
    const startScrollY: int

    /** Opening the overlay records the scroll position. */
    constructor (scrollX: int, scrollY: int)
      ensures attached && !isSelecting && !shown && escapeArmed
      ensures startScrollX == scrollX && startScrollY == scrollY
      ensures left == "" && top == "" && width == "" && height == ""
    {
      attached := true;
      isSelecting := false;
      startX, startY, currentX, currentY := 0, 0, 0, 0;
      left, top, width, height := "", "", "", "";
      shown := false;
      escapeArmed := true;
      startScrollX, startScrollY := scrollX, scrollY;
    }

    /** `mousedown`: start a selection of size zero at the cursor. */
    method MouseDown(clientX: int, clientY: int)
      requires attached
      modifies this
      ensures isSelecting && shown && startX == clientX && startY == clientY
      ensures left == Px(clientX) && top == Px(clientY) && width == "0" && height == "0"
      ensures attached == old(attached) && escapeArmed == old(escapeArmed)
      ensures currentX == old(currentX) && currentY == old(currentY)
    {
      isSelecting := true;
      startX, startY := clientX, clientY;
      left, top := Px(startX), Px(startY);
      width, height := "0", "0";
      shown := true;
    }

    /** `mousemove`: during a drag, the box spans the start and the cursor. */
    method MouseMove(clientX: int, clientY: int)
      requires attached
      modifies this
      ensures !old(isSelecting) ==> unchanged(this)
      ensures old(isSelecting) ==>
        var r := SelectionRect(startX, startY, clientX, clientY);
        && currentX == clientX && currentY == clientY
        && left == Px(r.left) && top == Px(r.top) && width == Px(r.width) && height == Px(r.height)
      ensures isSelecting == old(isSelecting) && attached == old(attached) && shown == old(shown)
      ensures startX == old(startX) && startY == old(startY) && escapeArmed == old(escapeArmed)
    {
      if !isSelecting {
        return;
      }
      currentX, currentY := clientX, clientY;
      var r := SelectionRect(startX, startY, currentX, currentY);
      left, top, width, height := Px(r.left), Px(r.top), Px(r.width), Px(r.height);
    }

    /** `mouseup`: end the drag, hand over the area when it is large enough,
        and remove the overlay. A release with no drag in progress is
        ignored. */
    method MouseUp() returns (captured: Option<Area>)
      requires attached
      modifies this
      ensures !isSelecting
      ensures !old(isSelecting) ==> captured.None? && unchanged(this)
      ensures old(isSelecting) ==>
        && captured == Release(ParseInt(left), ParseInt(top), ParseInt(width), ParseInt(height),
                               startScrollX, startScrollY)
        && !attached
      ensures left == old(left) && top == old(top) && width == old(width) && height == old(height)
      ensures startX == old(startX) && startY == old(startY) && currentX == old(currentX) && currentY == old(currentY)
      ensures shown == old(shown) && escapeArmed == old(escapeArmed)
    {
      if !isSelecting {
        return None;
      }
      isSelecting := false;
      captured := Release(ParseInt(left), ParseInt(top), ParseInt(width), ParseInt(height),
                          startScrollX, startScrollY);
      attached := false;
    }

    /** The `keydown` listener registered with `once`: the first key press of
        any kind removes it, and only an Escape that arrives first closes the
        overlay. */
    method KeyDown(key: string)
      modifies this
      ensures !escapeArmed
      ensures attached == (old(attached) && !(old(escapeArmed) && key == "Escape"))
      ensures isSelecting == old(isSelecting) && left == old(left) && top == old(top)
      ensures width == old(width) && height == old(height)
      ensures startX == old(startX) && startY == old(startY) && currentX == old(currentX) && currentY == old(currentY)
      ensures shown == old(shown)
    {
      if escapeArmed {
        escapeArmed := false;
        if key == "Escape" && attached {
          attached := false;
        }
      }
    }
  }

  /** A press, one move and a release capture the dragged rectangle exactly
      when both of its sides exceed 10 pixels. */
  method DragSelect(scrollX: int, scrollY: int, startX: int, startY: int, endX: int, endY: int)
    returns (captured: Option<Area>)
    ensures captured ==
      if Abs(endX - startX) > 10 && Abs(endY - startY) > 10
      then Some(Area(Min(startX, endX), Min(startY, endY), Abs(endX - startX), Abs(endY - startY), scrollX, scrollY))
      else None
  {
    var selector := new RegionSelector(scrollX, scrollY);
    selector.MouseDown(startX, startY);
    selector.MouseMove(endX, endY);
    captured := selector.MouseUp();
    ReleaseAfterDrag(startX, startY, endX, endY, scrollX, scrollY);
  }

  /** A click without a move selects nothing. */
  method ClickOnly(scrollX: int, scrollY: int, x: int, y: int) returns (captured: Option<Area>)
    ensures captured == None
  {
    var selector := new RegionSelector(scrollX, scrollY);
    selector.MouseDown(x, y);
    captured := selector.MouseUp();
    ReleaseWithoutMove(ParseInt(Px(x)), ParseInt(Px(y)), scrollX, scrollY);
  }

  /** Escape closes the overlay only when it is the first key pressed after
      the overlay opened. */
  method EscapeAfterOtherKey(scrollX: int, scrollY: int, other: string) returns (stillOpen: bool)
    requires other != "Escape"
    ensures stillOpen
  {
    var selector := new RegionSelector(scrollX, scrollY);
    selector.KeyDown(other);
    selector.KeyDown("Escape");
    stillOpen := selector.attached;
  }

  /** A key other than Escape pressed in the middle of a drag leaves the drag
      as it was: the release captures what the drag alone would capture. */
  method DragAcrossKeyPress(scrollX: int, scrollY: int, startX: int, startY: int, endX: int, endY: int, key: string)
    returns (captured: Option<Area>)
    requires key != "Escape"
    ensures captured ==
      if Abs(endX - startX) > 10 && Abs(endY - startY) > 10
      then Some(Area(Min(startX, endX), Min(startY, endY), Abs(endX - startX), Abs(endY - startY), scrollX, scrollY))
      else None
  {
    var selector := new RegionSelector(scrollX, scrollY);
    selector.MouseDown(startX, startY);
    selector.KeyDown(key);
    selector.MouseMove(endX, endY);
    captured := selector.MouseUp();
    ReleaseAfterDrag(startX, startY, endX, endY, scrollX, scrollY);
  }

  // ------------------------------------------------------------ crop

  /** The point probed for a fixed-positioned element: the centre of the
      selection. */
  function Center(area: Area): (c: (real, real))
    ensures area.w >= 0 ==> area.x as real <= c.0 <= (area.x + area.w) as real
    ensures area.h >= 0 ==> area.y as real <= c.1 <= (area.y + area.h) as real
  {
    (area.x as real + (area.w as real) / 2.0, area.y as real + (area.h as real) / 2.0)
  }

  /** Where the crop starts on the rendered page canvas, in device pixels:
      viewport coordinates for fixed content, page coordinates (viewport
      plus the scroll offset recorded at the start) otherwise. */
  function CropOrigin(area: Area, dpr: real, isFixed: bool): (real, real)
  {
    if isFixed then ((area.x as real) * dpr, (area.y as real) * dpr)
    else (((area.x + area.scrollX) as real) * dpr, ((area.y + area.scrollY) as real) * dpr)
  }

  /** The size of the crop in device pixels; it is drawn onto a canvas of
      `w` by `h` CSS pixels. */
  function CropSize(area: Area, dpr: real): (real, real)
  {
    ((area.w as real) * dpr, (area.h as real) * dpr)
  }

  /** The two crop choices differ by exactly the recorded scroll offset,
      scaled to device pixels, and coincide when the page was not scrolled. */
  lemma CropOffsetIsScroll(area: Area, dpr: real)
    ensures CropOrigin(area, dpr, false).0 - CropOrigin(area, dpr, true).0 == (area.scrollX as real) * dpr
    ensures CropOrigin(area, dpr, false).1 - CropOrigin(area, dpr, true).1 == (area.scrollY as real) * dpr
    ensures area.scrollX == 0 && area.scrollY == 0 ==> CropOrigin(area, dpr, false) == CropOrigin(area, dpr, true)
  {
    if area.scrollX == 0 && area.scrollY == 0 {
      assert (area.x + area.scrollX) as real == area.x as real;
      assert (area.y + area.scrollY) as real == area.y as real;
      var f, t := CropOrigin(area, dpr, false), CropOrigin(area, dpr, true);
      assert f.0 == t.0 && f.1 == t.1;
    }
  }

  /** The crop rectangle scales linearly with the device pixel ratio. */
  lemma CropScales(area: Area, dpr: real, isFixed: bool)
    ensures CropOrigin(area, dpr, isFixed).0 == CropOrigin(area, 1.0, isFixed).0 * dpr
    ensures CropOrigin(area, dpr, isFixed).1 == CropOrigin(area, 1.0, isFixed).1 * dpr
    ensures CropSize(area, dpr).0 == CropSize(area, 1.0).0 * dpr
    ensures CropSize(area, dpr).1 == CropSize(area, 1.0).1 * dpr
  {
  }
}
