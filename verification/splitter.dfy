/**
 * The splitter: two panels either side of a draggable divider. Panel
 * frames are relative to the splitter; the splitter's absolute position
 * (the parent-chain sum of `WidgetBase`) is passed to the mouse handlers.
 * Events the splitter forwards to its panels are not modelled.
 */
module Splitter {
  import opened Common
  import opened WidgetBase

  datatype Orientation = Horizontal | Vertical

  datatype Splitter = Splitter(
    width: int, height: int, orientation: Orientation,
    divider: int, dividerWidth: int, minPanel: int,
    dragging: bool, hovering: bool,
    first: Frame, second: Frame)

  /** The extent the divider moves along: the width for a horizontal splitter, the height otherwise. */
  function Span(s: Splitter): int {
    if s.orientation == Horizontal then s.width else s.height
  }

  /**
   * The clamp of `setDividerPosition` and of a drag: raise to the minimum
   * panel size, then lower to leave the second panel its minimum. When the
   * two bounds cross, the upper one wins.
   */
  function Clamp(pos: int, minPanel: int, span: int, dividerWidth: int): (r: int)
    ensures r <= span - dividerWidth - minPanel
    ensures minPanel <= span - dividerWidth - minPanel ==> minPanel <= r
    ensures minPanel <= pos <= span - dividerWidth - minPanel ==> r == pos
    ensures pos < minPanel ==> r == Min(minPanel, span - dividerWidth - minPanel)
    ensures pos > span - dividerWidth - minPanel ==> r == span - dividerWidth - minPanel
  {
    Min(span - dividerWidth - minPanel, Max(minPanel, pos))
  }

  /** `updatePanelSizes`: the panels as a function of the divider. */
  function UpdatePanels(s: Splitter): (r: Splitter)
    ensures r == s.(first := r.first, second := r.second)
    ensures r.first.x == 0 && r.first.y == 0
    ensures s.orientation == Horizontal ==>
      r.first.width == s.divider && r.second.x == s.divider + s.dividerWidth && r.second.y == 0 &&
      r.first.height == r.second.height == s.height &&
      r.first.width + s.dividerWidth + r.second.width == s.width
    ensures s.orientation == Vertical ==>
      r.first.height == s.divider && r.second.y == s.divider + s.dividerWidth && r.second.x == 0 &&
      r.first.width == r.second.width == s.width &&
      r.first.height + s.dividerWidth + r.second.height == s.height
  {
    if s.orientation == Horizontal then
      s.(first := Frame(0, 0, s.divider, s.height),
         second := Frame(s.divider + s.dividerWidth, 0, s.width - s.divider - s.dividerWidth, s.height))
    else
      s.(first := Frame(0, 0, s.width, s.divider),
         second := Frame(0, s.divider + s.dividerWidth, s.width, s.height - s.divider - s.dividerWidth))
  }

  /** The panels agree with the divider. */
  predicate PanelsFit(s: Splitter) {
    UpdatePanels(s) == s
  }

  /** The constructor: a 6-pixel divider in the middle, 50-pixel minimum panels. */
  function New(width: int, height: int, orientation: Orientation): (s: Splitter)
    ensures PanelsFit(s)
    ensures s.divider == (if orientation == Horizontal then CDiv(width, 2) else CDiv(height, 2))
    ensures s.dividerWidth == 6 && s.minPanel == 50 && !s.dragging && !s.hovering
  {
    var divider := if orientation == Horizontal then CDiv(width, 2) else CDiv(height, 2);
    UpdatePanels(Splitter(width, height, orientation, divider, 6, 50, false, false,
                          Frame(0, 0, 1, 1), Frame(0, 0, 1, 1)))
  }

  /** `isMouseOnDivider`: the half-open divider band across the whole splitter. */
  function OnDivider(s: Splitter, absX: int, absY: int, mouseX: int, mouseY: int): (r: bool)
    ensures s.orientation == Horizontal ==>
      (r <==> InRect(mouseX, mouseY, absX + s.divider, absY, s.dividerWidth, s.height))
    ensures s.orientation == Vertical ==>
      (r <==> InRect(mouseX, mouseY, absX, absY + s.divider, s.width, s.dividerWidth))
  {
    if s.orientation == Horizontal then
      var d := absX + s.divider;
      mouseX >= d && mouseX < d + s.dividerWidth && mouseY >= absY && mouseY < absY + s.height
    else
      var d := absY + s.divider;
      mouseY >= d && mouseY < d + s.dividerWidth && mouseX >= absX && mouseX < absX + s.width
  }

  /** `setDividerPosition`. */
  function SetDividerPosition(s: Splitter, position: int): (r: Splitter)
    ensures PanelsFit(r)
    ensures r.divider == Clamp(position, s.minPanel, Span(s), s.dividerWidth)
    ensures r == UpdatePanels(s.(divider := r.divider))
  {
    UpdatePanels(s.(divider := Clamp(position, s.minPanel, Span(s), s.dividerWidth)))
  }

  /** `handleMouseMove`: track hovering, and while dragging move the divider under the mouse. */
  function MouseMove(s: Splitter, absX: int, absY: int, mouseX: int, mouseY: int): (r: Splitter)
    ensures r.hovering == OnDivider(s, absX, absY, mouseX, mouseY)
    ensures r.dragging == s.dragging
    ensures !s.dragging ==> r == s.(hovering := r.hovering)
    ensures s.dragging ==> r.divider == Clamp(
      (if s.orientation == Horizontal then mouseX - absX else mouseY - absY) - CDiv(s.dividerWidth, 2),
      s.minPanel, Span(s), s.dividerWidth)
    ensures PanelsFit(s) ==> PanelsFit(r)
  {
    var h := s.(hovering := OnDivider(s, absX, absY, mouseX, mouseY));
    HoverKeepsFit(s, h.hovering);
    if !s.dragging then h
    else DragTo(h, if s.orientation == Horizontal then mouseX - absX else mouseY - absY)
  }

  /** The drag step of `handleMouseMove`: the divider follows the mouse at `along`, centred, clamped; the panels follow when it moved. */
  function DragTo(s: Splitter, along: int): (r: Splitter)
    ensures r.divider == Clamp(along - CDiv(s.dividerWidth, 2), s.minPanel, Span(s), s.dividerWidth)
    ensures r == s.(divider := r.divider, first := r.first, second := r.second)
    ensures PanelsFit(s) ==> PanelsFit(r)
  {
    var pos := Clamp(along - CDiv(s.dividerWidth, 2), s.minPanel, Span(s), s.dividerWidth);
    if pos != s.divider then UpdatePanels(s.(divider := pos)) else s
  }

  /** `handleMouseButton`: a press on the divider starts a drag, any release ends it. */
  function MouseButton(s: Splitter, absX: int, absY: int, mouseX: int, mouseY: int, pressed: bool): (r: Splitter)
    ensures r == s.(dragging := r.dragging)
    ensures pressed ==> r.dragging == (s.dragging || OnDivider(s, absX, absY, mouseX, mouseY))
    ensures !pressed ==> !r.dragging
  {
    if pressed then
      if OnDivider(s, absX, absY, mouseX, mouseY) then s.(dragging := true) else s
    else s.(dragging := false)
  }

  /** `setMinPanelSize`: the divider is not re-clamped. */
  function SetMinPanelSize(s: Splitter, size: int): (r: Splitter)
    ensures r.minPanel == size && r.divider == s.divider && PanelsFit(r)
  {
    UpdatePanels(s.(minPanel := size))
  }

  /** `setDividerWidth`: the divider is not re-clamped. */
  function SetDividerWidth(s: Splitter, w: int): (r: Splitter)
    ensures r.dividerWidth == w && r.divider == s.divider && PanelsFit(r)
  {
    UpdatePanels(s.(dividerWidth := w))
  }

  /*
   * Lemmas.
   */

  /** Hovering does not bear on the panels. */
  lemma HoverKeepsFit(s: Splitter, hovering: bool)
    ensures PanelsFit(s) ==> PanelsFit(s.(hovering := hovering))
  {
  }

  /** Clamping is idempotent. */
  lemma ClampIdempotent(pos: int, minPanel: int, span: int, dw: int)
    ensures Clamp(Clamp(pos, minPanel, span, dw), minPanel, span, dw) == Clamp(pos, minPanel, span, dw)
  {
  }

  /**
   * When the splitter is large enough for two minimum panels and the
   * divider, any requested position leaves both panels at least the
   * minimum size, and the panels with the divider tile the splitter.
   */
  lemma SetPositionRespectsMinimum(s: Splitter, position: int)
    requires s.minPanel <= Span(s) - s.dividerWidth - s.minPanel
    ensures var r := SetDividerPosition(s, position);
      if s.orientation == Horizontal then
        r.first.width >= s.minPanel && r.second.width >= s.minPanel &&
        r.second.x == r.first.x + r.first.width + s.dividerWidth
      else
        r.first.height >= s.minPanel && r.second.height >= s.minPanel &&
        r.second.y == r.first.y + r.first.height + s.dividerWidth
  {
  }

  /** A drag puts the divider where `setDividerPosition` would for the same point. */
  lemma DragMatchesSet(s: Splitter, absX: int, absY: int, mouseX: int, mouseY: int)
    requires s.dragging && PanelsFit(s)
    ensures var along := if s.orientation == Horizontal then mouseX - absX else mouseY - absY;
      var r := MouseMove(s, absX, absY, mouseX, mouseY);
      r == SetDividerPosition(s, along - CDiv(s.dividerWidth, 2)).(hovering := r.hovering)
  {
  }

  /** Press on the divider, move, release: the drag ends with the divider moved. */
  lemma DragSession(s: Splitter, absX: int, absY: int, x0: int, y0: int, x1: int, y1: int)
    requires !s.dragging && PanelsFit(s) && OnDivider(s, absX, absY, x0, y0)
    ensures var p := MouseButton(s, absX, absY, x0, y0, true);
      var m := MouseMove(p, absX, absY, x1, y1);
      var q := MouseButton(m, absX, absY, x1, y1, false);
      p.dragging && !q.dragging && PanelsFit(q) &&
      q.divider == Clamp((if s.orientation == Horizontal then x1 - absX else y1 - absY) - CDiv(s.dividerWidth, 2),
                         s.minPanel, Span(s), s.dividerWidth)
  {
    var p := MouseButton(s, absX, absY, x0, y0, true);
    assert p == s.(dragging := true);
    HoverKeepsFit(s.(dragging := true), false);
    assert PanelsFit(p);
  }
}
