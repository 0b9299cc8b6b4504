/**
 * The tabbed panel: a header row of equal-width tabs above a content area
 * that shows the active tab's panel. Panels are identified by their index;
 * events forwarded to a panel are recorded in `forwarded` rather than
 * handled.
 */
module TabbedPanel {
  import opened Common
  import opened WidgetBase

  datatype Event = Move(x: int, y: int) | Button(x: int, y: int, pressed: bool) | Char(code: int) | Key(key: int, pressed: bool)

  datatype Delivery = Delivery(panel: nat, event: Event)

  /** A tab: its name and the frame of its content panel. */
  datatype Tab = Tab(name: string, panel: Frame)

  datatype Tabs = Tabs(
    width: int, height: int, headerHeight: int,
    tabs: seq<Tab>, active: int, forwarded: seq<Delivery>)

  /** The constructor: no tabs and no active tab. */
  function New(width: int, height: int, headerHeight: int): (t: Tabs)
    ensures t.active == -1 && t.tabs == [] && t.forwarded == []
  {
    Tabs(width, height, headerHeight, [], -1, [])
  }

  /** The state every operation keeps: an active tab exactly when there are tabs. */
  predicate Valid(t: Tabs) {
    if |t.tabs| == 0 then t.active == -1 else 0 <= t.active < |t.tabs|
  }

  /**
   * `addTab`: the panel is moved and sized to fill the content area under
   * the header, whatever its frame was, so only that frame is kept; the
   * first tab becomes active.
   */
  function AddTab(t: Tabs, name: string): (r: Tabs)
    ensures |r.tabs| == |t.tabs| + 1 && r.tabs[..|t.tabs|] == t.tabs
    ensures r.tabs[|t.tabs|] == Tab(name, Frame(1, t.headerHeight + 1, t.width - 2, t.height - t.headerHeight - 2))
    ensures r.active == if t.active == -1 then 0 else t.active
    ensures r.forwarded == t.forwarded
  {
    var placed := Frame(1, t.headerHeight + 1, t.width - 2, t.height - t.headerHeight - 2);
    t.(tabs := t.tabs + [Tab(name, placed)], active := if t.active == -1 then 0 else t.active)
  }

  /** `switchToTab`: only an existing tab can become active. */
  function SwitchToTab(t: Tabs, index: int): (r: Tabs)
    ensures 0 <= index < |t.tabs| ==> r == t.(active := index)
    ensures !(0 <= index < |t.tabs|) ==> r == t
  {
    if 0 <= index < |t.tabs| then t.(active := index) else t
  }

  /** `getActivePanel`: the active panel's index, or None (the null pointer). */
  function ActivePanel(t: Tabs): (r: Option<nat>)
    ensures r.None? <==> !(0 <= t.active < |t.tabs|)
    ensures r.Some? ==> r.value == t.active
  {
    if 0 <= t.active < |t.tabs| then Some(t.active as nat) else None
  }

  /** `getTabWidth`: the width shared equally by the tabs (C++ integer division). */
  function TabWidth(t: Tabs): (w: int)
    ensures |t.tabs| == 0 ==> w == 0
    ensures |t.tabs| > 0 && t.width >= 0 ==> 0 <= w * |t.tabs| <= t.width < (w + 1) * |t.tabs|
  {
    if |t.tabs| == 0 then 0 else CDiv(t.width, |t.tabs|)
  }

  /** `getClickedTab`: the tab under the mouse in the header row, or -1. */
  function ClickedTab(t: Tabs, absX: int, absY: int, mouseX: int, mouseY: int): (r: int)
    ensures -1 <= r < |t.tabs|
    ensures r >= 0 ==> InRect(mouseX, mouseY, absX, absY, t.width, t.headerHeight)
    ensures TabWidth(t) == 0 ==> r == -1
  {
    if mouseY < absY || mouseY >= absY + t.headerHeight then -1
    else if mouseX < absX || mouseX >= absX + t.width then -1
    else
      var tw := TabWidth(t);
      if tw == 0 then -1
      else
        var index := CDiv(mouseX - absX, tw);
        if 0 <= index < |t.tabs| then index else -1
  }

  /** Deliver an event to the active panel, if there is one. */
  function Forward(t: Tabs, e: Event): (r: Tabs)
    ensures ActivePanel(t).Some? ==> r == t.(forwarded := t.forwarded + [Delivery(t.active as nat, e)])
    ensures ActivePanel(t).None? ==> r == t
  {
    match ActivePanel(t)
    case Some(i) => t.(forwarded := t.forwarded + [Delivery(i, e)])
    case None => t
  }

  /** `handleMouseButton`: a press on a tab header switches tabs; everything else goes to the active panel. */
  function MouseButton(t: Tabs, absX: int, absY: int, mouseX: int, mouseY: int, pressed: bool): (r: Tabs)
    ensures pressed && ClickedTab(t, absX, absY, mouseX, mouseY) != -1 ==>
      r == t.(active := ClickedTab(t, absX, absY, mouseX, mouseY))
    ensures !(pressed && ClickedTab(t, absX, absY, mouseX, mouseY) != -1) ==>
      r == Forward(t, Button(mouseX, mouseY, pressed))
  {
    var clicked := if pressed then ClickedTab(t, absX, absY, mouseX, mouseY) else -1;
    if clicked != -1 then SwitchToTab(t, clicked)
    else Forward(t, Button(mouseX, mouseY, pressed))
  }

  /** `handleMouseMove` only forwards. */
  function MouseMove(t: Tabs, mouseX: int, mouseY: int): (r: Tabs)
    ensures r == Forward(t, Move(mouseX, mouseY))
    ensures r.active == t.active && r.tabs == t.tabs
  {
    Forward(t, Move(mouseX, mouseY))
  }

  /** `handleChar` only forwards. */
  function HandleChar(t: Tabs, code: int): (r: Tabs)
    ensures r == Forward(t, Char(code))
    ensures r.active == t.active && r.tabs == t.tabs
  {
    Forward(t, Char(code))
  }

  /** `handleKey` only forwards, presses and releases alike. */
  function HandleKey(t: Tabs, key: int, pressed: bool): (r: Tabs)
    ensures r == Forward(t, Key(key, pressed))
    ensures r.active == t.active && r.tabs == t.tabs
  {
    Forward(t, Key(key, pressed))
  }

  /*
   * Lemmas.
   */

  /** Every operation keeps the tab state valid. */
  lemma ValidKept(t: Tabs, name: string, index: int, absX: int, absY: int, mx: int, my: int, code: int, key: int, pressed: bool)
    requires Valid(t)
    ensures Valid(AddTab(t, name))
    ensures Valid(SwitchToTab(t, index))
    ensures Valid(MouseButton(t, absX, absY, mx, my, pressed))
    ensures Valid(MouseMove(t, mx, my)) && Valid(HandleChar(t, code)) && Valid(HandleKey(t, key, pressed))
  {
  }

  /** Adding tabs to a new panel: the first added tab is active from then on. */
  lemma FirstTabActive(t: Tabs, name: string)
    requires Valid(t) && |t.tabs| > 0
    ensures AddTab(t, name).active == t.active
    ensures AddTab(New(t.width, t.height, t.headerHeight), name).active == 0
  {
  }

  /**
   * A press in the header row switches to tab i exactly when it lands in
   * tab i's band [absX + i*tw, absX + (i+1)*tw).
   */
  lemma ClickedTabIsBand(t: Tabs, absX: int, absY: int, mouseX: int, mouseY: int, i: int)
    requires 0 <= i < |t.tabs| && TabWidth(t) > 0
    requires InRect(mouseX, mouseY, absX, absY, t.width, t.headerHeight)
    ensures ClickedTab(t, absX, absY, mouseX, mouseY) == i <==>
      absX + i * TabWidth(t) <= mouseX < absX + (i + 1) * TabWidth(t)
  {
    DivBand(mouseX - absX, TabWidth(t), i);
  }
}
