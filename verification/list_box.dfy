/**
 * The list box: a scrolling list of strings with one selected item. The
 * scroll bar's own state (floating-point value and range) is not
 * modelled; the list's `scroll` offset is, as are the places where the
 * list resets it. Selection callbacks are recorded in `selections`.
 */
module ListBox {
  import opened Common
  import opened WidgetBase

  const ScrollBarWidth: int := 20
  const DefaultItemHeight: int := 25

  datatype List = List(
    width: int, height: int,
    items: seq<string>, selected: int, scroll: int,
    itemHeight: int, visible: int, hovered: int,
    hasCallback: bool, selections: seq<(int, string)>)

  /** The constructor: empty, nothing selected, 25-pixel rows. */
  function New(width: int, height: int, hasCallback: bool): (l: List)
    ensures l.items == [] && l.selected == -1 && l.scroll == 0 && l.hovered == -1
    ensures l.itemHeight == DefaultItemHeight && l.visible == CDiv(height - 2, DefaultItemHeight)
    ensures l.selections == []
  {
    List(width, height, [], -1, 0, DefaultItemHeight, CDiv(height - 2, DefaultItemHeight), -1, hasCallback, [])
  }

  /** The selection is an item index or -1. */
  predicate Valid(l: List) {
    -1 <= l.selected < |l.items| && l.itemHeight != 0
  }

  /** The item the selection designates, if any (`getSelectedItem` returns "" for None). */
  function SelectedItem(l: List): (r: Option<string>)
    ensures r.Some? <==> 0 <= l.selected < |l.items|
    ensures r.Some? ==> r.value == l.items[l.selected]
  {
    if 0 <= l.selected < |l.items| then Some(l.items[l.selected]) else None
  }

  /** `getSelectedItem`. */
  function GetSelectedItem(l: List): (r: string)
    ensures 0 <= l.selected < |l.items| ==> r == l.items[l.selected]
    ensures !(0 <= l.selected < |l.items|) ==> r == ""
  {
    SelectedItem(l).GetOr("")
  }

  /**
   * The items overflow the visible rows. The source compares the item
   * count with the row count cast to an unsigned size, so a negative row
   * count (a negative row height) becomes huge and nothing overflows.
   */
  predicate Overflows(l: List) {
    l.visible >= 0 && |l.items| > l.visible
  }

  /** `updateScrollBar`: when every item fits, scroll back to the top. */
  function UpdateScroll(l: List): (r: List)
    ensures 0 <= l.visible && |l.items| > l.visible ==> r == l
    ensures l.visible < 0 || |l.items| <= l.visible ==> r == l.(scroll := 0)
  {
    if Overflows(l) then l else l.(scroll := 0)
  }

  /** `addItem`. */
  function AddItem(l: List, item: string): (r: List)
    ensures r.items == l.items + [item] && r.selected == l.selected
    ensures r.scroll == (if l.visible < 0 || |r.items| <= l.visible then 0 else l.scroll)
  {
    UpdateScroll(l.(items := l.items + [item]))
  }

  /** `removeItem`: erase, and keep the selection on the same item when it survives. */
  function RemoveItem(l: List, index: int): (r: List)
    ensures !(0 <= index < |l.items|) ==> r == l
    ensures 0 <= index < |l.items| ==>
      r.items == RemoveAt(l.items, index) &&
      r.selected == (if l.selected == index then -1 else if l.selected > index then l.selected - 1 else l.selected)
  {
    if 0 <= index < |l.items| then
      var sel := if l.selected == index then -1 else if l.selected > index then l.selected - 1 else l.selected;
      UpdateScroll(l.(items := RemoveAt(l.items, index), selected := sel))
    else l
  }

  /** `clearItems`. */
  function ClearItems(l: List): (r: List)
    ensures r.items == [] && r.selected == -1 && r.scroll == 0
    ensures r.visible == l.visible && r.itemHeight == l.itemHeight
  {
    UpdateScroll(l.(items := [], selected := -1, scroll := 0))
  }

  /** `setSelectedIndex`: -1..n-1 accepted; the list scrolls the selection into view. */
  function SetSelectedIndex(l: List, index: int): (r: List)
    ensures !(-1 <= index < |l.items|) ==> r == l
    ensures -1 <= index < |l.items| ==> r.selected == index && r.items == l.items
    ensures 0 <= index < |l.items| && l.visible >= 1 ==> r.scroll <= index < r.scroll + l.visible
    ensures 0 <= index < |l.items| && l.scroll <= index < l.scroll + l.visible ==> r.scroll == l.scroll
    ensures index == -1 ==> r == l.(selected := -1)
  {
    if -1 <= index < |l.items| then
      var s := l.(selected := index);
      if index >= 0 then
        if index < l.scroll then s.(scroll := index)
        else if index >= l.scroll + l.visible then s.(scroll := index - l.visible + 1)
        else s
      else s
    else l
  }

  /** `setItemHeight`: the number of visible rows is recomputed (C++ division by zero is not allowed). */
  function SetItemHeight(l: List, h: int): (r: List)
    requires h != 0
    ensures r.itemHeight == h && r.visible == CDiv(l.height - 2, h)
    ensures r.items == l.items && r.selected == l.selected
    ensures r.visible < 0 || |l.items| <= r.visible ==> r.scroll == 0
    ensures 0 <= r.visible < |l.items| ==> r.scroll == l.scroll
  {
    UpdateScroll(l.(itemHeight := h, visible := CDiv(l.height - 2, h)))
  }

  /** Inside the item area: the widget minus its 1-pixel border and the scroll bar strip. */
  predicate InContent(l: List, absX: int, absY: int, mouseX: int, mouseY: int) {
    InRect(mouseX, mouseY, absX + 1, absY + 1, l.width - ScrollBarWidth - 2, l.height - 2)
  }

  /** `getItemIndexAtPosition`: the item on the row under the mouse, or -1. */
  function ItemAt(l: List, absX: int, absY: int, mouseX: int, mouseY: int): (r: int)
    requires l.itemHeight != 0
    ensures -1 <= r < |l.items|
    ensures r >= 0 ==> InContent(l, absX, absY, mouseX, mouseY)
  {
    if mouseX < absX + 1 || mouseX >= absX + l.width - ScrollBarWidth - 1 ||
       mouseY < absY + 1 || mouseY >= absY + l.height - 1 then -1
    else
      var index := l.scroll + CDiv(mouseY - (absY + 1), l.itemHeight);
      if 0 <= index < |l.items| then index else -1
  }

  /** The scroll bar is shown, and takes clicks in its strip, only when the items overflow. */
  predicate OnScrollBar(l: List, absX: int, mouseX: int) {
    Overflows(l) && absX + l.width - ScrollBarWidth <= mouseX < absX + l.width
  }

  /**
   * `handleMouseButton`: an event on the shown scroll bar's strip belongs
   * to the bar, whose change callback takes a track press's offset as the
   * new scroll; a press on an item selects it and reports it.
   */
  function MouseButton(l: List, absX: int, absY: int, mouseX: int, mouseY: int, pressed: bool, bar: BarResponse): (r: List)
    requires l.itemHeight != 0
    ensures OnScrollBar(l, absX, mouseX) && pressed && bar.TrackJump? ==> r == l.(scroll := bar.offset)
    ensures OnScrollBar(l, absX, mouseX) && (!pressed || bar.BarOnly?) ==> r == l
    ensures !pressed || ItemAt(l, absX, absY, mouseX, mouseY) < 0 ==> r == l.(scroll := r.scroll)
    ensures !OnScrollBar(l, absX, mouseX) && (!pressed || ItemAt(l, absX, absY, mouseX, mouseY) < 0) ==> r == l
    ensures !OnScrollBar(l, absX, mouseX) && pressed && ItemAt(l, absX, absY, mouseX, mouseY) >= 0 ==>
      var i := ItemAt(l, absX, absY, mouseX, mouseY);
      r.selected == i && r.items == l.items && r.scroll == l.scroll &&
      r.selections == l.selections + (if l.hasCallback then [(i, l.items[i])] else [])
  {
    if OnScrollBar(l, absX, mouseX) then
      if pressed && bar.TrackJump? then l.(scroll := bar.offset) else l
    else if !pressed then l
    else
      var i := ItemAt(l, absX, absY, mouseX, mouseY);
      if 0 <= i < |l.items| then
        l.(selected := i, selections := l.selections + (if l.hasCallback then [(i, l.items[i])] else []))
      else l
  }

  /** `checkHover`: the row under the mouse, -1 outside the list or over the scroll bar strip. */
  function CheckHover(l: List, absX: int, absY: int, mouseX: int, mouseY: int): (r: List)
    requires l.itemHeight != 0
    ensures r == l.(hovered := r.hovered)
    ensures -1 <= r.hovered < |l.items|
    ensures !InRect(mouseX, mouseY, absX, absY, l.width - ScrollBarWidth, l.height) ==> r.hovered == -1
  {
    if mouseX >= absX && mouseX < absX + l.width - ScrollBarWidth && mouseY >= absY && mouseY < absY + l.height
    then l.(hovered := ItemAt(l, absX, absY, mouseX, mouseY))
    else l.(hovered := -1)
  }

  /*
   * Lemmas.
   */

  /** Every operation keeps the selection an index or -1. */
  lemma ValidKept(l: List, item: string, index: int, h: int, absX: int, absY: int, mx: int, my: int, pressed: bool, bar: BarResponse)
    requires Valid(l)
    ensures Valid(AddItem(l, item)) && Valid(RemoveItem(l, index)) && Valid(ClearItems(l))
    ensures Valid(SetSelectedIndex(l, index))
    ensures h != 0 ==> Valid(SetItemHeight(l, h))
    ensures Valid(MouseButton(l, absX, absY, mx, my, pressed, bar))
  {
  }

  /** Removing an item other than the selected one keeps the same item selected. */
  lemma RemoveKeepsSelection(l: List, index: int)
    requires Valid(l) && 0 <= index < |l.items| && l.selected != index
    ensures SelectedItem(RemoveItem(l, index)) == SelectedItem(l)
  {
  }

  /** Removing the selected item leaves nothing selected. */
  lemma RemoveSelected(l: List)
    requires Valid(l) && 0 <= l.selected < |l.items|
    ensures SelectedItem(RemoveItem(l, l.selected)).None?
  {
  }

  /** Appending never changes which item is selected. */
  lemma AddKeepsSelection(l: List, item: string)
    requires Valid(l)
    ensures SelectedItem(AddItem(l, item)) == SelectedItem(l)
  {
  }

  /**
   * Hit-testing inverts the row layout: inside the item area, the mouse is
   * over item i exactly when it lies in row i - scroll, provided that item
   * exists and is not above the scroll offset.
   */
  lemma ItemAtIsRow(l: List, absX: int, absY: int, mouseX: int, mouseY: int, i: int)
    requires l.itemHeight > 0 && InContent(l, absX, absY, mouseX, mouseY)
    requires l.scroll <= i < |l.items| && 0 <= i
    ensures ItemAt(l, absX, absY, mouseX, mouseY) == i <==>
      absY + 1 + (i - l.scroll) * l.itemHeight <= mouseY < absY + 1 + (i - l.scroll + 1) * l.itemHeight
  {
    DivBand(mouseY - (absY + 1), l.itemHeight, i - l.scroll);
  }

  /** Selecting by index and then reading back gives that item. */
  lemma SelectThenGet(l: List, index: int)
    requires 0 <= index < |l.items|
    ensures GetSelectedItem(SetSelectedIndex(l, index)) == l.items[index]
  {
  }
}
