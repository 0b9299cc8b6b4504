/**
 * A menu-bar header with a column of items below it. Its rows and
 * submenus behave as the cascade menu's do, from a column whose top is
 * the header's bottom edge. The operations take the header's absolute
 * position, which the menu bar supplies.
 */
module DropDownMenu {
  import opened Common
  import opened WidgetBase
  import ContextMenu
  import CascadeMenu

  const MenuWidth: int := 150

  datatype DropDown = DropDown(
    frame: Frame, title: string, isOpen: bool, hovered: bool,
    rows: CascadeMenu.Rows, menuWidth: int, fired: seq<int>)

  /** Only the active submenu is open, and a closed menu has none. */
  predicate Valid(d: DropDown) {
    CascadeMenu.RowsValid(d.rows) && CascadeMenu.OnlyActiveOpen(d.rows) && (!d.isOpen ==> d.rows.active == -1)
  }

  /** The constructor: closed, not hovered, no items, a 150-pixel column. */
  function New(title: string, width: int, height: int, x: int, y: int): (d: DropDown)
    ensures Valid(d) && !d.isOpen && !d.hovered && d.rows.items == [] && d.rows.active == -1
    ensures d.frame == Frame(x, y, width, height) && d.menuWidth == MenuWidth && d.fired == []
  {
    DropDown(Frame(x, y, width, height), title, false, false, CascadeMenu.Rows([], [], -1), MenuWidth, [])
  }

  /** `add`: append the item, indexed by its position, with its submenu if it has one. */
  function Add(d: DropDown, it: ContextMenu.Item, sub: Option<ContextMenu.Menu>): (r: DropDown)
    requires Valid(d) && (sub.Some? ==> !sub.value.isOpen)
    ensures Valid(r) && r == d.(rows := r.rows)
    ensures r.rows.items == d.rows.items + [it.(index := |d.rows.items|)] && r.rows.subs == d.rows.subs + [sub]
    ensures r.rows.active == d.rows.active
    ensures ContextMenu.Indexed(d.rows.items) ==> ContextMenu.Indexed(r.rows.items)
  {
    d.(rows := d.rows.(items := d.rows.items + [it.(index := |d.rows.items|)], subs := d.rows.subs + [sub]))
  }

  /** `toggle`: flip the open state; closing also closes the open submenu. */
  function Toggle(d: DropDown): (r: DropDown)
    requires Valid(d)
    ensures Valid(r) && r.isOpen == !d.isOpen
    ensures r.isOpen ==> r == d.(isOpen := true)
    ensures !r.isOpen ==> r.rows.active == -1 && r.rows.items == d.rows.items
  {
    if d.isOpen then d.(isOpen := false, rows := CascadeMenu.CloseActiveSubmenu(d.rows))
    else d.(isOpen := true)
  }

  /** `open`. */
  function Open(d: DropDown): (r: DropDown)
    ensures Valid(d) ==> Valid(r)
    ensures r == d.(isOpen := true)
  {
    d.(isOpen := true)
  }

  /** `close`: closed, with no submenu open. */
  function Close(d: DropDown): (r: DropDown)
    requires CascadeMenu.RowsValid(d.rows) && CascadeMenu.OthersClosed(d.rows)
    ensures Valid(r) && !r.isOpen && r.rows.active == -1
    ensures forall i :: 0 <= i < |r.rows.subs| && r.rows.subs[i].Some? ==> !r.rows.subs[i].value.isOpen
    ensures r == d.(isOpen := false, rows := r.rows) && r.rows.items == d.rows.items
  {
    d.(isOpen := false, rows := CascadeMenu.CloseActiveSubmenu(d.rows))
  }

  /** `checkHover`: the mouse is over the header. */
  function CheckHover(d: DropDown, absX: int, absY: int, mouseX: int, mouseY: int): (r: DropDown)
    ensures r == d.(hovered := InRect(mouseX, mouseY, absX, absY, d.frame.width, d.frame.height))
  {
    d.(hovered := InRect(mouseX, mouseY, absX, absY, d.frame.width, d.frame.height))
  }

  /** The point is over the open submenu. */
  predicate OnSubmenu(d: DropDown, mouseX: int, mouseY: int)
    requires CascadeMenu.RowsValid(d.rows)
  {
    d.rows.active >= 0 && ContextMenu.InArea(d.rows.subs[d.rows.active].value, mouseX, mouseY)
  }

  /** The column of items, below the header. */
  predicate InColumn(d: DropDown, absX: int, absY: int, mouseX: int, mouseY: int) {
    InRect(mouseX, mouseY, absX, absY + d.frame.height, d.menuWidth, |d.rows.items| * CascadeMenu.RowHeight)
  }

  /** `checkMenuArea`: open, and over the open submenu or the column. */
  predicate InArea(d: DropDown, absX: int, absY: int, mouseX: int, mouseY: int)
    requires CascadeMenu.RowsValid(d.rows)
  {
    d.isOpen && (OnSubmenu(d, mouseX, mouseY) || InColumn(d, absX, absY, mouseX, mouseY))
  }

  /** `handleMouseMove`: when open, over the submenu it goes there, elsewhere the rows react. */
  function MouseMove(d: DropDown, absX: int, absY: int, mouseX: int, mouseY: int): (r: DropDown)
    requires Valid(d)
    ensures Valid(r) && r == d.(rows := r.rows)
    ensures !d.isOpen ==> r == d
    ensures d.isOpen && !OnSubmenu(d, mouseX, mouseY) ==>
      r.rows == CascadeMenu.HoverFrom(d.rows, absX, absY + d.frame.height, d.menuWidth, mouseX, mouseY, 0)
  {
    if !d.isOpen then d
    else if OnSubmenu(d, mouseX, mouseY) then
      var a := d.rows.active;
      d.(rows := d.rows.(subs := d.rows.subs[a := Some(ContextMenu.MouseMove(d.rows.subs[a].value, mouseX, mouseY))]))
    else d.(rows := CascadeMenu.HoverFrom(d.rows, absX, absY + d.frame.height, d.menuWidth, mouseX, mouseY, 0))
  }

  /**
   * `handleMenuClick`. Over the open submenu the click is the
   * submenu's, and if it took it the whole menu closes. On an item with
   * a submenu nothing happens. On a plain item the item fires once and
   * the menu closes.
   */
  function MenuClick(d: DropDown, absX: int, absY: int, mouseX: int, mouseY: int): (r: DropDown)
    requires Valid(d)
    ensures Valid(r) && |r.rows.subs| == |d.rows.subs|
    ensures !d.isOpen ==> r == d
    ensures d.isOpen && OnSubmenu(d, mouseX, mouseY) ==>
      var s := ContextMenu.Click(d.rows.subs[d.rows.active].value, mouseX, mouseY);
      (s.consumed ==> !r.isOpen && r.rows.active == -1) && r.fired == d.fired
    ensures d.isOpen && OnSubmenu(d, mouseX, mouseY) ==>
      var s := ContextMenu.Click(d.rows.subs[d.rows.active].value, mouseX, mouseY);
      (s.consumed ==> r.rows.subs[d.rows.active].Some? && r.rows.subs[d.rows.active].value.fired == s.menu.fired) &&
      (!s.consumed ==> r == d)
    ensures d.isOpen && !OnSubmenu(d, mouseX, mouseY) ==>
      var k := ContextMenu.FirstHit(|d.rows.items|, absX, absY + d.frame.height, d.menuWidth, CascadeMenu.RowHeight, mouseX, mouseY, 0);
      (k == -1 || d.rows.subs[k].Some? ==> r == d) &&
      (k >= 0 && d.rows.subs[k].None? ==> !r.isOpen && r.fired == d.fired + [k] && r.rows.active == -1)
  {
    if !d.isOpen then d
    else if OnSubmenu(d, mouseX, mouseY) then
      var a := d.rows.active;
      var s := ContextMenu.Click(d.rows.subs[a].value, mouseX, mouseY);
      var d1 := d.(rows := d.rows.(subs := d.rows.subs[a := Some(s.menu)]));
      if s.consumed then Close(d1) else d1
    else
      var k := ContextMenu.FirstHit(|d.rows.items|, absX, absY + d.frame.height, d.menuWidth, CascadeMenu.RowHeight, mouseX, mouseY, 0);
      if k < 0 || d.rows.subs[k].Some? then d
      else Close(d.(fired := d.fired + [k]))
  }

  /*
   * Lemmas.
   */

  /** Toggling twice from closed gives the menu back, and from open leaves it open with no submenu open. */
  lemma ToggleTwice(d: DropDown)
    requires Valid(d)
    ensures !d.isOpen ==> Toggle(Toggle(d)) == d
    ensures d.isOpen ==> Toggle(Toggle(d)).isOpen && Toggle(Toggle(d)).rows.active == -1
  {
  }

  /** A click that fires an item is in the menu's area: a plain item's row lies in the column. */
  lemma FiringClickInArea(d: DropDown, absX: int, absY: int, mouseX: int, mouseY: int)
    requires Valid(d) && d.isOpen
    requires |MenuClick(d, absX, absY, mouseX, mouseY).fired| > |d.fired|
    ensures InArea(d, absX, absY, mouseX, mouseY)
  {
    if !OnSubmenu(d, mouseX, mouseY) {
      var k := ContextMenu.FirstHit(|d.rows.items|, absX, absY + d.frame.height, d.menuWidth, CascadeMenu.RowHeight, mouseX, mouseY, 0);
      assert 0 <= k < |d.rows.items|;
      assert k * CascadeMenu.RowHeight + CascadeMenu.RowHeight <= |d.rows.items| * CascadeMenu.RowHeight;
    }
  }
}
