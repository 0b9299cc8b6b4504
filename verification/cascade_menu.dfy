/**
 * A pop-up menu whose items may carry submenus. The rows, the submenus
 * and which one is open form a `Rows` value, shared with the drop-down
 * menu, whose code repeats this menu's. Submenus are modelled as plain
 * pop-up menus: a cascade nested inside a cascade, whose overriding
 * mouse handling and closing would then be reached, is not modelled.
 * Rows here are 25 pixels high whatever the menu's item height.
 */
module CascadeMenu {
  import opened Common
  import opened WidgetBase
  import ContextMenu

  const RowHeight: int := 25

  /** The items, each item's submenu if it has one, and the index of the open submenu, or -1. */
  datatype Rows = Rows(items: seq<ContextMenu.Item>, subs: seq<Option<ContextMenu.Menu>>, active: int)

  predicate RowsValid(r: Rows) {
    |r.subs| == |r.items| && (r.active == -1 || (0 <= r.active < |r.subs| && r.subs[r.active].Some?))
  }

  /** No submenu but the active one is open. */
  predicate OthersClosed(r: Rows) {
    forall i :: 0 <= i < |r.subs| && r.subs[i].Some? && i != r.active ==> !r.subs[i].value.isOpen
  }

  /** The active submenu is open and no other is. */
  predicate OnlyActiveOpen(r: Rows) {
    OthersClosed(r) && (0 <= r.active < |r.subs| && r.subs[r.active].Some? ==> r.subs[r.active].value.isOpen)
  }

  /** `closeActiveSubmenu`: close the open submenu and forget it. */
  function CloseActiveSubmenu(r: Rows): (t: Rows)
    requires RowsValid(r)
    ensures RowsValid(t) && t.active == -1 && t.items == r.items
    ensures r.active == -1 ==> t == r
    ensures r.active >= 0 ==> t.subs == r.subs[r.active := Some(ContextMenu.Close(r.subs[r.active].value))]
    ensures OthersClosed(r) ==> OnlyActiveOpen(t)
  {
    if r.active >= 0 then
      r.(subs := r.subs[r.active := Some(ContextMenu.Close(r.subs[r.active].value))], active := -1)
    else r
  }

  /**
   * `openSubmenu`: for an item with a submenu, close the open one and
   * open this one beside the menu, level with the item's row; an item
   * without one changes nothing.
   */
  function OpenSubmenu(r: Rows, i: int, menuX: int, menuY: int, menuWidth: int): (t: Rows)
    requires RowsValid(r) && 0 <= i < |r.items|
    ensures RowsValid(t) && t.items == r.items
    ensures r.subs[i].None? ==> t == r
    ensures r.subs[i].Some? ==>
      t.active == i && t.subs[i] == Some(ContextMenu.Open(r.subs[i].value, menuX + menuWidth, menuY + i * RowHeight))
    ensures r.subs[i].Some? ==> forall j :: 0 <= j < |r.subs| && j != i && j != r.active ==> t.subs[j] == r.subs[j]
    ensures OnlyActiveOpen(r) ==> OnlyActiveOpen(t)
  {
    if r.subs[i].Some? then
      var c := CloseActiveSubmenu(r);
      c.(active := i, subs := c.subs[i := Some(ContextMenu.Open(c.subs[i].value, menuX + menuWidth, menuY + i * RowHeight))])
    else r
  }

  /** What hovering row `k` does to the submenus: open its own, unless it is already open; close any for a plain item. */
  function HoverAct(r: Rows, k: int, rowX: int, rowY: int, menuWidth: int): (t: Rows)
    requires RowsValid(r) && 0 <= k < |r.items|
    ensures RowsValid(t) && t.items == r.items
    ensures r.subs[k].Some? ==> t.active == k
    ensures r.subs[k].None? ==> t.active == -1
    ensures OnlyActiveOpen(r) ==> OnlyActiveOpen(t)
  {
    if r.subs[k].Some? then
      if r.active != k then OpenSubmenu(r, k, rowX, rowY, menuWidth) else r
    else CloseActiveSubmenu(r)
  }

  /** The items with the hover flag set from the point for rows `from` on. */
  function Hovered(items: seq<ContextMenu.Item>, rowX: int, rowY: int, menuWidth: int, mouseX: int, mouseY: int, from: nat): (r: seq<ContextMenu.Item>)
    ensures |r| == |items|
    ensures forall j :: 0 <= j < |items| ==>
      r[j] == if j >= from then items[j].(hovered := ContextMenu.RowHit(rowX, rowY, menuWidth, RowHeight, j, mouseX, mouseY)) else items[j]
  {
    seq(|items|, j requires 0 <= j < |items| =>
      if j >= from then items[j].(hovered := ContextMenu.RowHit(rowX, rowY, menuWidth, RowHeight, j, mouseX, mouseY)) else items[j])
  }

  /**
   * The hover loop of `handleMouseMove`, from row `i` on: each row's
   * hover flag is set from the point, and the row under the point
   * opens its submenu or, being plain, closes the open one.
   */
  function HoverFrom(r: Rows, rowX: int, rowY: int, menuWidth: int, mouseX: int, mouseY: int, i: nat): (t: Rows)
    requires RowsValid(r)
    ensures RowsValid(t) && |t.items| == |r.items|
    ensures OnlyActiveOpen(r) ==> OnlyActiveOpen(t)
    decreases |r.items| - i
  {
    if i >= |r.items| then r
    else
      var hover := ContextMenu.RowHit(rowX, rowY, menuWidth, RowHeight, i, mouseX, mouseY);
      var r1 := r.(items := r.items[i := r.items[i].(hovered := hover)]);
      var r2 := if hover then HoverAct(r1, i, rowX, rowY, menuWidth) else r1;
      HoverFrom(r2, rowX, rowY, menuWidth, mouseX, mouseY, i + 1)
  }

  /*
   * The cascade menu.
   */

  datatype Cascade = Cascade(menu: ContextMenu.Menu, subs: seq<Option<ContextMenu.Menu>>, active: int)

  function RowsOf(c: Cascade): (r: Rows)
    ensures r.items == c.menu.items && r.subs == c.subs && r.active == c.active
  {
    Rows(c.menu.items, c.subs, c.active)
  }

  function WithRows(c: Cascade, r: Rows): (t: Cascade)
    ensures RowsOf(t) == r && t.menu == c.menu.(items := r.items)
  {
    c.(menu := c.menu.(items := r.items), subs := r.subs, active := r.active)
  }

  predicate Valid(c: Cascade) {
    RowsValid(RowsOf(c)) && OnlyActiveOpen(RowsOf(c))
  }

  /** The constructor: an empty closed menu with no open submenu. */
  function New(menuWidth: int, itemHeight: int): (c: Cascade)
    ensures Valid(c) && c.active == -1 && c.menu == ContextMenu.New(menuWidth, itemHeight)
  {
    Cascade(ContextMenu.New(menuWidth, itemHeight), [], -1)
  }

  /** `add`, for a plain item (`sub` empty) or a cascade item with its submenu, which starts closed. */
  function Add(c: Cascade, it: ContextMenu.Item, sub: Option<ContextMenu.Menu>): (r: Cascade)
    requires Valid(c) && (sub.Some? ==> !sub.value.isOpen)
    ensures Valid(r) && r.menu == ContextMenu.Add(c.menu, it) && r.subs == c.subs + [sub] && r.active == c.active
  {
    Cascade(ContextMenu.Add(c.menu, it), c.subs + [sub], c.active)
  }

  /** `open`, inherited: place and open the menu itself. */
  function Open(c: Cascade, atX: int, atY: int): (r: Cascade)
    ensures r == c.(menu := ContextMenu.Open(c.menu, atX, atY))
    ensures r.menu.isOpen && r.menu.x == atX && r.menu.y == atY
  {
    c.(menu := ContextMenu.Open(c.menu, atX, atY))
  }

  /** `close`: close the open submenu, then the menu. */
  function Close(c: Cascade): (r: Cascade)
    requires RowsValid(RowsOf(c)) && OthersClosed(RowsOf(c))
    ensures Valid(r) && !r.menu.isOpen && r.active == -1
    ensures forall i :: 0 <= i < |r.subs| && r.subs[i].Some? ==> !r.subs[i].value.isOpen
    ensures r.menu.items == c.menu.items && r.menu.fired == c.menu.fired
  {
    var t := WithRows(c, CloseActiveSubmenu(RowsOf(c)));
    t.(menu := ContextMenu.Close(t.menu))
  }

  /** The point is over the open submenu. */
  predicate OnSubmenu(c: Cascade, mouseX: int, mouseY: int)
    requires RowsValid(RowsOf(c))
  {
    c.active >= 0 && ContextMenu.InArea(c.subs[c.active].value, mouseX, mouseY)
  }

  /** `checkMenuArea`: open, and over the open submenu or the menu's own column. */
  predicate InArea(c: Cascade, mouseX: int, mouseY: int)
    requires RowsValid(RowsOf(c))
  {
    c.menu.isOpen && (OnSubmenu(c, mouseX, mouseY) || ContextMenu.InArea(c.menu, mouseX, mouseY))
  }

  /** `handleMouseMove`: over the open submenu it goes there; elsewhere the menu's own rows react. */
  function MouseMove(c: Cascade, mouseX: int, mouseY: int): (r: Cascade)
    requires Valid(c)
    ensures Valid(r)
    ensures !c.menu.isOpen ==> r == c
    ensures c.menu.isOpen && OnSubmenu(c, mouseX, mouseY) ==>
      r == c.(subs := c.subs[c.active := Some(ContextMenu.MouseMove(c.subs[c.active].value, mouseX, mouseY))])
    ensures c.menu.isOpen && !OnSubmenu(c, mouseX, mouseY) ==>
      r == WithRows(c, HoverFrom(RowsOf(c), c.menu.x, c.menu.y, c.menu.menuWidth, mouseX, mouseY, 0))
  {
    if !c.menu.isOpen then c
    else if OnSubmenu(c, mouseX, mouseY) then
      c.(subs := c.subs[c.active := Some(ContextMenu.MouseMove(c.subs[c.active].value, mouseX, mouseY))])
    else WithRows(c, HoverFrom(RowsOf(c), c.menu.x, c.menu.y, c.menu.menuWidth, mouseX, mouseY, 0))
  }

  datatype Clicked = Clicked(cascade: Cascade, consumed: bool)

  /**
   * `checkMenuClick`. Over the open submenu the click is the submenu's,
   * and if it took it the whole menu closes. On an item with a submenu
   * nothing happens and the menu stays open. On a plain item the item
   * fires and the menu closes.
   */
  function Click(c: Cascade, mouseX: int, mouseY: int): (r: Clicked)
    requires Valid(c)
    ensures Valid(r.cascade) && |r.cascade.subs| == |c.subs|
    ensures !c.menu.isOpen ==> r == Clicked(c, false)
    ensures c.menu.isOpen && OnSubmenu(c, mouseX, mouseY) ==>
      var s := ContextMenu.Click(c.subs[c.active].value, mouseX, mouseY);
      r.consumed == s.consumed && (s.consumed ==> !r.cascade.menu.isOpen && r.cascade.active == -1)
    ensures c.menu.isOpen && OnSubmenu(c, mouseX, mouseY) ==>
      var s := ContextMenu.Click(c.subs[c.active].value, mouseX, mouseY);
      (s.consumed ==>
        r.cascade.subs[c.active].Some? && r.cascade.subs[c.active].value.fired == s.menu.fired &&
        r.cascade.menu.fired == c.menu.fired) &&
      (!s.consumed ==> r == Clicked(c, false))
    ensures c.menu.isOpen && !OnSubmenu(c, mouseX, mouseY) ==>
      var k := ContextMenu.FirstHit(|c.menu.items|, c.menu.x, c.menu.y, c.menu.menuWidth, RowHeight, mouseX, mouseY, 0);
      (k == -1 || c.subs[k].Some? ==> r == Clicked(c, false)) &&
      (k >= 0 && c.subs[k].None? ==> r.consumed && !r.cascade.menu.isOpen && r.cascade.menu.fired == c.menu.fired + [k])
  {
    if !c.menu.isOpen then Clicked(c, false)
    else if OnSubmenu(c, mouseX, mouseY) then
      var s := ContextMenu.Click(c.subs[c.active].value, mouseX, mouseY);
      var c1 := c.(subs := c.subs[c.active := Some(s.menu)]);
      if s.consumed then Clicked(Close(c1), true) else Clicked(c1, false)
    else
      var k := ContextMenu.FirstHit(|c.menu.items|, c.menu.x, c.menu.y, c.menu.menuWidth, RowHeight, mouseX, mouseY, 0);
      if k < 0 || c.subs[k].Some? then Clicked(c, false)
      else Clicked(Close(c.(menu := c.menu.(fired := c.menu.fired + [k]))), true)
  }

  /*
   * Lemmas.
   */

  /** Two rows of the same column never both hold a point. */
  lemma RowsDisjoint(rowX: int, rowY: int, w: int, i: int, j: int, mouseX: int, mouseY: int)
    requires ContextMenu.RowHit(rowX, rowY, w, RowHeight, i, mouseX, mouseY)
    requires ContextMenu.RowHit(rowX, rowY, w, RowHeight, j, mouseX, mouseY)
    ensures i == j
  {
  }

  /** What rows do to the submenus does not depend on the items' hover flags. */
  lemma ActIgnoresItems(r: Rows, items: seq<ContextMenu.Item>, k: int, rowX: int, rowY: int, w: int)
    requires RowsValid(r) && 0 <= k < |r.items| && |items| == |r.items|
    ensures HoverAct(r.(items := items), k, rowX, rowY, w) == HoverAct(r, k, rowX, rowY, w).(items := items)
  {
  }

  /**
   * The hover loop from row `i` sets every later row's hover flag from
   * the point and acts once, for the row under the point, if any.
   */
  lemma {:induction false} HoverFromActsOnce(r: Rows, rowX: int, rowY: int, w: int, mouseX: int, mouseY: int, i: nat)
    requires RowsValid(r) && i <= |r.items|
    ensures var k := ContextMenu.FirstHit(|r.items|, rowX, rowY, w, RowHeight, mouseX, mouseY, i);
      HoverFrom(r, rowX, rowY, w, mouseX, mouseY, i) ==
        (if k >= 0 then HoverAct(r, k, rowX, rowY, w) else r).(items := Hovered(r.items, rowX, rowY, w, mouseX, mouseY, i))
    decreases |r.items| - i
  {
    var n := |r.items|;
    if i == n {
      assert Hovered(r.items, rowX, rowY, w, mouseX, mouseY, i) == r.items;
    } else {
      var hover := ContextMenu.RowHit(rowX, rowY, w, RowHeight, i, mouseX, mouseY);
      var items1 := r.items[i := r.items[i].(hovered := hover)];
      var r1 := r.(items := items1);
      var r2 := if hover then HoverAct(r1, i, rowX, rowY, w) else r1;
      HoverFromActsOnce(r2, rowX, rowY, w, mouseX, mouseY, i + 1);
      assert r2.items == items1;
      assert Hovered(items1, rowX, rowY, w, mouseX, mouseY, i + 1) == Hovered(r.items, rowX, rowY, w, mouseX, mouseY, i);
      var k := ContextMenu.FirstHit(n, rowX, rowY, w, RowHeight, mouseX, mouseY, i);
      var k' := ContextMenu.FirstHit(n, rowX, rowY, w, RowHeight, mouseX, mouseY, i + 1);
      ActIgnoresItems(r, items1, i, rowX, rowY, w);
      if hover {
        assert k == i;
        if k' >= 0 {
          RowsDisjoint(rowX, rowY, w, i, k', mouseX, mouseY);
        }
      } else {
        assert k == k';
        if k >= 0 {
          ActIgnoresItems(r, items1, k, rowX, rowY, w);
        }
      }
    }
  }

  /**
   * Moving the mouse over the rows hovers exactly the row under it; that
   * row's submenu is then the open one, and a plain row leaves none open.
   */
  lemma HoverOpensRowSubmenu(c: Cascade, mouseX: int, mouseY: int)
    requires Valid(c) && c.menu.isOpen && !OnSubmenu(c, mouseX, mouseY)
    ensures var r := MouseMove(c, mouseX, mouseY);
      var k := ContextMenu.FirstHit(|c.menu.items|, c.menu.x, c.menu.y, c.menu.menuWidth, RowHeight, mouseX, mouseY, 0);
      (forall j :: 0 <= j < |c.menu.items| ==>
        r.menu.items[j].hovered == ContextMenu.RowHit(c.menu.x, c.menu.y, c.menu.menuWidth, RowHeight, j, mouseX, mouseY)) &&
      (k >= 0 && c.subs[k].Some? ==> r.active == k && r.subs[k].Some? && r.subs[k].value.isOpen) &&
      (k >= 0 && c.subs[k].None? ==> r.active == -1) &&
      (k == -1 ==> r.subs == c.subs && r.active == c.active)
  {
    HoverFromActsOnce(RowsOf(c), c.menu.x, c.menu.y, c.menu.menuWidth, mouseX, mouseY, 0);
  }
}
