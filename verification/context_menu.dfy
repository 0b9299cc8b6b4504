/**
 * The pop-up menu: a column of items opened at a point. An item's
 * callback is recorded in `fired` as the item's position. The menu has
 * no parent, so its absolute position is its own position.
 */
module ContextMenu {
  import opened Common
  import opened WidgetBase

  /** A `MenuItem`: its text, its `index` and whether it is hovered. */
  datatype Item = Item(text: string, index: int, hovered: bool)

  datatype Menu = Menu(
    x: int, y: int, width: int, height: int, isOpen: bool,
    menuWidth: int, itemHeight: int, items: seq<Item>, fired: seq<int>)

  /** Every item's `index` is its position. */
  predicate Indexed(items: seq<Item>) {
    forall i :: 0 <= i < |items| ==> items[i].index == i
  }

  /** The `MenuItem` constructor: index 0, not hovered. */
  function NewItem(text: string): (it: Item)
    ensures it.text == text && it.index == 0 && !it.hovered
  {
    Item(text, 0, false)
  }

  /** The constructor: closed, empty, with no size until it is opened. */
  function New(menuWidth: int, itemHeight: int): (m: Menu)
    ensures !m.isOpen && m.items == [] && m.fired == [] && m.menuWidth == menuWidth && m.itemHeight == itemHeight
    ensures m.x == 0 && m.y == 0 && m.width == 0 && m.height == 0
  {
    Menu(0, 0, 0, 0, false, menuWidth, itemHeight, [], [])
  }

  /** `add`: append the item and give it its position as index. */
  function Add(m: Menu, it: Item): (r: Menu)
    ensures r == m.(items := r.items)
    ensures |r.items| == |m.items| + 1 && r.items[..|m.items|] == m.items
    ensures r.items[|m.items|] == it.(index := |m.items|)
    ensures Indexed(m.items) ==> Indexed(r.items)
  {
    m.(items := m.items + [it.(index := |m.items|)])
  }

  /** `open`: move to the point, take the size of the column of items, and open. */
  function Open(m: Menu, atX: int, atY: int): (r: Menu)
    ensures r.isOpen && r.x == atX && r.y == atY
    ensures r.width == m.menuWidth && r.height == |m.items| * m.itemHeight
    ensures r == m.(x := atX, y := atY, width := r.width, height := r.height, isOpen := true)
  {
    m.(x := atX, y := atY, width := m.menuWidth, height := |m.items| * m.itemHeight, isOpen := true)
  }

  /** `close`: only the open flag changes. */
  function Close(m: Menu): (r: Menu)
    ensures !r.isOpen && r == m.(isOpen := false)
  {
    m.(isOpen := false)
  }

  /** `checkMenuArea`: open, and inside the column of items. */
  predicate InArea(m: Menu, mouseX: int, mouseY: int) {
    m.isOpen && InRect(mouseX, mouseY, m.x, m.y, m.menuWidth, |m.items| * m.itemHeight)
  }

  /** The test the menus apply to row `i` of a column at (x, y), `w` wide with rows `h` high. */
  predicate RowHit(x: int, y: int, w: int, h: int, i: int, mouseX: int, mouseY: int) {
    x <= mouseX < x + w && y + i * h <= mouseY < y + i * h + h
  }

  /** The loops' search: the first row from `i` on that the point hits, or -1. */
  function FirstHit(n: int, x: int, y: int, w: int, h: int, mouseX: int, mouseY: int, i: nat): (k: int)
    ensures k == -1 || (i <= k < n && RowHit(x, y, w, h, k, mouseX, mouseY))
    ensures forall j :: i <= j < n && (k == -1 || j < k) ==> !RowHit(x, y, w, h, j, mouseX, mouseY)
    decreases n - i
  {
    if i >= n then -1
    else if RowHit(x, y, w, h, i, mouseX, mouseY) then i
    else FirstHit(n, x, y, w, h, mouseX, mouseY, i + 1)
  }

  /** What `checkMenuClick` returns, with the menu it leaves. */
  datatype Clicked = Clicked(menu: Menu, consumed: bool)

  /** `checkMenuClick`: the first row under the point fires and the menu closes; anywhere else nothing happens. */
  function Click(m: Menu, mouseX: int, mouseY: int): (r: Clicked)
    ensures var k := FirstHit(|m.items|, m.x, m.y, m.menuWidth, m.itemHeight, mouseX, mouseY, 0);
      r.consumed <==> m.isOpen && k >= 0
    ensures var k := FirstHit(|m.items|, m.x, m.y, m.menuWidth, m.itemHeight, mouseX, mouseY, 0);
      r.consumed ==> r.menu == m.(isOpen := false, fired := m.fired + [k])
    ensures !r.consumed ==> r.menu == m
  {
    if !m.isOpen then Clicked(m, false)
    else
      var k := FirstHit(|m.items|, m.x, m.y, m.menuWidth, m.itemHeight, mouseX, mouseY, 0);
      if k < 0 then Clicked(m, false)
      else Clicked(Close(m.(fired := m.fired + [k])), true)
  }

  /** `handleMouseMove`: when open, exactly the items whose rows hold the point are hovered. */
  function MouseMove(m: Menu, mouseX: int, mouseY: int): (r: Menu)
    ensures !m.isOpen ==> r == m
    ensures r == m.(items := r.items) && |r.items| == |m.items|
    ensures m.isOpen ==> forall i :: 0 <= i < |m.items| ==>
      r.items[i] == m.items[i].(hovered := RowHit(m.x, m.y, m.menuWidth, m.itemHeight, i, mouseX, mouseY))
  {
    if !m.isOpen then m
    else m.(items := seq(|m.items|, i requires 0 <= i < |m.items| =>
      m.items[i].(hovered := RowHit(m.x, m.y, m.menuWidth, m.itemHeight, i, mouseX, mouseY))))
  }

  /*
   * Lemmas.
   */

  /** With rows of positive height, the row a point hits is its offset from the top in whole rows. */
  lemma RowOf(x: int, y: int, w: int, h: int, i: nat, mouseX: int, mouseY: int)
    requires h > 0
    ensures RowHit(x, y, w, h, i, mouseX, mouseY) <==>
      x <= mouseX < x + w && mouseY >= y && CDiv(mouseY - y, h) == i
  {
    var p := i * h;
    assert p >= 0 by {
      if i >= 1 {
        MulSign(i, h);
      }
    }
    assert h * i == p && h * (i + 1) == p + h;
    if mouseY >= y {
      DivBand(mouseY - y, h, i);
    }
  }

  /** With rows of positive height, the search finds the row the point is in, when there is one. */
  lemma FirstHitIsRow(n: int, x: int, y: int, w: int, h: int, mouseX: int, mouseY: int)
    requires h > 0
    ensures var k := FirstHit(n, x, y, w, h, mouseX, mouseY, 0);
      k == if x <= mouseX < x + w && mouseY >= y && CDiv(mouseY - y, h) < n then CDiv(mouseY - y, h) else -1
  {
    var k := FirstHit(n, x, y, w, h, mouseX, mouseY, 0);
    if k >= 0 {
      RowOf(x, y, w, h, k, mouseX, mouseY);
    } else if x <= mouseX < x + w && mouseY >= y && CDiv(mouseY - y, h) < n {
      var q := CDiv(mouseY - y, h);
      RowOf(x, y, w, h, q, mouseX, mouseY);
    }
  }

  /** An open menu with rows of positive height consumes a click exactly when the click is in its area. */
  lemma ClickConsumedInArea(m: Menu, mouseX: int, mouseY: int)
    requires m.itemHeight > 0
    ensures Click(m, mouseX, mouseY).consumed <==> InArea(m, mouseX, mouseY)
  {
    FirstHitIsRow(|m.items|, m.x, m.y, m.menuWidth, m.itemHeight, mouseX, mouseY);
    if mouseY >= m.y {
      var q := CDiv(mouseY - m.y, m.itemHeight);
      DivBand(mouseY - m.y, m.itemHeight, q);
      assert q < |m.items| <==> mouseY < m.y + |m.items| * m.itemHeight by {
        if q < |m.items| {
          MulMono(q + 1, |m.items|, m.itemHeight);
        } else {
          MulMono(|m.items|, q, m.itemHeight);
        }
      }
    }
  }

  /** Multiplication by a positive factor keeps order. */
  lemma MulMono(a: int, b: int, h: int)
    requires a <= b && h > 0
    ensures a * h <= b * h && h * a <= h * b
  {
    MulSign(b - a, h);
    assert h * (b - a) == h * b - h * a;
  }

  /** With rows of positive height, moving the mouse over an open menu hovers at most one item. */
  lemma HoverUnique(m: Menu, mouseX: int, mouseY: int, i: int, j: int)
    requires m.isOpen && m.itemHeight > 0
    requires 0 <= i < |m.items| && 0 <= j < |m.items|
    requires MouseMove(m, mouseX, mouseY).items[i].hovered && MouseMove(m, mouseX, mouseY).items[j].hovered
    ensures i == j
  {
    RowOf(m.x, m.y, m.menuWidth, m.itemHeight, i, mouseX, mouseY);
    RowOf(m.x, m.y, m.menuWidth, m.itemHeight, j, mouseX, mouseY);
  }

  /** Opening a menu of positive size makes its top-left point part of its area. */
  lemma OpenCoversCorner(m: Menu, atX: int, atY: int)
    requires m.menuWidth > 0 && m.itemHeight > 0 && |m.items| > 0
    ensures InArea(Open(m, atX, atY), atX, atY)
  {
    MulMono(1, |m.items|, m.itemHeight);
  }
}
