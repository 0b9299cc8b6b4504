/**
 * The menu bar: drop-down headers laid out left to right. The bar has
 * no parent, so a header's absolute position is the bar's position plus
 * the header's own.
 */
module MenuBar {
  import opened Common
  import opened WidgetBase
  import DropDownMenu

  const Gap: int := 5
  const MenuTop: int := 2

  datatype Bar = Bar(frame: Frame, anchorBottom: bool, menus: seq<DropDownMenu.DropDown>)

  /** The horizontal room each header takes: its width and the gap after it. */
  function Advances(ms: seq<DropDownMenu.DropDown>): (r: seq<int>)
    ensures |r| == |ms| && forall k :: 0 <= k < |ms| ==> r[k] == ms[k].frame.width + Gap
  {
    seq(|ms|, k requires 0 <= k < |ms| => ms[k].frame.width + Gap)
  }

  /** Each header at the gap plus the room of the headers before it, on the bar's second row of pixels. */
  predicate LaidOut(ms: seq<DropDownMenu.DropDown>) {
    forall k :: 0 <= k < |ms| ==> ms[k].frame.x == Gap + Sum(Advances(ms)[..k]) && ms[k].frame.y == MenuTop
  }

  /** Every header's menu keeps its submenu invariant. */
  predicate Valid(b: Bar) {
    forall k :: 0 <= k < |b.menus| ==> DropDownMenu.Valid(b.menus[k])
  }

  /** The constructor. */
  function New(x: int, y: int, width: int, height: int, anchorBottom: bool): (b: Bar)
    ensures Valid(b) && LaidOut(b.menus) && b.menus == [] && b.frame == Frame(x, y, width, height)
  {
    Bar(Frame(x, y, width, height), anchorBottom, [])
  }

  /** `add`: the new header goes after the others, at the gap plus their room. */
  function Add(b: Bar, d: DropDownMenu.DropDown): (r: Bar)
    requires DropDownMenu.Valid(d)
    ensures r.frame == b.frame && r.anchorBottom == b.anchorBottom
    ensures |r.menus| == |b.menus| + 1 && r.menus[..|b.menus|] == b.menus
    ensures r.menus[|b.menus|] == d.(frame := SetPosition(d.frame, Gap + Sum(Advances(b.menus)), MenuTop))
    ensures Valid(b) ==> Valid(r)
  {
    b.(menus := b.menus + [d.(frame := SetPosition(d.frame, Gap + Sum(Advances(b.menus)), MenuTop))])
  }

  /** The layout loop of `onWindowResize`: headers from `x` on, each after the previous one's room. */
  function LayOut(ms: seq<DropDownMenu.DropDown>, x: int): (r: seq<DropDownMenu.DropDown>)
    ensures |r| == |ms|
    decreases |ms|
  {
    if |ms| == 0 then []
    else [ms[0].(frame := SetPosition(ms[0].frame, x, MenuTop))] + LayOut(ms[1..], x + ms[0].frame.width + Gap)
  }

  /** `onWindowResize`: full window width, at the bottom when anchored there, headers laid out again. */
  function Resize(b: Bar, windowWidth: int, windowHeight: int): (r: Bar)
    ensures r.frame.width == windowWidth && r.frame.height == b.frame.height && r.frame.x == b.frame.x
    ensures r.frame.y == if b.anchorBottom then windowHeight - b.frame.height else b.frame.y
    ensures r.menus == LayOut(b.menus, Gap) && r.anchorBottom == b.anchorBottom
  {
    var f := b.frame.(width := windowWidth);
    var f' := if b.anchorBottom then f.(y := windowHeight - b.frame.height) else f;
    b.(frame := f', menus := LayOut(b.menus, Gap))
  }

  /** A header's absolute position. */
  function AbsX(b: Bar, k: int): int
    requires 0 <= k < |b.menus|
  {
    b.frame.x + b.menus[k].frame.x
  }

  function AbsY(b: Bar, k: int): int
    requires 0 <= k < |b.menus|
  {
    b.frame.y + b.menus[k].frame.y
  }

  /** `checkClick` on header `k`. */
  predicate OnHeader(b: Bar, k: int, mouseX: int, mouseY: int)
    requires 0 <= k < |b.menus|
  {
    InRect(mouseX, mouseY, AbsX(b, k), AbsY(b, k), b.menus[k].frame.width, b.menus[k].frame.height)
  }

  /** Every header but `k` closed. */
  function CloseOthers(ms: seq<DropDownMenu.DropDown>, k: int): (r: seq<DropDownMenu.DropDown>)
    requires forall j :: 0 <= j < |ms| ==> DropDownMenu.Valid(ms[j])
    ensures |r| == |ms|
    ensures forall j :: 0 <= j < |ms| ==> DropDownMenu.Valid(ms[j]) && r[j] == if j == k then ms[j] else DropDownMenu.Close(ms[j])
  {
    seq(|ms|, j requires 0 <= j < |ms| => var d := ms[j]; assert DropDownMenu.Valid(d); if j == k then d else DropDownMenu.Close(d))
  }

  /** What a click off header `k` does to that menu: an open menu takes a click in its area and closes otherwise. */
  function OffHeader(b: Bar, k: int, mouseX: int, mouseY: int): (d: DropDownMenu.DropDown)
    requires Valid(b) && 0 <= k < |b.menus|
    ensures DropDownMenu.Valid(d) && d.frame == b.menus[k].frame
    ensures !b.menus[k].isOpen ==> d == b.menus[k]
  {
    var m := b.menus[k];
    if !m.isOpen then m
    else if DropDownMenu.InArea(m, AbsX(b, k), AbsY(b, k), mouseX, mouseY) then
      DropDownMenu.MenuClick(m, AbsX(b, k), AbsY(b, k), mouseX, mouseY)
    else DropDownMenu.Close(m)
  }

  /**
   * The loop of `handleMouseClick`, from header `i` on, each step seeing
   * the previous steps' changes: a hit header closes all the others and
   * toggles; any other open menu takes or loses the click.
   */
  function ClickFrom(b: Bar, mouseX: int, mouseY: int, i: nat): (r: Bar)
    requires Valid(b)
    ensures Valid(r) && r.frame == b.frame && |r.menus| == |b.menus|
    ensures forall j :: 0 <= j < |b.menus| ==> r.menus[j].frame == b.menus[j].frame
    decreases |b.menus| - i
  {
    if i >= |b.menus| then b
    else if OnHeader(b, i, mouseX, mouseY) then
      var ms := CloseOthers(b.menus, i);
      assert DropDownMenu.Valid(ms[i]);
      ClickFrom(b.(menus := ms[i := DropDownMenu.Toggle(ms[i])]), mouseX, mouseY, i + 1)
    else
      ClickFrom(b.(menus := b.menus[i := OffHeader(b, i, mouseX, mouseY)]), mouseX, mouseY, i + 1)
  }

  /** `handleMouseClick`. */
  function Click(b: Bar, mouseX: int, mouseY: int): (r: Bar)
    requires Valid(b)
    ensures Valid(r) && r.frame == b.frame && |r.menus| == |b.menus|
    ensures forall j :: 0 <= j < |b.menus| ==> r.menus[j].frame == b.menus[j].frame
  {
    ClickFrom(b, mouseX, mouseY, 0)
  }

  /** `handleMouseMove`: every header updates its hover flag, then its menu reacts. */
  function MouseMove(b: Bar, mouseX: int, mouseY: int): (r: Bar)
    requires Valid(b)
    ensures Valid(r) && r.frame == b.frame && |r.menus| == |b.menus|
    ensures forall k :: 0 <= k < |b.menus| ==>
      r.menus[k].hovered == InRect(mouseX, mouseY, AbsX(b, k), AbsY(b, k), b.menus[k].frame.width, b.menus[k].frame.height)
    ensures forall k :: 0 <= k < |b.menus| ==>
      r.menus[k] == DropDownMenu.MouseMove(DropDownMenu.CheckHover(b.menus[k], AbsX(b, k), AbsY(b, k), mouseX, mouseY),
                                           AbsX(b, k), AbsY(b, k), mouseX, mouseY)
    ensures forall k :: 0 <= k < |b.menus| && !b.menus[k].isOpen ==> r.menus[k] == b.menus[k].(hovered := r.menus[k].hovered)
  {
    b.(menus := seq(|b.menus|, k requires 0 <= k < |b.menus| =>
      DropDownMenu.MouseMove(DropDownMenu.CheckHover(b.menus[k], AbsX(b, k), AbsY(b, k), mouseX, mouseY), AbsX(b, k), AbsY(b, k), mouseX, mouseY)))
  }

  /*
   * Lemmas.
   */

  /** Laying out from `x`: header `k` at `x` plus the room of those before it. */
lemma LayOutPositions(ms: seq<DropDownMenu.DropDown>, x: int)
    ensures forall k :: 0 <= k < |ms| ==> LayOut(ms, x)[k].frame.x == x + Sum(Advances(ms)[..k])
  {
    forall k | 0 <= k < |ms|
      ensures LayOut(ms, x)[k].frame.x == x + Sum(Advances(ms)[..k])
    {
      LayOutAt(ms, x, k);
    }
  }

  /** The layout moves each header to the bar's second row of pixels and changes nothing else about it. */
  lemma {:induction false} LayOutKeeps(ms: seq<DropDownMenu.DropDown>, x: int)
    ensures forall k :: 0 <= k < |ms| ==>
      LayOut(ms, x)[k] == ms[k].(frame := SetPosition(ms[k].frame, LayOut(ms, x)[k].frame.x, MenuTop))
    decreases |ms|
  {
    if |ms| > 0 {
      LayOutKeeps(ms[1..], x + ms[0].frame.width + Gap);
      forall k | 0 < k < |ms|
        ensures LayOut(ms, x)[k] == LayOut(ms[1..], x + ms[0].frame.width + Gap)[k - 1]
      {
        LayOutLater(ms, x, k);
      }
    }
  }

  /** One header of the above, by induction on its index. */
  lemma {:induction false} LayOutAt(ms: seq<DropDownMenu.DropDown>, x: int, k: int)
    requires 0 <= k < |ms|
    ensures LayOut(ms, x)[k].frame.x == x + Sum(Advances(ms)[..k])
    decreases k
  {
    if k == 0 {
      assert Advances(ms)[..0] == [];
    } else {
      LayOutLater(ms, x, k);
      LayOutAt(ms[1..], x + ms[0].frame.width + Gap, k - 1);
      AdvancesBefore(ms, k);
    }
  }

  /** Past the first header, the layout from `x` goes on as the layout of the rest from the next left edge. */
  lemma LayOutLater(ms: seq<DropDownMenu.DropDown>, x: int, k: int)
    requires 0 < k < |ms|
    ensures LayOut(ms, x)[k] == LayOut(ms[1..], x + ms[0].frame.width + Gap)[k - 1]
  {
  }

  /** The advance before header `k` is the first header's advance and the advance of the rest before it. */
  lemma AdvancesBefore(ms: seq<DropDownMenu.DropDown>, k: int)
    requires 0 < k <= |ms|
    ensures Sum(Advances(ms)[..k]) == ms[0].frame.width + Gap + Sum(Advances(ms[1..])[..k - 1])
  {
    assert Advances(ms)[..k] == [ms[0].frame.width + Gap] + Advances(ms[1..])[..k - 1];
    SumCons(ms[0].frame.width + Gap, Advances(ms[1..])[..k - 1]);
  }

  lemma AddLaysOut(b: Bar, d: DropDownMenu.DropDown)
    requires DropDownMenu.Valid(d) && LaidOut(b.menus)
    ensures LaidOut(Add(b, d).menus)
  {
    var ms := Add(b, d).menus;
    var n := |b.menus|;
    assert Advances(ms)[..n] == Advances(b.menus);
    forall k | 0 <= k < |ms|
      ensures ms[k].frame.x == Gap + Sum(Advances(ms)[..k]) && ms[k].frame.y == MenuTop
    {
      if k < n {
        assert Advances(ms)[..k] == Advances(b.menus)[..k];
        assert ms[k] == b.menus[k];
      }
    }
  }

  /** Resizing lays the headers out as adding them did, so the layout after any resize is the one `add` promises. */
  lemma ResizeLaysOut(b: Bar, windowWidth: int, windowHeight: int)
    ensures LaidOut(Resize(b, windowWidth, windowHeight).menus)
  {
    var ms := Resize(b, windowWidth, windowHeight).menus;
    LayOutPositions(b.menus, Gap);
    LayOutKeeps(b.menus, Gap);
    assert Advances(ms) == Advances(b.menus);
  }

  /** On a bar already laid out, resizing leaves the headers where they are. */
  lemma ResizeKeepsLayout(b: Bar, windowWidth: int, windowHeight: int)
    requires LaidOut(b.menus)
    ensures Resize(b, windowWidth, windowHeight).menus == b.menus
  {
    var ms := Resize(b, windowWidth, windowHeight).menus;
    LayOutPositions(b.menus, Gap);
    LayOutKeeps(b.menus, Gap);
    forall k | 0 <= k < |b.menus|
      ensures ms[k] == b.menus[k]
    {
      assert ms[k].frame == b.menus[k].frame;
    }
  }

  /** With no header hit and every menu from `i` on closed, the rest of the loop changes nothing. */
  lemma {:induction false} QuietTail(b: Bar, mouseX: int, mouseY: int, i: nat)
    requires Valid(b)
    requires forall j :: i <= j < |b.menus| ==> !b.menus[j].isOpen && !OnHeader(b, j, mouseX, mouseY)
    ensures ClickFrom(b, mouseX, mouseY, i) == b
    decreases |b.menus| - i
  {
    if i < |b.menus| {
      assert b.menus[i := OffHeader(b, i, mouseX, mouseY)] == b.menus;
      QuietTail(b, mouseX, mouseY, i + 1);
    }
  }

  /**
   * A click on header `h`, and on no other, leaves that menu toggled
   * from its state before the click and every other menu closed.
   */
  lemma {:induction false} HeaderClickFrom(b: Bar, mouseX: int, mouseY: int, i: nat, h: int)
    requires Valid(b) && i <= h < |b.menus|
    requires OnHeader(b, h, mouseX, mouseY)
    requires forall j :: i <= j < |b.menus| && j != h ==> !OnHeader(b, j, mouseX, mouseY)
    ensures var r := ClickFrom(b, mouseX, mouseY, i);
      r.menus[h].isOpen == !b.menus[h].isOpen &&
      forall j :: 0 <= j < |b.menus| && j != h ==> !r.menus[j].isOpen
    decreases h - i
  {
    if i == h {
      HeaderHit(b, mouseX, mouseY, h);
    } else {
      var b1 := b.(menus := b.menus[i := OffHeader(b, i, mouseX, mouseY)]);
      assert OnHeader(b1, h, mouseX, mouseY);
      forall j | i + 1 <= j < |b1.menus| && j != h
        ensures !OnHeader(b1, j, mouseX, mouseY)
      {
        assert !OnHeader(b, j, mouseX, mouseY);
        assert b1.menus[j] == b.menus[j];
      }
      HeaderClickFrom(b1, mouseX, mouseY, i + 1, h);
    }
  }

  /** The loop reaching the clicked header `h`: it toggles that menu, closes the others, and nothing after it changes. */
  lemma HeaderHit(b: Bar, mouseX: int, mouseY: int, h: int)
    requires Valid(b) && 0 <= h < |b.menus|
    requires OnHeader(b, h, mouseX, mouseY)
    requires forall j :: h < j < |b.menus| ==> !OnHeader(b, j, mouseX, mouseY)
    ensures var r := ClickFrom(b, mouseX, mouseY, h);
      r.menus[h].isOpen == !b.menus[h].isOpen &&
      forall j :: 0 <= j < |b.menus| && j != h ==> !r.menus[j].isOpen
  {
    var ms := CloseOthers(b.menus, h);
    var b1 := b.(menus := ms[h := DropDownMenu.Toggle(ms[h])]);
    forall j | h + 1 <= j < |b1.menus|
      ensures !b1.menus[j].isOpen && !OnHeader(b1, j, mouseX, mouseY)
    {
      assert !OnHeader(b, j, mouseX, mouseY);
      assert b1.menus[j].frame == b.menus[j].frame;
    }
    QuietTail(b1, mouseX, mouseY, h + 1);
  }

  /** Clicking a header, and no other, closes every other menu and toggles that one. */
  lemma HeaderClick(b: Bar, mouseX: int, mouseY: int, h: int)
    requires Valid(b) && 0 <= h < |b.menus|
    requires OnHeader(b, h, mouseX, mouseY)
    requires forall j :: 0 <= j < |b.menus| && j != h ==> !OnHeader(b, j, mouseX, mouseY)
    ensures Click(b, mouseX, mouseY).menus[h].isOpen == !b.menus[h].isOpen
    ensures forall j :: 0 <= j < |b.menus| && j != h ==> !Click(b, mouseX, mouseY).menus[j].isOpen
  {
    HeaderClickFrom(b, mouseX, mouseY, 0, h);
  }

  /** Off every header, the loop from `i` on treats each menu on its own. */
  lemma {:induction false} OffHeadersFrom(b: Bar, mouseX: int, mouseY: int, i: nat)
    requires Valid(b) && i <= |b.menus|
    requires forall j :: i <= j < |b.menus| ==> !OnHeader(b, j, mouseX, mouseY)
    ensures var r := ClickFrom(b, mouseX, mouseY, i);
      forall j :: 0 <= j < |b.menus| ==> r.menus[j] == if j < i then b.menus[j] else OffHeader(b, j, mouseX, mouseY)
    decreases |b.menus| - i
  {
    if i < |b.menus| {
      var b1 := b.(menus := b.menus[i := OffHeader(b, i, mouseX, mouseY)]);
      forall j | i + 1 <= j < |b1.menus|
        ensures !OnHeader(b1, j, mouseX, mouseY) && OffHeader(b1, j, mouseX, mouseY) == OffHeader(b, j, mouseX, mouseY)
      {
        assert !OnHeader(b, j, mouseX, mouseY);
        assert b1.menus[j] == b.menus[j];
      }
      OffHeadersFrom(b1, mouseX, mouseY, i + 1);
    }
  }

  /** A click on no header: each open menu takes the click when it is in its area and closes otherwise; closed menus stay as they are. */
  lemma ClickOffHeaders(b: Bar, mouseX: int, mouseY: int)
    requires Valid(b)
    requires forall j :: 0 <= j < |b.menus| ==> !OnHeader(b, j, mouseX, mouseY)
    ensures forall j :: 0 <= j < |b.menus| ==> Click(b, mouseX, mouseY).menus[j] == OffHeader(b, j, mouseX, mouseY)
  {
    OffHeadersFrom(b, mouseX, mouseY, 0);
  }
}
