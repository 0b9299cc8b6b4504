/**
 * The base widget's geometry: a position relative to the parent, a size,
 * and the parent chain that turns relative positions into window
 * coordinates. A widget with its ancestors is a `Chain`: the widget first,
 * then its parent, its grand-parent, and so on up to the root.
 *
 * The source stores coordinates in 32-bit `int`s; sums along the chain are
 * taken over unbounded integers here.
 */
module WidgetBase {
  import opened Common

  datatype Frame = Frame(x: int, y: int, width: int, height: int)

  type Chain = seq<Frame>

  /** `getAbsoluteX`: the widget's x plus the parent's absolute x. */
  function AbsoluteX(c: Chain): int
    decreases |c|
  {
    if |c| == 0 then 0 else c[0].x + AbsoluteX(c[1..])
  }

  /** `getAbsoluteY`. */
  function AbsoluteY(c: Chain): int
    decreases |c|
  {
    if |c| == 0 then 0 else c[0].y + AbsoluteY(c[1..])
  }

  function Xs(c: Chain): (r: seq<int>)
    ensures |r| == |c| && forall i :: 0 <= i < |c| ==> r[i] == c[i].x
  {
    seq(|c|, i requires 0 <= i < |c| => c[i].x)
  }

  function Ys(c: Chain): (r: seq<int>)
    ensures |r| == |c| && forall i :: 0 <= i < |c| ==> r[i] == c[i].y
  {
    seq(|c|, i requires 0 <= i < |c| => c[i].y)
  }

  /** The half-open rectangle [x, x+w) x [y, y+h). */
  predicate InRect(px: int, py: int, x: int, y: int, w: int, h: int) {
    x <= px < x + w && y <= py < y + h
  }

  /** `containsPoint`: the widget's own size placed at its absolute position. */
  predicate ContainsPoint(c: Chain, px: int, py: int)
    requires |c| > 0
  {
    InRect(px, py, AbsoluteX(c), AbsoluteY(c), c[0].width, c[0].height)
  }

  /** The base `checkClick` performs the same test as `containsPoint`. */
  function CheckClick(c: Chain, mouseX: int, mouseY: int): (r: bool)
    requires |c| > 0
    ensures r == ContainsPoint(c, mouseX, mouseY)
  {
    var ax, ay := AbsoluteX(c), AbsoluteY(c);
    mouseX >= ax && mouseX < ax + c[0].width && mouseY >= ay && mouseY < ay + c[0].height
  }

  /** `setPosition`. */
  function SetPosition(f: Frame, newX: int, newY: int): (r: Frame)
    ensures r.x == newX && r.y == newY
    ensures r.width == f.width && r.height == f.height
  {
    f.(x := newX, y := newY)
  }

  /** `setSize`. */
  function SetSize(f: Frame, newWidth: int, newHeight: int): (r: Frame)
    ensures r.width == newWidth && r.height == newHeight
    ensures r.x == f.x && r.y == f.y
  {
    f.(width := newWidth, height := newHeight)
  }

  /** The base `hasSelection`: a plain widget never has a selection. */
  function HasSelection(f: Frame): (r: bool)
    ensures !r
  {
    false
  }

  /*
   * Lemmas.
   */

  /** Prepending the newest term of a sum. */
  lemma {:induction false} SumCons(a: int, s: seq<int>)
    ensures Sum([a] + s) == a + Sum(s)
    decreases |s|
  {
    if |s| == 0 {
      assert [a] + s == [a];
      assert [a][..0] == [];
    } else {
      var t := [a] + s;
      assert t[..|t| - 1] == [a] + s[..|s| - 1];
      SumCons(a, s[..|s| - 1]);
    }
  }

  /** The absolute x is the sum of the relative x's along the chain. */
  lemma {:induction false} AbsoluteXIsSum(c: Chain)
    ensures AbsoluteX(c) == Sum(Xs(c))
    decreases |c|
  {
    if |c| > 0 {
      AbsoluteXIsSum(c[1..]);
      var xs := Xs(c);
      assert xs == [c[0].x] + Xs(c[1..]);
      SumCons(c[0].x, Xs(c[1..]));
    }
  }

  /** The absolute y is the sum of the relative y's along the chain. */
  lemma {:induction false} AbsoluteYIsSum(c: Chain)
    ensures AbsoluteY(c) == Sum(Ys(c))
    decreases |c|
  {
    if |c| > 0 {
      AbsoluteYIsSum(c[1..]);
      var ys := Ys(c);
      assert ys == [c[0].y] + Ys(c[1..]);
      SumCons(c[0].y, Ys(c[1..]));
    }
  }

  /** Moving any ancestor by (dx, dy) moves the widget's absolute position by the same amount. */
  lemma {:induction false} MoveAncestor(c: Chain, k: nat, dx: int, dy: int)
    requires k < |c|
    ensures AbsoluteX(c[k := SetPosition(c[k], c[k].x + dx, c[k].y + dy)]) == AbsoluteX(c) + dx
    ensures AbsoluteY(c[k := SetPosition(c[k], c[k].x + dx, c[k].y + dy)]) == AbsoluteY(c) + dy
    decreases k
  {
    var m := c[k := SetPosition(c[k], c[k].x + dx, c[k].y + dy)];
    if k > 0 {
      assert m[1..] == c[1..][k - 1 := SetPosition(c[k], c[k].x + dx, c[k].y + dy)];
      MoveAncestor(c[1..], k - 1, dx, dy);
    } else {
      assert m[1..] == c[1..];
    }
  }

  /** A widget without a parent is at its own coordinates. */
  lemma RootIsAbsolute(f: Frame, px: int, py: int)
    ensures AbsoluteX([f]) == f.x && AbsoluteY([f]) == f.y
    ensures ContainsPoint([f], px, py) == InRect(px, py, f.x, f.y, f.width, f.height)
  {
    assert [f][1..] == [];
  }

  /** A widget with no area contains no point. */
  lemma EmptyContainsNothing(c: Chain, px: int, py: int)
    requires |c| > 0 && (c[0].width <= 0 || c[0].height <= 0)
    ensures !ContainsPoint(c, px, py)
  {
  }
}
