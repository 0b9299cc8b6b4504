/**
 * Tree nodes and the tree view. A node owns its children; the source's
 * pointers become values, a node's identity is its `id` (the source
 * compares pointers), and the view reaches a node by its path: the child
 * indices from the root, which stay valid as nodes are appended and
 * subtrees toggled. The root itself is never shown.
 */
module TreeView {
  import opened Common

  datatype Node = Node(id: nat, text: string, expanded: bool, depth: int, children: seq<Node>)

  /** The `TreeNode` constructor: collapsed and childless, at the given depth. */
  function NewNode(id: nat, text: string, depth: int): (n: Node)
    ensures !n.expanded && n.children == [] && n.depth == depth && n.id == id && n.text == text
  {
    Node(id, text, false, depth, [])
  }

  /** `hasChildren`. */
  function HasChildren(n: Node): (r: bool)
    ensures r <==> |n.children| > 0
  {
    n.children != []
  }

  /** `toggleExpanded`. */
  function ToggleExpanded(n: Node): (r: Node)
    ensures r.expanded == !n.expanded && r == n.(expanded := r.expanded)
  {
    n.(expanded := !n.expanded)
  }

  /** `addChild`: append a new collapsed leaf one level deeper. */
  function AddChild(n: Node, id: nat, text: string): (r: Node)
    ensures r == n.(children := r.children)
    ensures |r.children| == |n.children| + 1 && r.children[..|n.children|] == n.children
    ensures r.children[|n.children|] == NewNode(id, text, n.depth + 1)
  {
    n.(children := n.children + [NewNode(id, text, n.depth + 1)])
  }

  /** The index of the first child with the given identity, or -1. */
  function IndexOf(cs: seq<Node>, id: nat): (k: int)
    ensures -1 <= k < |cs|
    ensures k == -1 <==> forall j :: 0 <= j < |cs| ==> cs[j].id != id
    ensures k >= 0 ==> cs[k].id == id && forall j :: 0 <= j < k ==> cs[j].id != id
  {
    if |cs| == 0 then -1
    else
      var k := IndexOf(cs[..|cs| - 1], id);
      if k >= 0 then k else if cs[|cs| - 1].id == id then |cs| - 1 else -1
  }

  /** `removeChild`: drop the first child with that identity, keeping the others in order; absent, nothing changes. */
  function RemoveChild(n: Node, id: nat): (r: Node)
    ensures r == n.(children := r.children)
    ensures IndexOf(n.children, id) == -1 ==> r == n
    ensures var k := IndexOf(n.children, id);
      k >= 0 ==> r.children == n.children[..k] + n.children[k + 1..]
  {
    var k := IndexOf(n.children, id);
    if k < 0 then n else n.(children := n.children[..k] + n.children[k + 1..])
  }

  /** Depths as `addChild` sets them: every child one level below its parent. */
  predicate DepthsOk(n: Node)
    decreases n
  {
    forall i :: 0 <= i < |n.children| ==> n.children[i].depth == n.depth + 1 && DepthsOk(n.children[i])
  }

  /*
   * Paths.
   */

  /** The node at a path of child indices, if the path leads anywhere. */
  function NodeAt(n: Node, path: seq<nat>): (r: Option<Node>)
    decreases |path|
  {
    if |path| == 0 then Some(n)
    else if path[0] < |n.children| then NodeAt(n.children[path[0]], path[1..])
    else None
  }

  /** The tree with the node at `path` expanded or collapsed; a path that leads nowhere changes nothing. */
  function ToggleAt(n: Node, path: seq<nat>): (r: Node)
    ensures r.id == n.id && r.text == n.text && r.depth == n.depth && |r.children| == |n.children|
    decreases |path|
  {
    if |path| == 0 then ToggleExpanded(n)
    else if path[0] < |n.children| then
      n.(children := n.children[path[0] := ToggleAt(n.children[path[0]], path[1..])])
    else n
  }

  /** A path below `n` all of whose nodes above the last are expanded: a node the view shows. */
  predicate ShownIn(n: Node, rest: seq<nat>)
    decreases |rest|
  {
    |rest| == 0 || (n.expanded && rest[0] < |n.children| && ShownIn(n.children[rest[0]], rest[1..]))
  }

  /** A shown node of the view: a child of the root, then expanded nodes down to it. */
  predicate Shown(root: Node, path: seq<nat>) {
    |path| > 0 && path[0] < |root.children| && ShownIn(root.children[path[0]], path[1..])
  }

  /** Strict lexicographic order on paths, a proper prefix first: pre-order. */
  predicate LexLess(a: seq<nat>, b: seq<nat>)
    decreases |a|
  {
    |b| > 0 && (|a| == 0 || a[0] < b[0] || (a[0] == b[0] && LexLess(a[1..], b[1..])))
  }

  /*
   * The visible list.
   */

  /** An entry of the visible list: which node, and its `visualIndex`. */
  datatype VisibleNode = VisibleNode(path: seq<nat>, visualIndex: int)

  /**
   * `buildVisibleNodesRecursive` for one node: the node, numbered
   * `start`, then, when it is expanded, its children's entries in order.
   */
  function Entry(n: Node, path: seq<nat>, start: int): (r: seq<VisibleNode>)
    ensures |r| >= 1 && r[0] == VisibleNode(path, start)
    decreases n
  {
    [VisibleNode(path, start)] + (if n.expanded then Entries(n.children, path, 0, start + 1) else [])
  }

  /** The entries of the children `ns[i..]` of the node at `prefix`, numbered from `start`. */
  function Entries(ns: seq<Node>, prefix: seq<nat>, i: nat, start: int): (r: seq<VisibleNode>)
    decreases ns, |ns| - i
  {
    if i >= |ns| then []
    else
      var a := Entry(ns[i], prefix + [i], start);
      a + Entries(ns, prefix, i + 1, start + |a|)
  }

  /** `buildVisibleNodesList`: the entries of the root's children, numbered from 0. */
  function BuildList(root: Node): (r: seq<VisibleNode>)
  {
    Entries(root.children, [], 0, 0)
  }

  /** The paths of a list of entries. */
  function Paths(es: seq<VisibleNode>): (r: seq<seq<nat>>)
    ensures |r| == |es| && forall k :: 0 <= k < |es| ==> r[k] == es[k].path
  {
    seq(|es|, k requires 0 <= k < |es| => es[k].path)
  }

  /*
   * The view.
   */

  const ScrollBarWidth: int := 20
  const DefaultItemHeight: int := 25
  const BaseIndent: int := 5

  datatype View = View(
    width: int, height: int, root: Node, nextId: nat,
    selected: Option<seq<nat>>, hovered: Option<seq<nat>>,
    scroll: int, itemHeight: int, visibleCount: int, indentWidth: int, iconSize: int,
    visible: seq<VisibleNode>, hasCallback: bool, selections: seq<seq<nat>>)

  /** The state the view keeps: a non-zero item height, and the list built from the current tree. */
  predicate Valid(v: View) {
    v.itemHeight != 0 && v.visible == BuildList(v.root)
  }

  /** `updateScrollBar`: when every entry fits, scroll back to the top. */
  function UpdateScroll(v: View): (r: View)
    ensures r == v.(scroll := r.scroll)
    ensures |v.visible| <= v.visibleCount ==> r.scroll == 0
    ensures |v.visible| > v.visibleCount ==> r.scroll == v.scroll
  {
    if |v.visible| > v.visibleCount then v else v.(scroll := 0)
  }

  /** `buildVisibleNodesList` on the view: rebuild the list from the tree, then the scroll state. */
  function Rebuild(v: View): (r: View)
    requires v.itemHeight != 0
    ensures Valid(r) && r == v.(visible := r.visible, scroll := r.scroll)
    ensures |r.visible| <= r.visibleCount ==> r.scroll == 0
  {
    UpdateScroll(v.(visible := BuildList(v.root)))
  }

  /** The constructor: an empty "Root", items 25 pixels high, as many whole items as fit inside the border. */
  function New(width: int, height: int, hasCallback: bool): (v: View)
    ensures Valid(v) && v.visible == [] && v.selected == None && v.scroll == 0
    ensures v.visibleCount == CDiv(height - 2, DefaultItemHeight)
  {
    var root := NewNode(0, "Root", 0);
    Rebuild(View(width, height, root, 1, None, None, 0, DefaultItemHeight, CDiv(height - 2, DefaultItemHeight),
                 20, 9, [], hasCallback, []))
  }

  /** `addRootChild`: a new depth-1 leaf under the root, then the list is rebuilt. */
  function AddRootChild(v: View, text: string): (r: View)
    requires Valid(v)
    ensures Valid(r) && r.nextId == v.nextId + 1
    ensures r.root == AddChild(v.root, v.nextId, text)
  {
    Rebuild(v.(root := AddChild(v.root, v.nextId, text), nextId := v.nextId + 1))
  }

  /** `setItemHeight`: recount the whole items that fit and update the scroll state (C++ division by zero is not allowed). */
  function SetItemHeight(v: View, h: int): (r: View)
    requires Valid(v) && h != 0
    ensures Valid(r) && r.itemHeight == h && r.visibleCount == CDiv(v.height - 2, h)
    ensures r == v.(itemHeight := h, visibleCount := r.visibleCount, scroll := r.scroll)
  {
    UpdateScroll(v.(itemHeight := h, visibleCount := CDiv(v.height - 2, h)))
  }

  /** `setIndentWidth`: the indent per level, which places the expand icons. */
  function SetIndentWidth(v: View, w: int): (r: View)
    ensures r.indentWidth == w && r == v.(indentWidth := r.indentWidth)
  {
    v.(indentWidth := w)
  }

  /** `setExpandIconSize`: the side of the expand icons' square. */
  function SetExpandIconSize(v: View, size: int): (r: View)
    ensures r.iconSize == size && r == v.(iconSize := r.iconSize)
  {
    v.(iconSize := size)
  }

  /** `setSelectedNode`: any node, or none; no report. */
  function SetSelectedNode(v: View, path: Option<seq<nat>>): (r: View)
    ensures r == v.(selected := path)
  {
    v.(selected := path)
  }

  /** What `getNodeAtPosition` returns: the entry hit, if any, and whether the press was on its expand icon. */
  datatype Pick = Pick(found: bool, index: int, onIcon: bool)

  /** Inside the border and left of the scroll bar strip: the area `getNodeAtPosition` searches. */
  predicate InItemArea(v: View, absX: int, absY: int, mouseX: int, mouseY: int) {
    absX + 1 <= mouseX < absX + v.width - ScrollBarWidth - 1 && absY + 1 <= mouseY < absY + v.height - 1
  }

  /** The entry whose row holds a point: the scroll offset plus the whole items above it. */
  function RowIndex(v: View, absY: int, mouseY: int): int
    requires v.itemHeight != 0
  {
    v.scroll + CDiv(mouseY - (absY + 1), v.itemHeight)
  }

  /**
   * The expand icon of the entry at `index`, for a node at `depth`: the
   * square of side `iconSize` that starts `BaseIndent` plus `depth` indents
   * from the left edge and is centred in the entry's row.
   */
  predicate InIcon(v: View, absX: int, absY: int, index: int, depth: int, mouseX: int, mouseY: int) {
    var x := absX + BaseIndent + depth * v.indentWidth;
    var y := absY + 1 + (index - v.scroll) * v.itemHeight + CDiv(v.itemHeight - v.iconSize, 2);
    x <= mouseX < x + v.iconSize && y <= mouseY < y + v.iconSize
  }

  /** `getNodeAtPosition`: the entry under a point, and whether the point is on that node's expand icon. */
  function NodeAtPosition(v: View, absX: int, absY: int, mouseX: int, mouseY: int): (p: Pick)
    requires Valid(v)
    ensures p.found <==> InItemArea(v, absX, absY, mouseX, mouseY) && 0 <= RowIndex(v, absY, mouseY) < |v.visible|
    ensures p.found ==> p.index == RowIndex(v, absY, mouseY) && NodeAt(v.root, v.visible[p.index].path).Some?
    ensures p.found ==> var n := NodeAt(v.root, v.visible[p.index].path).value;
      p.onIcon <==> HasChildren(n) && InIcon(v, absX, absY, p.index, n.depth, mouseX, mouseY)
    ensures !p.found ==> !p.onIcon
  {
    if !InItemArea(v, absX, absY, mouseX, mouseY) then
      Pick(false, -1, false)
    else
      var index := RowIndex(v, absY, mouseY);
      if 0 <= index < |v.visible| then
        EntriesValid(v.root);
        var node := NodeAt(v.root, v.visible[index].path).value;
        Pick(true, index, HasChildren(node) && InIcon(v, absX, absY, index, node.depth, mouseX, mouseY))
      else Pick(false, -1, false)
  }

  /**
   * `handleMouseButton`. With more entries than fit, an event on the
   * scroll bar's strip belongs to the bar, whose change callback takes a
   * track press's offset as the new scroll. A press on a node's expand
   * icon toggles the node and rebuilds the list; a press elsewhere on a
   * node selects it and reports it. A release changes nothing.
   */
  function MouseButton(v: View, absX: int, absY: int, mouseX: int, mouseY: int, pressed: bool, bar: BarResponse): (r: View)
    requires Valid(v)
    ensures Valid(r)
    ensures !pressed ==> r == v
    ensures pressed && OnScrollBar(v, absX, mouseX) ==> r == (if bar.TrackJump? then v.(scroll := bar.offset) else v)
    ensures var p := NodeAtPosition(v, absX, absY, mouseX, mouseY);
      pressed && !OnScrollBar(v, absX, mouseX) && p.onIcon ==>
        r == Rebuild(v.(root := ToggleAt(v.root, v.visible[p.index].path)))
    ensures var p := NodeAtPosition(v, absX, absY, mouseX, mouseY);
      pressed && !OnScrollBar(v, absX, mouseX) && p.found && !p.onIcon ==>
        r.selected == Some(v.visible[p.index].path) && r.root == v.root && r.scroll == v.scroll &&
        r.selections == v.selections + (if v.hasCallback then [v.visible[p.index].path] else [])
    ensures pressed && !OnScrollBar(v, absX, mouseX) && !NodeAtPosition(v, absX, absY, mouseX, mouseY).found ==> r == v
  {
    if !pressed then v
    else if OnScrollBar(v, absX, mouseX) then
      if bar.TrackJump? then v.(scroll := bar.offset) else v
    else
      var p := NodeAtPosition(v, absX, absY, mouseX, mouseY);
      if !p.found then v
      else
        var path := v.visible[p.index].path;
        if p.onIcon then Rebuild(v.(root := ToggleAt(v.root, path)))
        else v.(selected := Some(path), selections := v.selections + (if v.hasCallback then [path] else []))
  }

  /** The scroll bar takes the press when it is shown and the press is on its strip. */
  predicate OnScrollBar(v: View, absX: int, mouseX: int) {
    |v.visible| > v.visibleCount && absX + v.width - ScrollBarWidth <= mouseX < absX + v.width
  }

  /** `checkHover`: the node under the mouse inside the view left of the scroll bar, else none. */
  function CheckHover(v: View, absX: int, absY: int, mouseX: int, mouseY: int): (r: View)
    requires Valid(v)
    ensures r == v.(hovered := r.hovered)
    ensures var p := NodeAtPosition(v, absX, absY, mouseX, mouseY);
      r.hovered == if p.found then Some(v.visible[p.index].path) else None
  {
    var p := NodeAtPosition(v, absX, absY, mouseX, mouseY);
    if absX <= mouseX < absX + v.width - ScrollBarWidth && absY <= mouseY < absY + v.height && p.found then
      v.(hovered := Some(v.visible[p.index].path))
    else v.(hovered := None)
  }

  /*
   * Lemmas.
   */

  /** A path extended by more indices comes after it. */
  lemma {:induction false} PrefixFirst(a: seq<nat>, rest: seq<nat>)
    requires |rest| > 0
    ensures LexLess(a, a + rest)
    decreases |a|
  {
    if |a| > 0 {
      assert (a + rest)[1..] == a[1..] + rest;
      PrefixFirst(a[1..], rest);
    }
  }

  /** Below a common prefix, a smaller index comes first, whatever follows. */
  lemma {:induction false} SiblingsOrdered(p: seq<nat>, i: nat, j: nat, x: seq<nat>, y: seq<nat>)
    requires i < j
    ensures LexLess(p + [i] + x, p + [j] + y)
    decreases |p|
  {
    if |p| > 0 {
      assert (p + [i] + x)[1..] == p[1..] + [i] + x;
      assert (p + [j] + y)[1..] == p[1..] + [j] + y;
      SiblingsOrdered(p[1..], i, j, x, y);
    }
  }

  /** A node's entries are numbered consecutively from `start`. */
  lemma {:induction false} EntryNumbered(n: Node, path: seq<nat>, start: int)
    ensures forall k :: 0 <= k < |Entry(n, path, start)| ==> Entry(n, path, start)[k].visualIndex == start + k
    decreases n
  {
    var es := Entry(n, path, start);
    if n.expanded {
      var kids := Entries(n.children, path, 0, start + 1);
      EntriesNumbered(n.children, path, 0, start + 1);
      assert es == [VisibleNode(path, start)] + kids;
      forall k | 0 < k < |es|
        ensures es[k].visualIndex == start + k
      {
        assert es[k] == kids[k - 1];
      }
    }
  }

  lemma {:induction false} EntriesNumbered(ns: seq<Node>, prefix: seq<nat>, i: nat, start: int)
    ensures forall k :: 0 <= k < |Entries(ns, prefix, i, start)| ==> Entries(ns, prefix, i, start)[k].visualIndex == start + k
    decreases ns, |ns| - i
  {
    if i < |ns| {
      var a := Entry(ns[i], prefix + [i], start);
      var b := Entries(ns, prefix, i + 1, start + |a|);
      EntryNumbered(ns[i], prefix + [i], start);
      EntriesNumbered(ns, prefix, i + 1, start + |a|);
      var es := Entries(ns, prefix, i, start);
      assert es == a + b;
      forall k | 0 <= k < |es|
        ensures es[k].visualIndex == start + k
      {
        if k >= |a| {
          assert es[k] == b[k - |a|];
        }
      }
    }
  }

  /** Each entry's `visualIndex` is its position in the visible list. */
  lemma VisualIndexIsPosition(root: Node)
    ensures forall k :: 0 <= k < |BuildList(root)| ==> BuildList(root)[k].visualIndex == k
  {
    EntriesNumbered(root.children, [], 0, 0);
  }

  /** The paths among a node's entries are its own path extended by the shown paths below it. */
  lemma {:induction false} EntryPaths(n: Node, path: seq<nat>, start: int, q: seq<nat>)
    ensures q in Paths(Entry(n, path, start)) <==>
      |q| >= |path| && q[..|path|] == path && ShownIn(n, q[|path|..])
    decreases n
  {
    var es := Entry(n, path, start);
    var kids := if n.expanded then Entries(n.children, path, 0, start + 1) else [];
    assert es == [VisibleNode(path, start)] + kids;
    assert q in Paths(es) <==> q == path || q in Paths(kids) by {
      if q in Paths(es) {
        var k :| 0 <= k < |es| && Paths(es)[k] == q;
        if k > 0 {
          assert Paths(kids)[k - 1] == q;
        }
      }
      if q in Paths(kids) {
        var k :| 0 <= k < |kids| && Paths(kids)[k] == q;
        assert Paths(es)[k + 1] == q;
      }
      if q == path {
        assert Paths(es)[0] == q;
      }
    }
    if q == path {
      assert q[|path|..] == [];
    } else if |q| > |path| && q[..|path|] == path {
      var rest := q[|path|..];
      if n.expanded {
        EntriesPaths(n.children, path, 0, start + 1, q);
        assert q[|path| + 1..] == rest[1..];
      } else {
        assert q !in Paths(kids);
      }
    } else {
      if n.expanded {
        EntriesPaths(n.children, path, 0, start + 1, q);
      }
      if |q| == |path| {
        assert q[..|path|] == q;
      }
    }
  }

  /** The paths among the entries of children `i..` of the node at `prefix`: one of those children, then a shown path below it. */
  lemma {:induction false} EntriesPaths(ns: seq<Node>, prefix: seq<nat>, i: nat, start: int, q: seq<nat>)
    ensures q in Paths(Entries(ns, prefix, i, start)) <==>
      |q| > |prefix| && q[..|prefix|] == prefix && i <= q[|prefix|] < |ns| &&
      ShownIn(ns[q[|prefix|]], q[|prefix| + 1..])
    decreases ns, |ns| - i
  {
    if i < |ns| {
      var a := Entry(ns[i], prefix + [i], start);
      var b := Entries(ns, prefix, i + 1, start + |a|);
      var here := |q| > |prefix| && q[..|prefix|] == prefix && q[|prefix|] == i && ShownIn(ns[i], q[|prefix| + 1..]);
      assert q in Paths(Entries(ns, prefix, i, start)) <==> here || q in Paths(b) by {
        assert Entries(ns, prefix, i, start) == a + b;
        PathsConcat(a, b, q);
        EntryPaths(ns[i], prefix + [i], start, q);
        ChildPath(prefix, i, q);
      }
      EntriesPaths(ns, prefix, i + 1, start + |a|, q);
    }
  }

  /** A path is among the paths of two lists of entries in a row exactly when it is among those of one of them. */
  lemma PathsConcat(a: seq<VisibleNode>, b: seq<VisibleNode>, q: seq<nat>)
    ensures q in Paths(a + b) <==> q in Paths(a) || q in Paths(b)
  {
    if q in Paths(a + b) {
      var k :| 0 <= k < |a + b| && Paths(a + b)[k] == q;
      if k < |a| {
        assert Paths(a)[k] == q;
      } else {
        assert Paths(b)[k - |a|] == q;
      }
    }
    if q in Paths(a) {
      var k :| 0 <= k < |a| && Paths(a)[k] == q;
      assert Paths(a + b)[k] == q;
    }
    if q in Paths(b) {
      var k :| 0 <= k < |b| && Paths(b)[k] == q;
      assert Paths(a + b)[|a| + k] == q;
    }
  }

  /** A path extends `prefix + [i]` exactly when it extends `prefix` and its next step is `i`; the rest after both agree. */
  lemma ChildPath(prefix: seq<nat>, i: nat, q: seq<nat>)
    ensures |q| >= |prefix| + 1 && q[..|prefix| + 1] == prefix + [i] <==>
      |q| > |prefix| && q[..|prefix|] == prefix && q[|prefix|] == i
    ensures |q| > |prefix| ==> q[|prefix + [i]|..] == q[|prefix| + 1..]
  {
    var p1 := prefix + [i];
    if |q| > |prefix| {
      assert q[..|p1|][..|prefix|] == q[..|prefix|];
      if q[..|prefix|] == prefix && q[|prefix|] == i {
        assert q[..|p1|] == q[..|prefix|] + [q[|prefix|]];
      }
    }
  }

  /** The visible list holds exactly the shown nodes. */
  lemma VisibleExactlyShown(root: Node, q: seq<nat>)
    ensures q in Paths(BuildList(root)) <==> Shown(root, q)
  {
    EntriesPaths(root.children, [], 0, 0, q);
    if |q| > 0 {
      assert q[..0] == [];
    }
  }

  /** Every entry of the view leads to a node of the tree. */
  lemma EntriesValid(root: Node)
    ensures forall k :: 0 <= k < |BuildList(root)| ==> NodeAt(root, BuildList(root)[k].path).Some?
  {
    forall k | 0 <= k < |BuildList(root)|
      ensures NodeAt(root, BuildList(root)[k].path).Some?
    {
      var q := BuildList(root)[k].path;
      assert Paths(BuildList(root))[k] == q;
      VisibleExactlyShown(root, q);
      ShownLeads(root.children[q[0]], q[1..]);
    }
  }

  /** A shown path leads to a node. */
  lemma {:induction false} ShownLeads(n: Node, rest: seq<nat>)
    requires ShownIn(n, rest)
    ensures NodeAt(n, rest).Some?
    decreases |rest|
  {
    if |rest| > 0 {
      ShownLeads(n.children[rest[0]], rest[1..]);
    }
  }

  /** Entries in pre-order: every path comes strictly before the paths after it. */
  predicate InPreOrder(es: seq<VisibleNode>) {
    forall p, q :: 0 <= p < q < |es| ==> LexLess(es[p].path, es[q].path)
  }

  /** Two runs in pre-order, each path of the first before each of the second, make one run in pre-order. */
  lemma JoinPreOrder(a: seq<VisibleNode>, b: seq<VisibleNode>)
    requires InPreOrder(a) && InPreOrder(b)
    requires forall x, y :: 0 <= x < |a| && 0 <= y < |b| ==> LexLess(a[x].path, b[y].path)
    ensures InPreOrder(a + b)
  {
    forall p, q | 0 <= p < q < |a + b|
      ensures LexLess((a + b)[p].path, (a + b)[q].path)
    {
      if q < |a| {
      } else if p < |a| {
        assert (a + b)[q] == b[q - |a|];
      } else {
        assert (a + b)[p] == b[p - |a|] && (a + b)[q] == b[q - |a|];
      }
    }
  }

  /** A node's entries are in pre-order. */
  lemma {:induction false} EntryPreOrder(n: Node, path: seq<nat>, start: int)
    ensures InPreOrder(Entry(n, path, start))
    decreases n
  {
    if n.expanded {
      var kids := Entries(n.children, path, 0, start + 1);
      EntriesPreOrder(n.children, path, 0, start + 1);
      forall y | 0 <= y < |kids|
        ensures LexLess(path, kids[y].path)
      {
        var q := kids[y].path;
        assert Paths(kids)[y] == q;
        EntriesPaths(n.children, path, 0, start + 1, q);
        assert q == path + q[|path|..];
        PrefixFirst(path, q[|path|..]);
      }
      JoinPreOrder([VisibleNode(path, start)], kids);
    }
  }

  /** The entries of a run of siblings are in pre-order. */
  lemma {:induction false} EntriesPreOrder(ns: seq<Node>, prefix: seq<nat>, i: nat, start: int)
    ensures InPreOrder(Entries(ns, prefix, i, start))
    decreases ns, |ns| - i
  {
    if i < |ns| {
      var a := Entry(ns[i], prefix + [i], start);
      var b := Entries(ns, prefix, i + 1, start + |a|);
      EntryPreOrder(ns[i], prefix + [i], start);
      EntriesPreOrder(ns, prefix, i + 1, start + |a|);
      forall x, y | 0 <= x < |a| && 0 <= y < |b|
        ensures LexLess(a[x].path, b[y].path)
      {
        SiblingRunsOrdered(ns, prefix, i, start, a[x].path, b[y].path);
      }
      JoinPreOrder(a, b);
    }
  }

  /** A path under child `i` comes before any path under a later sibling. */
  lemma SiblingRunsOrdered(ns: seq<Node>, prefix: seq<nat>, i: nat, start: int, qa: seq<nat>, qb: seq<nat>)
    requires i < |ns|
    requires qa in Paths(Entry(ns[i], prefix + [i], start))
    requires qb in Paths(Entries(ns, prefix, i + 1, start + |Entry(ns[i], prefix + [i], start)|))
    ensures LexLess(qa, qb)
  {
    var p1 := prefix + [i];
    EntryPaths(ns[i], p1, start, qa);
    EntriesPaths(ns, prefix, i + 1, start + |Entry(ns[i], p1, start)|, qb);
    assert qa == prefix + [i] + qa[|p1|..];
    assert qb == prefix + [qb[|prefix|]] + qb[|prefix| + 1..];
    SiblingsOrdered(prefix, i, qb[|prefix|], qa[|p1|..], qb[|prefix| + 1..]);
  }

  /** The visible list is in pre-order: a node, then its shown descendants, then its later siblings. */
  lemma VisibleInPreOrder(root: Node)
    ensures InPreOrder(BuildList(root))
  {
    EntriesPreOrder(root.children, [], 0, 0);
  }

  /** Appending a sibling appends its entries after the others'. */
  lemma {:induction false} EntriesAppend(ns: seq<Node>, c: Node, prefix: seq<nat>, i: nat, start: int)
    requires i <= |ns|
    ensures Entries(ns + [c], prefix, i, start) ==
      Entries(ns, prefix, i, start) + Entry(c, prefix + [|ns|], start + |Entries(ns, prefix, i, start)|)
    decreases |ns| - i
  {
    if i == |ns| {
      EntriesOfLast(ns, c, prefix, start);
    } else {
      var a := Entry(ns[i], prefix + [i], start);
      EntriesAppend(ns, c, prefix, i + 1, start + |a|);
      AppendStep(ns, c, prefix, i, start, start + |a|);
    }
  }

  /** The step of the induction above: child `i` in front of the entries after it, old and new. */
  lemma AppendStep(ns: seq<Node>, c: Node, prefix: seq<nat>, i: nat, start: int, next: int)
    requires i < |ns| && next == start + |Entry(ns[i], prefix + [i], start)|
    requires Entries(ns + [c], prefix, i + 1, next) ==
      Entries(ns, prefix, i + 1, next) + Entry(c, prefix + [|ns|], next + |Entries(ns, prefix, i + 1, next)|)
    ensures Entries(ns + [c], prefix, i, start) ==
      Entries(ns, prefix, i, start) + Entry(c, prefix + [|ns|], start + |Entries(ns, prefix, i, start)|)
  {
    var ms := ns + [c];
    var a := Entry(ns[i], prefix + [i], start);
    var rest := Entries(ns, prefix, i + 1, next);
    var last := Entry(c, prefix + [|ns|], next + |rest|);
    assert Entries(ms, prefix, i, start) == a + (rest + last) by {
      assert ms[i] == ns[i];
    }
    assert Entries(ns, prefix, i, start) == a + rest;
    EntryAt(c, prefix + [|ns|], next + |rest|, start + |Entries(ns, prefix, i, start)|);
    AppendAssoc(a, rest, last);
  }

  /** The entries from one past the old children are the new child's alone. */
  lemma EntriesOfLast(ns: seq<Node>, c: Node, prefix: seq<nat>, start: int)
    ensures Entries(ns + [c], prefix, |ns|, start) == Entry(c, prefix + [|ns|], start)
  {
    var ms := ns + [c];
    assert ms[|ns|] == c;
    assert Entries(ms, prefix, |ns| + 1, start + |Entry(c, prefix + [|ns|], start)|) == [];
  }

  /** An entry does not depend on how its row number is written. */
  lemma EntryAt(n: Node, path: seq<nat>, x: int, y: int)
    requires x == y
    ensures Entry(n, path, x) == Entry(n, path, y)
  {
  }

  /** A root child added to the view shows up as the last entry, and the others stay as they were. */
  lemma AddRootChildAppears(v: View, text: string)
    requires Valid(v)
    ensures var r := AddRootChild(v, text);
      r.visible == v.visible + [VisibleNode([|v.root.children|], |v.visible|)]
  {
    var c := NewNode(v.nextId, text, v.root.depth + 1);
    EntriesAppend(v.root.children, c, [], 0, 0);
    assert AddChild(v.root, v.nextId, text).children == v.root.children + [c];
    assert [] + [|v.root.children|] == [|v.root.children|];
  }

  /** Adding a child with a fresh identity and removing it again gives the node back. */
  lemma AddThenRemove(n: Node, id: nat, text: string)
    requires IndexOf(n.children, id) == -1
    ensures RemoveChild(AddChild(n, id, text), id) == n
  {
    var r := AddChild(n, id, text);
    var k := IndexOf(r.children, id);
    assert r.children[|n.children|].id == id;
    assert k == |n.children| by {
      forall j | 0 <= j < |n.children|
        ensures r.children[j].id != id
      {
        assert r.children[j] == n.children[j];
      }
    }
    assert r.children[..k] == n.children;
  }

  /** Removing a child that is absent changes nothing; removing one that is present shortens the children by one. */
  lemma RemoveCount(n: Node, id: nat)
    ensures |RemoveChild(n, id).children| == |n.children| - (if IndexOf(n.children, id) == -1 then 0 else 1)
  {
  }

  /** Toggling is an involution. */
  lemma ToggleTwice(n: Node)
    ensures ToggleExpanded(ToggleExpanded(n)) == n
  {
  }

  /** Toggling the same node twice gives the tree back. */
  lemma {:induction false} ToggleAtTwice(n: Node, path: seq<nat>)
    ensures ToggleAt(ToggleAt(n, path), path) == n
    decreases |path|
  {
    if |path| > 0 && path[0] < |n.children| {
      var c := n.children[path[0]];
      ToggleAtTwice(c, path[1..]);
      var t := ToggleAt(n, path);
      assert t.children[path[0]] == ToggleAt(c, path[1..]);
      assert t.children[path[0] := c] == n.children;
    }
  }

  /** Toggling a node flips it and leaves every other node's expansion as it was. */
  lemma {:induction false} ToggleAtOnly(n: Node, path: seq<nat>, q: seq<nat>)
    requires NodeAt(n, path).Some? && NodeAt(n, q).Some?
    ensures NodeAt(ToggleAt(n, path), q).Some?
    ensures NodeAt(ToggleAt(n, path), q).value.expanded ==
      (if q == path then !NodeAt(n, q).value.expanded else NodeAt(n, q).value.expanded)
    decreases |path|
  {
    if |path| == 0 {
      if |q| > 0 {
        assert ToggleAt(n, path).children == n.children;
      }
    } else if |q| > 0 {
      var t := ToggleAt(n, path);
      if q[0] == path[0] {
        ToggleAtOnly(n.children[path[0]], path[1..], q[1..]);
        assert q == path <==> q[1..] == path[1..] by {
          if q[1..] == path[1..] {
            assert q == [q[0]] + q[1..] && path == [path[0]] + path[1..];
          }
        }
      } else {
        assert t.children[q[0]] == n.children[q[0]];
      }
    }
  }

  /** Adding a child keeps the depths as `addChild` sets them. */
  lemma AddChildDepths(n: Node, id: nat, text: string)
    requires DepthsOk(n)
    ensures DepthsOk(AddChild(n, id, text))
  {
    var r := AddChild(n, id, text);
    forall i | 0 <= i < |r.children|
      ensures r.children[i].depth == r.depth + 1 && DepthsOk(r.children[i])
    {
      if i < |n.children| {
        assert r.children[i] == n.children[i];
      }
    }
  }

  /** A press inside the left margin of a shown row picks that row's entry. */
  lemma PickRow(v: View, absX: int, absY: int, k: int)
    requires Valid(v) && v.itemHeight > 0 && 0 <= v.scroll <= k < |v.visible|
    requires v.width - ScrollBarWidth > 2 && 1 + (k - v.scroll + 1) * v.itemHeight < v.height
    ensures var p := NodeAtPosition(v, absX, absY, absX + 1, absY + 1 + (k - v.scroll) * v.itemHeight);
      p.found && p.index == k
  {
    var d := k - v.scroll;
    var h := v.itemHeight;
    assert d * h >= 0 && h * d == d * h;
    assert h * (d + 1) == d * h + h && (d + 1) * h == d * h + h;
    DivBand(d * h, h, d);
    assert (d * h) / h == d;
    var my := absY + 1 + d * h;
    assert absY + 1 <= my < absY + v.height - 1;
    assert v.scroll + CDiv(my - (absY + 1), h) == k;
  }

  /**
   * Hit-testing inverts the row layout: inside the item area, a point picks
   * entry k exactly when it lies in row k - scroll, for a shown entry at or
   * below the scroll offset.
   */
  lemma PickIsRow(v: View, absX: int, absY: int, mouseX: int, mouseY: int, k: int)
    requires Valid(v) && v.itemHeight > 0 && InItemArea(v, absX, absY, mouseX, mouseY)
    requires 0 <= v.scroll <= k < |v.visible|
    ensures var p := NodeAtPosition(v, absX, absY, mouseX, mouseY);
      p.found && p.index == k <==>
      absY + 1 + (k - v.scroll) * v.itemHeight <= mouseY < absY + 1 + (k - v.scroll + 1) * v.itemHeight
  {
    var p := NodeAtPosition(v, absX, absY, mouseX, mouseY);
    var d, h, a := k - v.scroll, v.itemHeight, mouseY - (absY + 1);
    assert p.found && p.index == k <==> CDiv(a, h) == d;
    assert h * d == d * h && h * (d + 1) == (d + 1) * h;
    DivBand(a, h, d);
  }

  /**
   * The setters move the expand icon: after setting the indent and an icon
   * no taller than a row, a press on the top-left corner of the icon of a
   * shown node with children, at its new indent and centred in its row,
   * is a press on that icon.
   */
  lemma PickIcon(v: View, absX: int, absY: int, k: int, w: int, size: int)
    requires Valid(v) && 0 <= v.scroll <= k < |v.visible| && 0 < size <= v.itemHeight
    requires NodeAt(v.root, v.visible[k].path).Some? && HasChildren(NodeAt(v.root, v.visible[k].path).value)
    requires var x := absX + BaseIndent + NodeAt(v.root, v.visible[k].path).value.depth * w;
      absX + 1 <= x < absX + v.width - ScrollBarWidth - 1
    requires 1 + (k - v.scroll + 1) * v.itemHeight < v.height
    ensures var u := SetExpandIconSize(SetIndentWidth(v, w), size);
      var x := absX + BaseIndent + NodeAt(v.root, v.visible[k].path).value.depth * w;
      var y := absY + 1 + (k - v.scroll) * v.itemHeight + CDiv(v.itemHeight - size, 2);
      Valid(u) && var p := NodeAtPosition(u, absX, absY, x, y);
      p.found && p.index == k && p.onIcon
  {
    var u := SetExpandIconSize(SetIndentWidth(v, w), size);
    var n := NodeAt(v.root, v.visible[k].path).value;
    var x := absX + BaseIndent + n.depth * w;
    var d, h := k - v.scroll, v.itemHeight;
    var c := CDiv(h - size, 2);
    var y := absY + 1 + d * h + c;
    IconInRow(d, h, size);
    assert InItemArea(u, absX, absY, x, y);
    assert RowIndex(u, absY, y) == k;
    assert InIcon(u, absX, absY, k, n.depth, x, y);
  }

  /** The top edge of an icon no taller than a row, centred in row `d`, lies in that row. */
  lemma IconInRow(d: int, h: int, size: int)
    requires d >= 0 && 0 < size <= h
    ensures var c := CDiv(h - size, 2);
      0 <= c < h && d * h >= 0 && CDiv(d * h + c, h) == d
  {
    var c := CDiv(h - size, 2);
    assert 0 <= c < h;
    assert h * d == d * h && h * (d + 1) == d * h + h;
    DivBand(d * h + c, h, d);
  }
}
